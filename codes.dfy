/** Short-code format (CODE_REGEX) and random code generation
    (CODE_CHARS, generateRandomCode). */
module Codes {

  /** Length of generated codes. */
  const CODE_LENGTH: nat := 6

  /** The generator's 62-character alphabet, in the source's order. */
  const CODE_CHARS: string := "ABCDEFGHIJKLMNOPQRSTUVWXYZabcdefghijklmnopqrstuvwxyz0123456789"

  /** A value of Math.floor(Math.random() * CODE_CHARS.length): an index into CODE_CHARS. */
  type CharIndex = i: int | 0 <= i < 62

  // ---------------------------------------------------------------------
  // CODE_REGEX = /^[A-Za-z0-9]{6,8}$/ : one character class, repeated
  // between 6 and 8 times, anchored at both ends.

  /** An inclusive range inside a regular-expression character class. */
  datatype CharRange = CharRange(lo: char, hi: char)

  /** The class [A-Za-z0-9]. */
  const CODE_CLASS: seq<CharRange> := [CharRange('A', 'Z'), CharRange('a', 'z'), CharRange('0', '9')]

  /** The bounds of the quantifier {6,8}. */
  const MIN_REPEAT: nat := 6
  const MAX_REPEAT: nat := 8

  predicate InClass(c: char, cls: seq<CharRange>)
    decreases |cls|
  {
    |cls| > 0 && ((cls[0].lo <= c <= cls[0].hi) || InClass(c, cls[1..]))
  }

  /** Whether the whole of s is matched by the class repeated lo..hi times
      (what ^[cls]{lo,hi}$ asks). */
  predicate MatchesRepeat(s: string, cls: seq<CharRange>, lo: nat, hi: nat)
    decreases |s|
  {
    if s == [] then lo == 0
    else hi > 0 && InClass(s[0], cls) && MatchesRepeat(s[1..], cls, if lo == 0 then 0 else lo - 1, hi - 1)
  }

  /** CODE_REGEX.test(s). */
  predicate IsCode(s: string) {
    MatchesRepeat(s, CODE_CLASS, MIN_REPEAT, MAX_REPEAT)
  }

  /** An ASCII letter or digit. */
  predicate IsAsciiAlnum(c: char) {
    ('A' <= c <= 'Z') || ('a' <= c <= 'z') || ('0' <= c <= '9')
  }

  /** The anchored bounded repetition accepts exactly the strings of lo..hi
      characters that are all in the class. */
  lemma {:induction false} MatchesRepeatIff(s: string, cls: seq<CharRange>, lo: nat, hi: nat)
    ensures MatchesRepeat(s, cls, lo, hi)
        <==> lo <= |s| <= hi && forall i :: 0 <= i < |s| ==> InClass(s[i], cls)
    decreases |s|
  {
    if s != [] {
      var lo' := if lo == 0 then 0 else lo - 1;
      if hi > 0 {
        MatchesRepeatIff(s[1..], cls, lo', hi - 1);
        if lo <= |s| <= hi && forall i :: 0 <= i < |s| ==> InClass(s[i], cls) {
          assert forall i :: 0 <= i < |s[1..]| ==> InClass(s[1..][i], cls) by {
            forall i | 0 <= i < |s[1..]| ensures InClass(s[1..][i], cls) {
              assert s[1..][i] == s[i + 1];
            }
          }
        }
        if MatchesRepeat(s, cls, lo, hi) {
          forall i | 0 <= i < |s| ensures InClass(s[i], cls) {
            if i > 0 { assert s[i] == s[1..][i - 1]; }
          }
        }
      }
    }
  }

  lemma CodeClassIsAlnum(c: char)
    ensures InClass(c, CODE_CLASS) <==> IsAsciiAlnum(c)
  {
    assert CODE_CLASS[1..][1..][1..] == [];
  }

  /** CODE_REGEX accepts a string iff it has 6 to 8 characters, each an ASCII
      letter or digit. */
  lemma IsCodeIff(s: string)
    ensures IsCode(s) <==> 6 <= |s| <= 8 && forall i :: 0 <= i < |s| ==> IsAsciiAlnum(s[i])
  {
    MatchesRepeatIff(s, CODE_CLASS, MIN_REPEAT, MAX_REPEAT);
    forall i | 0 <= i < |s| ensures InClass(s[i], CODE_CLASS) <==> IsAsciiAlnum(s[i]) {
      CodeClassIsAlnum(s[i]);
    }
  }

  // ---------------------------------------------------------------------
  // The alphabet.

  const UPPER: string := "ABCDEFGHIJKLMNOPQRSTUVWXYZ"
  const LOWER: string := "abcdefghijklmnopqrstuvwxyz"
  const DIGITS: string := "0123456789"

  /** The position of an ASCII letter or digit in CODE_CHARS. */
  function AlphabetIndex(c: char): CharIndex
    requires IsAsciiAlnum(c)
  {
    if 'A' <= c <= 'Z' then c as int - 'A' as int
    else if 'a' <= c <= 'z' then 26 + (c as int - 'a' as int)
    else 52 + (c as int - '0' as int)
  }

  lemma AlphabetSpelled()
    ensures CODE_CHARS == UPPER + LOWER + DIGITS
    ensures forall i :: 0 <= i < 26 ==> UPPER[i] == ('A' as int + i) as char
    ensures forall i :: 0 <= i < 26 ==> LOWER[i] == ('a' as int + i) as char
    ensures forall i :: 0 <= i < 10 ==> DIGITS[i] == ('0' as int + i) as char
  {
  }

  /** The character at position i of CODE_CHARS, computed. */
  function AlphabetChar(i: CharIndex): char {
    if i < 26 then ('A' as int + i) as char
    else if i < 52 then ('a' as int + (i - 26)) as char
    else ('0' as int + (i - 52)) as char
  }

  lemma CodeCharAt(i: CharIndex)
    ensures |CODE_CHARS| == 62 && CODE_CHARS[i] == AlphabetChar(i)
  {
    AlphabetSpelled();
    if i < 26 {
      assert CODE_CHARS[i] == UPPER[i];
    } else if i < 52 {
      assert CODE_CHARS[i] == LOWER[i - 26];
    } else {
      assert CODE_CHARS[i] == DIGITS[i - 52];
    }
  }

  /** AlphabetIndex and indexing into CODE_CHARS are inverse to each other:
      CODE_CHARS holds 62 distinct characters, exactly the ASCII letters and
      digits. */
  lemma AlphabetIndexInverse()
    ensures |CODE_CHARS| == 62
    ensures forall i: CharIndex :: IsAsciiAlnum(CODE_CHARS[i]) && AlphabetIndex(CODE_CHARS[i]) == i
    ensures forall c :: IsAsciiAlnum(c) ==> CODE_CHARS[AlphabetIndex(c)] == c
  {
    CodeCharAt(0);
    forall i: CharIndex ensures IsAsciiAlnum(CODE_CHARS[i]) && AlphabetIndex(CODE_CHARS[i]) == i {
      CodeCharAt(i);
    }
    forall c | IsAsciiAlnum(c) ensures CODE_CHARS[AlphabetIndex(c)] == c {
      CodeCharAt(AlphabetIndex(c));
    }
  }

  /** A character occurs in CODE_CHARS iff it is an ASCII letter or digit, and
      no character occurs twice. */
  lemma AlphabetIsAlnum(c: char)
    ensures c in CODE_CHARS <==> IsAsciiAlnum(c)
    ensures forall i: CharIndex, j: CharIndex :: CODE_CHARS[i] == CODE_CHARS[j] ==> i == j
  {
    AlphabetIndexInverse();
    if c in CODE_CHARS {
      var i :| 0 <= i < |CODE_CHARS| && CODE_CHARS[i] == c;
      assert IsAsciiAlnum(CODE_CHARS[i as CharIndex]);
    }
    if IsAsciiAlnum(c) {
      assert CODE_CHARS[AlphabetIndex(c)] == c;
    }
  }

  // ---------------------------------------------------------------------
  // generateRandomCode

  /** The code spelled by a sequence of random draws, one character per draw. */
  function CodeFromDraws(draws: seq<CharIndex>): (code: string)
    ensures |code| == |draws|
  {
    AlphabetIndexInverse();
    if draws == [] then []
    else CodeFromDraws(draws[..|draws| - 1]) + [CODE_CHARS[draws[|draws| - 1]]]
  }

  lemma {:induction false} CodeFromDrawsAt(draws: seq<CharIndex>, k: nat)
    requires k < |draws|
    ensures CodeFromDraws(draws)[k] == CODE_CHARS[draws[k]]
  {
    AlphabetIndexInverse();
    if k < |draws| - 1 {
      CodeFromDrawsAt(draws[..|draws| - 1], k);
    }
  }

  /** generateRandomCode(length), the Math.random calls replaced by the draws
      they would return. */
  method GenerateRandomCode(length: nat, draws: seq<CharIndex>) returns (code: string)
    requires |draws| >= length
    ensures code == CodeFromDraws(draws[..length])
    ensures |code| == length
    ensures forall i :: 0 <= i < length ==> code[i] == CODE_CHARS[draws[i]]
  {
    AlphabetIndexInverse();
    code := "";
    var i := 0;
    while i < length
      invariant 0 <= i <= length
      invariant code == CodeFromDraws(draws[..i])
    {
      var index := draws[i];
      code := code + [CODE_CHARS[index]];
      assert draws[..i + 1][..i] == draws[..i];
      i := i + 1;
    }
    forall k | 0 <= k < length ensures code[k] == CODE_CHARS[draws[k]] {
      CodeFromDrawsAt(draws[..length], k);
    }
  }

  /** A code of 6 to 8 draws (in particular every code of the default length
      CODE_LENGTH) passes CODE_REGEX. */
  lemma GeneratedCodeIsCode(draws: seq<CharIndex>)
    requires 6 <= |draws| <= 8
    ensures IsCode(CodeFromDraws(draws))
  {
    var code := CodeFromDraws(draws);
    AlphabetIndexInverse();
    forall i | 0 <= i < |code| ensures IsAsciiAlnum(code[i]) {
      CodeFromDrawsAt(draws, i);
    }
    IsCodeIff(code);
  }

  /** Different draws spell different codes. */
  lemma GeneratedCodeInjective(a: seq<CharIndex>, b: seq<CharIndex>)
    requires CodeFromDraws(a) == CodeFromDraws(b)
    ensures a == b
  {
    AlphabetIndexInverse();
    assert |a| == |b|;
    forall k | 0 <= k < |a| ensures a[k] == b[k] {
      CodeFromDrawsAt(a, k);
      CodeFromDrawsAt(b, k);
    }
  }

  /** The draws that spell a given code. */
  function DrawsFor(s: string): (draws: seq<CharIndex>)
    requires forall i :: 0 <= i < |s| ==> IsAsciiAlnum(s[i])
    ensures |draws| == |s|
    ensures forall i :: 0 <= i < |s| ==> draws[i] == AlphabetIndex(s[i])
  {
    seq(|s|, i requires 0 <= i < |s| => AlphabetIndex(s[i]))
  }

  /** Every code CODE_REGEX accepts is what generateRandomCode(|s|) returns
      for some sequence of draws. */
  lemma EveryCodeIsGenerable(s: string)
    requires IsCode(s)
    ensures exists d: seq<CharIndex> :: |d| == |s| && CodeFromDraws(d) == s
  {
    IsCodeIff(s);
    AlphabetIndexInverse();
    var d := DrawsFor(s);
    forall k | 0 <= k < |s| ensures CodeFromDraws(d)[k] == s[k] {
      CodeFromDrawsAt(d, k);
    }
    assert CodeFromDraws(d) == s;
  }
}
