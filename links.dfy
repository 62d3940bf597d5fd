/** The link-management API: POST, GET list, GET by code and DELETE on
    /api/links, as operations on the link table. */
module Links {
  import opened Responses
  import opened Codes
  import opened Validation
  import opened Store

  const CODE_IN_USE: string := "customCode already in use"
  const GENERATION_FAILED: string := "Failed to generate unique code"
  const INVALID_CODE_FORMAT: string := "Invalid code format"
  /** Surfaced when the primary key refuses an INSERT; the driver's exact
      wording is not part of this model. */
  const DUPLICATE_KEY: string := "duplicate key value violates unique constraint"

  /** The bound on generated candidates (maxAttempts). */
  const MAX_ATTEMPTS: nat := 5

  /** The API's Link object. */
  datatype Link = Link(
    code: string,
    targetUrl: string,
    shortUrl: string,
    totalClicks: nat,
    lastClickedAt: Option<Timestamp>,
    createdAt: Timestamp,
    updatedAt: Timestamp)

  /** The row a Link was built from. */
  function LinkRow(link: Link): Row {
    Row(link.targetUrl, link.totalClicks, link.lastClickedAt, link.createdAt, link.updatedAt)
  }

  /** mapRowToLink, with the row's code passed beside it. */
  function MapRowToLink(code: string, row: Row, baseUrl: string): (link: Link)
    ensures link.code == code && LinkRow(link) == row
    ensures link.shortUrl == baseUrl + "/" + code
  {
    Link(code, row.targetUrl, baseUrl + "/" + code, row.totalClicks, row.lastClickedAt, row.createdAt, row.updatedAt)
  }

  /** The short URL determines the code: two links under one base URL with
      the same shortUrl have the same code. */
  lemma ShortUrlDeterminesCode(c1: string, r1: Row, c2: string, r2: Row, baseUrl: string)
    requires MapRowToLink(c1, r1, baseUrl).shortUrl == MapRowToLink(c2, r2, baseUrl).shortUrl
    ensures c1 == c2
  {
    var prefix := baseUrl + "/";
    assert (prefix + c1)[|prefix|..] == c1;
    assert (prefix + c2)[|prefix|..] == c2;
  }

  // ---------------------------------------------------------------------
  // Generated codes

  /** The Math.random oracle holds enough draws for every candidate the
      POST handler may generate. */
  predicate EnoughDraws(draws: seq<CharIndex>) {
    |draws| >= MAX_ATTEMPTS * CODE_LENGTH
  }

  /** The k-th candidate code: generateRandomCode(CODE_LENGTH) on the k-th
      block of draws. */
  function Candidate(draws: seq<CharIndex>, k: nat): string
    requires EnoughDraws(draws) && k < MAX_ATTEMPTS
  {
    CodeFromDraws(draws[k * CODE_LENGTH..(k + 1) * CODE_LENGTH])
  }

  /** The outcome of the generation loop once the candidates before the
      k-th have all collided. */
  function FirstFreeCandidate(rows: Rows, draws: seq<CharIndex>, k: nat): Result<string>
    requires EnoughDraws(draws) && k <= MAX_ATTEMPTS
    decreases MAX_ATTEMPTS - k
  {
    if k == MAX_ATTEMPTS then Err(ServerError(GENERATION_FAILED))
    else if Candidate(draws, k) !in rows then Ok(Candidate(draws, k))
    else FirstFreeCandidate(rows, draws, k + 1)
  }

  /** A successful search returns the first candidate at or after k that is
      not in the table. */
  lemma {:induction false} FirstFreeCandidateFrom(rows: Rows, draws: seq<CharIndex>, k: nat)
    requires EnoughDraws(draws) && k <= MAX_ATTEMPTS
    ensures FirstFreeCandidate(rows, draws, k).Ok? ==>
      exists i :: k <= i < MAX_ATTEMPTS && FirstFreeCandidate(rows, draws, k).value == Candidate(draws, i)
        && Candidate(draws, i) !in rows && forall j :: k <= j < i ==> Candidate(draws, j) in rows
    ensures FirstFreeCandidate(rows, draws, k).Err? <==> forall j :: k <= j < MAX_ATTEMPTS ==> Candidate(draws, j) in rows
    ensures FirstFreeCandidate(rows, draws, k).Err? ==> FirstFreeCandidate(rows, draws, k).error == ServerError(GENERATION_FAILED)
    decreases MAX_ATTEMPTS - k
  {
    if k == MAX_ATTEMPTS {
    } else if Candidate(draws, k) !in rows {
      assert FirstFreeCandidate(rows, draws, k) == Ok(Candidate(draws, k));
      assert !(Candidate(draws, k) in rows);
    } else {
      var c := Candidate(draws, k);
      assert FirstFreeCandidate(rows, draws, k) == FirstFreeCandidate(rows, draws, k + 1);
      FirstFreeCandidateFrom(rows, draws, k + 1);
      if FirstFreeCandidate(rows, draws, k).Ok? {
        var i :| k + 1 <= i < MAX_ATTEMPTS && FirstFreeCandidate(rows, draws, k).value == Candidate(draws, i)
          && Candidate(draws, i) !in rows && forall j :: k + 1 <= j < i ==> Candidate(draws, j) in rows;
        assert forall j :: k <= j < i ==> Candidate(draws, j) in rows;
      }
    }
  }

  /** Without a custom code, the handler takes the first of the five
      candidates that is free, and fails with 500 exactly when all five
      collide. */
  lemma FirstFreeCandidateSpec(rows: Rows, draws: seq<CharIndex>)
    requires EnoughDraws(draws)
    ensures FirstFreeCandidate(rows, draws, 0).Ok? ==>
      exists i :: 0 <= i < MAX_ATTEMPTS && FirstFreeCandidate(rows, draws, 0).value == Candidate(draws, i)
        && Candidate(draws, i) !in rows && forall j :: 0 <= j < i ==> Candidate(draws, j) in rows
    ensures FirstFreeCandidate(rows, draws, 0).Err? <==> forall j :: 0 <= j < MAX_ATTEMPTS ==> Candidate(draws, j) in rows
    ensures FirstFreeCandidate(rows, draws, 0).Err? ==> FirstFreeCandidate(rows, draws, 0) == Err(ServerError(GENERATION_FAILED))
  {
    FirstFreeCandidateFrom(rows, draws, 0);
  }

  /** The loop reads no more than MAX_ATTEMPTS * CODE_LENGTH draws: at most
      five candidates are examined. */
  lemma {:induction false} FirstFreeCandidateUsesFiveCandidates(rows: Rows, draws: seq<CharIndex>, k: nat)
    requires EnoughDraws(draws) && k <= MAX_ATTEMPTS
    ensures EnoughDraws(draws[..MAX_ATTEMPTS * CODE_LENGTH])
    ensures FirstFreeCandidate(rows, draws, k) == FirstFreeCandidate(rows, draws[..MAX_ATTEMPTS * CODE_LENGTH], k)
    decreases MAX_ATTEMPTS - k
  {
    var prefix := draws[..MAX_ATTEMPTS * CODE_LENGTH];
    if k < MAX_ATTEMPTS {
      var lo, hi := k * CODE_LENGTH, (k + 1) * CODE_LENGTH;
      assert hi <= MAX_ATTEMPTS * CODE_LENGTH;
      assert draws[lo..hi] == prefix[lo..hi] by {
        forall t | 0 <= t < hi - lo ensures draws[lo..hi][t] == prefix[lo..hi][t] {
          assert draws[lo..hi][t] == draws[lo + t];
          assert prefix[lo..hi][t] == prefix[lo + t] == draws[lo + t];
        }
      }
      FirstFreeCandidateUsesFiveCandidates(rows, draws, k + 1);
    }
  }

  /** A generated code is fresh, six characters long and passes CODE_REGEX. */
  lemma GeneratedCodeFresh(rows: Rows, draws: seq<CharIndex>)
    requires EnoughDraws(draws)
    requires FirstFreeCandidate(rows, draws, 0).Ok?
    ensures FirstFreeCandidate(rows, draws, 0).value !in rows
    ensures |FirstFreeCandidate(rows, draws, 0).value| == CODE_LENGTH
    ensures IsCode(FirstFreeCandidate(rows, draws, 0).value)
  {
    FirstFreeCandidateSpec(rows, draws);
    var i :| 0 <= i < MAX_ATTEMPTS && FirstFreeCandidate(rows, draws, 0).value == Candidate(draws, i);
    GeneratedCodeIsCode(draws[i * CODE_LENGTH..(i + 1) * CODE_LENGTH]);
  }

  /** The `while (!finalCode)` loop of the POST handler: generate a candidate,
      probe the table, and give up after MAX_ATTEMPTS collisions. */
  method GenerateUniqueCode(table: LinkTable, draws: seq<CharIndex>) returns (r: Result<string>)
    requires EnoughDraws(draws)
    ensures r == FirstFreeCandidate(table.rows, draws, 0)
  {
    var finalCode: Option<string> := None;
    var attempts: nat := 0;
    while finalCode.None?
      invariant attempts < MAX_ATTEMPTS
      invariant finalCode.None? ==> FirstFreeCandidate(table.rows, draws, attempts) == FirstFreeCandidate(table.rows, draws, 0)
      invariant finalCode.Some? ==> FirstFreeCandidate(table.rows, draws, 0) == Ok(finalCode.value)
      decreases MAX_ATTEMPTS - attempts, if finalCode.None? then 1 else 0
    {
      var candidate := GenerateRandomCode(CODE_LENGTH, draws[attempts * CODE_LENGTH..]);
      assert draws[attempts * CODE_LENGTH..][..CODE_LENGTH] == draws[attempts * CODE_LENGTH..(attempts + 1) * CODE_LENGTH];
      assert candidate == Candidate(draws, attempts);
      if !table.Contains(candidate) {
        finalCode := Some(candidate);
      } else {
        attempts := attempts + 1;
        if attempts >= MAX_ATTEMPTS {
          r := Err(ServerError(GENERATION_FAILED));
          return;
        }
      }
    }
    r := Ok(finalCode.value);
  }

  // ---------------------------------------------------------------------
  // POST /api/links

  /** The code a POST request is stored under, or the error it fails with,
      given the table before the request. */
  function PlanCreate(rows: Rows, targetUrl: Option<string>, customCode: Option<string>,
                      parse: ProtocolParser, draws: seq<CharIndex>): Result<string>
    requires EnoughDraws(draws)
  {
    match ValidateTargetUrl(targetUrl, parse)
    case Err(e) => Err(e)
    case Ok(_) =>
      match ValidateCustomCode(customCode)
      case Err(e) => Err(e)
      case Ok(Some(code)) => if code in rows then Err(Conflict(CODE_IN_USE)) else Ok(code)
      case Ok(None) => FirstFreeCandidate(rows, draws, 0)
  }

  /** Whatever code a request is stored under is not yet in the table and
      passes CODE_REGEX. */
  lemma PlanCreateFresh(rows: Rows, targetUrl: Option<string>, customCode: Option<string>,
                        parse: ProtocolParser, draws: seq<CharIndex>)
    requires EnoughDraws(draws)
    requires PlanCreate(rows, targetUrl, customCode, parse, draws).Ok?
    ensures PlanCreate(rows, targetUrl, customCode, parse, draws).value !in rows
    ensures IsCode(PlanCreate(rows, targetUrl, customCode, parse, draws).value)
  {
    if IsFalsy(customCode) {
      GeneratedCodeFresh(rows, draws);
    }
  }

  /** A request whose URL is refused fails with that 400, whatever its
      custom code. */
  lemma PlanCreateBadUrl(rows: Rows, targetUrl: Option<string>, customCode: Option<string>,
                         parse: ProtocolParser, draws: seq<CharIndex>)
    requires EnoughDraws(draws)
    requires ValidateTargetUrl(targetUrl, parse).Err?
    ensures PlanCreate(rows, targetUrl, customCode, parse, draws) == Err(ValidateTargetUrl(targetUrl, parse).error)
    ensures PlanCreate(rows, targetUrl, customCode, parse, draws).error.Status() == 400
  {
  }

  /** A well-formed custom code that is already taken fails with 409; one
      that is free is used exactly as given. */
  lemma PlanCreateCustomCode(rows: Rows, targetUrl: Option<string>, code: string,
                             parse: ProtocolParser, draws: seq<CharIndex>)
    requires EnoughDraws(draws)
    requires ValidateTargetUrl(targetUrl, parse).Ok? && IsCode(code)
    ensures code in rows ==> PlanCreate(rows, targetUrl, Some(code), parse, draws) == Err(Conflict(CODE_IN_USE))
    ensures code !in rows ==> PlanCreate(rows, targetUrl, Some(code), parse, draws) == Ok(code)
  {
    MatchesRepeatIff(code, CODE_CLASS, MIN_REPEAT, MAX_REPEAT);
  }

  /** Without a custom code the request is stored under the first free
      candidate, and fails with 500 when the five candidates collide. */
  lemma PlanCreateGenerated(rows: Rows, targetUrl: Option<string>, customCode: Option<string>,
                            parse: ProtocolParser, draws: seq<CharIndex>)
    requires EnoughDraws(draws)
    requires ValidateTargetUrl(targetUrl, parse).Ok? && IsFalsy(customCode)
    ensures PlanCreate(rows, targetUrl, customCode, parse, draws) == FirstFreeCandidate(rows, draws, 0)
    ensures (forall j :: 0 <= j < MAX_ATTEMPTS ==> Candidate(draws, j) in rows)
            ==> PlanCreate(rows, targetUrl, customCode, parse, draws) == Err(ServerError(GENERATION_FAILED))
  {
    FirstFreeCandidateSpec(rows, draws);
  }

  /** POST /api/links. `draws` stands for the Math.random calls, `defaults`
      for the column defaults the INSERT fills in, `baseUrl` for getBaseUrl. */
  method Create(table: LinkTable, targetUrl: Option<string>, customCode: Option<string>,
                parse: ProtocolParser, draws: seq<CharIndex>, defaults: ColumnDefaults,
                baseUrl: string) returns (r: Result<Link>)
    requires EnoughDraws(draws)
    modifies table
    ensures var plan := PlanCreate(old(table.rows), targetUrl, customCode, parse, draws);
      plan.Err? ==> r == Err(plan.error) && table.rows == old(table.rows)
    ensures var plan := PlanCreate(old(table.rows), targetUrl, customCode, parse, draws);
      plan.Ok? ==>
        && plan.value !in old(table.rows)
        && table.rows == old(table.rows)[plan.value := NewRow(targetUrl.value, defaults)]
        && r == Ok(MapRowToLink(plan.value, NewRow(targetUrl.value, defaults), baseUrl))
    ensures CodesWellFormed(old(table.rows)) ==> CodesWellFormed(table.rows)
  {
    ghost var before := table.rows;
    var validTargetUrl := ValidateTargetUrl(targetUrl, parse);
    if validTargetUrl.Err? {
      r := Err(validTargetUrl.error);
      return;
    }
    var validCustomCode := ValidateCustomCode(customCode);
    if validCustomCode.Err? {
      r := Err(validCustomCode.error);
      return;
    }
    var finalCode: string;
    if validCustomCode.value.Some? {
      finalCode := validCustomCode.value.value;
      if table.Contains(finalCode) {
        r := Err(Conflict(CODE_IN_USE));
        return;
      }
    } else {
      var generated := GenerateUniqueCode(table, draws);
      if generated.Err? {
        r := Err(generated.error);
        return;
      }
      finalCode := generated.value;
    }
    PlanCreateFresh(before, targetUrl, customCode, parse, draws);
    var inserted := table.Insert(finalCode, validTargetUrl.value, defaults);
    match inserted
    case None =>
      r := Err(ServerError(DUPLICATE_KEY));
    case Some(row) =>
      r := Ok(MapRowToLink(finalCode, row, baseUrl));
  }

  // ---------------------------------------------------------------------
  // GET /api/links/:code

  /** GET /api/links/:code on the table's current rows. */
  function Get(rows: Rows, code: string, baseUrl: string): (r: Result<Link>)
    ensures !IsCode(code) ==> r == Err(BadRequest(INVALID_CODE_FORMAT))
    ensures IsCode(code) && code !in rows ==> r == Err(NotFound)
    ensures r.Ok? <==> IsCode(code) && code in rows
    ensures r.Ok? ==> r.value == MapRowToLink(code, rows[code], baseUrl)
  {
    if !IsCode(code) then Err(BadRequest(INVALID_CODE_FORMAT))
    else if code !in rows then Err(NotFound)
    else Ok(MapRowToLink(code, rows[code], baseUrl))
  }

  /** A created link can be read back: same code, the requested URL, and the
      column defaults. */
  lemma GetAfterCreate(rows: Rows, targetUrl: Option<string>, customCode: Option<string>,
                       parse: ProtocolParser, draws: seq<CharIndex>, defaults: ColumnDefaults, baseUrl: string)
    requires EnoughDraws(draws)
    requires PlanCreate(rows, targetUrl, customCode, parse, draws).Ok?
    ensures var code := PlanCreate(rows, targetUrl, customCode, parse, draws).value;
      var link := Get(rows[code := NewRow(targetUrl.value, defaults)], code, baseUrl);
      && link.Ok?
      && link.value.targetUrl == targetUrl.value
      && link.value.totalClicks == defaults.totalClicks
      && link.value.lastClickedAt == defaults.lastClickedAt
  {
    PlanCreateFresh(rows, targetUrl, customCode, parse, draws);
  }

  // ---------------------------------------------------------------------
  // DELETE /api/links/:code

  /** DELETE /api/links/:code; Ok(()) stands for the 204 response. */
  method Delete(table: LinkTable, code: string) returns (r: Result<()>)
    modifies table
    ensures !IsCode(code) ==> r == Err(BadRequest(INVALID_CODE_FORMAT)) && table.rows == old(table.rows)
    ensures IsCode(code) && code !in old(table.rows) ==> r == Err(NotFound) && table.rows == old(table.rows)
    ensures IsCode(code) && code in old(table.rows) ==> r == Ok(()) && table.rows == old(table.rows) - {code}
    ensures CodesWellFormed(old(table.rows)) ==> CodesWellFormed(table.rows)
  {
    if !IsCode(code) {
      r := Err(BadRequest(INVALID_CODE_FORMAT));
      return;
    }
    var rowCount := table.DeleteByCode(code);
    if rowCount == 0 {
      r := Err(NotFound);
    } else {
      r := Ok(());
    }
  }

  /** After a delete of a well-formed code, reading that code gives 404 and
      reading any other code gives what it gave before. */
  lemma GetAfterDelete(rows: Rows, code: string, other: string, baseUrl: string)
    requires IsCode(code)
    ensures Get(rows - {code}, code, baseUrl) == Err(NotFound)
    ensures other != code ==> Get(rows - {code}, other, baseUrl) == Get(rows, other, baseUrl)
  {
  }

  // ---------------------------------------------------------------------
  // GET /api/links

  /** The list is newest first. */
  ghost predicate NewestFirst(links: seq<Link>) {
    forall i, j :: 0 <= i < j < |links| ==> links[i].createdAt >= links[j].createdAt
  }

  /** Each entry is the mapped row of its code, and no code occurs twice. */
  ghost predicate MappedOnce(rows: Rows, baseUrl: string, links: seq<Link>) {
    && (forall i :: 0 <= i < |links| ==> links[i].code in rows && links[i] == MapRowToLink(links[i].code, rows[links[i].code], baseUrl))
    && (forall i, j :: 0 <= i < j < |links| ==> links[i].code != links[j].code)
  }

  /** Some entry of the list carries the code. */
  ghost predicate Listed(links: seq<Link>, code: string) {
    exists i :: 0 <= i < |links| && links[i].code == code
  }

  /** The loop's state: the rows listed so far, newest first, and the rows
      still to list, none newer than any listed one. */
  ghost predicate ListedSoFar(rows: Rows, baseUrl: string, links: seq<Link>, remaining: set<string>) {
    && remaining <= rows.Keys
    && |links| + |remaining| == |rows|
    && MappedOnce(rows, baseUrl, links)
    && NewestFirst(links)
    && (forall i :: 0 <= i < |links| ==> links[i].code !in remaining)
    && (forall code :: code in rows && code !in remaining ==> Listed(links, code))
    && (forall i, code :: 0 <= i < |links| && code in remaining ==> links[i].createdAt >= rows[code].createdAt)
  }

  lemma {:induction false} NewestExists(rows: Rows, keys: set<string>)
    requires keys != {} && keys <= rows.Keys
    ensures exists k :: k in keys && forall k' :: k' in keys ==> rows[k'].createdAt <= rows[k].createdAt
    decreases |keys|
  {
    var k :| k in keys;
    if keys != {k} {
      var rest := keys - {k};
      NewestExists(rows, rest);
      var m :| m in rest && forall k' :: k' in rest ==> rows[k'].createdAt <= rows[m].createdAt;
      if rows[k].createdAt <= rows[m].createdAt {
        assert forall k' :: k' in keys ==> rows[k'].createdAt <= rows[m].createdAt;
      } else {
        assert forall k' :: k' in keys ==> rows[k'].createdAt <= rows[k].createdAt;
      }
    }
  }

  lemma AppendMappedOnce(rows: Rows, baseUrl: string, links: seq<Link>, code: string)
    requires MappedOnce(rows, baseUrl, links)
    requires code in rows && forall i :: 0 <= i < |links| ==> links[i].code != code
    ensures MappedOnce(rows, baseUrl, links + [MapRowToLink(code, rows[code], baseUrl)])
  {
    var links' := links + [MapRowToLink(code, rows[code], baseUrl)];
    forall i | 0 <= i < |links'|
      ensures links'[i].code in rows && links'[i] == MapRowToLink(links'[i].code, rows[links'[i].code], baseUrl)
    {
      if i < |links| { assert links'[i] == links[i]; }
    }
    forall i, j | 0 <= i < j < |links'| ensures links'[i].code != links'[j].code {
      assert links'[i] == links[i];
      if j < |links| { assert links'[j] == links[j]; }
    }
  }

  lemma AppendNewestFirst(links: seq<Link>, link: Link)
    requires NewestFirst(links)
    requires forall i :: 0 <= i < |links| ==> links[i].createdAt >= link.createdAt
    ensures NewestFirst(links + [link])
  {
    var links' := links + [link];
    forall i, j | 0 <= i < j < |links'| ensures links'[i].createdAt >= links'[j].createdAt {
      assert links'[i] == links[i];
      if j < |links| { assert links'[j] == links[j]; }
    }
  }

  lemma AppendListed(links: seq<Link>, link: Link, code: string)
    requires Listed(links, code) || link.code == code
    ensures Listed(links + [link], code)
  {
    var links' := links + [link];
    if link.code == code {
      assert links'[|links|].code == code;
    } else {
      var i :| 0 <= i < |links| && links[i].code == code;
      assert links'[i].code == code;
    }
  }

  /** Appending the newest remaining row keeps the loop's state. */
  lemma ListStep(rows: Rows, baseUrl: string, links: seq<Link>, remaining: set<string>, code: string)
    requires ListedSoFar(rows, baseUrl, links, remaining)
    requires code in remaining && forall k' :: k' in remaining ==> rows[k'].createdAt <= rows[code].createdAt
    ensures ListedSoFar(rows, baseUrl, links + [MapRowToLink(code, rows[code], baseUrl)], remaining - {code})
  {
    var link := MapRowToLink(code, rows[code], baseUrl);
    var links' := links + [link];
    var remaining' := remaining - {code};
    AppendMappedOnce(rows, baseUrl, links, code);
    AppendNewestFirst(links, link);
    forall c | c in rows && c !in remaining' ensures Listed(links', c) {
      AppendListed(links, link, c);
    }
    forall i | 0 <= i < |links'| ensures links'[i].code !in remaining' {
      if i < |links| { assert links'[i] == links[i]; }
    }
    forall i, c | 0 <= i < |links'| && c in remaining' ensures links'[i].createdAt >= rows[c].createdAt {
      if i < |links| { assert links'[i] == links[i]; }
    }
  }

  /** GET /api/links: every row once, mapped with mapRowToLink, in the order
      of ORDER BY created_at DESC (rows with equal created_at in some order). */
  method List(rows: Rows, baseUrl: string) returns (links: seq<Link>)
    ensures |links| == |rows|
    ensures forall i :: 0 <= i < |links| ==> links[i].code in rows && links[i] == MapRowToLink(links[i].code, rows[links[i].code], baseUrl)
    ensures forall i, j :: 0 <= i < j < |links| ==> links[i].code != links[j].code
    ensures forall code :: code in rows ==> exists i :: 0 <= i < |links| && links[i].code == code
    ensures forall i, j :: 0 <= i < j < |links| ==> links[i].createdAt >= links[j].createdAt
  {
    links := [];
    var remaining := rows.Keys;
    while remaining != {}
      invariant ListedSoFar(rows, baseUrl, links, remaining)
      decreases |remaining|
    {
      NewestExists(rows, remaining);
      var code :| code in remaining && forall k' :: k' in remaining ==> rows[k'].createdAt <= rows[code].createdAt;
      ListStep(rows, baseUrl, links, remaining, code);
      links := links + [MapRowToLink(code, rows[code], baseUrl)];
      remaining := remaining - {code};
    }
    assert forall code :: code in rows ==> Listed(links, code);
  }
}
