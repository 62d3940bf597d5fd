/** The public redirect route GET /:code: the format gate, then one atomic
    click-increment-and-fetch on the link table. */
module Redirect {
  import opened Responses
  import opened Codes
  import opened Store

  /** The table after one GET /:code request at time `now`. */
  function AfterRedirect(rows: Rows, segment: string, now: Timestamp): Rows {
    if IsCode(segment) && segment in rows then rows[segment := Clicked(rows[segment], now)] else rows
  }

  /** GET /:code. Ok(url) stands for the 302 redirect to url; `now` is the
      database's NOW() for the UPDATE. */
  method Redirect(table: LinkTable, segment: string, now: Timestamp) returns (r: Result<string>)
    modifies table
    ensures !IsCode(segment) ==> r == Err(NotFound) && table.rows == old(table.rows)
    ensures IsCode(segment) && segment !in old(table.rows) ==> r == Err(NotFound) && table.rows == old(table.rows)
    ensures IsCode(segment) && segment in old(table.rows) ==>
      && r == Ok(old(table.rows)[segment].targetUrl)
      && table.rows == old(table.rows)[segment := Clicked(old(table.rows)[segment], now)]
    ensures table.rows == AfterRedirect(old(table.rows), segment, now)
  {
    if !IsCode(segment) {
      r := Err(NotFound);
      return;
    }
    var targetUrl := table.RecordClickAndFetch(segment, now);
    match targetUrl
    case None =>
      r := Err(NotFound);
    case Some(url) =>
      r := Ok(url);
  }

  /** One redirect changes the row of its segment and no other: the set of
      codes stays, every other row stays, the visited row gains exactly one
      click with both timestamps set to now and its URL unchanged. */
  lemma RedirectTouchesOneRow(rows: Rows, segment: string, now: Timestamp)
    ensures AfterRedirect(rows, segment, now).Keys == rows.Keys
    ensures forall code :: code in rows && code != segment ==> AfterRedirect(rows, segment, now)[code] == rows[code]
    ensures IsCode(segment) && segment in rows ==>
      var row := AfterRedirect(rows, segment, now)[segment];
      && row.totalClicks == rows[segment].totalClicks + 1
      && row.lastClickedAt == Some(now) && row.updatedAt == now
      && row.targetUrl == rows[segment].targetUrl && row.createdAt == rows[segment].createdAt
    ensures !(IsCode(segment) && segment in rows) ==> AfterRedirect(rows, segment, now) == rows
  {
  }

  /** Redirects to two different codes commute: neither overwrites the
      other's update. */
  lemma RedirectsCommute(rows: Rows, a: string, ta: Timestamp, b: string, tb: Timestamp)
    requires a != b
    ensures AfterRedirect(AfterRedirect(rows, a, ta), b, tb) == AfterRedirect(AfterRedirect(rows, b, tb), a, ta)
  {
  }

  /** One request in a run of redirects. */
  datatype Visit = Visit(segment: string, now: Timestamp)

  /** The table after a run of redirects, applied one after another in the
      given order (any interleaving of concurrent requests is such a run,
      since each UPDATE is atomic). */
  function AfterVisits(rows: Rows, visits: seq<Visit>): Rows
    decreases |visits|
  {
    if visits == [] then rows
    else
      var last := visits[|visits| - 1];
      AfterRedirect(AfterVisits(rows, visits[..|visits| - 1]), last.segment, last.now)
  }

  /** The number of visits to one segment. */
  function VisitsTo(visits: seq<Visit>, code: string): nat
    decreases |visits|
  {
    if visits == [] then 0
    else VisitsTo(visits[..|visits| - 1], code) + (if visits[|visits| - 1].segment == code then 1 else 0)
  }

  /** No click is lost: after any run of redirects, every well-formed code's
      counter has grown by exactly the number of visits to it, its URL and
      creation time are unchanged, and no row appeared or vanished. */
  lemma {:induction false} EveryClickCounted(rows: Rows, visits: seq<Visit>, code: string)
    requires code in rows && IsCode(code)
    ensures AfterVisits(rows, visits).Keys == rows.Keys
    ensures AfterVisits(rows, visits)[code].totalClicks == rows[code].totalClicks + VisitsTo(visits, code)
    ensures AfterVisits(rows, visits)[code].targetUrl == rows[code].targetUrl
    ensures AfterVisits(rows, visits)[code].createdAt == rows[code].createdAt
    ensures VisitsTo(visits, code) == 0 ==> AfterVisits(rows, visits)[code] == rows[code]
    decreases |visits|
  {
    if visits != [] {
      var last := visits[|visits| - 1];
      var mid := AfterVisits(rows, visits[..|visits| - 1]);
      EveryClickCounted(rows, visits[..|visits| - 1], code);
      RedirectTouchesOneRow(mid, last.segment, last.now);
    }
  }

  /** The same for every row of a table whose keys are well formed, as the
      handlers keep them: each counter rose by exactly its visits. */
  lemma {:induction false} EveryClickCountedInTable(rows: Rows, visits: seq<Visit>)
    requires CodesWellFormed(rows)
    ensures forall code :: code in rows ==>
      code in AfterVisits(rows, visits) &&
      AfterVisits(rows, visits)[code].totalClicks == rows[code].totalClicks + VisitsTo(visits, code)
  {
    forall code | code in rows
      ensures code in AfterVisits(rows, visits)
      ensures AfterVisits(rows, visits)[code].totalClicks == rows[code].totalClicks + VisitsTo(visits, code)
    {
      EveryClickCounted(rows, visits, code);
    }
  }

  /** Click counters never decrease, whatever the requests. */
  lemma {:induction false} CountersNeverDecrease(rows: Rows, visits: seq<Visit>, code: string)
    requires code in rows
    ensures code in AfterVisits(rows, visits)
    ensures AfterVisits(rows, visits)[code].totalClicks >= rows[code].totalClicks
    decreases |visits|
  {
    if visits != [] {
      var last := visits[|visits| - 1];
      CountersNeverDecrease(rows, visits[..|visits| - 1], code);
      RedirectTouchesOneRow(AfterVisits(rows, visits[..|visits| - 1]), last.segment, last.now);
    }
  }

  /** The redirects to one code at the given times. */
  function RepeatVisits(code: string, times: seq<Timestamp>): (visits: seq<Visit>)
    ensures |visits| == |times|
    ensures forall i :: 0 <= i < |times| ==> visits[i] == Visit(code, times[i])
  {
    seq(|times|, i requires 0 <= i < |times| => Visit(code, times[i]))
  }

  /** N redirects of a present code raise its counter by exactly N and leave
      both timestamps at the time of the last one. */
  lemma {:induction false} RepeatedRedirects(rows: Rows, code: string, times: seq<Timestamp>)
    requires code in rows && IsCode(code)
    ensures code in AfterVisits(rows, RepeatVisits(code, times))
    ensures AfterVisits(rows, RepeatVisits(code, times))[code].totalClicks == rows[code].totalClicks + |times|
    ensures |times| > 0 ==>
      && AfterVisits(rows, RepeatVisits(code, times))[code].lastClickedAt == Some(times[|times| - 1])
      && AfterVisits(rows, RepeatVisits(code, times))[code].updatedAt == times[|times| - 1]
    decreases |times|
  {
    if times != [] {
      var prefix := times[..|times| - 1];
      assert RepeatVisits(code, times)[..|times| - 1] == RepeatVisits(code, prefix);
      RepeatedRedirects(rows, code, prefix);
      RedirectTouchesOneRow(AfterVisits(rows, RepeatVisits(code, prefix)), code, times[|times| - 1]);
    }
  }

  /** Redirects keep every key of the table well formed. */
  lemma RedirectKeepsCodesWellFormed(rows: Rows, segment: string, now: Timestamp)
    requires CodesWellFormed(rows)
    ensures CodesWellFormed(AfterRedirect(rows, segment, now))
  {
  }
}
