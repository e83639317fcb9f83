/** The no-match backoff: when a pending request is searched again, and what a search records. */
module SearchBackoff {
  import opened Basics
  import opened Requests
  import RetryRuns

  const FULL_RATE_PASSES := 3
  const SLACK: int := HOUR

  /** How a search ended: `Chosen` is the program's "queued", `Undecided` its "skipped" and "error". */
  datatype Outcome = NoMatch | Chosen | InLibrary | Undecided

  function Min(a: int, b: int): int {
    if a < b then a else b
  }

  function Passes(b: Option<Backoff>): int {
    if b.Some? then b.value.passes else 0
  }

  /** False only while a repeatedly unmatched request is inside its wait. */
  predicate SearchIsDue(b: Option<Backoff>, now: int, maxDays: int) {
    if maxDays <= 0 then true
    else if Passes(b) < FULL_RATE_PASSES then true
    else if b.None? || b.value.lastSearched.None? then true
    else
      now - b.value.lastSearched.value >= Min(maxDays, Passes(b) - FULL_RATE_PASSES + 1) * DAY - SLACK
  }

  function Recorded(b: Option<Backoff>, outcome: Outcome, status: Status, now: int): Option<Backoff> {
    if outcome == NoMatch && status == Pending then
      Some(Backoff(Passes(b) + 1, Some(WholeSecond(now))))
    else if outcome in {Chosen, InLibrary} then None
    else b
  }

  function RecordedRow(r: Request, outcome: Outcome, now: int): Request {
    r.(book := r.book.(backoff := Recorded(r.book.backoff, outcome, r.status, now)))
  }

  /** Best effort: a request that is gone, or a write that fails, changes nothing. */
  method RecordSearchOutcome(table: RequestTable, id: int, outcome: Outcome, now: int, writeFails: bool)
    requires UniqueIds(table.rows)
    modifies table
    ensures var r := RowOf(old(table.rows), id);
            table.rows == if r.Some? && !writeFails then WithRow(old(table.rows), RecordedRow(r.value, outcome, now))
                          else old(table.rows)
  {
    var current := RowOf(table.rows, id);
    if current.None? || writeFails {
      return;
    }
    var r := current.value;
    var state: Option<Backoff>;
    if outcome == NoMatch && r.status == Pending {
      state := Some(Backoff(Passes(r.book.backoff) + 1, Some(WholeSecond(now))));
    } else if outcome in {Chosen, InLibrary} && r.book.backoff.Some? {
      state := None;
    } else {
      assert RecordedRow(r, outcome, now) == r;
      var i :| 0 <= i < |table.rows| && table.rows[i] == r;
      WithRowAt(table.rows, i, r);
      return;
    }
    table.Update(r.(book := r.book.(backoff := state)));
  }

  /** What a search leaves of its request: nothing but the backoff record changes. */
  lemma RecordingWrites(r: Request, outcome: Outcome, now: int)
    ensures var left := RecordedRow(r, outcome, now);
            && left == r.(book := r.book.(backoff := left.book.backoff))
            && (outcome == Chosen || outcome == InLibrary ==> left.book.backoff == None)
            && (outcome == Undecided || (outcome == NoMatch && r.status != Pending) ==> left == r)
            && (outcome == NoMatch && r.status == Pending ==>
                  && left.book.backoff.Some?
                  && left.book.backoff.value.lastSearched == Some(now - now % 1_000_000)
                  && left.book.backoff.value.passes
                     == (if r.book.backoff.Some? then r.book.backoff.value.passes else 0) + 1)
  {
  }

  /** Recording a search is work the retry passes do not notice: no list of failed releases changes. */
  lemma RecordingKeepsFailedReleases(rows: seq<Request>, id: int, outcome: Outcome, now: int)
    requires UniqueIds(rows) && RowOf(rows, id).Some?
    ensures RetryRuns.OtherWork(rows, WithRow(rows, RecordedRow(RowOf(rows, id).value, outcome, now)))
  {
  }

  // ----- Runs of searches for one request -----

  /** One search: begun when due under the limit of that pass (0 for a forced sync), then recorded. */
  datatype Search = Search(begun: int, limit: int, ended: int, outcome: Outcome, status: Status)

  function After(b: Option<Backoff>, s: Search): Option<Backoff> {
    Recorded(b, s.outcome, s.status, s.ended)
  }

  /** The searches made of one request, from a request never searched, on a clock that never goes back. */
  ghost predicate Run(states: seq<Option<Backoff>>, searches: seq<Search>) {
    && |states| == |searches| + 1
    && states[0] == None
    && (forall k :: 0 <= k < |searches| ==>
          && SearchIsDue(states[k], searches[k].begun, searches[k].limit)
          && searches[k].begun <= searches[k].ended
          && states[k + 1] == After(states[k], searches[k]))
    && (forall j, k :: 0 <= j < k < |searches| ==> searches[j].ended <= searches[k].begun)
  }

  predicate CountedNoMatch(s: Search) {
    s.outcome == NoMatch && s.status == Pending
  }

  predicate Match(s: Search) {
    s.outcome in {Chosen, InLibrary}
  }

  /** How many searches have been counted since the last match. */
  function NoMatchesSinceMatch(searches: seq<Search>): nat
    decreases |searches|
  {
    if searches == [] then 0
    else
      var last, earlier := searches[|searches| - 1], searches[..|searches| - 1];
      if CountedNoMatch(last) then NoMatchesSinceMatch(earlier) + 1
      else if Match(last) then 0
      else NoMatchesSinceMatch(earlier)
  }

  /** The stored counter is exactly that number, in every state of every run. */
  lemma {:induction false} CounterCountsNoMatches(states: seq<Option<Backoff>>, searches: seq<Search>, k: nat)
    requires Run(states, searches) && k <= |searches|
    ensures Passes(states[k]) == NoMatchesSinceMatch(searches[..k])
    ensures states[k].Some? ==> states[k].value.passes >= 1 && states[k].value.lastSearched.Some?
    decreases k
  {
    if k > 0 {
      CounterCountsNoMatches(states, searches, k - 1);
      assert searches[..k][..k - 1] == searches[..k - 1];
      assert states[k] == After(states[k - 1], searches[k - 1]);
    }
  }

  /** Between two searches that changed the record, the record stays as it was. */
  lemma {:induction false} RecordStays(states: seq<Option<Backoff>>, searches: seq<Search>, i: nat, j: nat)
    requires Run(states, searches) && i < j < |states|
    requires forall k :: i < k < j ==> !CountedNoMatch(searches[k]) && !Match(searches[k])
    ensures states[j] == states[i + 1]
    decreases j
  {
    if j > i + 1 {
      RecordStays(states, searches, i, j - 1);
      assert states[j] == After(states[j - 1], searches[j - 1]);
    }
  }

  /**
  Once n >= 3 searches in a row found nothing, the next counted search under a positive limit comes
  at least min(limit, n - 2) days less one hour after the last one, measured from the recorded
  moment of the one to the start, and to the recorded moment, of the other.
  */
  lemma SearchesAreSpacedOut(states: seq<Option<Backoff>>, searches: seq<Search>, i: nat, j: nat)
    requires Run(states, searches) && i < j < |searches|
    requires CountedNoMatch(searches[i])
    requires forall k :: i < k < j ==> !CountedNoMatch(searches[k]) && !Match(searches[k])
    requires searches[j].limit > 0
    ensures var n := NoMatchesSinceMatch(searches[..i + 1]);
            var days := if searches[j].limit < n - 2 then searches[j].limit else n - 2;
            n >= 3 ==>
              && searches[j].begun - WholeSecond(searches[i].ended) >= days * DAY - HOUR
              && WholeSecond(searches[j].ended) - WholeSecond(searches[i].ended) >= days * DAY - HOUR
  {
    hide SearchIsDue, After, NoMatchesSinceMatch, WholeSecond;
    var n := NoMatchesSinceMatch(searches[..i + 1]);
    CounterCountsNoMatches(states, searches, i + 1);
    RecordStays(states, searches, i, j);
    assert states[i + 1] == After(states[i], searches[i]);
    LastRecorded(states[i], searches[i]);
    if n >= FULL_RATE_PASSES {
      assert SearchIsDue(states[j], searches[j].begun, searches[j].limit);
      DueMeansWaited(states[j], searches[j].begun, searches[j].limit);
      WholeSecondsApart(searches[i].ended, Min(searches[j].limit, n - 2), searches[j].ended);
    }
  }

  lemma LastRecorded(b: Option<Backoff>, s: Search)
    requires CountedNoMatch(s)
    ensures After(b, s) == Some(Backoff(Passes(b) + 1, Some(WholeSecond(s.ended))))
  {
  }

  lemma DueMeansWaited(b: Option<Backoff>, now: int, limit: int)
    requires b.Some? && b.value.lastSearched.Some? && b.value.passes >= FULL_RATE_PASSES && limit > 0
    requires SearchIsDue(b, now, limit)
    ensures now - b.value.lastSearched.value >= Min(limit, b.value.passes - 2) * DAY - HOUR
  {
  }

  /** A bound made of whole days and hours survives rounding down to a second. */
  lemma WholeSecondsApart(last: int, days: int, t: int)
    requires t >= WholeSecond(last) + days * DAY - HOUR
    ensures WholeSecond(t) >= WholeSecond(last) + days * DAY - HOUR
  {
    var seconds := last / SECOND + days * 86400 - 3600;
    assert WholeSecond(last) + days * DAY - HOUR == seconds * SECOND;
    assert t / SECOND >= seconds;
  }

  /** A request is never held back for longer: once that wait has passed it is due, and stays due. */
  lemma NeverHeldBackLonger(states: seq<Option<Backoff>>, searches: seq<Search>, i: nat, now: int, limit: int)
    requires Run(states, searches) && i < |searches| && CountedNoMatch(searches[i])
    ensures var n := NoMatchesSinceMatch(searches[..i + 1]);
            SearchIsDue(states[i + 1], now, limit)
            <==> limit <= 0 || n < 3
                 || now >= WholeSecond(searches[i].ended) + limit * DAY - HOUR
                 || now >= WholeSecond(searches[i].ended) + (n - 2) * DAY - HOUR
  {
    CounterCountsNoMatches(states, searches, i + 1);
    assert states[i + 1] == After(states[i], searches[i]);
  }
}
