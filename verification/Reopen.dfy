/**
Reopening requests whose download never arrived: the pass as the program runs it (an early filter
by the shorter wait, a sort, then a capped loop that decides and writes row by row), and the plain
rule it amounts to.
*/
module Reopen {
  import opened Basics
  import opened Requests
  import opened Settle
  import Sorting

  const MAX_FAILURE_RETRIES := 3
  const STALL_PREFIX := "download stalled"
  const INTERRUPTED_MESSAGE := "interrupted"
  const CLIENT_UNREACHABLE := ["failed to connect", "cannot connect", "connection refused", "connection aborted"]

  datatype Kind = Interrupted | Failed | Stalled

  predicate Contains(text: string, part: string) {
    part <= text || (text != "" && Contains(text[1..], part))
  }

  predicate ContainsAny(text: string, parts: seq<string>) {
    exists i | 0 <= i < |parts| :: Contains(text, parts[i])
  }

  /** Why the delivery never arrived; None leaves the request alone. */
  function FailureKind(latest: Option<HistoryRow>): Option<Kind> {
    if latest.None? then Some(Interrupted)
    else
      var row := latest.value;
      if row.status == Active then Some(Interrupted)
      else if row.status == Finished(Error) then
        if row.message == INTERRUPTED_MESSAGE || ContainsAny(row.message, CLIENT_UNREACHABLE)
        then Some(Interrupted) else Some(Failed)
      else if row.status == Finished(Stopped) && STALL_PREFIX <= row.message then Some(Stalled)
      else None
  }

  datatype Pass = Pass(
    now: int,
    cooldownDays: int,
    failureCooldown: Option<int>,
    provider: Option<string>,
    maxReopen: nat,
    onlyKinds: Option<set<Kind>>)

  /** Ids whose write fails with a database error, for each of the two writes. */
  datatype Faults = Faults(noting: set<int>, reopening: set<int>)

  const NO_FAULTS := Faults({}, {})

  predicate Enabled(p: Pass) {
    p.cooldownDays > 0 || p.failureCooldown.Some?
  }

  function Cutoff(p: Pass): Option<int> {
    if p.cooldownDays > 0 then Some(p.now - p.cooldownDays * DAY) else None
  }

  function FailureCutoff(p: Pass): Option<int> {
    if p.failureCooldown.Some? then Some(p.now - p.failureCooldown.value) else None
  }

  /** The later of the two cutoffs: no row younger than that can be reopened. */
  function LatestCutoff(p: Pass): int
    requires Enabled(p)
  {
    var c, f := Cutoff(p), FailureCutoff(p);
    if c.None? then f.value
    else if f.None? then c.value
    else if c.value >= f.value then c.value else f.value
  }

  predicate Undelivered(r: Request) {
    r.status == Fulfilled && r.delivery in {Error, Queued, Stopped}
  }

  predicate FromProvider(p: Pass, r: Request) {
    p.provider.None? || r.book.provider == p.provider.value
  }

  /** The pass's first, cheap filter, applied before history is read. */
  function MaybeStale(p: Pass): Request -> bool
    requires Enabled(p)
  {
    (r: Request) =>
      Undelivered(r) && FromProvider(p, r) && LastChange(r).Some? && LastChange(r).value <= LatestCutoff(p)
  }

  function Latest(h: History, id: int): Option<HistoryRow> {
    if id in h then Some(h[id]) else None
  }

  function Threshold(p: Pass, k: Kind): Option<int> {
    if k in {Failed, Stalled} && FailureCutoff(p).Some? then FailureCutoff(p) else Cutoff(p)
  }

  /** The decision taken inside the loop, once the reason for the failure is known. */
  predicate Due(p: Pass, r: Request, kind: Option<Kind>) {
    && kind.Some?
    && (r.delivery == Stopped ==> kind.value == Stalled)
    && (p.onlyKinds.Some? ==> kind.value in p.onlyKinds.value)
    && Threshold(p, kind.value).Some?
    && LastChange(r).Some?
    && LastChange(r).value <= Threshold(p, kind.value).value
  }

  predicate IsFault(kind: Kind) {
    kind in {Failed, Stalled}
  }

  predicate GivenUp(r: Request, kind: Kind) {
    IsFault(kind) && |r.book.failed| >= MAX_FAILURE_RETRIES
  }

  /** The release is identifiable and not on the list yet. */
  predicate IsNew(release: Option<ReleaseKey>, failed: seq<Remembered>) {
    release.Some? && Known(release.value) !in failed
  }

  predicate NewFailure(r: Request) {
    IsNew(r.release, r.book.failed)
  }

  function Noted(r: Request, kind: Kind): Request {
    if IsFault(kind) && NewFailure(r)
    then r.(book := r.book.(failed := r.book.failed + [Known(r.release.value)]))
    else r
  }

  function ByLastChange(a: Request, b: Request): bool {
    match (LastChange(a), LastChange(b))
    case (Some(x), Some(y)) => x < y
    case (None, Some(_)) => true
    case _ => false
  }

  datatype Progress = Progress(rows: seq<Request>, reopened: seq<int>)

  /** One turn of the loop for the row `r` as it was listed. */
  function Visit(p: Pass, h: History, w: Faults, r: Request, st: Progress): Progress {
    var kind := FailureKind(Latest(h, r.id));
    if !Due(p, r, kind) || GivenUp(r, kind.value) then st
    else
      var noting := Noted(r, kind.value) != r;
      if noting && r.id in w.noting then st
      else
        var rows := if noting then WithRow(st.rows, Noted(r, kind.value)) else st.rows;
        var current := RowOf(rows, r.id);
        if r.id in w.reopening || current.None? || !MayReopen(current.value) then st.(rows := rows)
        else Progress(WithRow(rows, Reopened(current.value)), st.reopened + [r.id])
  }

  /** The capped loop over the sorted rows. */
  function Loop(p: Pass, h: History, w: Faults, items: seq<Request>, st: Progress): Progress
    decreases |items|
  {
    if items == [] || |st.reopened| >= p.maxReopen then st
    else Loop(p, h, w, items[1..], Visit(p, h, w, items[0], st))
  }

  /** The whole pass; a history that cannot be read retries nothing. */
  function RunPass(p: Pass, settleFrom: Option<History>, unwritable: set<int>, h: Option<History>, w: Faults,
                   rows: seq<Request>): Progress
  {
    if !Enabled(p) then Progress(rows, [])
    else
      var settled := SettleAll(rows, settleFrom, unwritable);
      if h.None? then Progress(settled, [])
      else Loop(p, h.value, w, Sorting.SortBy(Filter(settled, MaybeStale(p)), ByLastChange), Progress(settled, []))
  }

  lemma PassIsLoop(p: Pass, settleFrom: Option<History>, unwritable: set<int>, h: History, w: Faults, rows: seq<Request>)
    requires Enabled(p)
    ensures var settled := SettleAll(rows, settleFrom, unwritable);
            RunPass(p, settleFrom, unwritable, Some(h), w, rows)
            == Loop(p, h, w, Sorting.SortBy(Filter(settled, MaybeStale(p)), ByLastChange), Progress(settled, []))
  {
  }

  /** One turn, as the loop below takes it: `noted` is the row with its failed release remembered. */
  lemma VisitTurn(p: Pass, h: History, w: Faults, r: Request, st: Progress)
    ensures var kind := FailureKind(Latest(h, r.id));
            if !Due(p, r, kind) || GivenUp(r, kind.value) then Visit(p, h, w, r, st) == st
            else
              var noted := Noted(r, kind.value);
              var rows := if noted == r then st.rows else WithRow(st.rows, noted);
              var current := RowOf(rows, r.id);
              && noted.id == r.id
              && Visit(p, h, w, r, st) ==
                 if noted != r && r.id in w.noting then st
                 else if r.id in w.reopening || current.None? || !MayReopen(current.value) then st.(rows := rows)
                 else Progress(WithRow(rows, Reopened(current.value)), st.reopened + [r.id])
  {
  }

  lemma LoopTurn(p: Pass, h: History, w: Faults, items: seq<Request>, k: nat, st: Progress)
    requires k < |items|
    ensures Loop(p, h, w, items[k..], st) ==
            if |st.reopened| >= p.maxReopen then st else Loop(p, h, w, items[k + 1..], Visit(p, h, w, items[k], st))
  {
    assert items[k..][1..] == items[k + 1..];
  }

  lemma LoopEnd(p: Pass, h: History, w: Faults, items: seq<Request>, st: Progress)
    ensures items == [] ==> Loop(p, h, w, items, st) == st
  {
  }

  method ReopenStaleFailures(table: RequestTable, p: Pass, settleFrom: Option<History>, unwritable: set<int>,
                             h: Option<History>, w: Faults)
    returns (reopened: seq<int>)
    requires UniqueIds(table.rows)
    requires settleFrom.Some? ==> WellFormedHistory(settleFrom.value)
    modifies table
    ensures Progress(table.rows, reopened) == RunPass(p, settleFrom, unwritable, h, w, old(table.rows))
  {
    reopened := [];
    if !Enabled(p) {
      return;
    }
    var _ := SettleDeliveryStates(table, settleFrom, unwritable);
    ghost var settled := table.rows;
    var stale: seq<Request> := [];
    for k := 0 to |table.rows|
      invariant table.rows == settled
      invariant stale == Filter(settled[..k], MaybeStale(p))
    {
      var r := table.rows[k];
      assert settled[..k + 1] == settled[..k] + [settled[k]];
      FilterAppend(settled[..k], [settled[k]], MaybeStale(p));
      if MaybeStale(p)(r) {
        stale := stale + [r];
      }
    }
    assert settled[..|settled|] == settled;
    if h.None? {
      return;
    }
    PassIsLoop(p, settleFrom, unwritable, h.value, w, old(table.rows));
    stale := Sorting.SortBy(stale, ByLastChange);
    ghost var result := Loop(p, h.value, w, stale, Progress(settled, []));
    assert stale[0..] == stale;
    hide Due, Visit, Loop, FailureKind, GivenUp, Noted, RunPass;
    var k := 0;
    while k < |stale|
      invariant 0 <= k <= |stale|
      invariant result == Loop(p, h.value, w, stale[k..], Progress(table.rows, reopened))
      decreases |stale| - k
    {
      LoopTurn(p, h.value, w, stale, k, Progress(table.rows, reopened));
      if |reopened| >= p.maxReopen {
        break;
      }
      var r := stale[k];
      VisitTurn(p, h.value, w, r, Progress(table.rows, reopened));
      k := k + 1;
      var kind := FailureKind(Latest(h.value, r.id));
      if !Due(p, r, kind) || GivenUp(r, kind.value) {
        continue;
      }
      var noted := Noted(r, kind.value);
      if noted != r {
        if r.id in w.noting {
          continue;
        }
        table.Update(noted);
      }
      if r.id in w.reopening {
        continue;
      }
      var done := table.Reopen(r.id);
      if done {
        reopened := reopened + [r.id];
      }
    }
    LoopEnd(p, h.value, w, stale[k..], Progress(table.rows, reopened));
  }

  // ----- The plain rule, and that the pass follows it -----

  /** May be reopened now: an undelivered request whose own kind of failure has waited long enough. */
  function Eligible(p: Pass, h: History): Request -> bool {
    (r: Request) =>
      var kind := FailureKind(Latest(h, r.id));
      Undelivered(r) && FromProvider(p, r) && Due(p, r, kind) && !GivenUp(r, kind.value)
  }

  /** The rule: the `maxReopen` oldest eligible requests. */
  function Chosen(p: Pass, h: History, rows: seq<Request>): seq<Request> {
    Take(Sorting.SortBy(Filter(rows, Eligible(p, h)), ByLastChange), p.maxReopen)
  }

  /** A chosen request after the pass; its failed release is noted if it failed or stalled. */
  function ReopenedBy(h: History, r: Request): Request {
    var kind := FailureKind(Latest(h, r.id));
    Reopened(if kind.Some? then Noted(r, kind.value) else r)
  }

  lemma ByLastChangeIsOrder()
    ensures Sorting.StrictWeakOrder(ByLastChange)
  {
  }

  /** The early filter never drops a request the rule accepts. */
  lemma EarlyFilterIsSafe(p: Pass, h: History, r: Request)
    requires Enabled(p) && Eligible(p, h)(r)
    ensures MaybeStale(p)(r)
  {
  }

  /** Filtering early, sorting, then deciding gives the eligible rows, sorted. */
  lemma DecidingAfterSorting(p: Pass, h: History, rows: seq<Request>)
    requires Enabled(p)
    ensures Filter(Sorting.SortBy(Filter(rows, MaybeStale(p)), ByLastChange), Eligible(p, h))
         == Sorting.SortBy(Filter(rows, Eligible(p, h)), ByLastChange)
  {
    ByLastChangeIsOrder();
    Sorting.SortFilter(Filter(rows, MaybeStale(p)), ByLastChange, Eligible(p, h));
    forall r | r in rows && Eligible(p, h)(r) ensures MaybeStale(p)(r) {
      EarlyFilterIsSafe(p, h, r);
    }
    FilterThrough(rows, MaybeStale(p), Eligible(p, h));
  }

  /** Rewrite, one after the other, the rows of the chosen requests. */
  function ReopenEach(h: History, rows: seq<Request>, chosen: seq<Request>): seq<Request>
    decreases |chosen|
  {
    if chosen == [] then rows
    else ReopenEach(h, WithRow(rows, ReopenedBy(h, chosen[0])), chosen[1..])
  }

  lemma {:induction false} ReopenEachRow(h: History, rows: seq<Request>, chosen: seq<Request>, i: nat)
    requires UniqueIds(rows) && UniqueIds(chosen) && i < |rows|
    requires forall r :: r in chosen && r.id == rows[i].id ==> r == rows[i]
    ensures |ReopenEach(h, rows, chosen)| == |rows|
    ensures ReopenEach(h, rows, chosen)[i] == if rows[i] in chosen then ReopenedBy(h, rows[i]) else rows[i]
    decreases |chosen|
  {
    if chosen != [] {
      var next := WithRow(rows, ReopenedBy(h, chosen[0]));
      WithRowKeepsIds(rows, ReopenedBy(h, chosen[0]));
      assert chosen == [chosen[0]] + chosen[1..];
      if chosen[0].id == rows[i].id {
        assert forall r :: r in chosen[1..] ==> r.id != chosen[0].id;
        ReopenEachUntouched(h, next, chosen[1..], i);
      } else {
        assert next[i] == rows[i];
        ReopenEachRow(h, next, chosen[1..], i);
      }
    }
  }

  lemma {:induction false} ReopenEachUntouched(h: History, rows: seq<Request>, chosen: seq<Request>, i: nat)
    requires i < |rows| && forall r :: r in chosen ==> r.id != rows[i].id
    ensures |ReopenEach(h, rows, chosen)| == |rows| && ReopenEach(h, rows, chosen)[i] == rows[i]
    decreases |chosen|
  {
    if chosen != [] {
      var next := WithRow(rows, ReopenedBy(h, chosen[0]));
      ReopenEachUntouched(h, next, chosen[1..], i);
    }
  }

  function Ids(rows: seq<Request>): (ids: seq<int>)
    ensures |ids| == |rows| && forall i :: 0 <= i < |rows| ==> ids[i] == rows[i].id
  {
    seq(|rows|, i requires 0 <= i < |rows| => rows[i].id)
  }

  lemma IdsTail(rows: seq<Request>)
    requires rows != []
    ensures Ids(rows) == [rows[0].id] + Ids(rows[1..])
  {
  }

  /** A row the rule does not accept is passed over. */
  lemma VisitIneligible(p: Pass, h: History, r: Request, st: Progress)
    requires Undelivered(r) && FromProvider(p, r) && !Eligible(p, h)(r)
    ensures Visit(p, h, NO_FAULTS, r, st) == st
  {
  }

  /** One turn of the loop on the abstract side: the head is taken if it is eligible. */
  lemma ChosenStep(p: Pass, h: History, items: seq<Request>, n: nat)
    requires items != [] && n > 0
    ensures var r, rest := items[0], Filter(items[1..], Eligible(p, h));
            Take(Filter(items, Eligible(p, h)), n)
            == if Eligible(p, h)(r) then [r] + Take(rest, n - 1) else Take(rest, n)
  {
  }

  lemma StepKeepsRows(h: History, rows: seq<Request>, items: seq<Request>)
    requires items != [] && UniqueIds(items) && UniqueIds(rows)
    requires forall r :: r in items ==> r in rows
    ensures UniqueIds(WithRow(rows, ReopenedBy(h, items[0])))
    ensures forall q :: q in items[1..] ==> q in WithRow(rows, ReopenedBy(h, items[0]))
  {
    WithRowKeepsIds(rows, ReopenedBy(h, items[0]));
    forall q | q in items[1..] ensures q in WithRow(rows, ReopenedBy(h, items[0])) {
      assert q in items;
      RowSurvives(rows, ReopenedBy(h, items[0]), q);
    }
  }

  /** Reopening the first eligible rows, up to what is left of the cap. */
  function TakenFrom(p: Pass, h: History, items: seq<Request>, st: Progress): Progress
    requires |st.reopened| <= p.maxReopen
  {
    var chosen := Take(Filter(items, Eligible(p, h)), p.maxReopen - |st.reopened|);
    Progress(ReopenEach(h, st.rows, chosen), st.reopened + Ids(chosen))
  }

  function TakeOne(h: History, r: Request, st: Progress): Progress {
    Progress(WithRow(st.rows, ReopenedBy(h, r)), st.reopened + [r.id])
  }

  lemma TakenStep(p: Pass, h: History, items: seq<Request>, st: Progress)
    requires items != [] && |st.reopened| < p.maxReopen
    ensures TakenFrom(p, h, items, st)
         == if Eligible(p, h)(items[0]) then TakenFrom(p, h, items[1..], TakeOne(h, items[0], st))
            else TakenFrom(p, h, items[1..], st)
  {
    hide Eligible, ReopenedBy, Filter;
    var room := p.maxReopen - |st.reopened|;
    ChosenStep(p, h, items, room);
    if Eligible(p, h)(items[0]) {
      var chosen := Take(Filter(items, Eligible(p, h)), room);
      var left := Take(Filter(items[1..], Eligible(p, h)), room - 1);
      IdsTail(chosen);
      assert chosen[1..] == left;
      assert st.reopened + Ids(chosen) == st.reopened + [items[0].id] + Ids(left);
    }
  }

  /** With every write succeeding, the loop reopens the first eligible rows, up to the cap. */
  lemma {:induction false} LoopTakesEligible(p: Pass, h: History, items: seq<Request>, st: Progress)
    requires UniqueIds(st.rows) && UniqueIds(items) && |st.reopened| <= p.maxReopen
    requires forall r :: r in items ==> r in st.rows && Undelivered(r) && FromProvider(p, r)
    ensures Loop(p, h, NO_FAULTS, items, st) == TakenFrom(p, h, items, st)
    decreases |items|
  {
    hide Visit, Eligible, ReopenedBy, TakenFrom, Undelivered, FromProvider;
    if items == [] || |st.reopened| == p.maxReopen {
      NothingTaken(p, h, items, st);
    } else {
      TakenStep(p, h, items, st);
      assert items[0] in items;
      if Eligible(p, h)(items[0]) {
        VisitEligible(p, h, items[0], st);
        StepKeepsRows(h, st.rows, items);
        LoopTakesEligible(p, h, items[1..], TakeOne(h, items[0], st));
      } else {
        VisitIneligible(p, h, items[0], st);
        LoopTakesEligible(p, h, items[1..], st);
      }
    }
  }

  lemma NothingTaken(p: Pass, h: History, items: seq<Request>, st: Progress)
    requires items == [] || |st.reopened| == p.maxReopen
    requires |st.reopened| <= p.maxReopen
    ensures TakenFrom(p, h, items, st) == st
  {
  }

  lemma RowSurvives(rows: seq<Request>, r: Request, q: Request)
    requires q in rows && q.id != r.id
    ensures q in WithRow(rows, r)
  {
  }

  lemma VisitEligible(p: Pass, h: History, r: Request, st: Progress)
    requires UniqueIds(st.rows) && r in st.rows && Eligible(p, h)(r)
    ensures Visit(p, h, NO_FAULTS, r, st) == TakeOne(h, r, st)
  {
  }

  lemma FilterUniqueIds(rows: seq<Request>, test: Request -> bool)
    requires UniqueIds(rows)
    ensures UniqueIds(Filter(rows, test))
  {
    var differ := (a: Request, b: Request) => a.id != b.id;
    assert Pairwise(rows, differ);
    FilterPairwise(rows, test, differ);
    var kept := Filter(rows, test);
    forall i, j | 0 <= i < j < |kept| ensures kept[i].id != kept[j].id {
      assert differ(kept[i], kept[j]);
    }
  }

  lemma SortUniqueIds(rows: seq<Request>)
    requires UniqueIds(rows)
    ensures UniqueIds(Sorting.SortBy(rows, ByLastChange))
  {
    var sorted := Sorting.SortBy(rows, ByLastChange);
    Sorting.SortPermutes(rows, ByLastChange);
    assert Distinct(rows);
    MultisetDistinct(rows, sorted);
    forall i, j | 0 <= i < j < |sorted| ensures sorted[i].id != sorted[j].id {
      assert sorted[i] in rows && sorted[j] in rows;
      var a :| 0 <= a < |rows| && rows[a] == sorted[i];
      var b :| 0 <= b < |rows| && rows[b] == sorted[j];
      assert a != b;
    }
  }

  lemma SettleKeepsIds(rows: seq<Request>, h: Option<History>)
    requires UniqueIds(rows)
    ensures UniqueIds(SettleAll(rows, h, {}))
  {
  }

  /** Rewriting the chosen rows one after the other rewrites exactly those rows. */
  lemma ReopenEachRows(h: History, rows: seq<Request>, chosen: seq<Request>)
    requires UniqueIds(rows) && UniqueIds(chosen)
    requires forall r :: r in chosen ==> r in rows
    ensures |ReopenEach(h, rows, chosen)| == |rows|
    ensures forall i :: 0 <= i < |rows| ==>
      ReopenEach(h, rows, chosen)[i] == if rows[i] in chosen then ReopenedBy(h, rows[i]) else rows[i]
  {
    hide ReopenedBy;
    forall i | 0 <= i < |rows|
      ensures |ReopenEach(h, rows, chosen)| == |rows|
      ensures ReopenEach(h, rows, chosen)[i] == if rows[i] in chosen then ReopenedBy(h, rows[i]) else rows[i]
    {
      forall r | r in chosen && r.id == rows[i].id ensures r == rows[i] {
        RowOfMember(rows, r);
        RowOfMember(rows, rows[i]);
      }
      ReopenEachRow(h, rows, chosen, i);
    }
    ReopenEachLength(h, rows, chosen);
  }

  lemma {:induction false} ReopenEachLength(h: History, rows: seq<Request>, chosen: seq<Request>)
    ensures |ReopenEach(h, rows, chosen)| == |rows|
    decreases |chosen|
  {
    if chosen != [] {
      ReopenEachLength(h, WithRow(rows, ReopenedBy(h, chosen[0])), chosen[1..]);
    }
  }

  /** The rows the loop runs over, and what the rule picks among them. */
  lemma LoopItems(p: Pass, h: History, rows: seq<Request>)
    requires Enabled(p) && UniqueIds(rows)
    ensures var items := Sorting.SortBy(Filter(rows, MaybeStale(p)), ByLastChange);
            && UniqueIds(items)
            && (forall r :: r in items ==> r in rows && Undelivered(r) && FromProvider(p, r))
            && Take(Filter(items, Eligible(p, h)), p.maxReopen) == Chosen(p, h, rows)
            && UniqueIds(Chosen(p, h, rows))
            && forall r :: r in Chosen(p, h, rows) ==>
                 r in rows && Eligible(p, h)(r)
  {
    hide FailureKind, LatestCutoff, GivenUp;
    var early := Filter(rows, MaybeStale(p));
    var items := Sorting.SortBy(early, ByLastChange);
    FilterMembers(rows, MaybeStale(p));
    FilterUniqueIds(rows, MaybeStale(p));
    SortUniqueIds(early);
    Sorting.SortPermutes(early, ByLastChange);
    DecidingAfterSorting(p, h, rows);
    FilterMembers(items, Eligible(p, h));
    FilterUniqueIds(items, Eligible(p, h));
  }

  /**
  The pass refines the rule. When every write succeeds, the requests reopened are the oldest
  eligible ones, oldest first, up to the cap; each of those rows is reopened, with its failed
  release noted if it failed or stalled; every other row is as settling left it.
  */
  lemma PassFollowsRule(p: Pass, settleFrom: Option<History>, h: History, rows: seq<Request>)
    requires Enabled(p) && UniqueIds(rows)
    ensures var settled := SettleAll(rows, settleFrom, {});
            var chosen := Chosen(p, h, settled);
            var result := RunPass(p, settleFrom, {}, Some(h), NO_FAULTS, rows);
            && result.reopened == Ids(chosen)
            && |result.rows| == |rows|
            && (forall r :: r in chosen ==> Eligible(p, h)(r) && r in settled)
            && forall i :: 0 <= i < |rows| ==>
                 result.rows[i] == if settled[i] in chosen then ReopenedBy(h, settled[i]) else settled[i]
  {
    hide Chosen, Eligible, Loop, ReopenedBy, SettleRow, SettleAll, ReopenEach, Undelivered, FromProvider, MaybeStale;
    var settled := SettleAll(rows, settleFrom, {});
    SettleKeepsIds(rows, settleFrom);
    LoopItems(p, h, settled);
    var items := Sorting.SortBy(Filter(settled, MaybeStale(p)), ByLastChange);
    LoopTakesEligible(p, h, items, Progress(settled, []));
    var chosen := Chosen(p, h, settled);
    ReopenEachRows(h, settled, chosen);
    assert [] + Ids(chosen) == Ids(chosen);
  }

  /** Nothing eligible is left behind unless the cap is used up by requests at least as old. */
  lemma OldestFirst(p: Pass, h: History, rows: seq<Request>, r: Request)
    requires UniqueIds(rows)
    requires r in rows && Eligible(p, h)(r) && r !in Chosen(p, h, rows)
    ensures |Chosen(p, h, rows)| == p.maxReopen
    ensures forall q :: q in Chosen(p, h, rows) ==> !ByLastChange(r, q)
  {
    var eligible := Filter(rows, Eligible(p, h));
    var sorted := Sorting.SortBy(eligible, ByLastChange);
    FilterMembers(rows, Eligible(p, h));
    Sorting.SortPermutes(eligible, ByLastChange);
    ByLastChangeIsOrder();
    Sorting.SortSorted(eligible, ByLastChange);
    assert r in sorted;
    var j :| 0 <= j < |sorted| && sorted[j] == r;
    assert |sorted| > p.maxReopen;
    assert forall i :: 0 <= i < p.maxReopen ==> sorted[i] in sorted[..p.maxReopen];
    assert j >= p.maxReopen;
  }
}
