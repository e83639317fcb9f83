/** What retry passes do to a request's list of failed releases over a whole run, faults included. */
module RetryRuns {
  import opened Basics
  import opened Requests
  import opened Settle
  import opened Reopen
  import Sorting

  ghost predicate NoRepeats(failed: seq<Remembered>) {
    forall i, j :: 0 <= i < j < |failed| && failed[i].Known? ==> failed[i] != failed[j]
  }

  ghost predicate WellFormedList(failed: seq<Remembered>) {
    NoRepeats(failed) && |failed| <= MAX_FAILURE_RETRIES
  }

  ghost predicate AllWellFormed(rows: seq<Request>) {
    UniqueIds(rows) && forall r :: r in rows ==> WellFormedList(r.book.failed)
  }

  /** What one pass may make of one row: nothing, a note that was not followed through, or a reopening. */
  ghost predicate RowEffect(p: Pass, h: History, r: Request, after: Request, reopened: bool) {
    var kind := FailureKind(Latest(h, r.id));
    || (after == r && !reopened)
    || (&& Due(p, r, kind) && !GivenUp(r, kind.value)
        && after == (if reopened then Reopened(Noted(r, kind.value)) else Noted(r, kind.value)))
  }

  lemma VisitEffect(p: Pass, h: History, w: Faults, st: Progress, i: nat)
    requires UniqueIds(st.rows) && i < |st.rows|
    ensures var r, next := st.rows[i], Visit(p, h, w, st.rows[i], st);
            && (next.rows == st.rows || next.rows == st.rows[i := next.rows[i]])
            && (next.reopened == st.reopened || next.reopened == st.reopened + [r.id])
            && |next.rows| == |st.rows|
            && next.rows[i].id == r.id
            && UniqueIds(next.rows)
            && RowEffect(p, h, r, next.rows[i], next.reopened != st.reopened)
  {
    hide UniqueIds, Threshold, GivenUp, FailureKind, LastChange;
    var r := st.rows[i];
    RowOfMember(st.rows, r);
    var kind := FailureKind(Latest(h, r.id));
    if Due(p, r, kind) && !GivenUp(r, kind.value) {
      var noted := Noted(r, kind.value);
      WithRowAt(st.rows, i, noted);
      WithRowAt(st.rows, i, Reopened(noted));
      var rows := st.rows[i := noted];
      assert rows[i] == noted;
      RowOfMember(rows, noted);
      WithRowAt(rows, i, Reopened(noted));
      assert rows[i := Reopened(noted)] == st.rows[i := Reopened(noted)];
      assert noted == r ==> rows == st.rows;
    }
  }

  /** Rows the loop no longer holds are left alone; their ids are not reported again. */
  lemma {:induction false} LoopLeavesOthers(p: Pass, h: History, w: Faults, items: seq<Request>, st: Progress, i: nat)
    requires UniqueIds(st.rows) && UniqueIds(items) && i < |st.rows|
    requires forall q :: q in items ==> q in st.rows && q.id != st.rows[i].id
    ensures var end := Loop(p, h, w, items, st);
            && |end.rows| == |st.rows| && UniqueIds(end.rows)
            && end.rows[i] == st.rows[i]
            && (st.rows[i].id in end.reopened <==> st.rows[i].id in st.reopened)
    decreases |items|
  {
    hide UniqueIds, Visit, RowEffect;
    if items != [] && |st.reopened| < p.maxReopen {
      assert items[0] in items;
      var j :| 0 <= j < |st.rows| && st.rows[j] == items[0];
      VisitEffect(p, h, w, st, j);
      TailStays(p, h, w, items, st, j);
      LoopLeavesOthers(p, h, w, items[1..], Visit(p, h, w, items[0], st), i);
    }
  }

  lemma TailStays(p: Pass, h: History, w: Faults, items: seq<Request>, st: Progress, j: nat)
    requires UniqueIds(st.rows) && UniqueIds(items) && items != []
    requires forall q :: q in items ==> q in st.rows
    requires j < |st.rows| && st.rows[j] == items[0]
    ensures UniqueIds(items[1..])
    ensures forall q :: q in items[1..] ==>
      q in items && q.id != items[0].id && q in Visit(p, h, w, items[0], st).rows
  {
    hide Visit, RowEffect;
    VisitEffect(p, h, w, st, j);
    var next := Visit(p, h, w, items[0], st).rows;
    forall q | q in items[1..] ensures q in items && q.id != items[0].id && q in next {
      var k :| 0 <= k < |items[1..]| && items[1..][k] == q;
      assert items[k + 1] == q;
      assert q in items;
      var m :| 0 <= m < |st.rows| && st.rows[m] == q;
      assert next[m] == q;
    }
  }

  /** The loop visits each row at most once, whatever faults occur. */
  lemma {:induction false} LoopEffect(p: Pass, h: History, w: Faults, items: seq<Request>, st: Progress, i: nat)
    requires UniqueIds(st.rows) && UniqueIds(items) && i < |st.rows|
    requires forall q :: q in items ==> q in st.rows
    requires st.rows[i].id !in st.reopened
    ensures var end := Loop(p, h, w, items, st);
            && |end.rows| == |st.rows| && UniqueIds(end.rows)
            && end.rows[i].id == st.rows[i].id
            && RowEffect(p, h, st.rows[i], end.rows[i], st.rows[i].id in end.reopened)
    decreases |items|
  {
    hide UniqueIds, Visit, Due, GivenUp, FailureKind, Noted, Reopened;
    if items != [] && |st.reopened| < p.maxReopen {
      assert items[0] in items;
      var j :| 0 <= j < |st.rows| && st.rows[j] == items[0];
      VisitEffect(p, h, w, st, j);
      TailStays(p, h, w, items, st, j);
      var next := Visit(p, h, w, items[0], st);
      if j == i {
        LoopLeavesOthers(p, h, w, items[1..], next, i);
      } else {
        IdsDiffer(st.rows, i, j);
        LoopEffect(p, h, w, items[1..], next, i);
      }
    }
  }

  lemma IdsDiffer(rows: seq<Request>, i: nat, j: nat)
    requires UniqueIds(rows) && i < |rows| && j < |rows| && i != j
    ensures rows[i].id != rows[j].id
  {
  }

  /** One whole pass, row by row. */
  lemma PassEffect(p: Pass, settleFrom: Option<History>, unwritable: set<int>, h: Option<History>, w: Faults,
                   rows: seq<Request>, i: nat)
    requires UniqueIds(rows) && i < |rows|
    ensures var end := RunPass(p, settleFrom, unwritable, h, w, rows);
            var settled := SettleAll(rows, settleFrom, unwritable)[i];
            && |end.rows| == |rows| && UniqueIds(end.rows)
            && end.rows[i].id == rows[i].id
            && settled.book == rows[i].book && settled.id == rows[i].id
            && (if Enabled(p) && h.Some?
                then RowEffect(p, h.value, settled, end.rows[i], rows[i].id in end.reopened)
                else end.rows[i] == (if Enabled(p) then settled else rows[i]) && end.reopened == [])
  {
    hide RowEffect, Loop, MaybeStale, Reopened;
    var settled := SettleAll(rows, settleFrom, unwritable);
    assert forall k :: 0 <= k < |rows| ==> settled[k].id == rows[k].id;
    assert UniqueIds(settled);
    if Enabled(p) && h.Some? {
      var early := Filter(settled, MaybeStale(p));
      FilterMembers(settled, MaybeStale(p));
      FilterUniqueIds(settled, MaybeStale(p));
      SortUniqueIds(early);
      Sorting.SortPermutes(early, ByLastChange);
      LoopEffect(p, h.value, w, Sorting.SortBy(early, ByLastChange), Progress(settled, []), i);
    }
  }

  /** A pass adds at most one release to a list, a new one, and only below the limit. */
  lemma PassGrowsListByOne(p: Pass, settleFrom: Option<History>, unwritable: set<int>, h: Option<History>, w: Faults,
                           rows: seq<Request>, i: nat)
    requires UniqueIds(rows) && i < |rows|
    ensures var end := RunPass(p, settleFrom, unwritable, h, w, rows);
            && |end.rows| == |rows|
            && (|| end.rows[i].book.failed == rows[i].book.failed
                || (&& |rows[i].book.failed| < MAX_FAILURE_RETRIES
                    && rows[i].release.Some?
                    && Known(rows[i].release.value) !in rows[i].book.failed
                    && end.rows[i].book.failed == rows[i].book.failed + [Known(rows[i].release.value)]))
            && (WellFormedList(rows[i].book.failed) ==> WellFormedList(end.rows[i].book.failed))
  {
    hide Due, FailureKind, RunPass;
    PassEffect(p, settleFrom, unwritable, h, w, rows, i);
  }

  // ----- Runs -----

  datatype Event =
    | RetryPass(p: Pass, settleFrom: Option<History>, unwritable: set<int>, h: Option<History>, w: Faults)
    | Elsewhere

  /**
  Anything else may happen to the table between passes (requests are created, approved, fulfilled
  with other releases, delivered, deleted), except that no one else writes a list of failed
  releases and ids are not reused. A new request starts with a well-formed list.
  */
  ghost predicate OtherWork(before: seq<Request>, after: seq<Request>) {
    && UniqueIds(after)
    && forall q :: q in after ==>
         var was := RowOf(before, q.id);
         if was.Some? then q.book.failed == was.value.book.failed else WellFormedList(q.book.failed)
  }

  ghost predicate Step(before: seq<Request>, e: Event, after: seq<Request>) {
    match e
    case RetryPass(p, settleFrom, unwritable, h, w) =>
      after == RunPass(p, settleFrom, unwritable, h, w, before).rows
    case Elsewhere => OtherWork(before, after)
  }

  ghost predicate Run(tables: seq<seq<Request>>, events: seq<Event>) {
    && |tables| == |events| + 1
    && forall k :: 0 <= k < |events| ==> Step(tables[k], events[k], tables[k + 1])
  }

  lemma StepKeepsWellFormed(before: seq<Request>, e: Event, after: seq<Request>)
    requires AllWellFormed(before) && Step(before, e, after)
    ensures AllWellFormed(after)
  {
    hide RunPass;
    if e.RetryPass? {
      if before == [] {
        PassOfNothing(e.p, e.settleFrom, e.unwritable, e.h, e.w);
      }
      forall i | 0 <= i < |before|
        ensures |after| == |before| && UniqueIds(after) && WellFormedList(after[i].book.failed)
      {
        PassEffect(e.p, e.settleFrom, e.unwritable, e.h, e.w, before, i);
        PassGrowsListByOne(e.p, e.settleFrom, e.unwritable, e.h, e.w, before, i);
        assert before[i] in before;
      }
      assert before != [] ==> WellFormedList(after[0].book.failed);
      assert |after| == |before|;
    } else {
      forall r | r in after ensures WellFormedList(r.book.failed) {
        var was := RowOf(before, r.id);
        assert was.Some? ==> was.value in before;
      }
    }
  }

  lemma PassOfNothing(p: Pass, settleFrom: Option<History>, unwritable: set<int>, h: Option<History>, w: Faults)
    ensures RunPass(p, settleFrom, unwritable, h, w, []).rows == []
  {
  }

  /** In every run, every list stays free of repeats and never holds more than three releases. */
  lemma {:induction false} ListsStayWellFormed(tables: seq<seq<Request>>, events: seq<Event>, k: nat)
    requires Run(tables, events) && AllWellFormed(tables[0]) && k < |tables|
    ensures AllWellFormed(tables[k])
  {
    hide AllWellFormed, Step;
    if k > 0 {
      ListsStayWellFormed(tables, events, k - 1);
      StepKeepsWellFormed(tables[k - 1], events[k - 1], tables[k]);
    }
  }

  /** The request is there in every table of the run. */
  ghost predicate Lives(tables: seq<seq<Request>>, id: int) {
    forall k :: 0 <= k < |tables| ==> RowOf(tables[k], id).Some?
  }

  ghost function ListAt(rows: seq<Request>, id: int): seq<Remembered>
    requires RowOf(rows, id).Some?
  {
    RowOf(rows, id).value.book.failed
  }

  /** This event reopens the request because its download failed or stalled. */
  ghost predicate FailureReopen(before: seq<Request>, e: Event, id: int) {
    && e.RetryPass?
    && id in RunPass(e.p, e.settleFrom, e.unwritable, e.h, e.w, before).reopened
    && e.h.Some?
    && var kind := FailureKind(Latest(e.h.value, id));
       kind.Some? && IsFault(kind.value)
  }

  /** ... and the release it was fulfilled with is identifiable and new to its list. */
  ghost predicate NewFailureReopen(before: seq<Request>, e: Event, id: int) {
    && FailureReopen(before, e, id)
    && RowOf(before, id).Some?
    && NewFailure(RowOf(before, id).value)
  }

  ghost function CountNew(tables: seq<seq<Request>>, events: seq<Event>, id: int): nat
    requires |tables| == |events| + 1
    decreases |events|
  {
    if events == [] then 0
    else
      var n := |events| - 1;
      CountNew(tables[..n + 1], events[..n], id) + if NewFailureReopen(tables[n], events[n], id) then 1 else 0
  }

  ghost function CountFailures(tables: seq<seq<Request>>, events: seq<Event>, id: int): nat
    requires |tables| == |events| + 1
    decreases |events|
  {
    if events == [] then 0
    else
      var n := |events| - 1;
      CountFailures(tables[..n + 1], events[..n], id) + if FailureReopen(tables[n], events[n], id) then 1 else 0
  }

  lemma RowIndex(rows: seq<Request>, id: int) returns (i: nat)
    requires RowOf(rows, id).Some?
    ensures i < |rows| && rows[i] == RowOf(rows, id).value && rows[i].id == id
  {
    i :| 0 <= i < |rows| && rows[i] == RowOf(rows, id).value;
  }

  /** What one step does to one request's list: it never shrinks, and a new failure reopening grows it. */
  lemma StepOnList(before: seq<Request>, e: Event, after: seq<Request>, id: int)
    requires UniqueIds(before) && UniqueIds(after) && Step(before, e, after)
    requires RowOf(before, id).Some? && RowOf(after, id).Some?
    ensures ListAt(before, id) <= ListAt(after, id)
    ensures |ListAt(after, id)| <= |ListAt(before, id)| + 1
    ensures NewFailureReopen(before, e, id) ==>
      |ListAt(after, id)| == |ListAt(before, id)| + 1 && |ListAt(before, id)| < MAX_FAILURE_RETRIES
    ensures FailureReopen(before, e, id) ==> |ListAt(before, id)| < MAX_FAILURE_RETRIES
  {
    hide Due, RunPass, FailureKind, SettleAll, OtherWork;
    var i := RowIndex(before, id);
    var j := RowIndex(after, id);
    if e.RetryPass? {
      PassEffect(e.p, e.settleFrom, e.unwritable, e.h, e.w, before, i);
      if i != j {
        IdsDiffer(after, i, j);
      }
      PassGrowsListByOne(e.p, e.settleFrom, e.unwritable, e.h, e.w, before, i);
      ReopenGrowsList(e.p, e.settleFrom, e.unwritable, e.h, e.w, before, i);
    } else {
      OtherWorkKeepsList(before, after, j);
    }
  }

  lemma OtherWorkKeepsList(before: seq<Request>, after: seq<Request>, j: nat)
    requires OtherWork(before, after) && j < |after| && RowOf(before, after[j].id).Some?
    ensures after[j].book.failed == RowOf(before, after[j].id).value.book.failed
  {
  }

  /** A reopening of a failed or stalled download happens below the limit, and uses a place up
      exactly when the release is identifiable and new. */
  lemma ReopenGrowsList(p: Pass, settleFrom: Option<History>, unwritable: set<int>, h: Option<History>, w: Faults,
                        rows: seq<Request>, i: nat)
    requires UniqueIds(rows) && i < |rows|
    ensures var end := RunPass(p, settleFrom, unwritable, h, w, rows);
            && |end.rows| == |rows|
            && (rows[i].id in end.reopened ==>
                  && h.Some?
                  && var kind := FailureKind(Latest(h.value, rows[i].id));
                     && kind.Some?
                     && (IsFault(kind.value) ==> |rows[i].book.failed| < MAX_FAILURE_RETRIES)
                     && |end.rows[i].book.failed| == |rows[i].book.failed| +
                          if IsFault(kind.value) && NewFailure(rows[i]) then 1 else 0)
  {
    hide FailureKind, RunPass;
    PassEffect(p, settleFrom, unwritable, h, w, rows, i);
  }

  lemma {:induction false} CountNewBounded(tables: seq<seq<Request>>, events: seq<Event>, id: int)
    requires Run(tables, events) && AllWellFormed(tables[0]) && Lives(tables, id)
    ensures |ListAt(tables[|events|], id)| >= |ListAt(tables[0], id)| + CountNew(tables, events, id)
    decreases |events|
  {
    hide AllWellFormed, Step, NewFailureReopen, FailureReopen;
    if events != [] {
      var n := |events| - 1;
      CountNewBounded(tables[..n + 1], events[..n], id);
      WellFormedUnique(tables, events, n);
      WellFormedUnique(tables, events, n + 1);
      StepOnList(tables[n], events[n], tables[n + 1], id);
    }
  }

  lemma WellFormedUnique(tables: seq<seq<Request>>, events: seq<Event>, k: nat)
    requires Run(tables, events) && AllWellFormed(tables[0]) && k < |tables|
    ensures UniqueIds(tables[k])
    ensures forall r :: r in tables[k] ==> |r.book.failed| <= MAX_FAILURE_RETRIES
  {
    ListsStayWellFormed(tables, events, k);
  }

  /**
  Giving up. Over a whole run, a request whose failed releases can be told apart is reopened after a
  failure at most as often as its list has room for, so at most three times.
  */
  lemma FailuresAreGivenUp(tables: seq<seq<Request>>, events: seq<Event>, id: int)
    requires Run(tables, events) && AllWellFormed(tables[0]) && Lives(tables, id)
    ensures CountNew(tables, events, id) <= MAX_FAILURE_RETRIES - |ListAt(tables[0], id)|
    ensures (forall k :: 0 <= k < |events| && FailureReopen(tables[k], events[k], id) ==>
               NewFailureReopen(tables[k], events[k], id))
        ==> CountFailures(tables, events, id) <= MAX_FAILURE_RETRIES - |ListAt(tables[0], id)|
  {
    hide Step, AllWellFormed, FailureReopen, NewFailureReopen;
    CountNewBounded(tables, events, id);
    WellFormedUnique(tables, events, |events|);
    if forall k :: 0 <= k < |events| && FailureReopen(tables[k], events[k], id) ==>
         NewFailureReopen(tables[k], events[k], id)
    {
      CountsAgree(tables, events, id);
    }
  }

  lemma {:induction false} CountsAgree(tables: seq<seq<Request>>, events: seq<Event>, id: int)
    requires |tables| == |events| + 1
    requires forall k :: 0 <= k < |events| && FailureReopen(tables[k], events[k], id) ==>
               NewFailureReopen(tables[k], events[k], id)
    ensures CountFailures(tables, events, id) <= CountNew(tables, events, id)
    decreases |events|
  {
    hide FailureReopen, NewFailureReopen;
    if events != [] {
      var n := |events| - 1;
      CountsAgree(tables[..n + 1], events[..n], id);
    }
  }

  /** Once a list holds three releases, no later pass of the run reopens that request after a failure. */
  lemma {:induction false} FullListStaysClosed(tables: seq<seq<Request>>, events: seq<Event>, id: int, k: nat, m: nat)
    requires Run(tables, events) && AllWellFormed(tables[0]) && Lives(tables, id)
    requires k <= m < |events|
    requires |ListAt(tables[k], id)| == MAX_FAILURE_RETRIES
    ensures |ListAt(tables[m], id)| == MAX_FAILURE_RETRIES
    ensures !FailureReopen(tables[m], events[m], id)
    decreases m
  {
    hide Step, AllWellFormed, FailureReopen, NewFailureReopen;
    WellFormedUnique(tables, events, m);
    WellFormedUnique(tables, events, m + 1);
    StepOnList(tables[m], events[m], tables[m + 1], id);
    if k < m {
      FullListStaysClosed(tables, events, id, k, m - 1);
      WellFormedUnique(tables, events, m - 1);
      StepOnList(tables[m - 1], events[m - 1], tables[m], id);
    }
  }

  // ----- Stamps over a run -----

  ghost predicate WholeStamps(rows: seq<Request>) {
    forall r :: r in rows && r.deliveryUpdatedAt.Some? ==> r.deliveryUpdatedAt.value % SECOND == 0
  }

  /** All other writers of stamps write whole seconds too. */
  ghost predicate OthersWriteSeconds(tables: seq<seq<Request>>, events: seq<Event>)
    requires |tables| == |events| + 1
  {
    forall k :: 0 <= k < |events| && events[k].Elsewhere? ==> WholeStamps(tables[k + 1])
  }

  lemma PassKeepsWholeStamps(p: Pass, settleFrom: Option<History>, unwritable: set<int>, h: Option<History>, w: Faults,
                             rows: seq<Request>, i: nat)
    requires UniqueIds(rows) && WholeStamps(rows) && i < |rows|
    ensures var after := RunPass(p, settleFrom, unwritable, h, w, rows).rows;
            && |after| == |rows| && UniqueIds(after) && after[i].id == rows[i].id
            && (after[i].deliveryUpdatedAt.Some? ==> after[i].deliveryUpdatedAt.value % SECOND == 0)
            && (rows[i].deliveryUpdatedAt.Some? && after[i].status == Fulfilled ==>
                  after[i].deliveryUpdatedAt.Some? && after[i].deliveryUpdatedAt.value >= rows[i].deliveryUpdatedAt.value)
  {
    hide RunPass, Due, FailureKind, GivenUp, SettleRow;
    PassEffect(p, settleFrom, unwritable, h, w, rows, i);
    assert rows[i] in rows;
    var settled := SettleAll(rows, settleFrom, unwritable)[i];
    if rows[i].deliveryUpdatedAt.Some? {
      SettleKeepsStampsMonotone(rows, settleFrom, unwritable, i);
    } else {
      SettledStampIsWhole(rows[i], settleFrom, unwritable);
    }
  }

  lemma SettledStampIsWhole(r: Request, h: Option<History>, unwritable: set<int>)
    requires r.deliveryUpdatedAt.None?
    ensures h.Some? ==> var after := SettleRow(r, h.value, unwritable).deliveryUpdatedAt;
                        after.Some? ==> after.value % SECOND == 0
  {
  }

  /** Stamps stay whole seconds over every run. */
  lemma {:induction false} StampsStayWhole(tables: seq<seq<Request>>, events: seq<Event>, k: nat)
    requires Run(tables, events) && k < |tables| && OthersWriteSeconds(tables, events)
    requires UniqueIds(tables[0]) && WholeStamps(tables[0])
    ensures UniqueIds(tables[k]) && WholeStamps(tables[k])
    decreases k
  {
    hide RunPass;
    if k > 0 {
      StampsStayWhole(tables, events, k - 1);
      var before, e := tables[k - 1], events[k - 1];
      assert Step(before, e, tables[k]);
      if e.RetryPass? {
        if before == [] {
          PassOfNothing(e.p, e.settleFrom, e.unwritable, e.h, e.w);
        }
        forall i | 0 <= i < |before|
          ensures |tables[k]| == |before| && UniqueIds(tables[k])
          ensures tables[k][i].deliveryUpdatedAt.Some? ==> tables[k][i].deliveryUpdatedAt.value % SECOND == 0
        {
          PassKeepsWholeStamps(e.p, e.settleFrom, e.unwritable, e.h, e.w, before, i);
        }
        assert before != [] ==> |tables[k]| == |before| && UniqueIds(tables[k]) by {
          if before != [] {
            PassKeepsWholeStamps(e.p, e.settleFrom, e.unwritable, e.h, e.w, before, 0);
          }
        }
      }
    }
  }

  /** So over a run no pass moves a known stamp back: it stays, moves on, or goes with the reopening. */
  lemma StampsNeverMoveBack(tables: seq<seq<Request>>, events: seq<Event>, k: nat, i: nat)
    requires Run(tables, events) && k < |events| && events[k].RetryPass? && OthersWriteSeconds(tables, events)
    requires UniqueIds(tables[0]) && WholeStamps(tables[0])
    requires i < |tables[k]| && tables[k][i].deliveryUpdatedAt.Some?
    ensures |tables[k + 1]| == |tables[k]| && tables[k + 1][i].id == tables[k][i].id
    ensures tables[k + 1][i].status == Fulfilled ==>
              && tables[k + 1][i].deliveryUpdatedAt.Some?
              && tables[k + 1][i].deliveryUpdatedAt.value >= tables[k][i].deliveryUpdatedAt.value
  {
    hide RunPass;
    StampsStayWhole(tables, events, k);
    assert Step(tables[k], events[k], tables[k + 1]);
    var e := events[k];
    PassKeepsWholeStamps(e.p, e.settleFrom, e.unwritable, e.h, e.w, tables[k], i);
  }

  // ----- The limit counts releases, not attempts -----

  /** The same request, fulfilled with the same release again and failed again, `k` weeks later. */
  function FailedAgain(r: Request, k: nat): Request
    requires LastChange(r).Some?
  {
    if k == 0 then r else r.(deliveryUpdatedAt := Some(LastChange(r).value + k * 7 * DAY))
  }

  /** How that download ended: with an error, or cancelled by the stall timer. */
  function FailureRow(r: Request, k: nat): HistoryRow
    requires LastChange(r).Some?
  {
    var ended := LastChange(FailedAgain(r, k));
    if r.delivery == Stopped then HistoryRow(Finished(Stopped), STALL_PREFIX, ended)
    else HistoryRow(Finished(Error), "", ended)
  }

  /** The weekly pass after that failure. */
  function WeekLater(r: Request, k: nat): Event
    requires LastChange(r).Some?
  {
    RetryPass(Pass(LastChange(r).value + (k + 1) * 7 * DAY, 7, None, Some(r.book.provider), 5, None), None, {},
              Some(map[r.id := FailureRow(r, k)]), NO_FAULTS)
  }

  /** An undelivered request whose failure takes no new place on its list, and the list has room. */
  ghost predicate Repeatable(r: Request) {
    && Undelivered(r) && LastChange(r).Some?
    && WellFormedList(r.book.failed) && |r.book.failed| < MAX_FAILURE_RETRIES
    && !NewFailure(r)
  }

  lemma FailureRowIsFault(r: Request, k: nat)
    requires Undelivered(r) && LastChange(r).Some?
    ensures FailureKind(Some(FailureRow(r, k))) == Some(if r.delivery == Stopped then Stalled else Failed)
  {
  }

  lemma RepeatIsReopened(r: Request, k: nat)
    requires Repeatable(r)
    ensures var e, now := WeekLater(r, k), FailedAgain(r, k);
            && RunPass(e.p, None, {}, e.h, NO_FAULTS, [now]) == Progress([Reopened(now)], [r.id])
            && FailureReopen([now], e, r.id) && !NewFailureReopen([now], e, r.id)
  {
    var e, now := WeekLater(r, k), FailedAgain(r, k);
    var rows := [now];
    FailureRowIsFault(r, k);
    assert SettleAll(rows, None, {}) == rows;
    assert MaybeStale(e.p)(now) && Eligible(e.p, e.h.value)(now);
    assert Filter(rows, MaybeStale(e.p)) == rows && Sorting.SortBy(rows, ByLastChange) == rows by {
      assert rows[1..] == [];
    }
    var st := Progress(rows, []);
    VisitEligible(e.p, e.h.value, now, st);
    assert ReopenedBy(e.h.value, now) == Reopened(now);
    WithRowAt(rows, 0, Reopened(now));
    assert rows[0 := Reopened(now)] == [Reopened(now)] && rows[1..] == [];
    assert Loop(e.p, e.h.value, NO_FAULTS, rows, st) == TakeOne(e.h.value, now, st);
  }

  /** The passes come later and later, and none after `until`. */
  ghost predicate OnTime(events: seq<Event>, until: int) {
    && (forall i, j :: 0 <= i < j < |events| && events[i].RetryPass? && events[j].RetryPass? ==>
          events[i].p.now < events[j].p.now)
    && (forall k :: 0 <= k < |events| && events[k].RetryPass? ==> events[k].p.now <= until)
  }

  /** Every failure the request is reopened after is one of these: a release, and the list at that time. */
  ghost predicate FailsWith(tables: seq<seq<Request>>, events: seq<Event>, id: int,
                            fits: (Option<ReleaseKey>, seq<Remembered>) -> bool)
    requires |tables| == |events| + 1
  {
    forall k :: 0 <= k < |events| && FailureReopen(tables[k], events[k], id) && RowOf(tables[k], id).Some? ==>
      fits(RowOf(tables[k], id).value.release, ListAt(tables[k], id))
  }

  /**
  Any request whose failed release is already on its list, or cannot be told, is reopened after a failure
  any number of times, week after week, its list staying as it is.
  */
  lemma {:induction false} RepeatsAreRetriedForever(r: Request, n: nat, fits: (Option<ReleaseKey>, seq<Remembered>) -> bool)
    returns (tables: seq<seq<Request>>, events: seq<Event>)
    requires Repeatable(r) && LastChange(r).Some? && fits(r.release, r.book.failed)
    ensures Run(tables, events) && tables[0] == [r] && AllWellFormed(tables[0]) && Lives(tables, r.id)
    ensures OnTime(events, LastChange(r).value + n * 7 * DAY) && FailsWith(tables, events, r.id, fits)
    ensures CountFailures(tables, events, r.id) == n
    ensures tables[|events|] == [FailedAgain(r, n)]
    decreases n
  {
    hide Step, FailureReopen, OnTime, FailsWith, CountFailures, Repeatable, Lives;
    if n == 0 {
      tables, events := [[r]], [];
      NoEvents(r, fits);
    } else {
      var t, e := RepeatsAreRetriedForever(r, n - 1, fits);
      var waiting, again := [Reopened(FailedAgain(r, n - 1))], [FailedAgain(r, n)];
      tables, events := t + [waiting, again], e + [WeekLater(r, n - 1), Elsewhere];
      OneMoreWeek(r, n - 1);
      RunExtends(t, e, tables, events, r.id);
      CountExtends(t, e, WeekLater(r, n - 1), waiting, again, r.id);
      TimeExtends(e, WeekLater(r, n - 1), LastChange(r).value + (n - 1) * 7 * DAY);
      FailsWithExtends(t, e, WeekLater(r, n - 1), waiting, again, r.id, fits);
    }
  }

  lemma NoEvents(r: Request, fits: (Option<ReleaseKey>, seq<Remembered>) -> bool)
    requires Repeatable(r)
    ensures OnTime([], LastChange(r).value) && FailsWith([[r]], [], r.id, fits) && Lives([[r]], r.id)
    ensures CountFailures([[r]], [], r.id) == 0 && AllWellFormed([r])
  {
  }

  lemma OneMoreWeek(r: Request, k: nat)
    requires Repeatable(r)
    ensures var e, now, waiting := WeekLater(r, k), FailedAgain(r, k), [Reopened(FailedAgain(r, k))];
            && Step([now], e, waiting) && Step(waiting, Elsewhere, [FailedAgain(r, k + 1)])
            && FailureReopen([now], e, r.id)
            && RowOf([now], r.id) == Some(now) && RowOf(waiting, r.id).Some?
            && RowOf([FailedAgain(r, k + 1)], r.id).Some?
  {
    hide RunPass, FailureReopen;
    RepeatIsReopened(r, k);
    var waiting := [Reopened(FailedAgain(r, k))];
    assert RowOf(waiting, r.id) == Some(waiting[0]);
  }

  lemma TimeExtends(e: seq<Event>, x: Event, until: int)
    requires OnTime(e, until) && x.RetryPass? && x.p.now > until
    ensures OnTime(e + [x, Elsewhere], x.p.now)
  {
  }

  lemma FailsWithExtends(t: seq<seq<Request>>, e: seq<Event>, x: Event, a: seq<Request>, b: seq<Request>, id: int,
                         fits: (Option<ReleaseKey>, seq<Remembered>) -> bool)
    requires |t| == |e| + 1 && FailsWith(t, e, id, fits)
    requires RowOf(t[|e|], id).Some? && fits(RowOf(t[|e|], id).value.release, ListAt(t[|e|], id))
    ensures FailsWith(t + [a, b], e + [x, Elsewhere], id, fits)
  {
    hide FailureReopen;
    NeverElsewhere(a, id);
  }

  /** No run whose failures are all of these retries any request more often than its list has room. */
  ghost predicate LimitHolds(fits: (Option<ReleaseKey>, seq<Remembered>) -> bool) {
    forall tables, events, id :: LimitHoldsIn(tables, events, id, fits)
  }

  ghost predicate LimitHoldsIn(tables: seq<seq<Request>>, events: seq<Event>, id: int,
                               fits: (Option<ReleaseKey>, seq<Remembered>) -> bool)
  {
    Run(tables, events) && AllWellFormed(tables[0]) && Lives(tables, id) && FailsWith(tables, events, id, fits) ==>
      CountFailures(tables, events, id) <= MAX_FAILURE_RETRIES - |ListAt(tables[0], id)|
  }

  /**
  The documented limit, and exactly when the code keeps it: whatever the run, a request is reopened after
  at most three failures if and only if each failure below the limit is of a release that can be told
  and is not on the list yet.
  */
  lemma LimitHoldsExactly(fits: (Option<ReleaseKey>, seq<Remembered>) -> bool)
    ensures LimitHolds(fits) <==>
      forall release, failed :: fits(release, failed) && WellFormedList(failed) && |failed| < MAX_FAILURE_RETRIES ==>
        IsNew(release, failed)
  {
    hide LimitHoldsIn, IsNew, WellFormedList;
    if release, failed :| fits(release, failed) && WellFormedList(failed) && |failed| < MAX_FAILURE_RETRIES
                          && !IsNew(release, failed)
    {
      var tables, events := BreaksLimit(release, failed, fits);
    } else {
      forall tables, events, id ensures LimitHoldsIn(tables, events, id, fits) {
        KeepsLimit(tables, events, id, fits);
      }
    }
  }

  lemma BreaksLimit(release: Option<ReleaseKey>, failed: seq<Remembered>, fits: (Option<ReleaseKey>, seq<Remembered>) -> bool)
    returns (tables: seq<seq<Request>>, events: seq<Event>)
    requires fits(release, failed) && WellFormedList(failed) && |failed| < MAX_FAILURE_RETRIES && !IsNew(release, failed)
    ensures !LimitHoldsIn(tables, events, 1, fits)
  {
    hide FailureReopen, FailsWith, CountFailures;
    var r := Request(1, Fulfilled, Error, Some(0), None, None, BookData("hardcover", failed, None), release);
    tables, events := RepeatsAreRetriedForever(r, MAX_FAILURE_RETRIES + 1, fits);
  }

  lemma KeepsLimit(tables: seq<seq<Request>>, events: seq<Event>, id: int,
                   fits: (Option<ReleaseKey>, seq<Remembered>) -> bool)
    requires forall release, failed :: fits(release, failed) && WellFormedList(failed) && |failed| < MAX_FAILURE_RETRIES ==>
               IsNew(release, failed)
    ensures LimitHoldsIn(tables, events, id, fits)
  {
    hide FailureReopen, CountFailures, Step, AllWellFormed, WellFormedList, IsNew;
    if Run(tables, events) && AllWellFormed(tables[0]) && Lives(tables, id) && FailsWith(tables, events, id, fits) {
      forall k | 0 <= k < |events| && FailureReopen(tables[k], events[k], id)
        ensures NewFailureReopen(tables[k], events[k], id)
      {
        ListAtIsWellFormed(tables, events, id, k);
        ListAtIsWellFormed(tables, events, id, k + 1);
        StepOnList(tables[k], events[k], tables[k + 1], id);
      }
      FailuresAreGivenUp(tables, events, id);
    }
  }

  lemma ListAtIsWellFormed(tables: seq<seq<Request>>, events: seq<Event>, id: int, k: nat)
    requires Run(tables, events) && AllWellFormed(tables[0]) && Lives(tables, id) && k < |tables|
    ensures UniqueIds(tables[k]) && WellFormedList(ListAt(tables[k], id))
  {
    ListsStayWellFormed(tables, events, k);
  }

  /** In particular: once a listed release has been offered and has failed again, nothing limits its retries. */
  lemma ListedReleaseIsRetriedForever(key: ReleaseKey, n: nat) returns (tables: seq<seq<Request>>, events: seq<Event>)
    ensures Run(tables, events) && AllWellFormed(tables[0]) && Lives(tables, 1)
    ensures forall k :: 0 <= k < |events| && FailureReopen(tables[k], events[k], 1) ==>
              RowOf(tables[k], 1).value.release == Some(key) && ListAt(tables[k], 1) == [Known(key)]
    ensures CountFailures(tables, events, 1) == n
  {
    hide FailureReopen, CountFailures;
    var r := Request(1, Fulfilled, Error, Some(0), None, None, BookData("hardcover", [Known(key)], None), Some(key));
    tables, events := RepeatsAreRetriedForever(r, n, Listed(key));
  }

  function Listed(key: ReleaseKey): (Option<ReleaseKey>, seq<Remembered>) -> bool {
    (release: Option<ReleaseKey>, failed: seq<Remembered>) => release == Some(key) && failed == [Known(key)]
  }

  /** Two more events at the end of a run. */
  lemma RunExtends(t: seq<seq<Request>>, e: seq<Event>, tables: seq<seq<Request>>, events: seq<Event>, id: int)
    requires Run(t, e) && Lives(t, id)
    requires |tables| == |t| + 2 && |events| == |e| + 2
    requires tables[..|t|] == t && events[..|e|] == e
    requires Step(t[|e|], events[|e|], tables[|t|]) && Step(tables[|t|], events[|e| + 1], tables[|t| + 1])
    requires RowOf(tables[|t|], id).Some? && RowOf(tables[|t| + 1], id).Some?
    ensures Run(tables, events) && Lives(tables, id)
  {
    hide Step;
    forall k | 0 <= k < |events| ensures Step(tables[k], events[k], tables[k + 1]) {
      assert k < |t| ==> tables[k] == tables[..|t|][k];
      assert k + 1 < |t| ==> tables[k + 1] == tables[..|t|][k + 1];
      assert k < |e| ==> events[k] == events[..|e|][k];
    }
    forall k | 0 <= k < |tables| ensures RowOf(tables[k], id).Some? {
      assert k < |t| ==> tables[k] == tables[..|t|][k];
    }
  }

  lemma CountExtends(t: seq<seq<Request>>, e: seq<Event>, x: Event, a: seq<Request>, b: seq<Request>, id: int)
    requires |t| == |e| + 1
    ensures CountFailures(t + [a, b], e + [x, Elsewhere], id)
         == CountFailures(t, e, id) + if FailureReopen(t[|e|], x, id) then 1 else 0
  {
    hide FailureReopen;
    var tables, events := t + [a, b], e + [x, Elsewhere];
    assert tables[..|events|] == t + [a] && events[..|events| - 1] == e + [x];
    assert (t + [a])[..|e| + 1] == t && (e + [x])[..|e|] == e;
    NeverElsewhere(a, id);
  }

  lemma NeverElsewhere(rows: seq<Request>, id: int)
    ensures !FailureReopen(rows, Elsewhere, id)
  {
  }
}
