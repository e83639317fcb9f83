/** Settling the delivery states of requests that still say "queued" or "downloading". */
module Settle {
  import opened Basics
  import opened Requests

  predicate SaysLive(r: Request) {
    r.status == Fulfilled && r.delivery in {Queued, Downloading}
  }

  /** The newest history row is the outcome of this request's current attempt. */
  predicate Ended(r: Request, h: History) {
    && r.id in h
    && h[r.id].status.Finished?
    && h[r.id].endedAt.Some?
    && (LastChange(r).None? || h[r.id].endedAt.value > LastChange(r).value)
  }

  function Settled(r: Request, row: HistoryRow): Request
    requires row.status.Finished? && row.endedAt.Some?
  {
    r.(delivery := row.status.delivery, deliveryUpdatedAt := Some(WholeSecond(row.endedAt.value)))
  }

  /** History rows end as complete, error or cancelled; nothing else settles a request. */
  predicate WellFormedHistory(h: History) {
    forall id :: id in h && h[id].status.Finished? ==> h[id].status.delivery in {Complete, Error, Stopped}
  }

  function SettleRow(r: Request, h: History, unwritable: set<int>): Request {
    if SaysLive(r) && Ended(r, h) && r.id !in unwritable then Settled(r, h[r.id]) else r
  }

  /** What the pass makes of the table, given the history (None: it could not be read). */
  function SettleAll(rows: seq<Request>, h: Option<History>, unwritable: set<int>): (result: seq<Request>)
    ensures |result| == |rows|
    ensures forall i :: 0 <= i < |rows| ==>
      result[i] == if h.None? then rows[i] else SettleRow(rows[i], h.value, unwritable)
  {
    if h.None? then rows
    else seq(|rows|, i requires 0 <= i < |rows| => SettleRow(rows[i], h.value, unwritable))
  }

  function ChangedRows(before: seq<Request>, after: seq<Request>): set<int>
    requires |before| == |after|
  {
    set i | 0 <= i < |before| && before[i] != after[i]
  }

  lemma SettlingIsAChange(r: Request, h: History)
    requires WellFormedHistory(h) && SaysLive(r) && Ended(r, h)
    ensures r.id in h && h[r.id].status.Finished? && h[r.id].endedAt.Some?
    ensures Settled(r, h[r.id]) != r && Settled(r, h[r.id]).id == r.id
  {
  }

  lemma OneMoreChanged(start: seq<Request>, rows: seq<Request>, k: nat, now: Request)
    requires |start| == |rows| && k < |rows| && rows[k] == start[k] != now
    ensures |ChangedRows(start, rows[k := now])| == |ChangedRows(start, rows)| + 1
  {
    assert ChangedRows(start, rows[k := now]) == ChangedRows(start, rows) + {k};
  }

  lemma NoneChanged(rows: seq<Request>)
    ensures ChangedRows(rows, rows) == {}
  {
  }

  /** The pass: collect the candidates once, then write those whose download has ended. */
  method SettleDeliveryStates(table: RequestTable, h: Option<History>, unwritable: set<int>)
    returns (settled: nat)
    requires UniqueIds(table.rows)
    requires h.Some? ==> WellFormedHistory(h.value)
    modifies table
    ensures table.rows == SettleAll(old(table.rows), h, unwritable)
    ensures settled == |ChangedRows(old(table.rows), table.rows)|
  {
    hide UniqueIds, Ended, LastChange, WholeSecond, ChangedRows, WellFormedHistory;
    settled := 0;
    ghost var start := table.rows;
    NoneChanged(start);
    if h.None? {
      return;
    }
    var listed := table.rows;
    for k := 0 to |listed|
      invariant |table.rows| == |start| && UniqueIds(table.rows)
      invariant forall i :: 0 <= i < k ==> table.rows[i] == SettleRow(start[i], h.value, unwritable)
      invariant forall i :: k <= i < |start| ==> table.rows[i] == start[i]
      invariant settled == |ChangedRows(start, table.rows)|
    {
      var r := listed[k];
      ghost var before := table.rows;
      if SaysLive(r) && Ended(r, h.value) && r.id !in unwritable {
        SettlingIsAChange(r, h.value);
        var now := Settled(r, h.value[r.id]);
        WithRowAt(before, k, now);
        table.Update(now);
        settled := settled + 1;
        OneMoreChanged(start, before, k, now);
      }
    }
    assert table.rows == SettleAll(start, h, unwritable);
  }

  /** Only delivery state and its stamp change, and only for requests that said they were live. */
  lemma SettleTouchesOnlyLiveRequests(r: Request, h: History, unwritable: set<int>)
    requires WellFormedHistory(h)
    ensures SettleRow(r, h, unwritable) != r ==>
      && r.status == Fulfilled && r.delivery in {Queued, Downloading}
      && r.id in h && h[r.id].endedAt.Some?
      && (LastChange(r).Some? ==> h[r.id].endedAt.value > LastChange(r).value)
      && SettleRow(r, h, unwritable).delivery in {Complete, Error, Stopped}
      && SettleRow(r, h, unwritable)
         == r.(delivery := h[r.id].status.delivery, deliveryUpdatedAt := Some(WholeSecond(h[r.id].endedAt.value)))
  {
  }

  /** The moment a request last changed: the delivery stamp, without one the review, without that its creation. */
  predicate ChangedBefore(r: Request, t: int) {
    if r.deliveryUpdatedAt.Some? then r.deliveryUpdatedAt.value < t
    else if r.reviewedAt.Some? then r.reviewedAt.value < t
    else r.createdAt.Some? ==> r.createdAt.value < t
  }

  /** A pass settles exactly these rows, and each to the end of its newest history row. */
  lemma SettlesExactly(rows: seq<Request>, h: Option<History>, unwritable: set<int>, i: nat)
    requires i < |rows|
    ensures var r, once := rows[i], SettleAll(rows, h, unwritable);
            if && h.Some?
               && r.status == Fulfilled && (r.delivery == Queued || r.delivery == Downloading)
               && r.id in h.value && h.value[r.id].status.Finished? && h.value[r.id].endedAt.Some?
               && ChangedBefore(r, h.value[r.id].endedAt.value)
               && r.id !in unwritable
            then
              var row := h.value[r.id];
              once[i] == r.(delivery := row.status.delivery,
                            deliveryUpdatedAt := Some(row.endedAt.value - row.endedAt.value % 1_000_000))
            else once[i] == r
  {
  }

  /** Settling twice is settling once, even when the history has moved on in between. */
  lemma SettleIsIdempotent(rows: seq<Request>, h: Option<History>, later: Option<History>, unwritable: set<int>)
    requires h.Some? ==> WellFormedHistory(h.value)
    ensures var once := SettleAll(rows, h, unwritable);
            && SettleAll(once, h, unwritable) == once
            && forall i :: 0 <= i < |rows| && once[i] != rows[i] ==>
                 SettleAll(once, later, {})[i] == once[i]
  {
  }

  predicate KnownStamp(r: Request, stamp: int) {
    r.deliveryUpdatedAt == Some(stamp)
  }

  /** Settling against this history leaves the stamp where it is or moves it on. */
  ghost predicate StampKept(r: Request, stamp: int, h: History) {
    var after := SettleRow(r, h, {}).deliveryUpdatedAt;
    after.Some? && after.value >= stamp
  }

  /**
  The known stamp of a live request is never moved back by settling, whatever the history holds, exactly
  when it is a whole second or the last microsecond of one. The end of the download is compared in full
  precision but stored with second precision, so any other stamp could be undercut.
  */
  lemma StampNeverMovesBack(r: Request, stamp: int)
    requires SaysLive(r) && KnownStamp(r, stamp)
    ensures (forall h: History :: WellFormedHistory(h) ==> StampKept(r, stamp, h))
        <==> stamp % SECOND == 0 || stamp % SECOND == SECOND - 1
  {
    if stamp % SECOND == 0 || stamp % SECOND == SECOND - 1 {
      forall h: History | WellFormedHistory(h) ensures StampKept(r, stamp, h) {
        if Ended(r, h) {
          LaterSecond(stamp, h[r.id].endedAt.value);
        }
      }
    } else {
      var h: History := map[r.id := HistoryRow(Finished(Error), "", Some(stamp + 1))];
      assert (stamp + 1) / SECOND == stamp / SECOND;
      assert !StampKept(r, stamp, h);
    }
  }

  lemma LaterSecond(stamp: int, ended: int)
    requires (stamp % SECOND == 0 || stamp % SECOND == SECOND - 1) && ended > stamp
    ensures WholeSecond(ended) >= stamp
  {
    if stamp % SECOND == 0 {
      assert ended / SECOND >= stamp / SECOND;
    } else {
      assert ended / SECOND >= (stamp + 1) / SECOND && (stamp + 1) % SECOND == 0;
    }
  }

  /** So for a table whose stamps are whole seconds, as the program writes them, no stamp moves back. */
  lemma SettleKeepsStampsMonotone(rows: seq<Request>, h: Option<History>, unwritable: set<int>, i: nat)
    requires i < |rows| && rows[i].deliveryUpdatedAt.Some?
    requires rows[i].deliveryUpdatedAt.value % SECOND == 0
    ensures var once := SettleAll(rows, h, unwritable);
            && once[i].deliveryUpdatedAt.Some?
            && once[i].deliveryUpdatedAt.value >= rows[i].deliveryUpdatedAt.value
            && once[i].deliveryUpdatedAt.value % SECOND == 0
  {
  }
}
