/**
Download requests, their download history and the table that stores them.

Moments are integers counted in microseconds. A stamp that is missing or cannot be parsed is None.
Text the program trims and lower-cases before looking at it is held trimmed and lower-cased.
*/
module Requests {
  import opened Basics

  const SECOND: int := 1_000_000
  const MINUTE: int := 60 * SECOND
  const HOUR: int := 60 * MINUTE
  const DAY: int := 24 * HOUR

  datatype Status = Pending | Fulfilled | Rejected | Cancelled

  datatype Delivery = NoDelivery | Queued | Resolving | Locating | Downloading | Complete | Error | Stopped

  datatype ReleaseKey = ReleaseKey(source: string, sourceId: string)

  /** An entry of `failed_releases`; one without a source and a source id names no release. */
  datatype Remembered = Known(key: ReleaseKey) | Malformed

  /** The stored no-match counter, and when the last counted search was made. */
  datatype Backoff = Backoff(passes: int, lastSearched: Option<int>)

  datatype BookData = BookData(provider: string, failed: seq<Remembered>, backoff: Option<Backoff>)

  datatype Request = Request(
    id: int,
    status: Status,
    delivery: Delivery,
    deliveryUpdatedAt: Option<int>,
    reviewedAt: Option<int>,
    createdAt: Option<int>,
    book: BookData,
    release: Option<ReleaseKey>)

  datatype FinalStatus = Active | Finished(delivery: Delivery) | Unsettled

  /** The newest history row of a request: how its download ended, what it said, and when. */
  datatype HistoryRow = HistoryRow(status: FinalStatus, message: string, endedAt: Option<int>)

  type History = map<int, HistoryRow>

  /** When the request last changed delivery state, falling back to older stamps. */
  function LastChange(r: Request): Option<int> {
    if r.deliveryUpdatedAt.Some? then r.deliveryUpdatedAt
    else if r.reviewedAt.Some? then r.reviewedAt
    else r.createdAt
  }

  /** A moment written with second precision. */
  function WholeSecond(t: int): int {
    t / SECOND * SECOND
  }

  ghost predicate UniqueIds(rows: seq<Request>) {
    forall i, j :: 0 <= i < j < |rows| ==> rows[i].id != rows[j].id
  }

  /** The table with the row of that id replaced. */
  function WithRow(rows: seq<Request>, r: Request): (result: seq<Request>)
    ensures |result| == |rows|
    ensures forall i :: 0 <= i < |rows| ==> result[i] == if rows[i].id == r.id then r else rows[i]
  {
    seq(|rows|, i requires 0 <= i < |rows| => if rows[i].id == r.id then r else rows[i])
  }

  /** What reopening leaves of a request: it waits again, with no release and no delivery. */
  function Reopened(r: Request): Request {
    r.(status := Pending, delivery := NoDelivery, deliveryUpdatedAt := None, release := None, reviewedAt := None)
  }

  /** A fulfilled request that was not delivered may be reopened, when a reason is given. */
  predicate MayReopen(r: Request) {
    r.status == Fulfilled && r.delivery != Complete
  }

  function RowOf(rows: seq<Request>, id: int): (r: Option<Request>)
    ensures r.Some? ==> r.value in rows && r.value.id == id
    ensures r.None? ==> forall q :: q in rows ==> q.id != id
  {
    if rows == [] then None
    else if rows[0].id == id then Some(rows[0])
    else
      var r := RowOf(rows[1..], id);
      assert rows == [rows[0]] + rows[1..];
      r
  }

  /** The request table, in the order the program lists it (newest created first). */
  class RequestTable {
    var rows: seq<Request>

    /** Write one row back. A row that is no longer there is not written. */
    method Update(r: Request)
      modifies this`rows
      ensures rows == WithRow(old(rows), r)
    {
      rows := WithRow(rows, r);
    }

    method Reopen(id: int) returns (done: bool)
      modifies this`rows
      ensures var r := RowOf(old(rows), id);
              if r.Some? && r.value.status == Fulfilled && r.value.delivery != Complete
              then done && rows == WithRow(old(rows), r.value.(status := Pending, delivery := NoDelivery,
                                             deliveryUpdatedAt := None, release := None, reviewedAt := None))
              else !done && rows == old(rows)
    {
      var r := RowOf(rows, id);
      if r.None? || !MayReopen(r.value) {
        return false;
      }
      rows := WithRow(rows, Reopened(r.value));
      done := true;
    }
  }

  /** After a row is written back its id finds what was written, and every other id what it found before. */
  lemma {:induction false} WithRowFinds(rows: seq<Request>, r: Request, id: int)
    ensures RowOf(WithRow(rows, r), id) ==
            if id == r.id && RowOf(rows, id).Some? then Some(r) else RowOf(rows, id)
  {
    if rows != [] {
      assert WithRow(rows, r)[1..] == WithRow(rows[1..], r);
      WithRowFinds(rows[1..], r, id);
    }
  }

  lemma RowOfMember(rows: seq<Request>, r: Request)
    requires UniqueIds(rows) && r in rows
    ensures RowOf(rows, r.id) == Some(r)
  {
  }

  /** Ids being unique, writing a row changes the place of that row and no other. */
  lemma WithRowAt(rows: seq<Request>, k: nat, r: Request)
    requires UniqueIds(rows) && k < |rows| && rows[k].id == r.id
    ensures WithRow(rows, r) == rows[k := r]
    ensures UniqueIds(rows[k := r])
  {
  }

  lemma WithRowKeepsIds(rows: seq<Request>, r: Request)
    ensures forall i :: 0 <= i < |rows| ==> WithRow(rows, r)[i].id == rows[i].id
    ensures UniqueIds(rows) ==> UniqueIds(WithRow(rows, r))
  {
  }
}
