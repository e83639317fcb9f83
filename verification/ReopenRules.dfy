/**
The reopening pass in the fields of a request and of its newest history row: which downloads are taken
to have failed with their release and which not, how long each waits, and what is left of a request.
*/
module ReopenRules {
  import opened Basics
  import opened Requests
  import opened Settle
  import opened Reopen
  import opened RetryRuns

  /** `part` occurs somewhere in the text. */
  ghost predicate Mentions(text: string, part: string) {
    exists i :: 0 <= i <= |text| && part <= text[i..]
  }

  /** The download client could not be reached. */
  ghost predicate Unreachable(message: string) {
    || Mentions(message, "failed to connect") || Mentions(message, "cannot connect")
    || Mentions(message, "connection refused") || Mentions(message, "connection aborted")
  }

  /** Nothing is known of the download, or it was never ended, or what ended it was not the release. */
  ghost predicate Interruption(row: Option<HistoryRow>) {
    || row.None?
    || row.value.status == Active
    || (row.value.status == Finished(Error) && (row.value.message == "interrupted" || Unreachable(row.value.message)))
  }

  ghost predicate Failure(row: Option<HistoryRow>) {
    row.Some? && row.value.status == Finished(Error) && row.value.message != "interrupted" && !Unreachable(row.value.message)
  }

  ghost predicate Stall(row: Option<HistoryRow>) {
    row.Some? && row.value.status == Finished(Stopped) && "download stalled" <= row.value.message
  }

  lemma {:induction false} ContainsMeans(text: string, part: string)
    ensures Contains(text, part) <==> Mentions(text, part)
  {
    assert text[0..] == text;
    if text != "" {
      ContainsMeans(text[1..], part);
      if Mentions(text[1..], part) {
        var i :| 0 <= i <= |text[1..]| && part <= text[1..][i..];
        assert text[1..][i..] == text[i + 1..];
      }
      if Mentions(text, part) && !(part <= text) {
        var i :| 0 <= i <= |text| && part <= text[i..];
        assert text[1..][i - 1..] == text[i..];
      }
    } else if Mentions(text, part) {
      var i :| 0 <= i <= |text| && part <= text[i..];
      assert text[i..] == text;
    }
  }

  lemma UnreachableMeans(message: string)
    ensures ContainsAny(message, CLIENT_UNREACHABLE) <==> Unreachable(message)
  {
    hide Contains, Mentions;
    ContainsMeans(message, "failed to connect");
    ContainsMeans(message, "cannot connect");
    ContainsMeans(message, "connection refused");
    ContainsMeans(message, "connection aborted");
    assert Contains(message, "failed to connect") ==> Contains(message, CLIENT_UNREACHABLE[0]);
    assert Contains(message, "cannot connect") ==> Contains(message, CLIENT_UNREACHABLE[1]);
    assert Contains(message, "connection refused") ==> Contains(message, CLIENT_UNREACHABLE[2]);
    assert Contains(message, "connection aborted") ==> Contains(message, CLIENT_UNREACHABLE[3]);
  }

  lemma KindMeans(row: Option<HistoryRow>)
    ensures FailureKind(row) == Some(Interrupted) <==> Interruption(row)
    ensures FailureKind(row) == Some(Failed) <==> Failure(row)
    ensures FailureKind(row) == Some(Stalled) <==> Stall(row)
    ensures FailureKind(row) == None <==> !Interruption(row) && !Failure(row) && !Stall(row)
  {
    hide Unreachable, ContainsAny;
    if row.Some? {
      UnreachableMeans(row.value.message);
    }
  }

  /** The moment of the last change: of the delivery, else of the review, else of the creation. */
  predicate ChangedAt(r: Request, change: int) {
    || r.deliveryUpdatedAt == Some(change)
    || (r.deliveryUpdatedAt == None && r.reviewedAt == Some(change))
    || (r.deliveryUpdatedAt == None && r.reviewedAt == None && r.createdAt == Some(change))
  }

  /** The long wait, in days; with none set it never ends. */
  predicate WaitedDays(p: Pass, change: int) {
    p.cooldownDays > 0 && change <= p.now - p.cooldownDays * 86_400_000_000
  }

  /** The wait after a failure: its own if one is set, else the long one. */
  predicate WaitedFailure(p: Pass, change: int) {
    if p.failureCooldown.Some? then change <= p.now - p.failureCooldown.value else WaitedDays(p, change)
  }

  predicate Wanted(p: Pass, kind: Kind) {
    p.onlyKinds.None? || kind in p.onlyKinds.value
  }

  function NewestRow(h: History, id: int): Option<HistoryRow> {
    if id in h then Some(h[id]) else None
  }

  /** The rule in fields. A full list only stops what failed or stalled, a cancelled request only reopens after a stall. */
  ghost predicate MayReopenNow(p: Pass, h: History, r: Request, change: int) {
    var row := NewestRow(h, r.id);
    && r.status == Fulfilled && r.delivery in {Error, Queued, Stopped}
    && (p.provider.None? || p.provider.value == r.book.provider)
    && (|| (Interruption(row) && r.delivery != Stopped && Wanted(p, Interrupted) && WaitedDays(p, change))
        || (Failure(row) && r.delivery != Stopped && Wanted(p, Failed) && WaitedFailure(p, change) && |r.book.failed| < 3)
        || (Stall(row) && Wanted(p, Stalled) && WaitedFailure(p, change) && |r.book.failed| < 3))
  }

  /** What the pass accepts for reopening is exactly that; a request with no known change waits for ever. */
  lemma EligibleMeans(p: Pass, h: History, r: Request, change: int)
    ensures ChangedAt(r, change) ==> (Eligible(p, h)(r) <==> MayReopenNow(p, h, r, change))
    ensures (forall c :: !ChangedAt(r, c)) ==> !Eligible(p, h)(r)
  {
    hide FailureKind, Interruption, Failure, Stall;
    KindMeans(Latest(h, r.id));
    if LastChange(r).Some? {
      assert ChangedAt(r, LastChange(r).value);
    }
  }

  /** A reopened request waits for a search again; only its list may have grown. */
  predicate BackToPending(was: Request, now: Request) {
    && now.status == Pending && now.delivery == NoDelivery && now.release == None
    && now.deliveryUpdatedAt == None && now.reviewedAt == None
    && now.id == was.id && now.createdAt == was.createdAt
    && now.book.provider == was.book.provider && now.book.backoff == was.book.backoff
  }

  /** The list with the release the request was fulfilled with, if that is known and not listed. */
  function WithFailed(r: Request): seq<Remembered> {
    if r.release.Some? && Known(r.release.value) !in r.book.failed
    then r.book.failed + [Known(r.release.value)] else r.book.failed
  }

  /**
  What one pass makes of one request, whatever writes fail. An interrupted download keeps the list as it is and
  waits the days; a failed or stalled one is reopened only below the limit, after the wait for failures, with its
  release on the list; anything else is left as settled.
  */
  lemma PassMeans(p: Pass, settleFrom: Option<History>, unwritable: set<int>, h: History, w: Faults,
                  rows: seq<Request>, i: nat, change: int)
    requires UniqueIds(rows) && i < |rows|
    requires ChangedAt(SettleAll(rows, settleFrom, unwritable)[i], change) && Enabled(p)
    ensures var end := RunPass(p, settleFrom, unwritable, Some(h), w, rows);
            var was, row := SettleAll(rows, settleFrom, unwritable)[i], NewestRow(h, rows[i].id);
            && |end.rows| == |rows| && end.rows[i].id == rows[i].id
            && (rows[i].id in end.reopened ==> BackToPending(was, end.rows[i]))
            && (Interruption(row) ==>
                  && end.rows[i].book.failed == rows[i].book.failed
                  && (rows[i].id in end.reopened ==>
                        WaitedDays(p, change) && Wanted(p, Interrupted) && was.delivery != Stopped)
                  && (rows[i].id !in end.reopened ==> end.rows[i] == was))
            && (Failure(row) || Stall(row) ==>
                  && (rows[i].id in end.reopened ==>
                        && WaitedFailure(p, change) && |rows[i].book.failed| < 3
                        && end.rows[i].book.failed == WithFailed(was)
                        && (Failure(row) ==> Wanted(p, Failed) && was.delivery != Stopped)
                        && (Stall(row) ==> Wanted(p, Stalled)))
                  && (rows[i].id !in end.reopened ==>
                        end.rows[i] == was || end.rows[i] == was.(book := was.book.(failed := WithFailed(was)))))
            && (!Interruption(row) && !Failure(row) && !Stall(row) ==> rows[i].id !in end.reopened && end.rows[i] == was)
  {
    hide RunPass, FailureKind, Interruption, Failure, Stall, SettleRow;
    KindMeans(Latest(h, rows[i].id));
    PassEffect(p, settleFrom, unwritable, Some(h), w, rows, i);
    assert NewestRow(h, rows[i].id) == Latest(h, rows[i].id);
  }
}
