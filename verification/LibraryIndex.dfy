/**
The library index cache: one slot for each library, read again past its age or when the library
changed, with a back-off after a failed read.
*/
module LibraryIndex {
  import opened Basics

  const TTL := 600
  const BACKOFF := 60

  datatype LibraryEntry = LibraryEntry(id: string)

  type Listing = seq<LibraryEntry>

  datatype Slot = Slot(entries: Option<Listing>, fetchedAt: int, fingerprint: Option<string>, failedAt: Option<int>)

  const EMPTY_SLOT := Slot(None, 0, None, None)

  /**
  One call: its three readings of the clock, and what the library would answer, an outer None being an
  exception. The fingerprint of a library that has none is itself None.
  */
  datatype Call = Call(
    strict: bool,
    begun: int,
    compared: int,
    ended: int,
    fingerprint: Option<Option<string>>,
    listing: Option<Listing>)

  datatype Response = Listed(entries: Listing) | Unavailable

  // ----- The steps of a call, each under its own hold of the lock -----

  predicate BackingOff(s: Slot, now: int) {
    s.failedAt.Some? && now - s.failedAt.value < BACKOFF
  }

  predicate Reusable(s: Slot, fingerprint: Option<string>, now: int) {
    s.entries.Some? && now - s.fetchedAt < TTL && fingerprint == s.fingerprint
  }

  predicate HadEntries(s: Slot) {
    s.entries.Some? && s.entries.value != []
  }

  /** A library that held books and now lists none is treated as unreadable. */
  predicate Acceptable(s: Slot, listing: Listing) {
    !HadEntries(s) || listing != []
  }

  function Stored(s: Slot, listing: Listing, fingerprint: Option<string>, now: int): Slot {
    Slot(Some(listing), now, fingerprint, None)
  }

  function Fallback(s: Slot, strict: bool): Response {
    if s.entries.Some? then Listed(s.entries.value)
    else if strict then Unavailable
    else Listed([])
  }

  // ----- A whole call -----

  predicate Reads(s: Slot, c: Call) {
    !BackingOff(s, c.begun)
  }

  predicate Reuses(s: Slot, c: Call) {
    Reads(s, c) && c.fingerprint.Some? && Reusable(s, c.fingerprint.value, c.compared)
  }

  /** The call stores the listing it fetched. */
  predicate Indexes(s: Slot, c: Call) {
    && Reads(s, c) && !Reuses(s, c)
    && c.fingerprint.Some? && c.listing.Some? && Acceptable(s, c.listing.value)
  }

  predicate Fails(s: Slot, c: Call) {
    Reads(s, c) && !Reuses(s, c) && !Indexes(s, c)
  }

  function AfterCall(s: Slot, c: Call): Slot {
    if Indexes(s, c) then Stored(s, c.listing.value, c.fingerprint.value, c.ended)
    else if Fails(s, c) then s.(failedAt := Some(c.ended))
    else s
  }

  function Respond(s: Slot, c: Call): Response {
    if Indexes(s, c) then Listed(c.listing.value)
    else if Reuses(s, c) then Listed(s.entries.value)
    else Fallback(s, c.strict)
  }

  /** The slot as the program updates it, one field after the other. */
  class CacheSlot {
    var entries: Option<Listing>
    var fetchedAt: int
    var fingerprint: Option<string>
    var failedAt: Option<int>

    function State(): Slot
      reads this
    {
      Slot(entries, fetchedAt, fingerprint, failedAt)
    }

    constructor ()
      ensures State() == EMPTY_SLOT
    {
      entries, fetchedAt, fingerprint, failedAt := None, 0, None, None;
    }

    method Store(listing: Listing, mark: Option<string>, now: int)
      modifies this
      ensures State() == Stored(old(State()), listing, mark, now)
    {
      entries := Some(listing);
      fetchedAt := now;
      fingerprint := mark;
      failedAt := None;
    }

    method EntriesFor(c: Call) returns (response: Response)
      modifies this
      ensures State() == AfterCall(old(State()), c)
      ensures response == Respond(old(State()), c)
    {
      var backingOff := failedAt.Some? && c.begun - failedAt.value < BACKOFF;
      if backingOff {
        if entries.Some? {
          return Listed(entries.value);
        }
        return if c.strict then Unavailable else Listed([]);
      }
      var failed := true;
      if c.fingerprint.Some? {
        var recent := c.compared - fetchedAt < TTL;
        var sameMark := c.fingerprint.value == fingerprint;
        if entries.Some? && recent && sameMark {
          return Listed(entries.value);
        }
        if c.listing.Some? {
          var hadEntries := entries.Some? && entries.value != [];
          failed := hadEntries && c.listing.value == [];
        }
      }
      if failed {
        failedAt := Some(c.ended);
        if entries.Some? {
          return Listed(entries.value);
        }
        return if c.strict then Unavailable else Listed([]);
      }
      Store(c.listing.value, c.fingerprint.value, c.ended);
      response := Listed(c.listing.value);
    }
  }

  // ----- A call in the fields of slot and library -----

  /** A failure in the last minute holds the read back. */
  predicate BackedOff(s: Slot, c: Call) {
    s.failedAt.Some? && c.begun < s.failedAt.value + 60
  }

  /** What is there is less than ten minutes old and the library has not changed. */
  predicate StillGood(s: Slot, c: Call) {
    && c.fingerprint.Some? && s.entries.Some?
    && c.compared < s.fetchedAt + 600 && s.fingerprint == c.fingerprint.value
  }

  /** The library gave its fingerprint and a list, and not an empty one in place of a filled one. */
  predicate Readable(s: Slot, c: Call) {
    && c.fingerprint.Some? && c.listing.Some?
    && (s.entries.None? || s.entries.value == [] || c.listing.value != [])
  }

  /** What is answered without a new list: the old one, and without any an empty one or, strictly, nothing. */
  predicate FallsBack(s: Slot, c: Call, r: Response) {
    && (s.entries.Some? ==> r == Listed(s.entries.value))
    && (s.entries.None? && c.strict ==> r == Unavailable)
    && (s.entries.None? && !c.strict ==> r == Listed([]))
  }

  /** Which list a call answers with, and what it leaves behind. */
  lemma CallMeans(s: Slot, c: Call)
    ensures var after, r := AfterCall(s, c), Respond(s, c);
            if BackedOff(s, c) then after == s && FallsBack(s, c, r)
            else if StillGood(s, c) then after == s && r == Listed(s.entries.value)
            else if Readable(s, c) then
              && r == Listed(c.listing.value)
              && after == Slot(c.listing, c.ended, c.fingerprint.value, None)
            else
              && FallsBack(s, c, r)
              && after == Slot(s.entries, s.fetchedAt, s.fingerprint, Some(c.ended))
  {
  }

  // ----- Runs of one library's calls, one after the other -----

  ghost predicate Run(slots: seq<Slot>, calls: seq<Call>) {
    && |slots| == |calls| + 1
    && slots[0] == EMPTY_SLOT
    && (forall k :: 0 <= k < |calls| ==> slots[k + 1] == AfterCall(slots[k], calls[k]))
    && (forall k :: 0 <= k < |calls| ==> calls[k].begun <= calls[k].compared <= calls[k].ended)
    && (forall i, j :: 0 <= i < j < |calls| ==> calls[i].ended <= calls[j].begun)
  }

  /** A library known to hold books is never taken for an empty one again. */
  lemma {:induction false} BooksAreNeverForgotten(slots: seq<Slot>, calls: seq<Call>, i: nat, j: nat)
    requires Run(slots, calls) && i <= j < |slots|
    requires HadEntries(slots[i])
    ensures HadEntries(slots[j])
    ensures j < |calls| ==> Respond(slots[j], calls[j]).Listed? && Respond(slots[j], calls[j]).entries != []
    decreases j
  {
    if i < j {
      BooksAreNeverForgotten(slots, calls, i, j - 1);
      assert slots[j] == AfterCall(slots[j - 1], calls[j - 1]);
    }
  }

  /** What the slot holds, the library once listed. */
  lemma {:induction false} EntriesWereFetched(slots: seq<Slot>, calls: seq<Call>, k: nat)
    requires Run(slots, calls) && k < |slots|
    ensures slots[k].entries.Some? ==>
      exists j :: 0 <= j < k && Indexes(slots[j], calls[j]) && calls[j].listing == slots[k].entries
                  && slots[k].fingerprint == calls[j].fingerprint.value && slots[k].fetchedAt == calls[j].ended
    decreases k
  {
    if k > 0 {
      EntriesWereFetched(slots, calls, k - 1);
      assert slots[k] == AfterCall(slots[k - 1], calls[k - 1]);
      if slots[k].entries.Some? && !Indexes(slots[k - 1], calls[k - 1]) {
        var j :| 0 <= j < k - 1 && Indexes(slots[j], calls[j]) && calls[j].listing == slots[k - 1].entries
                 && slots[k - 1].fingerprint == calls[j].fingerprint.value && slots[k - 1].fetchedAt == calls[j].ended;
      }
    }
  }

  /**
  A strict call answers only with what the library itself listed, in this call or an earlier one. Any
  call does when it had an answer to fall back on, and without one only a strict call refuses.
  */
  lemma AnswersWereFetched(slots: seq<Slot>, calls: seq<Call>, k: nat)
    requires Run(slots, calls) && k < |calls|
    ensures var r := Respond(slots[k], calls[k]);
            && (r.Unavailable? <==> calls[k].strict && slots[k].entries.None? && !Indexes(slots[k], calls[k]))
            && (r.Listed? && (calls[k].strict || r.entries != []) ==>
                  exists j :: 0 <= j <= k && Indexes(slots[j], calls[j]) && calls[j].listing == Some(r.entries))
  {
    EntriesWereFetched(slots, calls, k);
    if slots[k].entries.Some? {
      var j :| 0 <= j < k && Indexes(slots[j], calls[j]) && calls[j].listing == slots[k].entries
               && slots[k].fingerprint == calls[j].fingerprint.value && slots[k].fetchedAt == calls[j].ended;
    }
  }

  /** Unless reading fails or is held back, the answer is new, or unchanged and under ten minutes old. */
  lemma AnswersAreRecent(slots: seq<Slot>, calls: seq<Call>, k: nat)
    requires Run(slots, calls) && k < |calls|
    requires Reads(slots[k], calls[k]) && !Fails(slots[k], calls[k])
    ensures exists j :: 0 <= j <= k && Indexes(slots[j], calls[j])
                        && Respond(slots[k], calls[k]) == Listed(calls[j].listing.value)
                        && calls[j].fingerprint == calls[k].fingerprint
                        && (j == k || calls[k].compared < calls[j].ended + 600)
  {
    EntriesWereFetched(slots, calls, k);
    if Reuses(slots[k], calls[k]) {
      var j :| 0 <= j < k && Indexes(slots[j], calls[j]) && calls[j].listing == slots[k].entries
               && slots[k].fingerprint == calls[j].fingerprint.value && slots[k].fetchedAt == calls[j].ended;
    }
  }

  /** Since that failure, the slot still remembers it or a whole back-off has passed. */
  lemma {:induction false} FailureIsRemembered(slots: seq<Slot>, calls: seq<Call>, i: nat, j: nat)
    requires Run(slots, calls) && i < j < |slots|
    requires Fails(slots[i], calls[i])
    ensures slots[j].failedAt == Some(calls[i].ended)
         || (j > i + 1 && calls[j - 1].ended >= calls[i].ended + BACKOFF)
    decreases j
  {
    assert slots[j] == AfterCall(slots[j - 1], calls[j - 1]);
    if j > i + 1 {
      FailureIsRemembered(slots, calls, i, j - 1);
    }
  }

  /**
  Once a read has failed, the library is not read again for a minute, so at most one read of it fails
  in any half-open window of that length.
  */
  lemma FailuresAreSpaced(slots: seq<Slot>, calls: seq<Call>, i: nat, j: nat)
    requires Run(slots, calls) && i < j < |calls|
    requires Fails(slots[i], calls[i]) && Reads(slots[j], calls[j])
    ensures calls[j].begun >= calls[i].ended + 60
    ensures calls[j].ended >= calls[i].ended + 60
  {
    FailureIsRemembered(slots, calls, i, j);
  }

  /** The other half: nothing but a failure within the last minute holds a read back. */
  lemma {:induction false} ReadsOtherwise(slots: seq<Slot>, calls: seq<Call>, k: nat)
    requires Run(slots, calls) && k < |calls| && !Reads(slots[k], calls[k])
    ensures exists i :: 0 <= i < k && Fails(slots[i], calls[i]) && calls[k].begun < calls[i].ended + 60
  {
    FailureHappened(slots, calls, k);
  }

  lemma {:induction false} FailureHappened(slots: seq<Slot>, calls: seq<Call>, k: nat)
    requires Run(slots, calls) && k < |slots|
    ensures slots[k].failedAt.Some? ==>
      exists i :: 0 <= i < k && Fails(slots[i], calls[i]) && slots[k].failedAt == Some(calls[i].ended)
    decreases k
  {
    if k > 0 {
      FailureHappened(slots, calls, k - 1);
      assert slots[k] == AfterCall(slots[k - 1], calls[k - 1]);
      if slots[k].failedAt.Some? && !Fails(slots[k - 1], calls[k - 1]) {
        var i :| 0 <= i < k - 1 && Fails(slots[i], calls[i]) && slots[k - 1].failedAt == Some(calls[i].ended);
      }
    }
  }

  // ----- Asking several libraries -----

  datatype Ownership = Held | NotHeld | CannotTell

  /** The libraries in order, stopping at the first that holds the book or refuses. */
  function InLibrary(slots: seq<Slot>, calls: seq<Call>, matches: Listing -> bool): (Ownership, seq<Slot>)
    requires |slots| == |calls|
  {
    if slots == [] then (NotHeld, [])
    else
      var r := Respond(slots[0], calls[0]);
      var first := AfterCall(slots[0], calls[0]);
      if r.Unavailable? then (CannotTell, [first] + slots[1..])
      else if matches(r.entries) then (Held, [first] + slots[1..])
      else
        var rest := InLibrary(slots[1..], calls[1..], matches);
        (rest.0, [first] + rest.1)
  }

  /** This library lists its books, and this one is not among them. */
  predicate GoesOn(s: Slot, c: Call, matches: Listing -> bool) {
    Respond(s, c).Listed? && !matches(Respond(s, c).entries)
  }

  /**
  The first library that refuses or holds the book decides: it is held, or it cannot be told. The libraries up
  to that one have been called, and no other.
  */
  lemma {:induction false} FirstDecides(slots: seq<Slot>, calls: seq<Call>, matches: Listing -> bool, k: nat)
    requires |slots| == |calls| && k <= |slots|
    requires forall i :: 0 <= i < k ==> GoesOn(slots[i], calls[i], matches)
    requires k < |slots| ==> !GoesOn(slots[k], calls[k], matches)
    ensures var (answer, after) := InLibrary(slots, calls, matches);
            && answer == (if k == |slots| then NotHeld
                          else if Respond(slots[k], calls[k]).Listed? then Held
                          else CannotTell)
            && |after| == |slots|
            && forall i :: 0 <= i < |slots| ==> after[i] == if i <= k then AfterCall(slots[i], calls[i]) else slots[i]
  {
    hide Respond, AfterCall;
    if k > 0 {
      forall i | 0 <= i < k - 1 ensures GoesOn(slots[1..][i], calls[1..][i], matches) {
        assert slots[1..][i] == slots[i + 1] && calls[1..][i] == calls[i + 1];
      }
      FirstDecides(slots[1..], calls[1..], matches, k - 1);
      assert GoesOn(slots[0], calls[0], matches);
    }
  }

  /** "Not held" is said only when every library answered, with a list of its own, without the book. */
  lemma {:induction false} NotHeldIsKnown(slots: seq<Slot>, calls: seq<Call>, matches: Listing -> bool)
    requires |slots| == |calls|
    ensures InLibrary(slots, calls, matches).0 == NotHeld <==>
      forall k :: 0 <= k < |slots| ==>
        Respond(slots[k], calls[k]).Listed? && !matches(Respond(slots[k], calls[k]).entries)
    ensures InLibrary(slots, calls, matches).0 == Held <==>
      exists k :: 0 <= k < |slots| && Respond(slots[k], calls[k]).Listed?
        && matches(Respond(slots[k], calls[k]).entries)
        && forall i :: 0 <= i < k ==> GoesOn(slots[i], calls[i], matches)
    ensures (forall k :: 0 <= k < |calls| ==> !calls[k].strict) ==> InLibrary(slots, calls, matches).0 != CannotTell
  {
    var k := FirstStop(slots, calls, matches);
    FirstDecides(slots, calls, matches, k);
  }

  lemma {:induction false} FirstStop(slots: seq<Slot>, calls: seq<Call>, matches: Listing -> bool) returns (k: nat)
    requires |slots| == |calls|
    ensures k <= |slots|
    ensures forall i :: 0 <= i < k ==> GoesOn(slots[i], calls[i], matches)
    ensures k < |slots| ==> !GoesOn(slots[k], calls[k], matches)
  {
    k := 0;
    while k < |slots| && GoesOn(slots[k], calls[k], matches)
      invariant k <= |slots| && forall i :: 0 <= i < k ==> GoesOn(slots[i], calls[i], matches)
    {
      k := k + 1;
    }
  }
}
