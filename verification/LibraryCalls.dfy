/**
Calls to one library's index that overlap. A call holds the lock only for single looks and writes, and
waits for the library in between, so any number of calls may be under way at once; every run below
interleaves their steps in any order.
*/
module LibraryCalls {
  import opened Basics
  import opened LibraryIndex

  /** How far a call is; the work done outside the lock ends with the step that leaves the phase. */
  datatype Phase =
    | Comparing
    | Fetching(fingerprint: Option<string>)
    | Storing(fingerprint: Option<string>, listing: Listing)
    | Failing
    | Done(response: Response)

  datatype Running = Running(strict: bool, phase: Phase)

  datatype State = State(slot: Slot, now: int, calls: map<nat, Running>)

  /**
  `Begins` looks for a back-off; `Compares` has the fingerprint and looks for a list to reuse; `Lists` has
  the listing and looks for earlier entries; `Raises` is an exception of the library; `Fails` and
  `Stores` write the slot.
  */
  datatype Event =
    | Begins(id: nat, strict: bool)
    | Compares(id: nat, fingerprint: Option<string>)
    | Lists(id: nat, listing: Listing)
    | Raises(id: nat)
    | Fails(id: nat)
    | Stores(id: nat)
    | Waits(time: nat)

  function At(s: State, id: nat, phase: Phase): State
    requires id in s.calls
  {
    s.(calls := s.calls[id := s.calls[id].(phase := phase)])
  }

  /** None when the step is not possible in this state. */
  function Step(s: State, e: Event): Option<State> {
    match e
    case Begins(id, strict) =>
      if id in s.calls then None
      else
        var phase := if BackingOff(s.slot, s.now) then Done(Fallback(s.slot, strict)) else Comparing;
        Some(s.(calls := s.calls[id := Running(strict, phase)]))
    case Compares(id, fingerprint) =>
      if id !in s.calls || !s.calls[id].phase.Comparing? then None
      else if Reusable(s.slot, fingerprint, s.now) then Some(At(s, id, Done(Listed(s.slot.entries.value))))
      else Some(At(s, id, Fetching(fingerprint)))
    case Lists(id, listing) =>
      if id !in s.calls || !s.calls[id].phase.Fetching? then None
      else if Acceptable(s.slot, listing) then Some(At(s, id, Storing(s.calls[id].phase.fingerprint, listing)))
      else Some(At(s, id, Failing))
    case Raises(id) =>
      if id !in s.calls || !(s.calls[id].phase.Comparing? || s.calls[id].phase.Fetching?) then None
      else Some(At(s, id, Failing))
    case Fails(id) =>
      if id !in s.calls || !s.calls[id].phase.Failing? then None
      else Some(At(s, id, Done(Fallback(s.slot, s.calls[id].strict))).(slot := s.slot.(failedAt := Some(s.now))))
    case Stores(id) =>
      if id !in s.calls || !s.calls[id].phase.Storing? then None
      else
        var phase := s.calls[id].phase;
        Some(At(s, id, Done(Listed(phase.listing))).(slot := Stored(s.slot, phase.listing, phase.fingerprint, s.now)))
    case Waits(time) => Some(s.(now := s.now + time))
  }

  ghost predicate Steps(states: seq<State>, events: seq<Event>) {
    && |states| == |events| + 1
    && forall k :: 0 <= k < |events| ==> Step(states[k], events[k]) == Some(states[k + 1])
  }

  /** From a slot never used, at any time. */
  ghost predicate Run(states: seq<State>, events: seq<Event>) {
    Steps(states, events) && states[0].slot == EMPTY_SLOT && states[0].calls == map[]
  }

  // ----- A call that runs alone -----

  lemma Extend(states: seq<State>, events: seq<Event>, e: Event) returns (longer: seq<State>, more: seq<Event>)
    requires Steps(states, events) && Step(states[|events|], e).Some?
    ensures Steps(longer, more) && |more| == |events| + 1 && |longer| == |more| + 1
    ensures longer[|more|] == Step(states[|events|], e).value
    ensures longer[0] == states[0] && longer[|events|] == states[|events|]
  {
    longer, more := states + [Step(states[|events|], e).value], events + [e];
  }

  /** These states and events take a call from its beginning to its end, with the effect and answer of the whole. */
  ghost predicate Alone(s: State, id: nat, c: Call, states: seq<State>, events: seq<Event>) {
    && Steps(states, events) && |states| == |events| + 1 && states[0] == s
    && var last := states[|events|];
       && last.slot == AfterCall(s.slot, c) && last.calls - {id} == s.calls
       && id in last.calls && last.calls[id] == Running(c.strict, Done(Respond(s.slot, c)))
  }

  /** The steps of one call, taken without interruption at its own times, are the whole call. */
  lemma AloneIsEntriesFor(s: State, id: nat, c: Call) returns (states: seq<State>, events: seq<Event>)
    requires id !in s.calls && s.now == c.begun <= c.compared <= c.ended
    ensures Alone(s, id, c, states, events)
  {
    hide Alone;
    if c.fingerprint.Some? && Reads(s.slot, c) && !Reuses(s.slot, c) {
      states, events := AloneFetches(s, id, c);
    } else if c.fingerprint.None? && Reads(s.slot, c) {
      states, events := AloneRaises(s, id, c);
    } else {
      states, events := AloneReuses(s, id, c);
    }
  }

  lemma AloneReuses(s: State, id: nat, c: Call) returns (states: seq<State>, events: seq<Event>)
    requires id !in s.calls && s.now == c.begun <= c.compared
    requires !Reads(s.slot, c) || Reuses(s.slot, c)
    ensures Alone(s, id, c, states, events)
  {
    hide Steps;
    states, events := [s], [];
    NoSteps(s);
    states, events := Extend(states, events, Begins(id, c.strict));
    if Reads(s.slot, c) {
      states, events := Extend(states, events, Waits(c.compared - c.begun));
      states, events := Extend(states, events, Compares(id, c.fingerprint.value));
    }
  }

  lemma AloneRaises(s: State, id: nat, c: Call) returns (states: seq<State>, events: seq<Event>)
    requires id !in s.calls && s.now == c.begun <= c.ended
    requires Reads(s.slot, c) && c.fingerprint.None?
    ensures Alone(s, id, c, states, events)
  {
    hide Steps;
    states, events := [s], [];
    NoSteps(s);
    states, events := Extend(states, events, Begins(id, c.strict));
    states, events := Extend(states, events, Raises(id));
    states, events := Extend(states, events, Waits(c.ended - c.begun));
    states, events := Extend(states, events, Fails(id));
  }

  lemma AloneFetches(s: State, id: nat, c: Call) returns (states: seq<State>, events: seq<Event>)
    requires id !in s.calls && s.now == c.begun <= c.compared <= c.ended
    requires Reads(s.slot, c) && !Reuses(s.slot, c) && c.fingerprint.Some?
    ensures Alone(s, id, c, states, events)
  {
    hide Steps;
    states, events := [s], [];
    NoSteps(s);
    states, events := Extend(states, events, Begins(id, c.strict));
    states, events := Extend(states, events, Waits(c.compared - c.begun));
    states, events := Extend(states, events, Compares(id, c.fingerprint.value));
    states, events := Extend(states, events, if c.listing.Some? then Lists(id, c.listing.value) else Raises(id));
    states, events := Extend(states, events, Waits(c.ended - c.compared));
    states, events := Extend(states, events, if Indexes(s.slot, c) then Stores(id) else Fails(id));
  }

  lemma NoSteps(s: State)
    ensures Steps([s], [])
  {
  }

  // ----- A filled index is emptied only by a race -----

  ghost predicate Emptied(states: seq<State>, k: nat)
    requires k + 1 < |states|
  {
    HadEntries(states[k].slot) && !HadEntries(states[k + 1].slot)
  }

  ghost predicate LooksEmptyHanded(states: seq<State>, events: seq<Event>, j: nat, id: nat)
    requires |states| == |events| + 1 && j < |events|
  {
    events[j] == Lists(id, []) && !HadEntries(states[j].slot)
  }

  /** Once a call is about to store, it stays so with the same listing until it has stored. */
  lemma {:induction false} StoringStays(states: seq<State>, events: seq<Event>, id: nat, j: nat, k: nat)
    requires Steps(states, events) && j <= k < |states|
    requires id in states[j].calls && states[j].calls[id].phase.Storing?
    ensures id in states[k].calls
    ensures states[k].calls[id] == states[j].calls[id] || states[k].calls[id].phase.Done?
    decreases k
  {
    if j < k {
      assert Step(states[k - 1], events[k - 1]) == Some(states[k]);
      StoringStays(states, events, id, j, k - 1);
    }
  }

  /** What a call is about to store the library listed, and it was acceptable then. */
  lemma {:induction false} StoringWasListed(states: seq<State>, events: seq<Event>, id: nat, k: nat)
    requires Run(states, events) && k < |states|
    requires id in states[k].calls && states[k].calls[id].phase.Storing?
    ensures exists j :: 0 <= j < k && events[j] == Lists(id, states[k].calls[id].phase.listing)
                        && Acceptable(states[j].slot, states[k].calls[id].phase.listing)
    decreases k
  {
    if k > 0 {
      assert Step(states[k - 1], events[k - 1]) == Some(states[k]);
      if events[k - 1] != Lists(id, states[k].calls[id].phase.listing) {
        StoringWasListed(states, events, id, k - 1);
      }
    }
  }

  /**
  A filled index is emptied exactly by the store of a call that was listed nothing and looked for earlier
  entries at a moment when there were none.
  */
  lemma EmptiedOnlyByRace(states: seq<State>, events: seq<Event>, k: nat)
    requires Run(states, events) && k < |events|
    ensures Emptied(states, k) <==>
      && HadEntries(states[k].slot)
      && exists id, j :: 0 <= j < k && events[k] == Stores(id) && LooksEmptyHanded(states, events, j, id)
  {
    assert Step(states[k], events[k]) == Some(states[k + 1]);
    if Emptied(states, k) {
      var id := events[k].id;
      StoringWasListed(states, events, id, k);
      var j :| 0 <= j < k && events[j] == Lists(id, states[k].calls[id].phase.listing)
               && Acceptable(states[j].slot, states[k].calls[id].phase.listing);
      assert LooksEmptyHanded(states, events, j, id);
    } else if id, j :| 0 <= j < k && events[k] == Stores(id) && LooksEmptyHanded(states, events, j, id) {
      assert Step(states[j], events[j]) == Some(states[j + 1]);
      StoringStays(states, events, id, j + 1, k);
    }
  }

  /** So another call must have filled it in between, the two calls overlapping. */
  lemma EmptiedNeedsAnother(states: seq<State>, events: seq<Event>, k: nat)
    requires Run(states, events) && k < |events| && Emptied(states, k)
    ensures exists id, other, j, m :: 0 <= j < m < k && id != other
              && LooksEmptyHanded(states, events, j, id) && events[k] == Stores(id)
              && events[m] == Stores(other) && HadEntries(states[m + 1].slot)
  {
    EmptiedOnlyByRace(states, events, k);
    var id, j :| 0 <= j < k && events[k] == Stores(id) && LooksEmptyHanded(states, events, j, id);
    var m := FilledBetween(states, events, j, k);
    var other := events[m].id;
    assert Step(states[m], events[m]) == Some(states[m + 1]);
    assert Step(states[k], events[k]) == Some(states[k + 1]);
    if other == id {
      DoneStays(states, events, id, m + 1, k);
    }
  }

  lemma {:induction false} FilledBetween(states: seq<State>, events: seq<Event>, j: nat, k: nat) returns (m: nat)
    requires Steps(states, events) && j < k < |states|
    requires !HadEntries(states[j].slot) && HadEntries(states[k].slot)
    ensures j <= m < k && events[m].Stores? && HadEntries(states[m + 1].slot)
    decreases k
  {
    assert Step(states[k - 1], events[k - 1]) == Some(states[k]);
    if HadEntries(states[k - 1].slot) {
      m := FilledBetween(states, events, j, k - 1);
    } else {
      m := k - 1;
    }
  }

  lemma {:induction false} DoneStays(states: seq<State>, events: seq<Event>, id: nat, j: nat, k: nat)
    requires Steps(states, events) && j <= k < |states|
    requires id in states[j].calls && states[j].calls[id].phase.Done?
    ensures id in states[k].calls && states[k].calls[id] == states[j].calls[id]
    decreases k
  {
    if j < k {
      assert Step(states[k - 1], events[k - 1]) == Some(states[k]);
      DoneStays(states, events, id, j, k - 1);
    }
  }

  /** Such a run: two calls find nothing indexed, one is listed a book and stores it, the other stores nothing. */
  lemma RaceForgetsBooks(book: LibraryEntry) returns (states: seq<State>, events: seq<Event>)
    ensures Run(states, events) && |events| > 0 && Emptied(states, |events| - 1)
    ensures states[|events| - 1].slot.entries == Some([book]) && states[|events|].slot.entries == Some([])
  {
    hide Steps;
    states, events := BothListed(book);
    states, events := Extend(states, events, Stores(1));
    states, events := Extend(states, events, Stores(0));
  }

  lemma BothListed(book: LibraryEntry) returns (states: seq<State>, events: seq<Event>)
    ensures Run(states, events) && |states| == |events| + 1
    ensures var last := states[|events|];
            && 0 in last.calls && last.calls[0].phase == Storing(None, [])
            && 1 in last.calls && last.calls[1].phase == Storing(None, [book])
  {
    hide Steps;
    states, events := [State(EMPTY_SLOT, 0, map[])], [];
    NoSteps(states[0]);
    states, events := Extend(states, events, Begins(0, false));
    states, events := Extend(states, events, Begins(1, false));
    states, events := Extend(states, events, Compares(0, None));
    states, events := Extend(states, events, Compares(1, None));
    states, events := Extend(states, events, Lists(0, []));
    states, events := Extend(states, events, Lists(1, [book]));
  }

  // ----- Answers -----

  /** The library gave this listing to some call before. */
  ghost predicate WasListed(events: seq<Event>, k: nat, listing: Listing)
    requires k <= |events|
  {
    exists j :: 0 <= j < k && events[j].Lists? && events[j].listing == listing
  }

  ghost predicate Fetched(s: State, events: seq<Event>, k: nat)
    requires k <= |events|
  {
    && (s.slot.entries.Some? ==> WasListed(events, k, s.slot.entries.value))
    && (forall id :: id in s.calls ==>
          match s.calls[id].phase
          case Storing(_, listing) => WasListed(events, k, listing)
          case Done(Listed(entries)) => (s.calls[id].strict || entries != []) ==> WasListed(events, k, entries)
          case Done(Unavailable) => s.calls[id].strict
          case _ => true)
  }

  lemma FetchedStep(s: State, events: seq<Event>, k: nat, t: State)
    requires k < |events| && Fetched(s, events, k) && Step(s, events[k]) == Some(t)
    ensures Fetched(t, events, k + 1)
  {
    forall listing | WasListed(events, k, listing) ensures WasListed(events, k + 1, listing) {
    }
    if events[k].Lists? {
      assert WasListed(events, k + 1, events[k].listing);
    }
  }

  lemma {:induction false} AlwaysFetched(states: seq<State>, events: seq<Event>, k: nat)
    requires Run(states, events) && k < |states|
    ensures Fetched(states[k], events, k)
    decreases k
  {
    hide Step, Fetched;
    if k > 0 {
      AlwaysFetched(states, events, k - 1);
      FetchedStep(states[k - 1], events, k - 1, states[k]);
    } else {
      NothingFetched(states[0], events);
    }
  }

  lemma NothingFetched(s: State, events: seq<Event>)
    requires s.slot == EMPTY_SLOT && s.calls == map[]
    ensures Fetched(s, events, 0)
  {
  }

  /** However calls overlap, a strict one answers only with a list the library gave, and only a strict one refuses. */
  lemma AnswersWereListed(states: seq<State>, events: seq<Event>, k: nat, id: nat)
    requires Run(states, events) && k < |states|
    requires id in states[k].calls && states[k].calls[id].phase.Done?
    ensures var r, strict := states[k].calls[id].phase.response, states[k].calls[id].strict;
            && (r.Unavailable? ==> strict)
            && (r.Listed? && (strict || r.entries != []) ==> WasListed(events, k, r.entries))
  {
    AlwaysFetched(states, events, k);
  }

  // ----- Failed reads in a minute -----

  /** The calls that were let past the back-off and have not ended. */
  ghost function UnderWay(s: State): set<nat> {
    set id | id in s.calls && !s.calls[id].phase.Done?
  }

  /** The reads that failed in the steps from `i` up to `j`. */
  function Failures(events: seq<Event>, i: nat, j: nat): nat
    requires i <= j <= |events|
    decreases j
  {
    if i == j then 0 else Failures(events, i, j - 1) + if events[j - 1].Fails? then 1 else 0
  }

  /** Of those, the ones since the last store. */
  function SinceStore(events: seq<Event>, i: nat, j: nat): nat
    requires i <= j <= |events|
    decreases j
  {
    if i == j || events[j - 1].Stores? then 0
    else SinceStore(events, i, j - 1) + if events[j - 1].Fails? then 1 else 0
  }

  /** The stores that ended a back-off begun by one of those failures. */
  function Clears(events: seq<Event>, i: nat, j: nat): nat
    requires i <= j <= |events|
    decreases j
  {
    if i == j then 0
    else Clears(events, i, j - 1) + if events[j - 1].Stores? && SinceStore(events, i, j - 1) > 0 then 1 else 0
  }

  ghost predicate AtMostUnderWay(states: seq<State>, i: nat, j: nat, c: nat)
    requires j < |states|
  {
    forall k :: i <= k <= j ==> |UnderWay(states[k])| <= c
  }

  /** While a failure of this minute holds, calls only leave. */
  ghost predicate HeldBack(s: State, from: int, since: nat, c: nat) {
    since > 0 ==> s.slot.failedAt.Some? && s.slot.failedAt.value >= from && since + |UnderWay(s)| <= c
  }

  /** Calls come under way only by beginning outside a back-off, and leave by failing or storing. */
  lemma UnderWayStep(s: State, e: Event, t: State)
    requires Step(s, e) == Some(t)
    ensures !e.Begins? || BackingOff(s.slot, s.now) ==> UnderWay(t) <= UnderWay(s)
    ensures e.Fails? || e.Stores? ==> e.id in UnderWay(s) && e.id !in UnderWay(t)
  {
  }

  lemma SlotStep(s: State, e: Event, t: State)
    requires Step(s, e) == Some(t)
    ensures e.Fails? ==> t.slot.failedAt == Some(s.now)
    ensures !e.Fails? && !e.Stores? ==> t.slot == s.slot
  {
  }

  lemma HeldBackStep(s: State, e: Event, t: State, from: int, since: nat, c: nat)
    requires Step(s, e) == Some(t) && HeldBack(s, from, since, c)
    requires from <= s.now < from + BACKOFF && |UnderWay(s)| <= c
    ensures HeldBack(t, from, if e.Stores? then 0 else since + if e.Fails? then 1 else 0, c)
    ensures e.Stores? ==> |UnderWay(s)| >= 1
  {
    hide Step, UnderWay;
    UnderWayStep(s, e, t);
    SlotStep(s, e, t);
    if e.Fails? || e.Stores? {
      SubsetSize(UnderWay(t) + {e.id}, UnderWay(s));
    } else if since > 0 {
      SubsetSize(UnderWay(t), UnderWay(s));
    }
  }

  lemma {:induction false} TimePasses(states: seq<State>, events: seq<Event>, i: nat, j: nat)
    requires Steps(states, events) && i <= j < |states|
    ensures states[i].now <= states[j].now
    decreases j
  {
    if i < j {
      assert Step(states[j - 1], events[j - 1]) == Some(states[j]);
      TimePasses(states, events, i, j - 1);
    }
  }

  /**
  The bound when calls overlap. In any half-open minute at most `c` reads fail, `c` being the most calls
  under way at once, and `c` more for each store that ends a back-off begun in that minute. With one
  call at a time there is no such store, and at most one read fails.
  */
  lemma {:induction false} FailuresInAMinute(states: seq<State>, events: seq<Event>, i: nat, j: nat, c: nat)
    requires Steps(states, events) && i <= j <= |events| && AtMostUnderWay(states, i, j, c)
    requires i < j ==> states[j - 1].now < states[i].now + 60
    ensures Failures(events, i, j) <= Clears(events, i, j) * c + SinceStore(events, i, j)
    ensures HeldBack(states[j], states[i].now, SinceStore(events, i, j), c)
    ensures Failures(events, i, j) <= (Clears(events, i, j) + 1) * c
    ensures c == 1 ==> Clears(events, i, j) == 0 && Failures(events, i, j) <= 1
    decreases j
  {
    hide Step, UnderWay;
    if i < j {
      TimePasses(states, events, i, j - 1);
      if i < j - 1 {
        TimePasses(states, events, j - 2, j - 1);
      }
      FailuresInAMinute(states, events, i, j - 1, c);
      assert Step(states[j - 1], events[j - 1]) == Some(states[j]);
      HeldBackStep(states[j - 1], events[j - 1], states[j], states[i].now, SinceStore(events, i, j - 1), c);
    }
  }

  /** The bound is reached: `n` calls let past together may all fail in the same moment. */
  lemma OverlappingCallsAllFail(n: nat) returns (states: seq<State>, events: seq<Event>)
    ensures Run(states, events) && Failures(events, 0, |events|) == n && Clears(events, 0, |events|) == 0
    ensures AtMostUnderWay(states, 0, |events|, n)
    ensures forall k :: 0 <= k < |states| ==> states[k].now == 0
  {
    states, events := AllBegin(n, n);
    states, events := AllFail(n, states, events);
  }

  /** So far only beginnings and failures at time zero, never more than `c` calls under way. */
  ghost predicate Quick(states: seq<State>, events: seq<Event>, c: nat) {
    && Run(states, events) && AtMostUnderWay(states, 0, |events|, c)
    && (forall k :: 0 <= k < |states| ==> states[k].now == 0)
    && (forall k :: 0 <= k < |events| ==> !events[k].Stores?)
  }

  lemma QuickExtend(states: seq<State>, events: seq<Event>, e: Event, c: nat)
    returns (longer: seq<State>, more: seq<Event>)
    requires Quick(states, events, c) && Step(states[|events|], e).Some?
    requires !e.Stores? && !e.Waits? && |UnderWay(Step(states[|events|], e).value)| <= c
    ensures Quick(longer, more, c) && |longer| == |more| + 1 && longer[|more|] == Step(states[|events|], e).value
    ensures Failures(more, 0, |more|) == Failures(events, 0, |events|) + if e.Fails? then 1 else 0
    ensures Clears(events, 0, |events|) == 0 ==> Clears(more, 0, |more|) == 0
  {
    longer, more := states + [Step(states[|events|], e).value], events + [e];
    SameCounts(events, more, |events|);
  }

  lemma {:induction false} SameCounts(a: seq<Event>, b: seq<Event>, j: nat)
    requires j <= |a| && j <= |b| && a[..j] == b[..j]
    ensures Failures(a, 0, j) == Failures(b, 0, j) && Clears(a, 0, j) == Clears(b, 0, j)
    ensures SinceStore(a, 0, j) == SinceStore(b, 0, j)
  {
    if j > 0 {
      assert a[j - 1] == a[..j][j - 1] == b[..j][j - 1] == b[j - 1];
      assert a[..j - 1] == a[..j][..j - 1] == b[..j][..j - 1] == b[..j - 1];
      SameCounts(a, b, j - 1);
    }
  }

  /** Everyone under way is still waiting for the fingerprint. */
  ghost predicate AllComparing(s: State) {
    forall id :: id in UnderWay(s) ==> s.calls[id].phase == Comparing
  }

  lemma OneMoreBegins(s: State, id: nat)
    requires AllComparing(s) && s.slot == EMPTY_SLOT && id !in s.calls
    ensures var t := Step(s, Begins(id, false));
            && t.Some? && t.value.slot == EMPTY_SLOT && AllComparing(t.value)
            && t.value.calls.Keys == s.calls.Keys + {id}
            && |UnderWay(t.value)| == |UnderWay(s)| + 1
  {
    assert UnderWay(Step(s, Begins(id, false)).value) == UnderWay(s) + {id};
  }

  lemma OneFails(s: State, id: nat)
    requires AllComparing(s) && id in UnderWay(s)
    ensures var raised := Step(s, Raises(id));
            && raised.Some? && |UnderWay(raised.value)| == |UnderWay(s)|
            && var failed := Step(raised.value, Fails(id));
               && failed.Some? && AllComparing(failed.value) && |UnderWay(failed.value)| == |UnderWay(s)| - 1
  {
    var raised := Step(s, Raises(id)).value;
    assert UnderWay(raised) == UnderWay(s);
    assert UnderWay(Step(raised, Fails(id)).value) == UnderWay(s) - {id};
  }

  lemma {:induction false} AllBegin(m: nat, n: nat) returns (states: seq<State>, events: seq<Event>)
    requires m <= n
    ensures Quick(states, events, n) && |states| == |events| + 1
    ensures Failures(events, 0, |events|) == 0 && Clears(events, 0, |events|) == 0
    ensures var last := states[|events|];
            && last.slot == EMPTY_SLOT && AllComparing(last) && |UnderWay(last)| == m
            && forall id :: id in last.calls ==> id < m
    decreases m
  {
    hide Quick, UnderWay, AllComparing;
    if m == 0 {
      states, events := [State(EMPTY_SLOT, 0, map[])], [];
      QuickStart(n);
    } else {
      states, events := AllBegin(m - 1, n);
      OneMoreBegins(states[|events|], m - 1);
      states, events := QuickExtend(states, events, Begins(m - 1, false), n);
    }
  }

  lemma QuickStart(n: nat)
    ensures var s := State(EMPTY_SLOT, 0, map[]); Quick([s], [], n) && AllComparing(s) && |UnderWay(s)| == 0
  {
  }

  lemma {:induction false} AllFail(n: nat, states: seq<State>, events: seq<Event>)
    returns (longer: seq<State>, more: seq<Event>)
    requires Quick(states, events, n) && |states| == |events| + 1 && AllComparing(states[|events|])
    requires Failures(events, 0, |events|) + |UnderWay(states[|events|])| == n && Clears(events, 0, |events|) == 0
    ensures Quick(longer, more, n) && Failures(more, 0, |more|) == n && Clears(more, 0, |more|) == 0
    decreases |UnderWay(states[|events|])|
  {
    hide Quick, UnderWay, AllComparing, Step;
    longer, more := states, events;
    var s := states[|events|];
    if UnderWay(s) != {} {
      var id :| id in UnderWay(s);
      OneFails(s, id);
      SizeWithin(longer, more, n);
      longer, more := QuickExtend(longer, more, Raises(id), n);
      longer, more := QuickExtend(longer, more, Fails(id), n);
      longer, more := AllFail(n, longer, more);
    }
  }

  lemma SizeWithin(states: seq<State>, events: seq<Event>, c: nat)
    requires Quick(states, events, c)
    ensures |UnderWay(states[|events|])| <= c
  {
  }
}
