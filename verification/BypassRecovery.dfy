/**
What the protocol recovers from. Whatever has become of the helper, a request that has not been sent yet can
still be answered, and with any payload, unless a second helper refuses it too; and from every state of every
run the application can come to rest and have its next request answered.
*/
module BypassRecovery {
  import opened Basics
  import opened BypassHelper

  /** Several steps, one after the other. */
  function Steps(s: State, events: seq<Event>): Option<State>
    decreases |events|
  {
    if events == [] then Some(s)
    else
      var next := Step(s, events[0]);
      if next.None? then None else Steps(next.value, events[1..])
  }

  /** Some steps bring the application to this point. */
  ghost predicate CanCome(s: State, goal: Parent) {
    exists steps: seq<Event> :: Steps(s, steps).Some? && Steps(s, steps).value.parent == goal
  }

  lemma There(s: State)
    ensures CanCome(s, s.parent)
  {
    assert Steps(s, []) == Some(s);
  }

  lemma Before(s: State, e: Event, goal: Parent)
    requires Step(s, e).Some? && CanCome(Step(s, e).value, goal)
    ensures CanCome(s, goal)
  {
    hide Step;
    var t := Step(s, e).value;
    var steps: seq<Event> :| Steps(t, steps).Some? && Steps(t, steps).value.parent == goal;
    assert ([e] + steps)[1..] == steps;
    assert Steps(s, [e] + steps) == Steps(t, steps);
  }

  /** A run goes on through any steps that are possible in its last state. */
  lemma {:induction false} RunOn(states: seq<State>, events: seq<Event>, steps: seq<Event>)
    returns (longer: seq<State>, more: seq<Event>)
    requires Run(states, events) && |states| == |events| + 1
    requires Steps(states[|events|], steps).Some?
    ensures Run(longer, more) && |longer| == |more| + 1 && states <= longer && events <= more
    ensures longer[|more|] == Steps(states[|events|], steps).value
    decreases |steps|
  {
    hide Step;
    if steps == [] {
      longer, more := states, events;
    } else {
      var next := Step(states[|events|], steps[0]).value;
      longer, more := RunOn(states + [next], events + [steps[0]], steps[1..]);
    }
  }

  lemma Continue(states: seq<State>, events: seq<Event>, goal: Parent)
    returns (longer: seq<State>, more: seq<Event>)
    requires Run(states, events) && |states| == |events| + 1
    requires CanCome(states[|events|], goal)
    ensures Run(longer, more) && |longer| == |more| + 1 && states <= longer && events <= more
    ensures longer[|more|].parent == goal
  {
    hide Run, Steps;
    var s := states[|events|];
    var steps: seq<Event> :| Steps(s, steps).Some? && Steps(s, steps).value.parent == goal;
    longer, more := RunOn(states, events, steps);
  }

  // ----- Being answered -----

  /** An empty-handed helper waits for a line. */
  predicate Ready(s: State, pid: Pid) {
    pid in s.helpers && s.helpers[pid].phase == Listening && s.helpers[pid].pipe == []
  }

  lemma PublishedIsRead(s: State, r: Request, pid: Pid, payload: string)
    requires s.parent == Waiting(r, pid) && r in s.results && s.results[r] == Full(payload)
    ensures CanCome(s, Cleaning(r, Returned(payload), false))
  {
    var goal := Cleaning(r, Returned(payload), false);
    var reading := Step(s, ByParent(Look)).value;
    There(Step(reading, ByParent(Read)).value);
    Before(reading, ByParent(Read), goal);
    Before(s, ByParent(Look), goal);
  }

  lemma SolvedIsPublished(s: State, r: Request, pid: Pid, payload: string)
    requires s.parent == Waiting(r, pid) && pid in s.helpers && s.helpers[pid].phase == Solving(r)
    ensures CanCome(s, Cleaning(r, Returned(payload), false))
  {
    var goal := Cleaning(r, Returned(payload), false);
    var staging := Step(s, ByHelper(pid, Solve(payload))).value;
    var staged := Step(staging, ByHelper(pid, WriteAll)).value;
    PublishedIsRead(Step(staged, ByHelper(pid, Rename)).value, r, pid, payload);
    Before(staged, ByHelper(pid, Rename), goal);
    Before(staging, ByHelper(pid, WriteAll), goal);
    Before(s, ByHelper(pid, Solve(payload)), goal);
  }

  lemma WrittenIsAnswered(s: State, r: Request, pid: Pid, retry: bool, payload: string)
    requires s.parent == Writing(r, pid, retry) && Ready(s, pid)
    ensures CanCome(s, Cleaning(r, Returned(payload), false))
  {
    var goal := Cleaning(r, Returned(payload), false);
    var written := Step(s, ByParent(Write)).value;
    SolvedIsPublished(Step(written, ByHelper(pid, TakeLine)).value, r, pid, payload);
    Before(written, ByHelper(pid, TakeLine), goal);
    Before(s, ByParent(Write), goal);
  }

  lemma NewHelperAnswers(s: State, r: Request, retry: bool, payload: string)
    requires s.parent == Starting(r, retry) && s.current.None?
    ensures CanCome(s, Cleaning(r, Returned(payload), false))
  {
    WrittenIsAnswered(Step(s, ByParent(Ensure)).value, r, s.spawned, retry, payload);
    Before(s, ByParent(Ensure), Cleaning(r, Returned(payload), false));
  }

  lemma AnsweredAfterKill(s: State, r: Request, pid: Pid, retry: bool, payload: string)
    requires s.parent == Discarding(pid, true, ThenStart(r, retry)) && pid in s.helpers && s.current.None?
    ensures CanCome(s, Cleaning(r, Returned(payload), false))
  {
    NewHelperAnswers(Step(s, ByParent(Kill)).value, r, retry, payload);
    Before(s, ByParent(Kill), Cleaning(r, Returned(payload), false));
  }

  lemma AnsweredAfterDiscard(s: State, r: Request, pid: Pid, closed: bool, retry: bool, payload: string)
    requires s.parent == Discarding(pid, closed, ThenStart(r, retry)) && pid in s.helpers && s.current.None?
    ensures CanCome(s, Cleaning(r, Returned(payload), false))
  {
    if closed {
      AnsweredAfterKill(s, r, pid, retry, payload);
    } else {
      AnsweredAfterKill(Step(s, ByParent(CloseStdin)).value, r, pid, retry, payload);
      Before(s, ByParent(CloseStdin), Cleaning(r, Returned(payload), false));
    }
  }

  /** Nothing holds the request yet, and it has not been refused by a second helper. */
  predicate Hopeful(s: State) {
    && InFlight(s.parent).Some? && !Sent(s.parent)
    && !(s.parent.Writing? && s.parent.retry
         && s.parent.pid in s.helpers
         && (s.helpers[s.parent.pid].phase.Exiting? || s.helpers[s.parent.pid].phase.Dead?))
  }

  /** Before a request is sent no helper is busy and no line is waiting. */
  lemma NothingPending(s: State, pid: Pid)
    requires Inv(s) && pid in s.helpers && InFlight(s.parent).Some? && !Sent(s.parent)
    ensures s.helpers[pid].pipe == []
    ensures var phase := s.helpers[pid].phase;
            phase.Listening? || phase.Answered? || phase.Exiting? || phase.Dead?
  {
    if !s.helpers[pid].phase.Dead? {
      LiveIsOwner(s, pid);
    }
  }

  lemma WritingIsAnswered(s: State, payload: string)
    requires Inv(s) && s.parent.Writing? && Hopeful(s)
    ensures CanCome(s, Cleaning(s.parent.req, Returned(payload), false))
  {
    hide OthersAreDead, OwnerHolds, FilesAgree;
    var r, pid, retry := s.parent.req, s.parent.pid, s.parent.retry;
    var goal := Cleaning(r, Returned(payload), false);
    NothingPending(s, pid);
    match s.helpers[pid].phase {
      case Listening => WrittenIsAnswered(s, r, pid, retry, payload);
      case Answered =>
        WrittenIsAnswered(Step(s, ByHelper(pid, NextLine)).value, r, pid, retry, payload);
        Before(s, ByHelper(pid, NextLine), goal);
      case Exiting | Dead =>
        AnsweredAfterDiscard(Step(s, ByParent(Write)).value, r, pid, false, true, payload);
        Before(s, ByParent(Write), goal);
    }
  }

  lemma StartingIsAnswered(s: State, payload: string)
    requires Inv(s) && s.parent.Starting?
    ensures CanCome(s, Cleaning(s.parent.req, Returned(payload), false))
  {
    var r, retry := s.parent.req, s.parent.retry;
    if s.current.None? {
      NewHelperAnswers(s, r, retry, payload);
    } else {
      var next := Step(s, ByParent(Ensure)).value;
      if s.helpers[s.current.value].phase.Dead? {
        AnsweredAfterDiscard(next, r, s.current.value, false, retry, payload);
      } else {
        EnsureKeepsInv(s);
        WritingIsAnswered(next, payload);
      }
      Before(s, ByParent(Ensure), Cleaning(r, Returned(payload), false));
    }
  }

  lemma EnsureKeepsInv(s: State)
    requires Inv(s) && ParentStep(s, Ensure).Some?
    ensures Inv(ParentStep(s, Ensure).value)
  {
    ParentKeepsInv(s, Ensure);
  }

  /**
  A request that has not been sent can still be answered, with any payload, whatever has become of the helper:
  a dead one is replaced, one that has stopped reading is given up for another.
  */
  lemma UnsentCanBeAnswered(states: seq<State>, events: seq<Event>, payload: string)
    returns (longer: seq<State>, more: seq<Event>)
    requires Run(states, events) && |states| == |events| + 1 && Hopeful(states[|events|])
    ensures Run(longer, more) && |longer| == |more| + 1 && states <= longer && events <= more
    ensures longer[|more|].parent ==
            Cleaning(InFlight(states[|events|].parent).value, Returned(payload), false)
  {
    hide Run, CanCome, OthersAreDead, OwnerHolds, FilesAgree;
    var s := states[|events|];
    InvariantHolds(states, events, |events|);
    match s.parent {
      case Starting(r, retry) => StartingIsAnswered(s, payload);
      case Writing(r, pid, retry) => WritingIsAnswered(s, payload);
      case Discarding(pid, closed, ThenStart(r, retry)) =>
        AnsweredAfterDiscard(s, r, pid, closed, retry, payload);
    }
    longer, more := Continue(states, events, Cleaning(InFlight(s.parent).value, Returned(payload), false));
  }

  // ----- Not being answered -----

  /** The request has been refused twice, or is over. */
  predicate Lost(s: State, r: Request) {
    && r < s.issued
    && (InFlight(s.parent) == Some(r) ==>
          && s.parent.Writing? && s.parent.retry
          && s.parent.pid in s.helpers
          && (s.helpers[s.parent.pid].phase.Exiting? || s.helpers[s.parent.pid].phase.Dead?))
  }

  lemma ParentKeepsLost(s: State, e: ParentEvent, r: Request)
    requires Lost(s, r) && ParentStep(s, e).Some?
    ensures Lost(ParentStep(s, e).value, r)
  {
    ParentFlight(s, e);
  }

  lemma HelperKeepsLost(s: State, pid: Pid, e: HelperEvent, r: Request)
    requires Lost(s, r) && HelperStep(s, pid, e).Some?
    ensures Lost(HelperStep(s, pid, e).value, r)
  {
  }

  lemma {:induction false} StaysLost(states: seq<State>, events: seq<Event>, i: nat, j: nat, r: Request)
    requires Run(states, events) && i <= j < |states| && Lost(states[i], r)
    ensures Lost(states[j], r)
    decreases j
  {
    hide Lost, ParentStep, HelperStep;
    if i < j {
      StaysLost(states, events, i, j - 1, r);
      assert Step(states[j - 1], events[j - 1]) == Some(states[j]);
      match events[j - 1] {
        case ByParent(p) => ParentKeepsLost(states[j - 1], p, r);
        case ByHelper(pid, h) => HelperKeepsLost(states[j - 1], pid, h, r);
      }
    }
  }

  /** The retry is the only one: a request that the fresh helper refuses as well is never answered. */
  lemma RefusedTwiceIsLost(states: seq<State>, events: seq<Event>, i: nat, j: nat)
    requires Run(states, events) && i <= j < |states|
    requires InFlight(states[i].parent).Some? && !Sent(states[i].parent) && !Hopeful(states[i])
    ensures states[j].parent.Cleaning? ==> InFlight(states[i].parent) != Some(states[j].parent.req)
  {
    InvariantHolds(states, events, i);
    StaysLost(states, events, i, j, InFlight(states[i].parent).value);
  }

  // ----- Coming to rest -----

  lemma CleanedIsIdle(s: State)
    requires s.parent.Cleaning?
    ensures CanCome(s, Idle)
    decreases !s.parent.resultGone
  {
    if s.parent.resultGone {
      There(Step(s, ByParent(Unlink)).value);
    } else {
      CleanedIsIdle(Step(s, ByParent(Unlink)).value);
    }
    Before(s, ByParent(Unlink), Idle);
  }

  /** Stopping a helper ends at rest, or in a request that can still be answered. */
  lemma DiscardedIsIdle(s: State)
    requires s.parent.Discarding? && s.parent.pid in s.helpers && s.current.None?
    ensures CanCome(s, Idle)
    decreases !s.parent.closed
  {
    if !s.parent.closed {
      DiscardedIsIdle(Step(s, ByParent(CloseStdin)).value);
      Before(s, ByParent(CloseStdin), Idle);
    } else {
      var next := Step(s, ByParent(Kill)).value;
      match s.parent.after {
        case ThenIdle => There(next);
        case ThenClean(_) => CleanedIsIdle(next);
        case ThenStart(_, _) =>
          There(Step(next, ByParent(SpawnFails)).value);
          Before(next, ByParent(SpawnFails), Idle);
      }
      Before(s, ByParent(Kill), Idle);
    }
  }

  lemma AnsweredIsIdle(s: State, r: Request, payload: string)
    requires CanCome(s, Cleaning(r, Returned(payload), false))
    ensures CanCome(s, Idle)
  {
    hide Step;
    var steps: seq<Event> :|
      Steps(s, steps).Some? && Steps(s, steps).value.parent == Cleaning(r, Returned(payload), false);
    CleanedIsIdle(Steps(s, steps).value);
    BeforeAll(s, steps, Idle);
  }

  lemma {:induction false} BeforeAll(s: State, steps: seq<Event>, goal: Parent)
    requires Steps(s, steps).Some? && CanCome(Steps(s, steps).value, goal)
    ensures CanCome(s, goal)
    decreases |steps|
  {
    hide Step, CanCome;
    if steps != [] {
      BeforeAll(Step(s, steps[0]).value, steps[1..], goal);
      Before(s, steps[0], goal);
    }
  }

  lemma SentIsIdle(s: State)
    requires s.parent.Waiting? || s.parent.Polling? || s.parent.Reading?
    requires s.parent.pid in s.helpers
    ensures CanCome(s, Idle)
  {
    match s.parent {
      case Reading(_, _) =>
        CleanedIsIdle(Step(s, ByParent(ReadFails)).value);
        Before(s, ByParent(ReadFails), Idle);
      case Polling(_, _) =>
        DiscardedIsIdle(Step(s, ByParent(GivesUp)).value);
        Before(s, ByParent(GivesUp), Idle);
      case Waiting(r, _) =>
        var next := Step(s, ByParent(Look)).value;
        if r in s.results {
          CleanedIsIdle(Step(next, ByParent(ReadFails)).value);
          Before(next, ByParent(ReadFails), Idle);
        } else {
          DiscardedIsIdle(Step(next, ByParent(GivesUp)).value);
          Before(next, ByParent(GivesUp), Idle);
        }
        Before(s, ByParent(Look), Idle);
    }
  }

  lemma EveryStateCanRest(s: State)
    requires Inv(s)
    ensures CanCome(s, Idle)
  {
    hide CanCome, OthersAreDead, OwnerHolds, FilesAgree;
    match s.parent {
      case Idle => There(s);
      case Starting(r, _) =>
        StartingIsAnswered(s, "");
        AnsweredIsIdle(s, r, "");
      case Writing(r, _, _) =>
        if Hopeful(s) {
          WritingIsAnswered(s, "");
          AnsweredIsIdle(s, r, "");
        } else {
          There(Step(s, ByParent(Write)).value);
          Before(s, ByParent(Write), Idle);
        }
      case Discarding(_, _, _) => DiscardedIsIdle(s);
      case Cleaning(_, _, _) => CleanedIsIdle(s);
      case _ => SentIsIdle(s);
    }
  }

  /** In every state of every run: the request under way can be brought to its end. */
  lemma CanAlwaysRest(states: seq<State>, events: seq<Event>)
    returns (longer: seq<State>, more: seq<Event>)
    requires Run(states, events) && |states| == |events| + 1
    ensures Run(longer, more) && |longer| == |more| + 1 && states <= longer && events <= more
    ensures longer[|more|].parent == Idle
  {
    hide Run, Inv;
    InvariantHolds(states, events, |events|);
    EveryStateCanRest(states[|events|]);
    longer, more := Continue(states, events, Idle);
  }

  /** At rest, whatever has become of the helper, the next request can be answered, and with any payload. */
  lemma NextCanBeAnswered(states: seq<State>, events: seq<Event>, payload: string)
    returns (longer: seq<State>, more: seq<Event>)
    requires Run(states, events) && |states| == |events| + 1 && states[|events|].parent == Idle
    ensures Run(longer, more) && |longer| == |more| + 1 && states <= longer && events <= more
    ensures longer[|more|].parent == Cleaning(states[|events|].issued, Returned(payload), false)
  {
    hide Run, Inv;
    var s := states[|events|];
    InvariantHolds(states, events, |events|);
    ParentKeepsInv(s, Begin);
    StartingIsAnswered(Step(s, ByParent(Begin)).value, payload);
    Before(s, ByParent(Begin), Cleaning(s.issued, Returned(payload), false));
    longer, more := Continue(states, events, Cleaning(s.issued, Returned(payload), false));
  }

  /** At rest a remembered helper can be stopped, which leaves none alive and none remembered. */
  lemma HelperCanBeReaped(states: seq<State>, events: seq<Event>) returns (longer: seq<State>, more: seq<Event>)
    requires Run(states, events) && |states| == |events| + 1 && states[|events|].parent == Idle
    ensures Run(longer, more) && |longer| == |more| + 1 && states <= longer && events <= more
    ensures longer[|more|].parent == Idle && longer[|more|].current == None
    ensures forall pid :: pid in longer[|more|].helpers ==> longer[|more|].helpers[pid].phase == Dead
  {
    hide Run, Steps, Step, Inv;
    var s := states[|events|];
    longer, more := states, events;
    if s.current.Some? {
      InvariantHolds(states, events, |events|);
      ReapSteps(s);
      longer, more := RunOn(states, events, [ByParent(Reap), ByParent(CloseStdin), ByParent(Kill)]);
    }
    InvariantHolds(longer, more, |more|);
    RestIsDead(longer[|more|]);
  }

  lemma ReapSteps(s: State)
    requires Inv(s) && s.parent == Idle && s.current.Some?
    ensures var last := Steps(s, [ByParent(Reap), ByParent(CloseStdin), ByParent(Kill)]);
            last.Some? && last.value.parent == Idle && last.value.current == None
  {
    hide OthersAreDead, OwnerHolds, FilesAgree;
    var discarded := Step(s, ByParent(Reap)).value;
    var closed := Step(discarded, ByParent(CloseStdin)).value;
    var killed := Step(closed, ByParent(Kill)).value;
    assert Steps(closed, [ByParent(Kill)]) == Some(killed);
    assert [ByParent(CloseStdin), ByParent(Kill)][1..] == [ByParent(Kill)];
    assert Steps(discarded, [ByParent(CloseStdin), ByParent(Kill)]) == Some(killed);
    assert [ByParent(Reap), ByParent(CloseStdin), ByParent(Kill)][1..] == [ByParent(CloseStdin), ByParent(Kill)];
  }

  lemma RestIsDead(s: State)
    requires Inv(s) && s.parent == Idle && s.current.None?
    ensures forall pid :: pid in s.helpers ==> s.helpers[pid].phase == Dead
  {
  }

  // ----- Why a request is dropped unsent -----

  /** The application found that this helper no longer reads. */
  predicate RefusedAt(s: State, e: Event, r: Request, pid: Pid) {
    && e == ByParent(Write)
    && s.parent.Writing? && s.parent.req == r && s.parent.pid == pid
    && pid in s.helpers && (s.helpers[pid].phase.Exiting? || s.helpers[pid].phase.Dead?)
  }

  /** A second attempt for this request is under way. */
  predicate Retrying(p: Parent, r: Request) {
    || p == Starting(r, true)
    || (p.Writing? && p.req == r && p.retry)
    || (p.Discarding? && p.after == ThenStart(r, true))
  }

  lemma FirstRefusal(s: State, e: Event, t: State, r: Request)
    requires Step(s, e) == Some(t) && Retrying(t.parent, r) && !Retrying(s.parent, r)
    ensures s.parent.Writing? && RefusedAt(s, e, r, s.parent.pid)
    ensures t.parent.Discarding? && t.spawned == s.spawned
  {
    if e.ByHelper? {
      HelperKeepsParent(s, e.pid, e.helper);
    } else {
      FirstRefusalByParent(s, e.parent, r);
    }
  }

  lemma HelperKeepsParent(s: State, pid: Pid, e: HelperEvent)
    requires HelperStep(s, pid, e).Some?
    ensures HelperStep(s, pid, e).value.parent == s.parent
    ensures HelperStep(s, pid, e).value.spawned == s.spawned
  {
  }

  lemma FirstRefusalByParent(s: State, e: ParentEvent, r: Request)
    requires ParentStep(s, e).Some? && Retrying(ParentStep(s, e).value.parent, r) && !Retrying(s.parent, r)
    ensures s.parent.Writing? && RefusedAt(s, ByParent(e), r, s.parent.pid)
    ensures ParentStep(s, e).value.parent.Discarding? && ParentStep(s, e).value.spawned == s.spawned
  {
  }

  /** The retry goes to a process started after the refusal. */
  predicate Fresher(s: State, pid: Pid) {
    pid < s.spawned && (s.parent.Writing? ==> s.parent.pid != pid)
  }

  lemma StaysFresher(s: State, e: Event, t: State, r: Request, pid: Pid)
    requires Inv(s) && Step(s, e) == Some(t) && Retrying(s.parent, r) && Retrying(t.parent, r)
    requires Fresher(s, pid)
    ensures Fresher(t, pid)
  {
    hide OthersAreDead, OwnerHolds, FilesAgree;
    if e.ByHelper? {
      HelperKeepsParent(s, e.pid, e.helper);
    }
  }

  lemma {:induction false} RetryFollowsRefusal(states: seq<State>, events: seq<Event>, k: nat, r: Request)
    returns (j: nat, pid: Pid)
    requires Run(states, events) && k < |states| && Retrying(states[k].parent, r)
    ensures j < k && RefusedAt(states[j], events[j], r, pid) && Fresher(states[k], pid)
    decreases k
  {
    hide Step, Inv, RefusedAt;
    InvariantHolds(states, events, k - 1);
    if Retrying(states[k - 1].parent, r) {
      j, pid := RetryFollowsRefusal(states, events, k - 1, r);
      StaysFresher(states[k - 1], events[k - 1], states[k], r, pid);
    } else {
      FirstRefusal(states[k - 1], events[k - 1], states[k], r);
      j, pid := k - 1, states[k - 1].parent.pid;
      RefusedIsKnown(states[j], events[j], r, pid);
    }
  }

  lemma RefusedIsKnown(s: State, e: Event, r: Request, pid: Pid)
    requires Inv(s) && RefusedAt(s, e, r, pid)
    ensures pid < s.spawned
  {
  }

  /** How the application can drop a request it has not sent. */
  lemma DroppingStep(s: State, e: Event, t: State, r: Request)
    requires Step(s, e) == Some(t)
    requires InFlight(s.parent) == Some(r) && !Sent(s.parent) && InFlight(t.parent) != Some(r)
    ensures (e == ByParent(SpawnFails) && s.current.None?)
         || (s.parent.Writing? && s.parent.retry && RefusedAt(s, e, r, s.parent.pid))
  {
    if e.ByHelper? {
      HelperKeepsParent(s, e.pid, e.helper);
    }
  }

  /** A request is dropped unsent only when no process can be started or two different helpers have refused it. */
  lemma DroppedUnsent(states: seq<State>, events: seq<Event>, k: nat, r: Request)
    requires Run(states, events) && k < |events|
    requires InFlight(states[k].parent) == Some(r) && !Sent(states[k].parent)
    requires InFlight(states[k + 1].parent) != Some(r)
    ensures (events[k] == ByParent(SpawnFails) && states[k].current.None?)
         || (exists j, p, q :: 0 <= j < k && p != q
              && RefusedAt(states[j], events[j], r, p) && RefusedAt(states[k], events[k], r, q))
  {
    hide RefusedAt, Sent;
    DroppingStep(states[k], events[k], states[k + 1], r);
    if events[k] != ByParent(SpawnFails) {
      var j, p := RetryFollowsRefusal(states, events, k, r);
    }
  }

  // ----- Why a request fails -----

  /** The request is abandoned for its time or a cancellation, for an unreadable answer or for the helper's death. */
  predicate GivenUp(s: State, e: Event, r: Request) {
    && InFlight(s.parent) == Some(r)
    && (|| e == ByParent(GivesUp)
        || e == ByParent(ReadFails)
        || (e == ByParent(SeesExit) && s.parent.Polling? && s.parent.pid in s.helpers
            && s.helpers[s.parent.pid].phase.Dead?))
  }

  predicate Failing(p: Parent, r: Request) {
    || (p.Cleaning? && p.req == r && p.outcome.Raised?)
    || (p.Discarding? && p.after == ThenClean(r))
  }

  lemma StartsFailing(s: State, e: ParentEvent, r: Request)
    requires FilesAgree(s) && ParentStep(s, e).Some?
    requires Failing(ParentStep(s, e).value.parent, r) && !Failing(s.parent, r)
    ensures GivenUp(s, ByParent(e), r)
  {
  }

  /** A sent request ends in an error only for one of those reasons, and never over an answer that is there. */
  lemma {:induction false} FailuresHaveReasons(states: seq<State>, events: seq<Event>, k: nat, r: Request)
    requires Run(states, events) && k < |states| && Failing(states[k].parent, r)
    ensures exists j :: 0 <= j < k && GivenUp(states[j], events[j], r)
    decreases k
  {
    hide Inv, Step, GivenUp;
    var s, e := states[k - 1], events[k - 1];
    if Failing(s.parent, r) {
      FailuresHaveReasons(states, events, k - 1, r);
    } else {
      InvariantHolds(states, events, k - 1);
      FilesOf(s);
      StepIs(s, e);
      if e.ByHelper? {
        HelperKeepsParent(s, e.pid, e.helper);
      } else {
        StartsFailing(s, e.parent, r);
      }
    }
  }

  lemma FilesOf(s: State)
    requires Inv(s)
    ensures FilesAgree(s)
  {
  }

  lemma StepIs(s: State, e: Event)
    ensures Step(s, e) == match e case ByParent(p) => ParentStep(s, p) case ByHelper(pid, h) => HelperStep(s, pid, h)
  {
  }

  /** And a helper that died is noticed by the application that waits for it. */
  lemma DeathIsNoticed(states: seq<State>, events: seq<Event>) returns (longer: seq<State>, more: seq<Event>)
    requires Run(states, events) && |states| == |events| + 1 && states[|events|].parent.Polling?
    ensures var s := states[|events|];
            && s.parent.pid in s.helpers
            && (Step(s, ByParent(SeesExit)).Some? <==> s.helpers[s.parent.pid].phase == Dead)
    ensures Step(states[|events|], ByParent(SeesExit)).Some? ==>
      && Run(longer, more) && |longer| == |more| + 1 && states <= longer
      && more == events + [ByParent(SeesExit), ByParent(CloseStdin), ByParent(Kill)]
      && longer[|more|].parent == Cleaning(states[|events|].parent.req, Raised, false)
  {
    hide Run, Inv;
    var s := states[|events|];
    InvariantHolds(states, events, |events|);
    KnownHelper(s);
    longer, more := states, events;
    if Step(s, ByParent(SeesExit)).Some? {
      longer, more := Onward(longer, more, ByParent(SeesExit));
      longer, more := Onward(longer, more, ByParent(CloseStdin));
      longer, more := Onward(longer, more, ByParent(Kill));
    }
  }

  lemma KnownHelper(s: State)
    requires Inv(s) && s.parent.Polling?
    ensures s.parent.pid in s.helpers
  {
  }

  lemma Onward(states: seq<State>, events: seq<Event>, e: Event) returns (longer: seq<State>, more: seq<Event>)
    requires Run(states, events) && |states| == |events| + 1 && Step(states[|events|], e).Some?
    ensures Run(longer, more) && |longer| == |more| + 1 && states <= longer && more == events + [e]
    ensures longer[|more|] == Step(states[|events|], e).value
  {
    longer, more := states + [Step(states[|events|], e).value], events + [e];
  }

  // ----- Why a helper stops -----

  predicate FailsOver(e: Event, pid: Pid) {
    e.ByHelper? && e.pid == pid && (e.helper.SolveRaises? || e.helper.PublishRaises?)
  }

  /** It reached the end of its input, or lost its end of the pipe, or could not publish even an error. */
  ghost predicate StopsAt(states: seq<State>, events: seq<Event>, j: nat, pid: Pid)
    requires j < |events| && |events| < |states|
  {
    && pid in states[j].helpers
    && (|| events[j] == ByHelper(pid, CloseRead)
        || (events[j] == ByHelper(pid, SeeEof) && !states[j].helpers[pid].stdinOpen)
        || (events[j].ByHelper? && events[j].pid == pid && events[j].helper.PublishRaises?
            && exists i :: 0 <= i < j && FailsOver(events[i], pid)))
  }

  predicate LastAnswer(s: State, pid: Pid) {
    pid in s.helpers && (s.helpers[pid].phase.Staging? || s.helpers[pid].phase.Staged?) && s.helpers[pid].phase.last
  }

  lemma ParentKeepsWork(s: State, e: ParentEvent, pid: Pid)
    requires ParentStep(s, e).Some? && pid in ParentStep(s, e).value.helpers
    ensures var now := ParentStep(s, e).value.helpers[pid].phase;
            now == Listening || now == Dead || (pid in s.helpers && now == s.helpers[pid].phase)
  {
  }

  lemma HelperMoves(s: State, p: Pid, e: HelperEvent, pid: Pid)
    requires HelperStep(s, p, e).Some?
    ensures var t := HelperStep(s, p, e).value;
            && t.helpers.Keys == s.helpers.Keys && p in s.helpers
            && (p != pid && pid in s.helpers ==> t.helpers[pid] == s.helpers[pid])
            && (LastAnswer(t, p) ==> LastAnswer(s, p) || e.SolveRaises? || e.PublishRaises?)
            && (t.helpers[p].phase.Exiting? ==>
                  || e == CloseRead
                  || (e == SeeEof && !s.helpers[p].stdinOpen)
                  || (e.PublishRaises? && LastAnswer(s, p)))
            && (e.PublishRaises? ==> if LastAnswer(s, p) then t.helpers[p].phase.Exiting? else LastAnswer(t, p))
            && (LastAnswer(s, p) && t.helpers[p].phase != s.helpers[p].phase && e != Rename ==>
                  LastAnswer(t, p) || t.helpers[p].phase.Exiting? || t.helpers[p].phase.Dead?)
            && (s.helpers[p].phase.Exiting? || s.helpers[p].phase.Dead? ==>
                  t.helpers[p].phase.Exiting? || t.helpers[p].phase.Dead?)
  {
  }

  lemma {:induction false} LastAnswerIsFailover(states: seq<State>, events: seq<Event>, k: nat, pid: Pid)
    requires Run(states, events) && k < |states| && LastAnswer(states[k], pid)
    ensures exists i :: 0 <= i < k && FailsOver(events[i], pid)
    decreases k
  {
    hide ParentStep, HelperStep;
    var s, e := states[k - 1], events[k - 1];
    assert Step(s, e) == Some(states[k]);
    if FailsOver(e, pid) {
    } else {
      match e {
        case ByParent(p) => ParentKeepsWork(s, p, pid);
        case ByHelper(p, h) => HelperMoves(s, p, h, pid);
      }
      LastAnswerIsFailover(states, events, k - 1, pid);
    }
  }

  /** A helper leaves its loop only for one of those reasons. */
  lemma {:induction false} ExitsHaveReasons(states: seq<State>, events: seq<Event>, k: nat, pid: Pid)
    requires Run(states, events) && k < |states| && pid in states[k].helpers && states[k].helpers[pid].phase == Exiting
    ensures exists j :: 0 <= j < k && StopsAt(states, events, j, pid)
    decreases k
  {
    hide ParentStep, HelperStep;
    var s, e := states[k - 1], events[k - 1];
    assert Step(s, e) == Some(states[k]);
    match e {
      case ByParent(p) => ParentKeepsWork(s, p, pid);
      case ByHelper(p, h) => HelperMoves(s, p, h, pid);
    }
    if pid in s.helpers && s.helpers[pid].phase == Exiting {
      ExitsHaveReasons(states, events, k - 1, pid);
    } else {
      if LastAnswer(s, pid) {
        LastAnswerIsFailover(states, events, k - 1, pid);
      }
      assert StopsAt(states, events, k - 1, pid);
    }
  }

  /** Until it has published, it is composing its last answer or it has stopped. */
  predicate AtTheEnd(s: State, pid: Pid) {
    LastAnswer(s, pid) || (pid in s.helpers && (s.helpers[pid].phase.Exiting? || s.helpers[pid].phase.Dead?))
  }

  lemma {:induction false} StaysAtTheEnd(states: seq<State>, events: seq<Event>, i: nat, j: nat, pid: Pid)
    requires Run(states, events) && i < j < |states|
    requires events[i].ByHelper? && events[i].pid == pid && events[i].helper.PublishRaises?
    requires forall m :: i < m < j ==> events[m] != ByHelper(pid, Rename)
    ensures AtTheEnd(states[j], pid)
    decreases j
  {
    hide ParentStep, HelperStep, Inv;
    var s, e := states[j - 1], events[j - 1];
    assert Step(s, e) == Some(states[j]);
    if i < j - 1 {
      StaysAtTheEnd(states, events, i, j - 1, pid);
    }
    match e {
      case ByParent(p) =>
        InvariantHolds(states, events, j - 1);
        NoRevival(s, p, pid);
      case ByHelper(p, h) => HelperMoves(s, p, h, pid);
    }
  }

  /** The application gives no known helper a new beginning. */
  lemma NoRevival(s: State, e: ParentEvent, pid: Pid)
    requires Inv(s) && ParentStep(s, e).Some? && pid in s.helpers
    ensures var t := ParentStep(s, e).value;
            pid in t.helpers && (t.helpers[pid].phase == s.helpers[pid].phase || t.helpers[pid].phase == Dead)
  {
  }

  /** Failing to publish twice, with no answer published in between, ends the helper. */
  lemma SecondFailureEnds(states: seq<State>, events: seq<Event>, i: nat, j: nat, pid: Pid)
    requires Run(states, events) && i < j < |events|
    requires events[i].ByHelper? && events[i].pid == pid && events[i].helper.PublishRaises?
    requires events[j].ByHelper? && events[j].pid == pid && events[j].helper.PublishRaises?
    requires forall m :: i < m < j ==> events[m] != ByHelper(pid, Rename)
    ensures pid in states[j + 1].helpers && states[j + 1].helpers[pid].phase == Exiting
  {
    StaysAtTheEnd(states, events, i, j, pid);
    assert Step(states[j], events[j]) == Some(states[j + 1]);
  }
}
