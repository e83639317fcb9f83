/**
The bypass helper protocol: the application hands one request at a time to a helper process over a
pipe, and the helper answers by renaming a finished file into place. Every run below interleaves the
steps of both sides freely, and either process may fail at any point.
*/
module BypassHelper {
  import opened Basics

  /** A request, named by the result path it asks for; no two requests share one. */
  type Request = nat

  type Pid = nat

  datatype Content = Partial | Full(payload: string)

  /** What a helper is doing. `last` marks the error answer, after which a failure ends the process. */
  datatype HelperPhase =
    | Listening
    | Solving(req: Request)
    | Staging(req: Request, payload: string, last: bool)
    | Staged(req: Request, payload: string, last: bool)
    | Answered
    | Exiting
    | Dead

  datatype Helper = Helper(phase: HelperPhase, stdinOpen: bool, pipe: seq<Request>)

  datatype Outcome = Returned(payload: string) | Raised

  /** Where the application goes on once a helper has been stopped. */
  datatype After = ThenStart(req: Request, retry: bool) | ThenClean(req: Request) | ThenIdle

  /** The application's side, one constructor for each point between two of its steps. */
  datatype Parent =
    | Idle
    | Starting(req: Request, retry: bool)
    | Writing(req: Request, pid: Pid, retry: bool)
    | Waiting(req: Request, pid: Pid)
    | Polling(req: Request, pid: Pid)
    | Reading(req: Request, pid: Pid)
    | Discarding(pid: Pid, closed: bool, after: After)
    | Cleaning(req: Request, outcome: Outcome, resultGone: bool)

  /**
  `current` is the helper the application remembers. `published` is history: the answer each request's
  helper had composed when it renamed the file into place.
  */
  datatype State = State(
    parent: Parent,
    current: Option<Pid>,
    helpers: map<Pid, Helper>,
    spawned: Pid,
    results: map<Request, Content>,
    parts: map<Request, Content>,
    issued: Request,
    published: map<Request, string>)

  const START := State(Idle, None, map[], 0, map[], map[], 0, map[])

  datatype ParentEvent =
    | Begin | Ensure | SpawnFails | Write
    | Look | SeesExit | GivesUp | Sleeps
    | Read | ReadFails | CloseStdin | Kill | Unlink | Reap

  datatype HelperEvent =
    | TakeLine | SeeEof | Solve(payload: string) | SolveRaises(payload: string)
    | WriteSome | WriteAll | Rename | PublishRaises(payload: string) | NextLine
    | CloseRead | Die

  datatype Event = ByParent(parent: ParentEvent) | ByHelper(pid: Pid, helper: HelperEvent)

  predicate ReadEndOpen(h: Helper) {
    !h.phase.Exiting? && !h.phase.Dead?
  }

  function AfterDiscard(after: After): Parent {
    match after
    case ThenStart(r, retry) => Starting(r, retry)
    case ThenClean(r) => Cleaning(r, Raised, false)
    case ThenIdle => Idle
  }

  /** Forget the helper first; its stdin is closed and it is killed in the steps that follow. */
  function Discard(s: State, pid: Pid, after: After): State {
    s.(parent := Discarding(pid, false, after), current := None)
  }

  /** None when the step is not possible in this state. */
  function ParentStep(s: State, e: ParentEvent): Option<State> {
    match (s.parent, e)
    case (Idle, Begin) =>
      Some(s.(parent := Starting(s.issued, false), issued := s.issued + 1))
    case (Idle, Reap) =>
      if s.current.Some? then Some(Discard(s, s.current.value, ThenIdle)) else None
    case (Starting(r, retry), Ensure) =>
      if s.current.None? then
        Some(s.(parent := Writing(r, s.spawned, retry), current := Some(s.spawned), spawned := s.spawned + 1,
                helpers := s.helpers[s.spawned := Helper(Listening, true, [])]))
      else if s.current.value !in s.helpers then None
      else if s.helpers[s.current.value].phase.Dead? then Some(Discard(s, s.current.value, ThenStart(r, retry)))
      else Some(s.(parent := Writing(r, s.current.value, retry)))
    case (Starting(_, _), SpawnFails) =>
      if s.current.None? then Some(s.(parent := Idle)) else None
    case (Writing(r, pid, retry), Write) =>
      if pid !in s.helpers then None
      else if ReadEndOpen(s.helpers[pid]) then
        var h := s.helpers[pid];
        Some(s.(parent := Waiting(r, pid), helpers := s.helpers[pid := h.(pipe := h.pipe + [r])]))
      else if retry then Some(s.(parent := Idle))
      else Some(Discard(s, pid, ThenStart(r, true)))
    case (Waiting(r, pid), Look) =>
      Some(s.(parent := if r in s.results then Reading(r, pid) else Polling(r, pid)))
    case (Polling(r, pid), SeesExit) =>
      if pid in s.helpers && s.helpers[pid].phase.Dead? then Some(Discard(s, pid, ThenClean(r))) else None
    case (Polling(r, pid), GivesUp) => Some(Discard(s, pid, ThenClean(r)))
    case (Polling(r, pid), Sleeps) => Some(s.(parent := Waiting(r, pid)))
    case (Reading(r, _), Read) =>
      var outcome := if r in s.results && s.results[r].Full? then Returned(s.results[r].payload) else Raised;
      Some(s.(parent := Cleaning(r, outcome, false)))
    case (Reading(r, _), ReadFails) => Some(s.(parent := Cleaning(r, Raised, false)))
    case (Discarding(pid, false, after), CloseStdin) =>
      if pid !in s.helpers then None
      else
        var h := s.helpers[pid];
        Some(s.(parent := Discarding(pid, true, after), helpers := s.helpers[pid := h.(stdinOpen := false)]))
    case (Discarding(pid, true, after), Kill) =>
      if pid !in s.helpers then None
      else Some(s.(parent := AfterDiscard(after), helpers := s.helpers[pid := Helper(Dead, false, [])]))
    case (Cleaning(r, outcome, false), Unlink) =>
      Some(s.(parent := Cleaning(r, outcome, true), results := s.results - {r}))
    case (Cleaning(r, _, true), Unlink) =>
      Some(s.(parent := Idle, parts := s.parts - {r}))
    case _ => None
  }

  function WithPhase(s: State, pid: Pid, phase: HelperPhase): State
    requires pid in s.helpers
  {
    s.(helpers := s.helpers[pid := s.helpers[pid].(phase := phase)])
  }

  function HelperStep(s: State, pid: Pid, e: HelperEvent): Option<State> {
    if pid !in s.helpers then None
    else
      var h := s.helpers[pid];
      match (h.phase, e)
      case (Listening, TakeLine) =>
        if h.pipe == [] then None
        else Some(s.(helpers := s.helpers[pid := Helper(Solving(h.pipe[0]), h.stdinOpen, h.pipe[1..])]))
      case (Listening, SeeEof) =>
        if h.pipe == [] && !h.stdinOpen then Some(WithPhase(s, pid, Exiting)) else None
      case (Solving(r), Solve(payload)) => Some(WithPhase(s, pid, Staging(r, payload, false)))
      case (Solving(r), SolveRaises(payload)) => Some(WithPhase(s, pid, Staging(r, payload, true)))
      case (Staging(r, _, _), WriteSome) => Some(s.(parts := s.parts[r := Partial]))
      case (Staging(r, payload, last), WriteAll) =>
        Some(WithPhase(s, pid, Staged(r, payload, last)).(parts := s.parts[r := Full(payload)]))
      case (Staged(r, payload, _), Rename) =>
        if r !in s.parts then None
        else Some(WithPhase(s, pid, Answered).(results := s.results[r := s.parts[r]], parts := s.parts - {r},
                                               published := s.published[r := payload]))
      case (Staging(r, _, last), PublishRaises(payload)) =>
        Some(WithPhase(s, pid, if last then Exiting else Staging(r, payload, true)))
      case (Staged(r, _, last), PublishRaises(payload)) =>
        Some(WithPhase(s, pid, if last then Exiting else Staging(r, payload, true)))
      case (Answered, NextLine) => Some(WithPhase(s, pid, Listening))
      case (Dead, _) => None
      case (_, Die) => Some(s.(helpers := s.helpers[pid := Helper(Dead, h.stdinOpen, [])]))
      case (_, CloseRead) => Some(s.(helpers := s.helpers[pid := Helper(Exiting, h.stdinOpen, [])]))
      case _ => None
  }

  function Step(s: State, e: Event): Option<State> {
    match e
    case ByParent(p) => ParentStep(s, p)
    case ByHelper(pid, h) => HelperStep(s, pid, h)
  }

  ghost predicate Run(states: seq<State>, events: seq<Event>) {
    && |states| == |events| + 1
    && states[0] == START
    && forall k :: 0 <= k < |events| ==> Step(states[k], events[k]) == Some(states[k + 1])
  }

  // ----- The invariant -----

  /** The request the application is working on. */
  function InFlight(p: Parent): Option<Request> {
    match p
    case Idle => None
    case Starting(r, _) => Some(r)
    case Writing(r, _, _) => Some(r)
    case Waiting(r, _) => Some(r)
    case Polling(r, _) => Some(r)
    case Reading(r, _) => Some(r)
    case Cleaning(r, _, _) => Some(r)
    case Discarding(_, _, ThenStart(r, _)) => Some(r)
    case Discarding(_, _, ThenClean(r)) => Some(r)
    case Discarding(_, _, ThenIdle) => None
  }

  /** Its line has been written to a pipe. */
  predicate Sent(p: Parent) {
    p.Waiting? || p.Polling? || p.Reading? || p.Cleaning? || (p.Discarding? && p.after.ThenClean?)
  }

  /** The one helper that may be alive. */
  function Owner(s: State): Option<Pid> {
    if s.parent.Discarding? then Some(s.parent.pid) else s.current
  }

  /** The requests a helper has yet to read or to answer. */
  function Unfinished(h: Helper): seq<Request> {
    if h.phase.Solving? || h.phase.Staging? || h.phase.Staged? then [h.phase.req] + h.pipe else h.pipe
  }

  ghost predicate ParentAgrees(s: State) {
    && (s.current.Some? ==> s.current.value in s.helpers)
    && (s.parent.Writing? || s.parent.Waiting? || s.parent.Polling? || s.parent.Reading? ==>
          s.current == Some(s.parent.pid))
    && (s.parent.Discarding? ==> s.current == None && s.parent.pid in s.helpers)
    && (s.parent.Starting? && s.parent.retry ==> s.current == None)
    && (InFlight(s.parent).Some? ==>
          InFlight(s.parent).value < s.issued
          && (!Sent(s.parent) ==> InFlight(s.parent).value !in s.published))
  }

  ghost predicate OthersAreDead(s: State) {
    && (forall pid :: pid in s.helpers ==> pid < s.spawned)
    && (forall pid :: pid in s.helpers && Some(pid) != Owner(s) ==>
          s.helpers[pid] == Helper(Dead, s.helpers[pid].stdinOpen, []))
  }

  ghost predicate OwnerHolds(s: State, h: Helper) {
    || Unfinished(h) == []
    || (&& (s.parent.Waiting? || s.parent.Polling? || (s.parent.Discarding? && s.parent.after.ThenClean?))
        && Unfinished(h) == [InFlight(s.parent).value]
        && InFlight(s.parent).value !in s.published
        && ReadEndOpen(h)
        && (h.phase.Staged? ==> h.phase.req in s.parts && s.parts[h.phase.req] == Full(h.phase.payload)))
  }

  ghost predicate FilesAgree(s: State) {
    && (forall r :: r in s.published ==> r < s.issued)
    && (forall r :: r in s.results ==> r in s.published && s.results[r] == Full(s.published[r]))
    && (forall r :: r in s.results || r in s.parts ==> Sent(s.parent) && InFlight(s.parent) == Some(r))
    && (s.parent.Reading? ==> s.parent.req in s.results)
    && (s.parent.Cleaning? && s.parent.outcome.Returned? ==>
          s.parent.req in s.published && s.published[s.parent.req] == s.parent.outcome.payload)
    && (s.parent.Cleaning? && s.parent.resultGone ==> s.parent.req !in s.results)
  }

  ghost predicate Inv(s: State) {
    && ParentAgrees(s)
    && OthersAreDead(s)
    && (Owner(s).Some? ==> OwnerHolds(s, s.helpers[Owner(s).value]))
    && FilesAgree(s)
  }

  lemma SendKeepsInv(s: State)
    requires Inv(s) && ParentStep(s, Write).Some?
    ensures Inv(ParentStep(s, Write).value)
  {
  }

  lemma BeginKeepsInv(s: State, e: ParentEvent)
    requires e in {Begin, Reap}
    requires Inv(s) && ParentStep(s, e).Some?
    ensures Inv(ParentStep(s, e).value)
  {
  }

  lemma StartKeepsInv(s: State, e: ParentEvent)
    requires e in {Ensure, SpawnFails}
    requires Inv(s) && ParentStep(s, e).Some?
    ensures Inv(ParentStep(s, e).value)
  {
  }

  lemma PollKeepsInv(s: State, e: ParentEvent)
    requires e in {SeesExit, GivesUp, Sleeps}
    requires Inv(s) && ParentStep(s, e).Some?
    ensures Inv(ParentStep(s, e).value)
  {
  }

  lemma ReadKeepsInv(s: State, e: ParentEvent)
    requires e in {Look, Read, ReadFails}
    requires Inv(s) && ParentStep(s, e).Some?
    ensures Inv(ParentStep(s, e).value)
  {
  }

  lemma UnlinkStep(s: State)
    requires ParentStep(s, Unlink).Some?
    ensures s.parent.Cleaning?
    ensures ParentStep(s, Unlink).value ==
            if s.parent.resultGone then s.(parent := Idle, parts := s.parts - {s.parent.req})
            else s.(parent := s.parent.(resultGone := true), results := s.results - {s.parent.req})
  {
  }

  lemma UnlinkKeepsInv(s: State)
    requires Inv(s) && ParentStep(s, Unlink).Some?
    ensures Inv(ParentStep(s, Unlink).value)
  {
    hide ParentStep;
    UnlinkStep(s);
  }

  lemma StopHelperKeepsInv(s: State, e: ParentEvent)
    requires e in {CloseStdin, Kill}
    requires Inv(s) && ParentStep(s, e).Some?
    ensures Inv(ParentStep(s, e).value)
  {
  }

  lemma ParentKeepsInv(s: State, e: ParentEvent)
    requires Inv(s) && ParentStep(s, e).Some?
    ensures Inv(ParentStep(s, e).value)
  {
    hide Inv, ParentStep;
    match e {
      case Write => SendKeepsInv(s);
      case Begin | Reap => BeginKeepsInv(s, e);
      case Ensure | SpawnFails => StartKeepsInv(s, e);
      case SeesExit | GivesUp | Sleeps => PollKeepsInv(s, e);
      case Look | Read | ReadFails => ReadKeepsInv(s, e);
      case Unlink => UnlinkKeepsInv(s);
      case CloseStdin | Kill => StopHelperKeepsInv(s, e);
    }
  }

  lemma LiveIsOwner(s: State, pid: Pid)
    requires Inv(s) && pid in s.helpers && !s.helpers[pid].phase.Dead?
    ensures Owner(s) == Some(pid) && OwnerHolds(s, s.helpers[pid]) && FilesAgree(s) && ParentAgrees(s)
  {
  }

  /** What a step of the live helper must still show. */
  lemma OwnerMoves(s: State, t: State, pid: Pid)
    requires Inv(s) && Owner(s) == Some(pid) && pid in s.helpers && pid in t.helpers
    requires t.helpers == s.helpers[pid := t.helpers[pid]]
    requires t.parent == s.parent && t.current == s.current && t.spawned == s.spawned
    requires ParentAgrees(t) && OwnerHolds(t, t.helpers[pid]) && FilesAgree(t)
    ensures Inv(t)
  {
  }

  lemma TakeKeepsInv(s: State, pid: Pid)
    requires Inv(s) && HelperStep(s, pid, TakeLine).Some?
    ensures Inv(HelperStep(s, pid, TakeLine).value)
  {
    hide Inv;
    LiveIsOwner(s, pid);
    var t := HelperStep(s, pid, TakeLine).value;
    assert Unfinished(t.helpers[pid]) == Unfinished(s.helpers[pid]);
    OwnerMoves(s, t, pid);
  }

  lemma SolveKeepsInv(s: State, pid: Pid, e: HelperEvent)
    requires e.Solve? || e.SolveRaises? || e.PublishRaises?
    requires Inv(s) && HelperStep(s, pid, e).Some?
    ensures Inv(HelperStep(s, pid, e).value)
  {
    hide Inv, Sent, InFlight;
    LiveIsOwner(s, pid);
    var t := HelperStep(s, pid, e).value;
    assert |Unfinished(s.helpers[pid])| == 1 + |s.helpers[pid].pipe|;
    OwnerMoves(s, t, pid);
  }

  lemma FileKeepsInv(s: State, pid: Pid, e: HelperEvent)
    requires e in {WriteSome, WriteAll, Rename}
    requires Inv(s) && HelperStep(s, pid, e).Some?
    ensures Inv(HelperStep(s, pid, e).value)
  {
    hide Inv;
    LiveIsOwner(s, pid);
    var t := HelperStep(s, pid, e).value;
    var r := s.helpers[pid].phase.req;
    assert Unfinished(s.helpers[pid])[0] == r && |Unfinished(s.helpers[pid])| == 1 + |s.helpers[pid].pipe|;
    OwnerMoves(s, t, pid);
  }

  lemma SameFiles(s: State, t: State)
    requires FilesAgree(s) && t == s.(helpers := t.helpers)
    ensures FilesAgree(t)
  {
  }

  lemma StopKeepsInv(s: State, pid: Pid, e: HelperEvent)
    requires e in {SeeEof, NextLine, CloseRead, Die}
    requires Inv(s) && HelperStep(s, pid, e).Some?
    ensures Inv(HelperStep(s, pid, e).value)
  {
    hide Inv, Sent, InFlight, FilesAgree;
    LiveIsOwner(s, pid);
    var t := HelperStep(s, pid, e).value;
    SameFiles(s, t);
    OwnerMoves(s, t, pid);
  }

  lemma HelperKeepsInv(s: State, pid: Pid, e: HelperEvent)
    requires Inv(s) && HelperStep(s, pid, e).Some?
    ensures Inv(HelperStep(s, pid, e).value)
  {
    hide Inv, HelperStep;
    match e {
      case TakeLine => TakeKeepsInv(s, pid);
      case WriteSome | WriteAll | Rename => FileKeepsInv(s, pid, e);
      case SeeEof | NextLine | CloseRead | Die => StopKeepsInv(s, pid, e);
      case _ => SolveKeepsInv(s, pid, e);
    }
  }

  lemma {:induction false} InvariantHolds(states: seq<State>, events: seq<Event>, k: nat)
    requires Run(states, events) && k < |states|
    ensures Inv(states[k])
    decreases k
  {
    hide Inv, ParentStep, HelperStep;
    if k > 0 {
      InvariantHolds(states, events, k - 1);
      assert Step(states[k - 1], events[k - 1]) == Some(states[k]);
      match events[k - 1] {
        case ByParent(p) => ParentKeepsInv(states[k - 1], p);
        case ByHelper(pid, h) => HelperKeepsInv(states[k - 1], pid, h);
      }
    } else {
      StartsWell();
    }
  }

  lemma StartsWell()
    ensures Inv(START)
  {
  }

  // ----- What every run keeps -----

  /** At this step a helper renamed its complete answer to `r` into place. */
  predicate RenamedAt(s: State, e: Event, r: Request, payload: string) {
    && e.ByHelper? && e.helper == Rename && e.pid in s.helpers
    && (s.helpers[e.pid].phase == Staged(r, payload, false) || s.helpers[e.pid].phase == Staged(r, payload, true))
  }

  lemma {:induction false} PublishedByRename(states: seq<State>, events: seq<Event>, k: nat, r: Request)
    requires Run(states, events) && k < |states|
    requires r in states[k].published
    ensures exists j :: 0 <= j < k && RenamedAt(states[j], events[j], r, states[k].published[r])
    decreases k
  {
    hide Inv;
    var s, e := states[k - 1], events[k - 1];
    assert Step(s, e) == Some(states[k]);
    if RenamedAt(s, e, r, states[k].published[r]) {
    } else {
      PublishStep(s, e, r, states[k]);
      PublishedByRename(states, events, k - 1, r);
      var j :| 0 <= j < k - 1 && RenamedAt(states[j], events[j], r, states[k - 1].published[r]);
      assert RenamedAt(states[j], events[j], r, states[k].published[r]);
    }
  }

  lemma PublishStep(s: State, e: Event, r: Request, t: State)
    requires Step(s, e) == Some(t) && r in t.published
    requires !RenamedAt(s, e, r, t.published[r])
    ensures r in s.published && s.published[r] == t.published[r]
  {
  }

  /**
  Whatever is returned for a request is the complete answer some helper composed for that same request
  and renamed into place earlier in the run.
  */
  lemma ReturnedIsTheAnswer(states: seq<State>, events: seq<Event>, k: nat)
    requires Run(states, events) && k < |states|
    requires states[k].parent.Cleaning? && states[k].parent.outcome.Returned?
    ensures var answer := states[k].parent;
            exists j :: 0 <= j < k && RenamedAt(states[j], events[j], answer.req, answer.outcome.payload)
  {
    InvariantHolds(states, events, k);
    PublishedByRename(states, events, k, states[k].parent.req);
  }

  /** No file a reader can see under a result path is half-written, and reading one always yields an answer. */
  lemma NeverHalfWritten(states: seq<State>, events: seq<Event>, k: nat, r: Request)
    requires Run(states, events) && k < |states|
    ensures r in states[k].results ==> states[k].results[r].Full?
    ensures states[k].parent.Reading? ==>
      && ParentStep(states[k], Read).Some?
      && ParentStep(states[k], Read).value.parent.outcome.Returned?
  {
    InvariantHolds(states, events, k);
  }

  lemma AtMostOneAlive(states: seq<State>, events: seq<Event>, k: nat, p: Pid, q: Pid)
    requires Run(states, events) && k < |states|
    requires p in states[k].helpers && !states[k].helpers[p].phase.Dead?
    requires q in states[k].helpers && !states[k].helpers[q].phase.Dead?
    ensures p == q
  {
    InvariantHolds(states, events, k);
    LiveIsOwner(states[k], p);
    LiveIsOwner(states[k], q);
  }

  /** Once the application is done with a request, no helper still holds it and neither of its files remains. */
  lemma FinishedLeavesNothing(states: seq<State>, events: seq<Event>, k: nat, r: Request)
    requires Run(states, events) && k < |states|
    requires r < states[k].issued && InFlight(states[k].parent) != Some(r)
    ensures r !in states[k].results && r !in states[k].parts
    ensures forall pid :: pid in states[k].helpers ==> r !in Unfinished(states[k].helpers[pid])
  {
    InvariantHolds(states, events, k);
  }

  /** `r` has been read from a pipe, or never will be. */
  ghost predicate Consumed(s: State, r: Request) {
    && r < s.issued
    && (InFlight(s.parent) == Some(r) ==> Sent(s.parent))
    && (forall pid :: pid in s.helpers ==> r !in s.helpers[pid].pipe)
  }

  /** A step of the application issues a new request or keeps the one in flight, which is sent once at most. */
  lemma ParentFlight(s: State, e: ParentEvent)
    requires ParentStep(s, e).Some?
    ensures var t, r := ParentStep(s, e).value, InFlight(ParentStep(s, e).value.parent);
            && t.issued >= s.issued
            && (r.Some? ==> r == InFlight(s.parent) || r.value == s.issued)
            && (r.Some? && r == InFlight(s.parent) && Sent(s.parent) ==> Sent(t.parent))
  {
  }

  /** It adds nothing to a pipe but, once, the request in flight. */
  lemma ParentPipes(s: State, e: ParentEvent, pid: Pid, r: Request)
    requires ParentStep(s, e).Some? && pid in ParentStep(s, e).value.helpers
    requires r in ParentStep(s, e).value.helpers[pid].pipe
    ensures (pid in s.helpers && r in s.helpers[pid].pipe) || (InFlight(s.parent) == Some(r) && !Sent(s.parent))
  {
  }

  lemma ParentKeepsConsumed(s: State, e: ParentEvent, r: Request)
    requires Consumed(s, r) && ParentStep(s, e).Some?
    ensures Consumed(ParentStep(s, e).value, r)
  {
    hide ParentStep, InFlight, Sent;
    ParentFlight(s, e);
    var t := ParentStep(s, e).value;
    forall pid | pid in t.helpers ensures r !in t.helpers[pid].pipe {
      if r in t.helpers[pid].pipe {
        ParentPipes(s, e, pid, r);
      }
    }
  }

  lemma HelperKeepsConsumed(s: State, pid: Pid, e: HelperEvent, r: Request)
    requires Consumed(s, r) && HelperStep(s, pid, e).Some?
    ensures Consumed(HelperStep(s, pid, e).value, r)
  {
  }

  lemma TakenIsConsumed(s: State, pid: Pid)
    requires Inv(s) && HelperStep(s, pid, TakeLine).Some?
    ensures Consumed(HelperStep(s, pid, TakeLine).value, s.helpers[pid].pipe[0])
  {
  }

  lemma {:induction false} StaysConsumed(states: seq<State>, events: seq<Event>, i: nat, j: nat, r: Request)
    requires Run(states, events) && i <= j < |states| && Consumed(states[i], r)
    ensures Consumed(states[j], r)
    decreases j
  {
    hide Consumed, ParentStep, HelperStep;
    if i < j {
      StaysConsumed(states, events, i, j - 1, r);
      assert Step(states[j - 1], events[j - 1]) == Some(states[j]);
      match events[j - 1] {
        case ByParent(p) => ParentKeepsConsumed(states[j - 1], p, r);
        case ByHelper(pid, h) => HelperKeepsConsumed(states[j - 1], pid, h, r);
      }
    }
  }

  /** The retry on a fresh process never makes a second helper solve a request: its line is read at most once. */
  lemma SolvedAtMostOnce(states: seq<State>, events: seq<Event>, i: nat, j: nat, p: Pid, q: Pid)
    requires Run(states, events) && i < j < |events|
    requires events[i] == ByHelper(p, TakeLine) && events[j] == ByHelper(q, TakeLine)
    ensures p in states[i].helpers && states[i].helpers[p].pipe != []
    ensures q in states[j].helpers && states[j].helpers[q].pipe != []
    ensures states[i].helpers[p].pipe[0] != states[j].helpers[q].pipe[0]
  {
    hide Inv;
    assert Step(states[i], events[i]) == Some(states[i + 1]);
    assert Step(states[j], events[j]) == Some(states[j + 1]);
    InvariantHolds(states, events, i);
    TakenIsConsumed(states[i], p);
    StaysConsumed(states, events, i + 1, j, states[i].helpers[p].pipe[0]);
  }

  lemma Extend(states: seq<State>, events: seq<Event>, e: Event) returns (longer: seq<State>, more: seq<Event>)
    requires Run(states, events) && Step(states[|events|], e).Some?
    ensures Run(longer, more) && |longer| == |more| + 1 && longer[|more|] == Step(states[|events|], e).value
  {
    longer, more := states + [Step(states[|events|], e).value], events + [e];
  }

  /** A new helper is given the first request and reads its line. */
  lemma RequestIsTaken() returns (states: seq<State>, events: seq<Event>)
    ensures Run(states, events) && |states| == |events| + 1
    ensures var s := states[|events|];
            s.parent == Waiting(0, 0) && 0 in s.helpers && s.helpers[0].phase == Solving(0)
  {
    hide Run;
    states, events := [START], [];
    StartRuns();
    states, events := Extend(states, events, ByParent(Begin));
    states, events := Extend(states, events, ByParent(Ensure));
    states, events := Extend(states, events, ByParent(Write));
    states, events := Extend(states, events, ByHelper(0, TakeLine));
  }

  lemma StartRuns()
    ensures Run([START], [])
  {
  }

  /** It composes its answer, writes it and renames it into place. */
  lemma AnswerIsPublished(payload: string) returns (states: seq<State>, events: seq<Event>)
    ensures Run(states, events) && |states| == |events| + 1
    ensures var s := states[|events|];
            s.parent == Waiting(0, 0) && 0 in s.results && s.results[0] == Full(payload)
  {
    hide Run;
    states, events := RequestIsTaken();
    states, events := Extend(states, events, ByHelper(0, Solve(payload)));
    states, events := Extend(states, events, ByHelper(0, WriteAll));
    states, events := Extend(states, events, ByHelper(0, Rename));
  }

  /** Any payload can come back: the protocol's ordinary course, from the first spawn to the answer. */
  lemma AnswersComeBack(payload: string) returns (states: seq<State>, events: seq<Event>)
    ensures Run(states, events) && |states| == |events| + 1
    ensures states[|events|].parent == Cleaning(0, Returned(payload), false)
  {
    hide Run;
    states, events := AnswerIsPublished(payload);
    states, events := Extend(states, events, ByParent(Look));
    states, events := Extend(states, events, ByParent(Read));
  }
}
