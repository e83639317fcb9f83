/** The failed-login counters: ten failures lock a username for thirty minutes. */
module Lockout {
  import opened Basics

  const MAX_LOGIN_ATTEMPTS := 10
  const MINUTE: int := 60_000_000
  const LOCKOUT: int := 30 * MINUTE

  /** `until` is None when the stored moment is missing or malformed. */
  datatype Entry = Entry(count: int, until: Option<int>)

  type Counters = map<string, Entry>

  /** A full counter without a valid moment is locked from now on rather than let through. */
  function Repaired(e: Entry, now: int): Entry {
    if e.until.None? && e.count >= MAX_LOGIN_ATTEMPTS then e.(until := Some(now + LOCKOUT)) else e
  }

  predicate Expired(e: Entry, now: int) {
    e.until.Some? && e.until.value < now
  }

  function Cleaned(m: Counters, now: int): Counters {
    map u | u in m && !Expired(Repaired(m[u], now), now) :: Repaired(m[u], now)
  }

  predicate IsLocked(m: Counters, u: string, now: int) {
    u in Cleaned(m, now) && Cleaned(m, now)[u].until.Some? && now < Cleaned(m, now)[u].until.value
  }

  function Failed(m: Counters, u: string, now: int): Counters {
    var e := if u in m then m[u] else Entry(0, None);
    var count := e.count + 1;
    m[u := Entry(count, if count >= MAX_LOGIN_ATTEMPTS then Some(now + LOCKOUT) else e.until)]
  }

  /** What the password check would say; `Aborts` are the exits that neither count nor clear. */
  datatype Check = Succeeds | Fails | Aborts

  datatype Attempt = Attempt(user: string, at: int, check: Check)

  datatype Response = Refused | Rejected(locked: bool) | Accepted | ServerError

  /** One guarded login, on one reading of the clock. */
  function Login(m: Counters, a: Attempt): (Counters, Response) {
    var cleaned := Cleaned(m, a.at);
    if IsLocked(m, a.user, a.at) then (cleaned, Refused)
    else match a.check
      case Succeeds => (cleaned - {a.user}, Accepted)
      case Fails =>
        var failed := Failed(cleaned, a.user, a.at);
        (failed, Rejected(failed[a.user].count >= MAX_LOGIN_ATTEMPTS))
      case Aborts => (cleaned, ServerError)
  }

  /** The module state and the helpers that update it in place. */
  class LoginGuard {
    var attempts: Counters

    constructor ()
      ensures attempts == map[]
    {
      attempts := map[];
    }

    method GetLockoutUntil(u: string, repairIfLocked: bool, now: int) returns (until: Option<int>)
      modifies this
      ensures u !in old(attempts) ==> until == None && attempts == old(attempts)
      ensures u in old(attempts) ==>
        var e := old(attempts)[u];
        && attempts == old(attempts)[u := e.(until := until)]
        && until == if e.until.None? && repairIfLocked && e.count >= 10 then Some(now + 1_800_000_000) else e.until
    {
      if u !in attempts {
        return None;
      }
      var state := attempts[u];
      if state.until.Some? {
        assert attempts == attempts[u := state];
        return state.until;
      }
      if repairIfLocked && state.count >= MAX_LOGIN_ATTEMPTS {
        attempts := attempts[u := state.(until := Some(now + LOCKOUT))];
        return Some(now + LOCKOUT);
      }
      assert attempts == attempts[u := state];
      until := None;
    }

    method CleanupOldLockouts(now: int)
      modifies this
      ensures attempts == Cleaned(old(attempts), now)
      ensures forall u :: u in attempts <==>
        u in old(attempts) && (old(attempts)[u].until.Some? ==> old(attempts)[u].until.value >= now)
      ensures forall u :: u in attempts ==>
        var e := old(attempts)[u];
        && attempts[u].count == e.count
        && attempts[u].until == if e.until.None? && e.count >= 10 then Some(now + 1_800_000_000) else e.until
    {
      ghost var start := attempts;
      var listed := attempts.Keys;
      var expired: set<string> := {};
      while listed != {}
        invariant attempts.Keys == start.Keys && listed <= start.Keys && expired <= start.Keys - listed
        invariant forall u :: u in listed ==> attempts[u] == start[u]
        invariant forall u :: u in start.Keys - listed ==>
          attempts[u] == Repaired(start[u], now) && (u in expired <==> Expired(attempts[u], now))
        decreases listed
      {
        var username :| username in listed;
        var until := GetLockoutUntil(username, true, now);
        if until.Some? && until.value < now {
          expired := expired + {username};
        }
        listed := listed - {username};
      }
      attempts := attempts - expired;
      assert attempts.Keys == Cleaned(start, now).Keys;
    }

    method IsAccountLocked(u: string, now: int) returns (locked: bool)
      modifies this
      ensures attempts == Cleaned(old(attempts), now)
      ensures locked <==> IsLocked(old(attempts), u, now)
      ensures locked <==> u in attempts && attempts[u].until.Some? && now < attempts[u].until.value
    {
      CleanupOldLockouts(now);
      if u !in attempts {
        return false;
      }
      CleanedIsRepaired(old(attempts), now, u);
      var until := GetLockoutUntil(u, true, now);
      assert attempts == Cleaned(old(attempts), now)[u := attempts[u]];
      locked := until.Some? && now < until.value;
    }

    method RecordFailedLogin(u: string, now: int) returns (locked: bool)
      modifies this
      ensures attempts == Failed(old(attempts), u, now)
      ensures attempts.Keys == old(attempts).Keys + {u}
      ensures forall other :: other in old(attempts) && other != u ==> attempts[other] == old(attempts)[other]
      ensures attempts[u].count == 1 + if u in old(attempts) then old(attempts)[u].count else 0
      ensures attempts[u].until == if attempts[u].count >= 10 then Some(now + 1_800_000_000)
                                   else if u in old(attempts) then old(attempts)[u].until else None
      ensures locked <==> attempts[u].count >= 10
    {
      if u !in attempts {
        attempts := attempts[u := Entry(0, None)];
      }
      attempts := attempts[u := attempts[u].(count := attempts[u].count + 1)];
      var count := attempts[u].count;
      if count >= MAX_LOGIN_ATTEMPTS {
        attempts := attempts[u := attempts[u].(until := Some(now + LOCKOUT))];
        return true;
      }
      locked := false;
    }

    method ClearFailedLogins(u: string)
      modifies this
      ensures attempts == old(attempts) - {u}
    {
      if u in attempts {
        attempts := attempts - {u};
      } else {
        assert attempts == attempts - {u};
      }
    }

    /** Who is answered what, and what is remembered of it, on counters as the guard leaves them. */
    method ApiLogin(a: Attempt) returns (response: Response)
      modifies this
      ensures (attempts, response) == Login(old(attempts), a)
      ensures WellFormed(old(attempts)) ==>
        var locked := a.user in old(attempts) && old(attempts)[a.user].until.Some?
                      && a.at < old(attempts)[a.user].until.value;
        && (response.Refused? <==> locked)
        && (response.Accepted? <==> !locked && a.check == Succeeds)
        && (response.Rejected? <==> !locked && a.check == Fails)
        && (response.ServerError? <==> !locked && a.check == Aborts)
      ensures WellFormed(old(attempts)) ==>
        var earlier := if a.user in old(attempts) && !Lapsed(old(attempts)[a.user], a.at)
                       then old(attempts)[a.user].count else 0;
        && (response.Accepted? ==> a.user !in attempts)
        && (response.Rejected? ==>
              && (response.locked <==> earlier + 1 >= 10)
              && a.user in attempts && attempts[a.user].count == earlier + 1
              && attempts[a.user].until == if earlier + 1 >= 10 then Some(a.at + 30 * MINUTE) else None)
        && (response.Refused? || response.ServerError? ==>
              (a.user in attempts <==> earlier > 0) && (earlier > 0 ==> attempts[a.user] == old(attempts)[a.user]))
        && (forall u :: u != a.user ==>
              && (u in attempts <==> u in old(attempts) && !Lapsed(old(attempts)[u], a.at))
              && (u in attempts ==> attempts[u] == old(attempts)[u]))
    {
      LoginDecides(attempts, a);
      var locked := IsAccountLocked(a.user, a.at);
      if locked {
        return Refused;
      }
      match a.check {
        case Succeeds =>
          ClearFailedLogins(a.user);
          response := Accepted;
        case Fails =>
          var nowLocked := RecordFailedLogin(a.user, a.at);
          response := Rejected(nowLocked);
        case Aborts =>
          response := ServerError;
      }
    }
  }

  /** The lockout is over: not at the very moment it ends, but at any later one. */
  predicate Lapsed(e: Entry, now: int) {
    e.until.Some? && e.until.value < now
  }

  /** A lockout that has not ended. */
  predicate Locked(m: Counters, u: string, now: int) {
    u in m && m[u].until.Some? && now < m[u].until.value
  }

  lemma LoginDecides(m: Counters, a: Attempt)
    ensures WellFormed(m) ==>
      var (next, response) := Login(m, a);
      && (response.Refused? <==> Locked(m, a.user, a.at))
      && (response.Accepted? <==> !Locked(m, a.user, a.at) && a.check == Succeeds)
      && (response.Rejected? <==> !Locked(m, a.user, a.at) && a.check == Fails)
      && (response.ServerError? <==> !Locked(m, a.user, a.at) && a.check == Aborts)
  {
    if WellFormed(m) {
      CleanedOnlyDrops(m, a.at);
    }
  }

  lemma CleanedOnlyDrops(m: Counters, now: int)
    requires WellFormed(m)
    ensures forall u :: u in Cleaned(m, now) <==> u in m && !Lapsed(m[u], now)
    ensures forall u :: u in Cleaned(m, now) ==> Cleaned(m, now)[u] == m[u]
  {
  }

  lemma CleanedIsRepaired(m: Counters, now: int, u: string)
    requires u in Cleaned(m, now)
    ensures Repaired(Cleaned(m, now)[u], now) == Cleaned(m, now)[u]
  {
  }

  // ----- Runs -----

  /** Logins of all users, interleaved, on a clock that never goes back, from no counters at all. */
  ghost predicate Run(states: seq<Counters>, logins: seq<Attempt>) {
    && |states| == |logins| + 1
    && states[0] == map[]
    && (forall k :: 0 <= k < |logins| ==> states[k + 1] == Login(states[k], logins[k]).0)
    && (forall j, k :: 0 <= j < k < |logins| ==> logins[j].at <= logins[k].at)
  }

  /** A password check of that user that was made, and failed. */
  predicate CountedFailure(m: Counters, a: Attempt, u: string) {
    a.user == u && a.check == Fails && !Locked(m, u, a.at)
  }

  /** A password check of that user that was made, and succeeded. */
  predicate Success(m: Counters, a: Attempt, u: string) {
    a.user == u && a.check == Succeeds && !Locked(m, u, a.at)
  }

  /** A counter has a lockout moment exactly when it is full. */
  ghost predicate WellFormed(m: Counters) {
    forall u :: u in m ==> m[u].count >= 1 && (m[u].until.Some? <==> m[u].count >= MAX_LOGIN_ATTEMPTS)
  }

  lemma LoginKeepsWellFormed(m: Counters, a: Attempt)
    requires WellFormed(m)
    ensures WellFormed(Login(m, a).0)
  {
  }

  lemma {:induction false} StatesAreWellFormed(states: seq<Counters>, logins: seq<Attempt>, k: nat)
    requires Run(states, logins) && k < |states|
    ensures WellFormed(states[k])
    decreases k
  {
    hide WellFormed, Login;
    if k > 0 {
      StatesAreWellFormed(states, logins, k - 1);
      LoginKeepsWellFormed(states[k - 1], logins[k - 1]);
    } else {
      NoCounters();
    }
  }

  lemma NoCounters()
    ensures WellFormed(map[])
  {
  }

  /** Failed password checks for `u` among the first `k` logins, in the half-open window from `from`. */
  ghost function FailuresInWindow(states: seq<Counters>, logins: seq<Attempt>, u: string, from: int, k: nat): nat
    requires Run(states, logins) && k <= |logins|
  {
    if k == 0 then 0
    else
      FailuresInWindow(states, logins, u, from, k - 1)
      + if CountedFailure(states[k - 1], logins[k - 1], u) && from <= logins[k - 1].at < from + 30 * MINUTE then 1 else 0
  }

  /** `c` failures since `from`: the counter has seen them all, or `u` is locked past the window's end. */
  ghost predicate Seen(m: Counters, u: string, from: int, c: nat) {
    c == 0
    || (u in m && (|| (m[u].until.None? && c <= m[u].count)
                   || (m[u].until.Some? && m[u].until.value >= from + LOCKOUT && c <= MAX_LOGIN_ATTEMPTS)))
  }

  lemma LoginKeepsSeen(m: Counters, a: Attempt, u: string, from: int, c: nat)
    requires WellFormed(m) && Seen(m, u, from, c) && a.at < from + LOCKOUT
    requires from <= a.at ==> !Success(m, a, u)
    requires a.at < from ==> c == 0
    ensures Seen(Login(m, a).0, u, from, c + if CountedFailure(m, a, u) && from <= a.at then 1 else 0)
    ensures CountedFailure(m, a, u) && from <= a.at ==> c < MAX_LOGIN_ATTEMPTS
  {
  }

  lemma {:induction false} WindowInvariant(states: seq<Counters>, logins: seq<Attempt>, u: string, from: int, k: nat)
    requires Run(states, logins) && k <= |logins|
    requires forall i :: 0 <= i < k && from <= logins[i].at < from + LOCKOUT ==> !Success(states[i], logins[i], u)
    ensures FailuresInWindow(states, logins, u, from, k) <= MAX_LOGIN_ATTEMPTS
    ensures k > 0 && logins[k - 1].at < from ==> FailuresInWindow(states, logins, u, from, k) == 0
    ensures (k > 0 ==> logins[k - 1].at < from + LOCKOUT) ==>
      Seen(states[k], u, from, FailuresInWindow(states, logins, u, from, k))
    decreases k
  {
    hide Seen, WellFormed, CountedFailure, Success, Login;
    if k > 0 {
      var a := logins[k - 1];
      WindowInvariant(states, logins, u, from, k - 1);
      if k > 1 {
        assert logins[k - 2].at <= a.at;
      }
      if a.at < from + LOCKOUT {
        StatesAreWellFormed(states, logins, k - 1);
        LoginKeepsSeen(states[k - 1], a, u, from, FailuresInWindow(states, logins, u, from, k - 1));
        assert states[k] == Login(states[k - 1], logins[k - 1]).0;
      }
    } else {
      NothingSeen(states[0], u, from);
    }
  }

  lemma NothingSeen(m: Counters, u: string, from: int)
    ensures Seen(m, u, from, 0)
  {
  }

  /**
  The limit: in every half-open thirty-minute window without a successful login of that user, at most
  ten password checks fail for a username, however the attempts and cleanups of others fall.
  */
  lemma AtMostTenFailuresPerWindow(states: seq<Counters>, logins: seq<Attempt>, u: string, from: int)
    requires Run(states, logins)
    requires forall i :: 0 <= i < |logins| && from <= logins[i].at < from + 30 * MINUTE ==>
               !Success(states[i], logins[i], u)
    ensures FailuresInWindow(states, logins, u, from, |logins|) <= 10
  {
    hide Success;
    WindowInvariant(states, logins, u, from, |logins|);
  }

  /** And once ten have failed, every further login of that user in the window is refused. */
  lemma TenFailuresLock(states: seq<Counters>, logins: seq<Attempt>, u: string, from: int, k: nat)
    requires Run(states, logins) && k < |logins|
    requires forall i :: 0 <= i < k && from <= logins[i].at < from + 30 * MINUTE ==> !Success(states[i], logins[i], u)
    requires FailuresInWindow(states, logins, u, from, k) == 10
    requires logins[k].user == u && logins[k].at < from + 30 * MINUTE
    ensures Login(states[k], logins[k]).1 == Refused
  {
    hide Success, CountedFailure;
    WindowInvariant(states, logins, u, from, k);
    StatesAreWellFormed(states, logins, k);
    LoginDecides(states[k], logins[k]);
    if k > 0 {
      assert logins[k - 1].at <= logins[k].at;
    }
  }

  /** A failure that fills the counter refuses every login of that user for the next thirty minutes. */
  lemma {:induction false} LockHolds(states: seq<Counters>, logins: seq<Attempt>, i: nat, j: nat)
    requires Run(states, logins) && i < j < |logins|
    requires CountedFailure(states[i], logins[i], logins[i].user)
    requires logins[i].user in states[i + 1] && states[i + 1][logins[i].user].count >= 10
    requires logins[j].at < logins[i].at + 30 * MINUTE
    ensures var u := logins[i].user;
            u in states[j] && states[j][u].until == Some(logins[i].at + 30 * MINUTE)
    ensures logins[j].user == logins[i].user ==> Login(states[j], logins[j]).1 == Refused
    decreases j
  {
    var u := logins[i].user;
    assert states[i + 1] == Login(states[i], logins[i]).0;
    StatesAreWellFormed(states, logins, i);
    LoginDecides(states[i], logins[i]);
    if j > i + 1 {
      LockHolds(states, logins, i, j - 1);
      assert states[j] == Login(states[j - 1], logins[j - 1]).0;
      LockStays(states[j - 1], logins[j - 1], u, logins[i].at + LOCKOUT);
    }
  }

  lemma LockStays(m: Counters, a: Attempt, u: string, until: int)
    requires u in m && m[u].until == Some(until) && a.at < until
    ensures var next := Login(m, a).0; u in next && next[u] == m[u]
  {
  }

  /** Failures of `u` among the first `k` logins since its last successful login. */
  ghost function FailuresSinceSuccess(states: seq<Counters>, logins: seq<Attempt>, u: string, k: nat): nat
    requires Run(states, logins) && k <= |logins|
  {
    if k == 0 then 0
    else if Success(states[k - 1], logins[k - 1], u) then 0
    else FailuresSinceSuccess(states, logins, u, k - 1) + if CountedFailure(states[k - 1], logins[k - 1], u) then 1 else 0
  }

  lemma CounterStep(m: Counters, a: Attempt, u: string)
    requires WellFormed(m)
    ensures var next := Login(m, a).0;
            && (Success(m, a, u) ==> u !in next)
            && (u in next ==>
                  next[u].count <= (if u in m && m[u].count > 0 then m[u].count else 0)
                                   + if CountedFailure(m, a, u) then 1 else 0)
  {
  }

  lemma {:induction false} CounterIsEarned(states: seq<Counters>, logins: seq<Attempt>, u: string, k: nat)
    requires Run(states, logins) && k <= |logins|
    ensures u in states[k] ==> states[k][u].count <= FailuresSinceSuccess(states, logins, u, k)
    decreases k
  {
    hide Login, Success, CountedFailure, WellFormed;
    if k > 0 {
      CounterIsEarned(states, logins, u, k - 1);
      StatesAreWellFormed(states, logins, k - 1);
      CounterStep(states[k - 1], logins[k - 1], u);
      assert states[k] == Login(states[k - 1], logins[k - 1]).0;
    }
  }

  /** A login is refused only in the thirty minutes after a failure of that user, the latest of at least
      ten since its last success. */
  lemma {:induction false} RefusedOnlyWhenLocked(states: seq<Counters>, logins: seq<Attempt>, u: string, k: nat)
    requires Run(states, logins) && k <= |logins|
    ensures u in states[k] && states[k][u].until.Some? ==>
      && FailuresSinceSuccess(states, logins, u, k) >= MAX_LOGIN_ATTEMPTS
      && exists i :: 0 <= i < k && CountedFailure(states[i], logins[i], u)
                     && states[k][u].until.value == logins[i].at + LOCKOUT
    decreases k
  {
    StatesAreWellFormed(states, logins, k);
    CounterIsEarned(states, logins, u, k);
    if k > 0 {
      StatesAreWellFormed(states, logins, k - 1);
      RefusedOnlyWhenLocked(states, logins, u, k - 1);
      var m, a := states[k - 1], logins[k - 1];
      assert states[k] == Login(m, a).0;
      if u in states[k] && states[k][u].until.Some? {
        if CountedFailure(m, a, u) {
          assert states[k][u].until.value == a.at + LOCKOUT;
        } else {
          assert states[k][u] == m[u];
        }
      }
    }
  }

  lemma RefusalIsDeserved(states: seq<Counters>, logins: seq<Attempt>, k: nat)
    requires Run(states, logins) && k < |logins|
    requires Login(states[k], logins[k]).1 == Refused
    ensures FailuresSinceSuccess(states, logins, logins[k].user, k) >= MAX_LOGIN_ATTEMPTS
    ensures exists i :: 0 <= i < k && CountedFailure(states[i], logins[i], logins[k].user)
                        && logins[i].at <= logins[k].at < logins[i].at + LOCKOUT
  {
    var u := logins[k].user;
    StatesAreWellFormed(states, logins, k);
    RefusedOnlyWhenLocked(states, logins, u, k);
    assert u in states[k] && states[k][u].until.Some?;
    var i :| 0 <= i < k && CountedFailure(states[i], logins[i], u)
             && states[k][u].until.value == logins[i].at + LOCKOUT;
    assert logins[i].at <= logins[k].at;
  }
}
