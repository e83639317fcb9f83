/**
WebSocket rooms: every client sits in at most one room, and each user room carries the number of its
clients so that broadcasts reach only rooms someone is in.
*/
module Rooms {
  import opened Basics
  import Decimal

  const ADMINS := "admins"
  const PREFIX := "user_"

  /** The session a client was last matched to. */
  datatype Scope = Admin | User(id: nat)

  /** What a status message shows: everything, or one user's own queue. */
  datatype Emission = Emission(room: string, scope: Scope)

  function UserRoom(id: nat): string {
    PREFIX + Decimal.Text(id)
  }

  function RoomOf(scope: Scope): string {
    match scope
    case Admin => ADMINS
    case User(id) => UserRoom(id)
  }

  predicate IsUserRoom(room: string) {
    |room| >= 5 && room[..5] == PREFIX
  }

  /** The user a room name stands for, read back from its digits. */
  function IdOf(room: string): Option<nat> {
    var digits := if IsUserRoom(room) then room[5..] else "";
    if digits != "" && forall i :: 0 <= i < |digits| ==> Decimal.IsDigit(digits[i]) then Some(Decimal.Value(digits))
    else None
  }

  lemma IdOfUserRoom(id: nat)
    ensures IsUserRoom(UserRoom(id)) && IdOf(UserRoom(id)) == Some(id)
    ensures !IsUserRoom(ADMINS)
  {
    assert UserRoom(id)[..5] == PREFIX && UserRoom(id)[5..] == Decimal.Text(id);
    Decimal.ValueOfText(id);
    assert ADMINS[..5] == "admin";
  }

  /** Different sessions never share a room. */
  lemma RoomsDiffer(a: Scope, b: Scope)
    ensures RoomOf(a) == RoomOf(b) <==> a == b
  {
    if a.User? {
      IdOfUserRoom(a.id);
    }
    if b.User? {
      IdOfUserRoom(b.id);
    }
  }

  ghost function Clients(sids: map<string, string>, room: string): set<string> {
    set sid | sid in sids && sids[sid] == room
  }

  /** Each user room's count is the number of its clients, and no room is kept without any. */
  ghost predicate Counted(rooms: map<string, int>, sids: map<string, string>) {
    && (forall room :: room in rooms ==> IsUserRoom(room) && rooms[room] == |Clients(sids, room)| > 0)
    && (forall sid :: sid in sids && IsUserRoom(sids[sid]) ==> sids[sid] in rooms)
  }

  ghost predicate Placed(sids: map<string, string>, scopes: map<string, Scope>, members: set<(string, string)>) {
    && sids.Keys == scopes.Keys
    && (forall sid :: sid in sids ==> sids[sid] == RoomOf(scopes[sid]))
    && (forall m :: m in members <==> m.0 in sids && m.1 == sids[m.0])
  }

  lemma LeavingCount(sids: map<string, string>, sid: string, room: string)
    requires sid in sids
    ensures |Clients(sids - {sid}, room)| == |Clients(sids, room)| - if sids[sid] == room then 1 else 0
  {
    assert Clients(sids - {sid}, room) == Clients(sids, room) - {sid};
  }

  lemma JoiningCount(sids: map<string, string>, sid: string, joined: string, room: string)
    requires sid !in sids
    ensures |Clients(sids[sid := joined], room)| == |Clients(sids, room)| + if joined == room then 1 else 0
  {
    assert Clients(sids[sid := joined], room) == Clients(sids, room) + if joined == room then {sid} else {};
  }

  lemma LeavingKeepsCounted(rooms: map<string, int>, left: map<string, int>, sids: map<string, string>, sid: string)
    requires Counted(rooms, sids) && sid in sids
    requires var room := sids[sid];
             left == if !IsUserRoom(room) then rooms
                     else if room in rooms && rooms[room] > 1 then rooms[room := rooms[room] - 1]
                     else rooms - {room}
    ensures Counted(left, sids - {sid})
  {
    var rest := sids - {sid};
    forall room | room in left
      ensures IsUserRoom(room) && left[room] == |Clients(rest, room)| && left[room] > 0
    {
      LeavingCount(sids, sid, room);
    }
    forall other | other in rest && IsUserRoom(rest[other]) ensures rest[other] in left {
      assert {sid, other} <= Clients(sids, sids[sid]) || rest[other] != sids[sid];
      if rest[other] == sids[sid] {
        SubsetSize({sid, other}, Clients(sids, sids[sid]));
      }
    }
  }

  lemma JoiningKeepsCounted(rooms: map<string, int>, joined: map<string, int>, sids: map<string, string>,
                            sid: string, room: string)
    requires Counted(rooms, sids) && sid !in sids
    requires joined == if IsUserRoom(room) then rooms[room := (if room in rooms then rooms[room] else 0) + 1] else rooms
    ensures Counted(joined, sids[sid := room])
  {
    forall r | r in joined
      ensures IsUserRoom(r) && joined[r] == |Clients(sids[sid := room], r)| && joined[r] > 0
    {
      JoiningCount(sids, sid, room, r);
      if r !in rooms {
        assert Clients(sids, r) == {};
      }
    }
  }

  /** The emissions a client receives: those addressed to a room it is in. */
  function Reaches(members: set<(string, string)>, sid: string): Emission -> bool {
    (e: Emission) => (sid, e.room) in members
  }

  /** What a client should have received when the rooms in `left` are still to come. */
  function Due(scope: Scope, left: set<string>, hasStatus: nat -> bool): seq<Emission> {
    match scope
    case Admin => [Emission(ADMINS, Admin)]
    case User(id) => if hasStatus(id) && UserRoom(id) !in left then [Emission(UserRoom(id), User(id))] else []
  }

  ghost predicate Delivered(emitted: seq<Emission>, scopes: map<string, Scope>, members: set<(string, string)>,
                            left: set<string>, hasStatus: nat -> bool)
  {
    forall sid :: sid in scopes ==> Filter(emitted, Reaches(members, sid)) == Due(scopes[sid], left, hasStatus)
  }

  /** Nobody but administrators and connected users is addressed. */
  ghost predicate Addressed(emitted: seq<Emission>, scopes: map<string, Scope>, members: set<(string, string)>) {
    forall e :: e in emitted && e.room != ADMINS ==> exists sid :: sid in scopes && Reaches(members, sid)(e)
  }

  /** Someone is in every room that is kept, and its name tells whose room it is. */
  lemma RoomIsSomeones(rooms: map<string, int>, sids: map<string, string>, scopes: map<string, Scope>,
                       members: set<(string, string)>, room: string) returns (sid: string)
    requires Counted(rooms, sids) && Placed(sids, scopes, members) && room in rooms
    ensures sid in scopes && scopes[sid].User? && room == UserRoom(scopes[sid].id)
    ensures IdOf(room) == Some(scopes[sid].id) && (sid, room) in members
  {
    sid :| sid in Clients(sids, room);
    IdOfUserRoom(0);
    if scopes[sid].User? {
      IdOfUserRoom(scopes[sid].id);
    }
  }

  lemma FirstEmission(rooms: map<string, int>, sids: map<string, string>, scopes: map<string, Scope>,
                      members: set<(string, string)>, hasStatus: nat -> bool)
    requires Counted(rooms, sids) && Placed(sids, scopes, members)
    ensures Delivered([Emission(ADMINS, Admin)], scopes, members, rooms.Keys, hasStatus)
    ensures Addressed([Emission(ADMINS, Admin)], scopes, members)
  {
  }

  lemma FilterOne<T>(x: T, p: T -> bool)
    ensures Filter([x], p) == if p(x) then [x] else []
  {
  }

  lemma NextEmission(emitted: seq<Emission>, sids: map<string, string>, scopes: map<string, Scope>,
                     members: set<(string, string)>, left: set<string>, id: nat, hasStatus: nat -> bool)
    requires Placed(sids, scopes, members) && UserRoom(id) in left
    requires Delivered(emitted, scopes, members, left, hasStatus)
    ensures var rest := left - {UserRoom(id)};
            Delivered(if hasStatus(id) then emitted + [Emission(UserRoom(id), User(id))] else emitted,
                      scopes, members, rest, hasStatus)
  {
    hide UserRoom, Filter;
    var e := Emission(UserRoom(id), User(id));
    forall sid | sid in scopes
      ensures Filter(if hasStatus(id) then emitted + [e] else emitted, Reaches(members, sid))
           == Due(scopes[sid], left - {UserRoom(id)}, hasStatus)
    {
      RoomsDiffer(scopes[sid], User(id));
      FilterAppend(emitted, [e], Reaches(members, sid));
      FilterOne(e, Reaches(members, sid));
    }
  }

  lemma PlacedAfterLeaving(sids: map<string, string>, scopes: map<string, Scope>, members: set<(string, string)>,
                           sid: string)
    requires Placed(sids, scopes, members) && sid in sids
    ensures Placed(sids - {sid}, scopes - {sid}, members - {(sid, sids[sid])})
  {
  }

  lemma PlacedAfterJoining(sids: map<string, string>, scopes: map<string, Scope>, members: set<(string, string)>,
                           sid: string, scope: Scope)
    requires Placed(sids, scopes, members) && sid !in sids
    ensures Placed(sids[sid := RoomOf(scope)], scopes[sid := scope], members + {(sid, RoomOf(scope))})
  {
  }

  /** A client already in the wanted room is already known under the wanted session. */
  lemma PlacedAlready(sids: map<string, string>, scopes: map<string, Scope>, members: set<(string, string)>,
                      sid: string, scope: Option<Scope>)
    requires Placed(sids, scopes, members)
    requires if scope.Some? then sid in sids && sids[sid] == RoomOf(scope.value) else sid !in sids
    ensures scopes == if scope.Some? then scopes[sid := scope.value] else scopes - {sid}
  {
    if scope.Some? {
      RoomsDiffer(scope.value, scopes[sid]);
    }
  }

  class WebSocketManager {
    var userRooms: map<string, int>
    var sidRooms: map<string, string>
    /** The rooms as the socket server keeps them. */
    var members: set<(string, string)>
    ghost var scopes: map<string, Scope>

    /** In every reachable state. */
    ghost predicate Valid()
      reads this
    {
      Counted(userRooms, sidRooms) && Placed(sidRooms, scopes, members)
    }

    constructor ()
      ensures Valid() && scopes == map[]
    {
      userRooms, sidRooms, members, scopes := map[], map[], {}, map[];
    }

    method IncrementUserRoom(room: string)
      modifies this`userRooms
      ensures userRooms.Keys == old(userRooms).Keys + {room}
      ensures userRooms[room] == 1 + if room in old(userRooms) then old(userRooms)[room] else 0
      ensures forall other :: other in old(userRooms) && other != room ==> userRooms[other] == old(userRooms)[other]
    {
      userRooms := userRooms[room := (if room in userRooms then userRooms[room] else 0) + 1];
    }

    method DecrementUserRoom(room: string)
      modifies this`userRooms
      ensures userRooms == if room in old(userRooms) && old(userRooms)[room] > 1
                           then old(userRooms)[room := old(userRooms)[room] - 1]
                           else old(userRooms) - {room}
    {
      var count := (if room in userRooms then userRooms[room] else 1) - 1;
      if count <= 0 {
        userRooms := userRooms - {room};
      } else {
        userRooms := userRooms[room := count];
      }
    }

    method Leave(sid: string)
      requires Valid() && sid in sidRooms
      modifies this
      ensures Valid() && scopes == old(scopes) - {sid} && sid !in sidRooms
    {
      hide Counted, Placed, IsUserRoom;
      ghost var rooms, sids := userRooms, sidRooms;
      var current := sidRooms[sid];
      PlacedAfterLeaving(sidRooms, scopes, members, sid);
      members := members - {(sid, current)};
      if IsUserRoom(current) {
        DecrementUserRoom(current);
      }
      sidRooms, scopes := sidRooms - {sid}, scopes - {sid};
      LeavingKeepsCounted(rooms, userRooms, sids, sid);
    }

    method Join(sid: string, scope: Scope)
      requires Valid() && sid !in sidRooms
      modifies this
      ensures Valid() && scopes == old(scopes)[sid := scope]
    {
      hide Counted, Placed, IsUserRoom, RoomOf;
      ghost var rooms, sids := userRooms, sidRooms;
      var room := RoomOf(scope);
      PlacedAfterJoining(sidRooms, scopes, members, sid, scope);
      members := members + {(sid, room)};
      sidRooms, scopes := sidRooms[sid := room], scopes[sid := scope];
      if IsUserRoom(room) {
        IncrementUserRoom(room);
      }
      JoiningKeepsCounted(rooms, userRooms, sids, sid, room);
    }

    method SetSidRoom(sid: string, scope: Option<Scope>)
      requires Valid()
      modifies this
      ensures Valid()
      ensures scopes == if scope.Some? then old(scopes)[sid := scope.value] else old(scopes) - {sid}
    {
      hide Counted, Placed, RoomOf;
      var current := if sid in sidRooms then Some(sidRooms[sid]) else None;
      var room := if scope.Some? then Some(RoomOf(scope.value)) else None;
      if current == room {
        PlacedAlready(sidRooms, scopes, members, sid, scope);
        return;
      }
      if current.Some? {
        Leave(sid);
      }
      if scope.Some? {
        Join(sid, scope.value);
      }
    }

    /** The session of a client: an administrator's, a known user's, or neither. */
    method SyncUserRoom(sid: string, isAdmin: bool, userId: Option<nat>)
      requires Valid()
      modifies this
      ensures Valid()
      ensures scopes == if isAdmin then old(scopes)[sid := Admin]
                        else if userId.Some? then old(scopes)[sid := User(userId.value)]
                        else old(scopes) - {sid}
    {
      if isAdmin {
        SetSidRoom(sid, Some(Admin));
      } else if userId.Some? {
        SetSidRoom(sid, Some(User(userId.value)));
      } else {
        SetSidRoom(sid, None);
      }
    }

    method LeaveUserRoom(sid: string)
      requires Valid()
      modifies this
      ensures Valid() && scopes == old(scopes) - {sid}
    {
      SetSidRoom(sid, None);
    }

    /**
    Everything to the administrators, then each user's own status to that user's room. `hasStatus` says
    for which users there is a status to send.
    */
    method BroadcastStatusUpdate(hasStatus: nat -> bool) returns (emitted: seq<Emission>)
      requires Valid()
      ensures forall sid :: sid in scopes ==>
        Filter(emitted, Reaches(members, sid)) ==
        match scopes[sid]
        case Admin => [Emission(ADMINS, Admin)]
        case User(id) => if hasStatus(id) then [Emission(UserRoom(id), User(id))] else []
      ensures forall e :: e in emitted && e.room != ADMINS ==> exists sid :: sid in scopes && Reaches(members, sid)(e)
    {
      hide Counted, Placed, Delivered, Reaches, IdOf, UserRoom;
      emitted := [Emission(ADMINS, Admin)];
      FirstEmission(userRooms, sidRooms, scopes, members, hasStatus);
      var left := userRooms.Keys;
      while left != {}
        invariant left <= userRooms.Keys
        invariant Delivered(emitted, scopes, members, left, hasStatus) && Addressed(emitted, scopes, members)
        decreases |left|
      {
        var room :| room in left;
        ghost var sid := RoomIsSomeones(userRooms, sidRooms, scopes, members, room);
        NextEmission(emitted, sidRooms, scopes, members, left, IdOf(room).value, hasStatus);
        InRoom(members, sid, Emission(room, User(IdOf(room).value)));
        if hasStatus(IdOf(room).value) {
          emitted := emitted + [Emission(room, User(IdOf(room).value))];
        }
        left := left - {room};
      }
      AllDelivered(emitted, scopes, members, hasStatus);
    }
  }

  lemma InRoom(members: set<(string, string)>, sid: string, e: Emission)
    requires (sid, e.room) in members
    ensures Reaches(members, sid)(e)
  {
  }

  lemma AllDelivered(emitted: seq<Emission>, scopes: map<string, Scope>, members: set<(string, string)>,
                     hasStatus: nat -> bool)
    requires Delivered(emitted, scopes, members, {}, hasStatus)
    ensures forall sid :: sid in scopes ==>
      Filter(emitted, Reaches(members, sid)) ==
      match scopes[sid]
      case Admin => [Emission(ADMINS, Admin)]
      case User(id) => if hasStatus(id) then [Emission(UserRoom(id), User(id))] else []
  {
  }
}
