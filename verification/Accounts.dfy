/** The user table: rows in the order of their ids, with unique usernames and subjects. */
module Accounts {
  import opened Basics

  datatype Source = Builtin | Oidc | Proxy | Cwa
  datatype Role = Admin | Member

  /** `stored` is None when the stored source is not one of the four. */
  datatype User = User(
    id: int,
    username: string,
    email: Option<string>,
    displayName: Option<string>,
    stored: Option<Source>,
    subject: Option<string>,
    role: Role)

  datatype Table = Table(users: seq<User>, nextId: int)

  /** The effective source: an unknown one with a subject is OIDC, without one built in. */
  function SourceOf(u: User): Source {
    if u.stored.Some? then u.stored.value
    else if u.subject.Some? && u.subject.value != "" then Oidc
    else Builtin
  }

  ghost predicate IdsAscend(t: Table) {
    && (forall i :: 0 <= i < |t.users| ==> 0 < t.users[i].id < t.nextId)
    && (forall i, j :: 0 <= i < j < |t.users| ==> t.users[i].id < t.users[j].id)
  }

  ghost predicate UniqueNames(users: seq<User>) {
    forall i, j :: 0 <= i < j < |users| ==> users[i].username != users[j].username
  }

  ghost predicate UniqueSubjects(users: seq<User>) {
    forall i, j :: 0 <= i < j < |users| && users[i].subject.Some? ==> users[i].subject != users[j].subject
  }

  /** What the table's constraints promise. */
  ghost predicate Valid(t: Table) {
    0 < t.nextId && IdsAscend(t) && UniqueNames(t.users) && UniqueSubjects(t.users)
  }

  function Named(name: string): User -> bool {
    (u: User) => u.username == name
  }

  function WithSubject(subject: string): User -> bool {
    (u: User) => u.subject == Some(subject)
  }

  function WithId(id: int): User -> bool {
    (u: User) => u.id == id
  }

  /** The first row that passes the test. */
  function First(users: seq<User>, test: User -> bool): (u: Option<User>)
    ensures u.Some? ==> test(u.value) && u.value in users
    ensures u.None? ==> forall q :: q in users ==> !test(q)
  {
    FirstIndexProperties(users, test);
    var i := FirstIndex(users, test);
    if i < |users| then Some(users[i]) else None
  }

  /** A row that passes the test with none before it is the first. */
  lemma FirstIs(users: seq<User>, test: User -> bool, k: nat)
    requires k < |users| && test(users[k])
    requires forall i :: 0 <= i < k ==> !test(users[i])
    ensures First(users, test) == Some(users[k])
  {
    FirstIndexIs(users, test, k);
  }

  /** Where the first row that passes the test stands. */
  lemma FirstAt(users: seq<User>, test: User -> bool) returns (k: nat)
    requires First(users, test).Some?
    ensures k < |users| && users[k] == First(users, test).value
    ensures forall i :: 0 <= i < k ==> !test(users[i])
  {
    FirstIndexProperties(users, test);
    k := FirstIndex(users, test);
  }

  /** The row of that id rewritten. */
  function WithUser(t: Table, u: User): (result: Table)
    ensures |result.users| == |t.users| && result.nextId == t.nextId
    ensures forall i :: 0 <= i < |t.users| ==> result.users[i] == if t.users[i].id == u.id then u else t.users[i]
  {
    t.(users := seq(|t.users|, i requires 0 <= i < |t.users| => if t.users[i].id == u.id then u else t.users[i]))
  }

  function WithNewUser(t: Table, u: User): Table {
    Table(t.users + [u.(id := t.nextId)], t.nextId + 1)
  }

  function NotAmong(ids: set<int>): User -> bool {
    (u: User) => u.id !in ids
  }

  function Without(t: Table, ids: set<int>): Table {
    t.(users := Filter(t.users, NotAmong(ids)))
  }

  lemma WithUserAt(t: Table, k: nat, u: User)
    requires IdsAscend(t) && k < |t.users| && t.users[k].id == u.id
    ensures WithUser(t, u) == t.(users := t.users[k := u])
  {
  }

  /** Rewriting a row keeps the table valid if its name and subject are not another row's. */
  lemma RewriteKeepsValid(t: Table, k: nat, u: User)
    requires Valid(t) && k < |t.users| && t.users[k].id == u.id
    requires forall i :: 0 <= i < |t.users| && i != k ==> t.users[i].username != u.username
    requires u.subject.Some? ==> forall i :: 0 <= i < |t.users| && i != k ==> t.users[i].subject != u.subject
    ensures WithUser(t, u) == t.(users := t.users[k := u])
    ensures Valid(WithUser(t, u))
  {
  }

  lemma AddKeepsValid(t: Table, u: User)
    requires Valid(t)
    requires forall i :: 0 <= i < |t.users| ==> t.users[i].username != u.username
    requires u.subject.Some? ==> forall i :: 0 <= i < |t.users| ==> t.users[i].subject != u.subject
    ensures Valid(WithNewUser(t, u))
  {
  }

  /** Dropping rows keeps the table valid. */
  lemma WithoutKeepsValid(t: Table, ids: set<int>)
    requires Valid(t)
    ensures Valid(Without(t, ids))
  {
    var fits := (a: User, b: User) =>
      a.id < b.id && a.username != b.username && (a.subject.Some? ==> a.subject != b.subject);
    assert Pairwise(t.users, fits);
    FilterPairwise(t.users, NotAmong(ids), fits);
    FilterMembers(t.users, NotAmong(ids));
    var kept := Without(t, ids).users;
    forall i, j | 0 <= i < j < |kept| ensures fits(kept[i], kept[j]) {
    }
    forall i | 0 <= i < |kept| ensures 0 < kept[i].id < t.nextId {
      assert kept[i] in kept;
    }
  }

  /** The table as an object, with the database's uniqueness constraints enforced on every write. */
  class UserDb {
    var table: Table

    ghost predicate Ok()
      reads this
    {
      Valid(table)
    }

    /** A write that would break a constraint raises an error and changes nothing. */
    method Update(u: User) returns (ok: bool)
      requires Ok()
      modifies this
      ensures Ok()
      ensures ok <==> First(old(table).users, WithId(u.id)).Some? && Valid(WithUser(old(table), u))
      ensures table == if ok then WithUser(old(table), u) else old(table)
    {
      var found := First(table.users, WithId(u.id));
      if found.None? {
        return false;
      }
      var k := FirstIndex(table.users, WithId(u.id));
      FirstIndexProperties(table.users, WithId(u.id));
      ok := NoOther(table.users, k, u);
      if ok {
        RewriteKeepsValid(table, k, u);
        table := WithUser(table, u);
      } else {
        ClashIsInvalid(table, k, u);
      }
    }

    method Create(u: User) returns (id: Option<int>)
      requires Ok()
      modifies this
      ensures Ok()
      ensures id == if Valid(WithNewUser(old(table), u)) then Some(old(table).nextId) else None
      ensures table == if id.Some? then WithNewUser(old(table), u) else old(table)
    {
      var clash := false;
      for i := 0 to |table.users|
        invariant clash <==> exists j :: 0 <= j < i && Clashes(table.users[j], u)
      {
        clash := clash || Clashes(table.users[i], u);
      }
      if clash {
        ghost var j :| 0 <= j < |table.users| && Clashes(table.users[j], u);
        ghost var all := WithNewUser(table, u).users;
        assert all[j] == table.users[j] && all[|table.users|] == u.(id := table.nextId);
        return None;
      }
      forall i | 0 <= i < |table.users|
        ensures table.users[i].username != u.username
        ensures u.subject.Some? ==> table.users[i].subject != u.subject
      {
        assert !Clashes(table.users[i], u);
      }
      AddKeepsValid(table, u);
      id := Some(table.nextId);
      table := WithNewUser(table, u);
    }

    method Delete(id: int)
      requires Ok()
      modifies this
      ensures Ok() && table == Without(old(table), {id})
    {
      WithoutKeepsValid(table, {id});
      table := Without(table, {id});
    }
  }

  predicate Clashes(a: User, u: User) {
    a.username == u.username || (u.subject.Some? && a.subject == u.subject)
  }

  method NoOther(users: seq<User>, k: nat, u: User) returns (free: bool)
    ensures free <==> forall i :: 0 <= i < |users| && i != k ==> !Clashes(users[i], u)
  {
    free := true;
    for i := 0 to |users|
      invariant free <==> forall j :: 0 <= j < i && j != k ==> !Clashes(users[j], u)
    {
      free := free && (i == k || !Clashes(users[i], u));
    }
  }

  lemma ClashIsInvalid(t: Table, k: nat, u: User)
    requires Valid(t) && k < |t.users| && t.users[k].id == u.id
    requires exists i :: 0 <= i < |t.users| && i != k && Clashes(t.users[i], u)
    ensures !Valid(WithUser(t, u))
  {
  }
}
