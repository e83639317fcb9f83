/**
Repeating a Calibre-Web sync with the same rows. For rows of different users it creates and deletes
nothing exactly when no row with an email address comes before another row; otherwise some table makes
the second sync create an account again.
*/
module CwaRepeat {
  import opened Basics
  import opened Accounts
  import opened Linking
  import opened LinkingRepeat
  import opened CwaSync

  /** Rows of different users, as a Calibre-Web database holds them; blank names are skipped by the sync. */
  ghost predicate DifferentUsers(rows: seq<Row>) {
    && (forall i :: 0 <= i < |rows| && rows[i].email.Some? ==> rows[i].email.value != "")
    && (forall i, j :: 0 <= i < j < |rows| && rows[i].username != "" && rows[j].username != "" ==>
          && rows[i].username != rows[j].username
          && (rows[i].email.Some? && rows[j].email.Some? ==> EmailKey(rows[i].email) != EmailKey(rows[j].email)))
  }

  /** Only the last row that names a user may carry an email address. */
  ghost predicate EmailOnlyLast(rows: seq<Row>) {
    forall i, j :: 0 <= i < j < |rows| && rows[i].username != "" && rows[j].username != "" ==> rows[i].email.None?
  }

  /** From this table, a second sync of the same rows creates nothing and deletes nothing. */
  ghost predicate Repeats(t: Table, rows: seq<Row>) {
    var again := SyncRows(Start(Synced(t, rows)), rows);
    again.created == 0 && StaleIds(again.table, again.active) == {}
  }

  lemma {:induction false} SyncAppend(st: Progress, a: seq<Row>, b: seq<Row>)
    ensures SyncRows(st, a + b) == SyncRows(SyncRows(st, a), b)
    decreases |a|
  {
    hide SyncRow;
    if a == [] {
      assert a + b == b;
    } else {
      assert (a + b)[0] == a[0] && (a + b)[1..] == a[1..] + b;
      SyncAppend(SyncRow(st, a[0]), a[1..], b);
    }
  }

  lemma SyncOne(st: Progress, row: Row)
    ensures SyncRows(st, [row]) == SyncRow(st, row)
  {
  }

  lemma {:induction false} BlankRows(st: Progress, rows: seq<Row>)
    requires forall i :: 0 <= i < |rows| ==> rows[i].username == ""
    ensures SyncRows(st, rows) == st
    decreases |rows|
  {
    if rows != [] {
      BlankRows(st, rows[1..]);
    }
  }

  lemma SameAccount(t: Table, a: User, b: User)
    requires Valid(t) && a in t.users && b in t.users && (a.id == b.id || a.username == b.username)
    ensures a == b
  {
  }

  // ----- Rows without an email address -----

  predicate NamesUser(u: User, row: Row) {
    u.username == row.username && SourceOf(u) == Cwa
  }

  ghost predicate NoEmails(rows: seq<Row>) {
    forall row :: row in rows && row.username != "" ==> row.email.None?
  }

  function Names(rows: seq<Row>): set<string> {
    set row | row in rows && row.username != "" :: row.username
  }

  /** Such a row reaches the account of that name, or creates it, and its address is cleared. */
  lemma NoEmailRow(t: Table, row: Row)
    requires Valid(t) && row.username != "" && row.email.None?
    ensures var (t1, outcome) := Upsert(t, CwaIdentity(row));
            && (outcome.Updated? || outcome.Created?)
            && (exists u :: u in t1.users && u.id == outcome.id && NamesUser(u, row) && u.email == None)
            && (forall u :: u in t.users && u.id == outcome.id ==> u.username == row.username)
            && (outcome.Created? ==> forall u :: u in t.users ==> u.username != row.username)
  {
    hide Valid;
    ValidParts(t);
    var who := CwaIdentity(row);
    var existing := First(t.users, Named(row.username));
    if existing.Some? {
      var k := FirstAt(t.users, Named(row.username));
      NameReached(t, row, k);
    } else {
      assert FindMatch(t.users, who) == None;
      var t1 := Upsert(t, who).0;
      assert t1.users[|t.users|] in t1.users;
    }
  }

  lemma NameReached(t: Table, row: Row, k: nat)
    requires Valid(t) && row.username != "" && row.email.None?
    requires k < |t.users| && t.users[k].username == row.username
    requires First(t.users, Named(row.username)) == Some(t.users[k])
    ensures var (t1, outcome) := Upsert(t, CwaIdentity(row));
            && outcome == Updated(t.users[k].id)
            && |t1.users| == |t.users| && t1.users[k].id == t.users[k].id
            && NamesUser(t1.users[k], row) && t1.users[k].email == None && t1.users[k] in t1.users
    ensures forall u :: u in t.users && u.id == t.users[k].id ==> u.username == row.username
  {
  }

  /** The active accounts are Calibre-Web accounts without address under these names, one for each name. */
  ghost predicate Settles(t: Table, names: set<string>, active: set<int>) {
    NamesSettle(t, names, active) && IdsSettle(t, names, active)
  }

  ghost predicate NamesSettle(t: Table, names: set<string>, active: set<int>) {
    forall name :: name in names ==> exists u :: u in t.users && Cleared(u, name) && u.id in active
  }

  ghost predicate IdsSettle(t: Table, names: set<string>, active: set<int>) {
    forall id :: id in active ==> exists u :: u in t.users && u.id == id && Cleared(u, u.username) && u.username in names
  }

  predicate Cleared(u: User, name: string) {
    u.username == name && SourceOf(u) == Cwa && u.email == None
  }

  lemma SettlesStep(t: Table, names: set<string>, active: set<int>, row: Row)
    requires Valid(t) && Settles(t, names, active) && row.username != "" && row.email.None?
    ensures var (t1, outcome) := Upsert(t, CwaIdentity(row));
            && Valid(t1) && (outcome.Updated? || outcome.Created?)
            && Settles(t1, names + {row.username}, active + {outcome.id})
  {
    hide Valid, Upsert, Settles;
    NoEmailRow(t, row);
    UpsertReaches(t, row);
    var (t1, outcome) := Upsert(t, CwaIdentity(row));
    var q :| q in t1.users && q.id == outcome.id && NamesUser(q, row) && q.email == None;
    SettlesAfter(t, t1, names, active, q);
  }

  lemma SettlesAfter(t: Table, t1: Table, names: set<string>, active: set<int>, q: User)
    requires Settles(t, names, active) && q in t1.users && Cleared(q, q.username)
    requires forall u :: u in t.users && u.id != q.id ==> u in t1.users
    requires forall u :: u in t.users && u.id == q.id ==> u.username == q.username
    ensures Settles(t1, names + {q.username}, active + {q.id})
  {
    hide SourceOf, NamesSettle, IdsSettle;
    NamesSettleAfter(t, t1, names, active, q);
    IdsSettleAfter(t, t1, names, active, q);
  }

  lemma NamesSettleAfter(t: Table, t1: Table, names: set<string>, active: set<int>, q: User)
    requires NamesSettle(t, names, active) && q in t1.users && Cleared(q, q.username)
    requires forall u :: u in t.users && u.id != q.id ==> u in t1.users
    requires forall u :: u in t.users && u.id == q.id ==> u.username == q.username
    ensures NamesSettle(t1, names + {q.username}, active + {q.id})
  {
  }

  lemma IdsSettleAfter(t: Table, t1: Table, names: set<string>, active: set<int>, q: User)
    requires IdsSettle(t, names, active) && q in t1.users && Cleared(q, q.username)
    requires forall u :: u in t.users && u.id != q.id ==> u in t1.users
    ensures IdsSettle(t1, names + {q.username}, active + {q.id})
  {
  }

  /** After rows without addresses, from any table. */
  lemma {:induction false} SyncSettles(t: Table, rows: seq<Row>)
    requires Valid(t) && NoEmails(rows)
    ensures var st := SyncRows(Start(t), rows); Valid(st.table) && Settles(st.table, Names(rows), st.active)
    decreases |rows|
  {
    hide Valid, Settles, Upsert;
    if rows == [] {
      NothingSettles(t);
    } else {
      var front, row := rows[..|rows| - 1], rows[|rows| - 1];
      assert rows == front + [row];
      assert row in rows;
      SyncSettles(t, front);
      SyncAppend(Start(t), front, [row]);
      var st := SyncRows(Start(t), front);
      SyncOne(st, row);
      NamesOfOneMore(front, row);
      assert row.username == "" ==> Names(rows) == Names(front);
      if row.username != "" {
        SettlesStep(st.table, Names(front), st.active, row);
      }
    }
  }

  lemma NamesOfOneMore(rows: seq<Row>, row: Row)
    ensures Names(rows + [row]) == Names(rows) + if row.username != "" then {row.username} else {}
  {
  }

  lemma NothingSettles(t: Table)
    ensures Settles(t, Names([]), {})
  {
  }

  // ----- Doing it again -----

  /** The same accounts, but for some of Calibre-Web's that are gone and some addresses that are cleared. */
  ghost predicate Thinned(before: Table, after: Table) {
    && (forall v :: v in after.users ==> exists u :: u in before.users && ThinnedUser(u, v))
    && (forall u :: u in before.users && SourceOf(u) != Cwa ==> u in after.users)
  }

  predicate ThinnedUser(u: User, v: User) {
    u.id == v.id && u.username == v.username && SourceOf(u) == SourceOf(v)
    && (v == u || (SourceOf(v) == Cwa && v.email == None))
  }

  lemma ThinnedTwice(a: Table, b: Table, c: Table)
    requires Thinned(a, b) && Thinned(b, c)
    ensures Thinned(a, c)
  {
  }

  lemma ThinnedSame(t: Table)
    ensures Thinned(t, t)
  {
  }

  /** Every name is held by a Calibre-Web account. */
  ghost predicate Held(t: Table, names: set<string>) {
    forall name :: name in names ==> exists u :: u in t.users && u.username == name && SourceOf(u) == Cwa
  }

  lemma HeldStep(t: Table, names: set<string>, row: Row)
    requires Valid(t) && Held(t, names) && row.username in names && row.username != "" && row.email.None?
    ensures var (t1, outcome) := Upsert(t, CwaIdentity(row));
            outcome.Updated? && Valid(t1) && Thinned(t, t1) && Held(t1, names)
  {
    hide Valid, Upsert;
    NoEmailRow(t, row);
    UpsertReaches(t, row);
    var (t1, outcome) := Upsert(t, CwaIdentity(row));
    var h :| h in t.users && h.username == row.username && SourceOf(h) == Cwa;
    var q :| q in t1.users && q.id == outcome.id && NamesUser(q, row) && q.email == None;
    if h.id != outcome.id {
      SameAccount(t1, h, q);
    }
    assert ThinnedUser(h, q);
    forall v | v in t1.users ensures exists u :: u in t.users && ThinnedUser(u, v) {
      if v.id == outcome.id {
        SameAccount(t1, v, q);
      } else {
        assert ThinnedUser(v, v);
      }
    }
    forall u | u in t.users && SourceOf(u) != Cwa ensures u in t1.users {
      if u.id == outcome.id {
        SameAccount(t, u, h);
      }
    }
    forall name | name in names ensures exists u :: u in t1.users && u.username == name && SourceOf(u) == Cwa {
      var u :| u in t.users && u.username == name && SourceOf(u) == Cwa;
      if u.id == outcome.id {
        SameAccount(t, u, h);
      }
    }
  }

  lemma {:induction false} SyncAgain(t: Table, rows: seq<Row>, names: set<string>)
    requires Valid(t) && NoEmails(rows) && Held(t, names) && Names(rows) <= names
    ensures var st := SyncRows(Start(t), rows);
            st.created == 0 && Valid(st.table) && Thinned(t, st.table) && Held(st.table, names)
    decreases |rows|
  {
    hide Valid, Thinned, Held, Upsert;
    if rows == [] {
      ThinnedSame(t);
    } else {
      var front, row := rows[..|rows| - 1], rows[|rows| - 1];
      assert rows == front + [row];
      assert row in rows;
      assert Names(front) <= Names(rows);
      SyncAgain(t, front, names);
      SyncAppend(Start(t), front, [row]);
      var st := SyncRows(Start(t), front);
      SyncOne(st, row);
      if row.username != "" {
        assert row.username in Names(rows);
        HeldStep(st.table, names, row);
        ThinnedTwice(t, st.table, Upsert(st.table, CwaIdentity(row)).0);
      }
    }
  }

  lemma PruningThins(t: Table, active: set<int>)
    requires Valid(t)
    ensures Thinned(t, Without(t, StaleIds(t, active)))
  {
    var stale := StaleIds(t, active);
    FilterMembers(t.users, NotAmong(stale));
    forall v | v in Without(t, stale).users ensures exists u :: u in t.users && ThinnedUser(u, v) {
      assert ThinnedUser(v, v);
    }
    forall u | u in t.users && SourceOf(u) != Cwa ensures u in Without(t, stale).users {
      if u.id in stale {
        var q :| q in t.users && SourceOf(q) == Cwa && q.id !in active && q.id == u.id;
        SameAccount(t, u, q);
      }
    }
  }

  /** What is active survives the pruning. */
  lemma ActiveStays(t: Table, active: set<int>, u: User)
    requires Valid(t)
    ensures u in Without(t, StaleIds(t, active)).users <==> u in t.users && !(SourceOf(u) == Cwa && u.id !in active)
  {
    var stale := StaleIds(t, active);
    FilterMembers(t.users, NotAmong(stale));
    if u in t.users && u.id in stale {
      var q :| q in t.users && SourceOf(q) == Cwa && q.id !in active && q.id == u.id;
      SameAccount(t, u, q);
    }
  }

  // ----- One row with an email address -----

  predicate WithEmail(row: Row) {
    row.username != "" && row.email.Some? && row.email.value != ""
  }

  lemma KeyOfEmail(row: Row)
    requires WithEmail(row)
    ensures EmailKey(row.email) != ""
  {
  }

  lemma ReachedEmail(t: Table, row: Row)
    requires Valid(t) && row.username != ""
    ensures var (t1, outcome) := Upsert(t, CwaIdentity(row));
            && (outcome.Updated? || outcome.Created?)
            && forall u :: u in t1.users && u.id == outcome.id ==> u.email == row.email && SourceOf(u) == Cwa
  {
  }

  /** An account without address and with another name is only reached as the alias for a name that is taken. */
  lemma AliasReached(t: Table, row: Row, u: User)
    requires Valid(t) && WithEmail(row) && u in t.users && Cleared(u, u.username) && u.username != row.username
    requires Upsert(t, CwaIdentity(row)).1 in {Updated(u.id), Created(u.id)}
    ensures exists v :: v in t.users && v.username == row.username && SourceOf(v) != Cwa
    ensures IsAliasOf(row.username + ALIAS_SUFFIX, Cwa)(u)
    ensures exists w :: w in Upsert(t, CwaIdentity(row)).0.users
                        && w.id == u.id && w.username == u.username && SourceOf(w) == Cwa
  {
    hide Valid, MatchesAlias, NextSuffix, NameAfterUpdate;
    ValidParts(t);
    KeyOfEmail(row);
    var who := CwaIdentity(row);
    var matched := FindMatch(t.users, who);
    if matched.Some? {
      MatchIsAccount(t.users, who);
      SameAccount(t, matched.value, u);
      var k :| 0 <= k < |t.users| && t.users[k] == u;
      UniqueEmailAlone(t.users, GivenEmail(who), k);
    } else {
      var k :| 0 <= k < |t.users| && t.users[k] == u;
      assert t.users[k].id < t.nextId;
      TargetIsAccount(t.users, who);
      SameAccount(t, CreateTarget(t.users, who).account, u);
      WithUserAt(t, k, Linked(u, who, None));
      assert Upsert(t, who).0.users[k] in Upsert(t, who).0.users;
    }
  }

  lemma UpdatedWithAlias(t: Table, row: Row, v: User, x: User)
    requires WithEmail(row) && v in t.users && v.username == row.username
    requires x in t.users && IsAliasOf(row.username + ALIAS_SUFFIX, Cwa)(x)
    ensures Upsert(t, CwaIdentity(row)).1.Updated?
  {
  }

  /** In a thinned table the row still selects its account, if that one is untouched. */
  lemma RepeatSelects(before: Table, after: Table, row: Row, y: User)
    requires Valid(before) && Valid(after) && Thinned(before, after) && WithEmail(row)
    requires y in before.users && y in after.users && y.email == row.email && SourceOf(y) == Cwa
    requires Selects(before.users, CwaIdentity(row), y)
    ensures Upsert(after, CwaIdentity(row)).1 == Updated(y.id)
  {
    hide Valid, Thinned, Upsert, FindMatch, Selects;
    var who := CwaIdentity(row);
    ValidParts(before);
    ValidParts(after);
    var k :| 0 <= k < |after.users| && after.users[k] == y;
    if y.username == row.username {
      FoundByName(after.users, who, k);
    } else {
      NobodyByName(before, after, row, y);
      MatchWithoutName(after.users, who);
      UniqueEmailIs(after.users, GivenEmail(who), k);
      if FindMatch(after.users, who).None? {
        StillShared(before, after, row, y);
        StillAlias(before, after, row, y);
      }
    }
    SelectedNow(after.users, who, y);
    SelectedIsUpdated(after, who, y);
  }

  lemma SelectedNow(users: seq<User>, who: Identity, u: User)
    requires who.allowCreate
    requires FindMatch(users, who) == Some(u) || (FindMatch(users, who) == None && CreateTarget(users, who) == Use(u))
    ensures Selects(users, who, u)
  {
  }

  lemma NobodyByName(before: Table, after: Table, row: Row, y: User)
    requires Valid(before) && Thinned(before, after) && y.username != row.username
    requires Selects(before.users, CwaIdentity(row), y)
    ensures NotByName(before.users, CwaIdentity(row)) && NotByName(after.users, CwaIdentity(row))
  {
    hide Valid, FindMatch, CreateTarget;
    ValidParts(before);
    var who := CwaIdentity(row);
    forall i | 0 <= i < |before.users| && before.users[i].username == row.username
      ensures SourceOf(before.users[i]) != Cwa
    {
      if SourceOf(before.users[i]) == Cwa {
        FoundByName(before.users, who, i);
      }
    }
    forall i | 0 <= i < |after.users| && after.users[i].username == row.username
      ensures SourceOf(after.users[i]) != Cwa
    {
      assert after.users[i] in after.users;
      var u :| u in before.users && ThinnedUser(u, after.users[i]);
    }
  }

  /** If the address is shared now, it was shared before. */
  lemma StillShared(before: Table, after: Table, row: Row, y: User)
    requires Valid(before) && Valid(after) && Thinned(before, after) && WithEmail(row)
    requires y in before.users && y in after.users && y.email == row.email
    requires NotByName(before.users, CwaIdentity(row)) && NotByName(after.users, CwaIdentity(row))
    requires FindMatch(after.users, CwaIdentity(row)) == None
    ensures FindMatch(before.users, CwaIdentity(row)) == None
  {
    hide Valid, FindMatch, UniqueByEmail, Thinned;
    var who := CwaIdentity(row);
    KeyOfEmail(row);
    MatchWithoutName(before.users, who);
    MatchWithoutName(after.users, who);
    var k :| 0 <= k < |before.users| && before.users[k] == y;
    var m :| 0 <= m < |after.users| && after.users[m] == y;
    UniqueEmailIs(before.users, GivenEmail(who), k);
    UniqueEmailIs(after.users, GivenEmail(who), m);
    if UniqueByEmail(before.users, GivenEmail(who)).Some? {
      UniqueEmailAlone(before.users, GivenEmail(who), k);
      var i :| 0 <= i < |after.users| && i != m && EmailKey(after.users[i].email) == EmailKey(row.email);
      HolderWas(before, after, after.users[i]);
      var j :| 0 <= j < |before.users| && before.users[j] == after.users[i];
      if j == k {
        Distinctly(after, i, m);
      }
    }
  }

  lemma HolderWas(before: Table, after: Table, v: User)
    requires Thinned(before, after) && v in after.users && EmailKey(v.email) != ""
    ensures v in before.users
  {
  }

  lemma Distinctly(t: Table, i: nat, j: nat)
    requires Valid(t) && i < |t.users| && j < |t.users| && i != j
    ensures t.users[i] != t.users[j]
  {
  }

  /** What comes first under a test of names and sources still comes first, if it is there. */
  lemma FirstStays(before: Table, after: Table, test: User -> bool, y: User)
    requires IdsAscend(before) && IdsAscend(after) && Thinned(before, after)
    requires forall u, v :: ThinnedUser(u, v) && test(v) ==> test(u)
    requires First(before.users, test) == Some(y) && y in after.users
    ensures First(after.users, test) == Some(y)
  {
    hide ThinnedUser;
    var n := FirstAt(before.users, test);
    var k :| 0 <= k < |after.users| && after.users[k] == y;
    forall i | 0 <= i < k ensures !test(after.users[i]) {
      assert after.users[i] in after.users;
      var u :| u in before.users && ThinnedUser(u, after.users[i]);
      SameId(u, after.users[i]);
      var j :| 0 <= j < |before.users| && before.users[j] == u;
      assert before.users[j].id < before.users[n].id;
    }
    FirstIs(after.users, test, k);
  }

  lemma SameId(u: User, v: User)
    requires ThinnedUser(u, v)
    ensures u.id == v.id
  {
  }

  /** The first alias before is the first alias now. */
  lemma StillAlias(before: Table, after: Table, row: Row, y: User)
    requires Valid(before) && Valid(after) && Thinned(before, after) && WithEmail(row)
    requires y in before.users && y in after.users && y.username != row.username
    requires NotByName(before.users, CwaIdentity(row)) && FindMatch(before.users, CwaIdentity(row)) == None
    requires Selects(before.users, CwaIdentity(row), y)
    ensures CreateTarget(after.users, CwaIdentity(row)) == Use(y)
  {
    hide Valid, MatchesAlias, NextSuffix, FindMatch;
    ValidParts(before);
    ValidParts(after);
    var v := First(before.users, Named(row.username)).value;
    var at :| 0 <= at < |before.users| && before.users[at] == v;
    assert v in after.users;
    assert Named(row.username)(v);
    FirstStays(before, after, IsAliasOf(row.username + ALIAS_SUFFIX, Cwa), y);
  }

  // ----- The sync repeats when only the last row has an address -----

  /** Like settled, but the addresses may be there. */
  ghost predicate Carries(t: Table, names: set<string>, active: set<int>) {
    NamesCarried(t, names, active) && IdsCarried(t, names, active)
  }

  ghost predicate NamesCarried(t: Table, names: set<string>, active: set<int>) {
    forall name :: name in names ==> exists u :: u in t.users && u.username == name && SourceOf(u) == Cwa && u.id in active
  }

  ghost predicate IdsCarried(t: Table, names: set<string>, active: set<int>) {
    forall id :: id in active ==> exists u :: u in t.users && u.id == id && SourceOf(u) == Cwa && u.username in names
  }

  /** The row with the address takes no name from the accounts reached before it. */
  lemma NamesStay(t: Table, names: set<string>, row: Row, u: User)
    requires Valid(t) && WithEmail(row) && row.username !in names
    requires u in t.users && Cleared(u, u.username) && u.username in names
    ensures exists w :: w in Upsert(t, CwaIdentity(row)).0.users
                        && w.id == u.id && w.username == u.username && SourceOf(w) == Cwa
  {
    hide Valid, Upsert, IsAliasOf;
    UpsertReaches(t, row);
    var (t1, outcome) := Upsert(t, CwaIdentity(row));
    if outcome.id == u.id {
      AliasReached(t, row, u);
    } else {
      assert u in t1.users;
    }
  }

  lemma CarriesAfter(t: Table, names: set<string>, active: set<int>, row: Row)
    requires Valid(t) && Settles(t, names, active) && WithEmail(row) && row.username !in names
    ensures Carries(Upsert(t, CwaIdentity(row)).0, names, active)
  {
    hide Valid, Upsert, NamesSettle, IdsSettle, NamesCarried, IdsCarried;
    NamesCarriedAfter(t, names, active, row);
    IdsCarriedAfter(t, names, active, row);
  }

  lemma NamesCarriedAfter(t: Table, names: set<string>, active: set<int>, row: Row)
    requires Valid(t) && NamesSettle(t, names, active) && WithEmail(row) && row.username !in names
    ensures NamesCarried(Upsert(t, CwaIdentity(row)).0, names, active)
  {
    hide Valid, Upsert;
    var t1 := Upsert(t, CwaIdentity(row)).0;
    forall name | name in names
      ensures exists u :: u in t1.users && u.username == name && SourceOf(u) == Cwa && u.id in active
    {
      var u :| u in t.users && Cleared(u, name) && u.id in active;
      NamesStay(t, names, row, u);
    }
  }

  lemma IdsCarriedAfter(t: Table, names: set<string>, active: set<int>, row: Row)
    requires Valid(t) && IdsSettle(t, names, active) && WithEmail(row) && row.username !in names
    ensures IdsCarried(Upsert(t, CwaIdentity(row)).0, names, active)
  {
    hide Valid, Upsert;
    var t1 := Upsert(t, CwaIdentity(row)).0;
    forall id | id in active
      ensures exists u :: u in t1.users && u.id == id && SourceOf(u) == Cwa && u.username in names
    {
      var u :| u in t.users && u.id == id && Cleared(u, u.username) && u.username in names;
      NamesStay(t, names, row, u);
    }
  }

  lemma SettledIsCarried(t: Table, names: set<string>, active: set<int>)
    requires Settles(t, names, active)
    ensures Carries(t, names, active)
  {
  }

  /** Pruned, the table still holds every name, under the same ids. */
  lemma PrunedHolds(t: Table, names: set<string>, before: set<int>, active: set<int>)
    requires Valid(t) && NamesCarried(t, names, before) && before <= active
    ensures Held(Without(t, StaleIds(t, active)), names)
  {
    hide Valid;
    var t1 := Without(t, StaleIds(t, active));
    forall name | name in names ensures exists u :: u in t1.users && u.username == name && SourceOf(u) == Cwa {
      var u :| u in t.users && u.username == name && SourceOf(u) == Cwa && u.id in before;
      ActiveStays(t, active, u);
    }
  }

  /** A Calibre-Web account of the first result, if its name is one of these, is active again. */
  lemma ActiveAgain(first: Table, again: Table, names: set<string>, before: set<int>, active: set<int>, w: User)
    requires Valid(first) && Valid(again) && Thinned(first, again)
    requires IdsCarried(first, names, before) && NamesSettle(again, names, active)
    requires w in again.users && w.id in before
    ensures w.id in active
  {
    hide Valid, NamesSettle;
    var u :| u in first.users && ThinnedUser(u, w);
    var x :| x in first.users && x.id == w.id && SourceOf(x) == Cwa && x.username in names;
    SameAccount(first, u, x);
    ActiveUnderName(again, names, active, w);
  }

  lemma ActiveUnderName(t: Table, names: set<string>, active: set<int>, w: User)
    requires Valid(t) && NamesSettle(t, names, active) && w in t.users && w.username in names
    ensures w.id in active
  {
  }

  lemma NoEmailsRepeat(t: Table, rows: seq<Row>)
    requires Valid(t) && NoEmails(rows)
    ensures Repeats(t, rows)
  {
    hide Valid, NamesSettle, IdsSettle, NamesCarried, IdsCarried, Held, Thinned;
    var names := Names(rows);
    var st, t1 := SyncRows(Start(t), rows), Synced(t, rows);
    SyncSettles(t, rows);
    SettledIsCarried(st.table, names, st.active);
    SyncIsExact(t, rows);
    PrunedHolds(st.table, names, st.active, st.active);
    PruningThins(st.table, st.active);
    SyncAgain(t1, rows, names);
    SyncSettles(t1, rows);
    var again := SyncRows(Start(t1), rows);
    ThinnedTwice(st.table, t1, again.table);
    forall w | w in again.table.users && SourceOf(w) == Cwa ensures w.id in again.active {
      WasActive(t1, again.table, st.active, w);
      ActiveAgain(st.table, again.table, names, st.active, again.active, w);
    }
    assert StaleIds(again.table, again.active) == {};
  }

  lemma WasActive(t1: Table, again: Table, active: set<int>, w: User)
    requires Thinned(t1, again) && CwaIds(t1) == active && w in again.users && SourceOf(w) == Cwa
    ensures w.id in active
  {
  }

  /** The second time, the row with the address reaches its account of the first time, or another that is there. */
  lemma EmailRowAgain(t: Table, tr: Table, t2: Table, names: set<string>, before: set<int>, active: set<int>, row: Row)
    requires Valid(t) && Valid(tr) && Valid(t2) && WithEmail(row) && row.username !in names
    requires tr == Upsert(t, CwaIdentity(row)).0
    requires Settles(t, names, before) && NamesCarried(tr, names, before) && Thinned(tr, t2) && Settles(t2, names, active)
    requires var y := Upsert(t, CwaIdentity(row)).1.id;
             y !in before ==> forall u :: u in tr.users && u.id == y ==> u in t2.users || y in active
    ensures Upsert(t2, CwaIdentity(row)).1.Updated?
    ensures var y := Upsert(t, CwaIdentity(row)).1.id;
            y in before || y == Upsert(t2, CwaIdentity(row)).1.id
  {
    hide Valid, Upsert, Thinned, NamesSettle, IdsSettle, NamesCarried, Selects, IsAliasOf;
    var who := CwaIdentity(row);
    UpsertReaches(t, row);
    ReachedEmail(t, row);
    AfterUpsert(t, who);
    var y := Upsert(t, who).1.id;
    var k :| 0 <= k < |tr.users| && Selects(tr.users, who, tr.users[k])
             && (Upsert(t, who).1 == Updated(tr.users[k].id) || Upsert(t, who).1 == Created(tr.users[k].id));
    var u := tr.users[k];
    if y in before {
      AliasAgain(t, t2, names, before, active, row);
    } else {
      if y in active {
        NotUnderName(tr, t2, names, before, active, u);
      }
      RepeatSelects(tr, t2, row, u);
    }
  }

  /** An account that was not reached under one of the names is not reached under one the second time. */
  lemma NotUnderName(tr: Table, t2: Table, names: set<string>, before: set<int>, active: set<int>, u: User)
    requires Valid(tr) && Thinned(tr, t2) && NamesCarried(tr, names, before) && IdsSettle(t2, names, active)
    requires u in tr.users && u.id !in before
    ensures u.id !in active
  {
  }

  lemma AliasAgain(t: Table, t2: Table, names: set<string>, before: set<int>, active: set<int>, row: Row)
    requires Valid(t) && WithEmail(row) && row.username !in names
    requires IdsSettle(t, names, before) && NamesSettle(t2, names, active)
    requires Thinned(Upsert(t, CwaIdentity(row)).0, t2)
    requires Upsert(t, CwaIdentity(row)).1.Updated? || Upsert(t, CwaIdentity(row)).1.Created?
    requires Upsert(t, CwaIdentity(row)).1.id in before
    ensures Upsert(t2, CwaIdentity(row)).1.Updated?
  {
    hide Valid, Upsert, MatchesAlias;
    var (t1, outcome) := Upsert(t, CwaIdentity(row));
    var u :| u in t.users && u.id == outcome.id && Cleared(u, u.username) && u.username in names;
    AliasReached(t, row, u);
    UpsertReaches(t, row);
    var v :| v in t.users && v.username == row.username && SourceOf(v) != Cwa;
    if v.id == outcome.id {
      SameAccount(t, u, v);
    }
    assert v in t1.users && v in t2.users;
    var x :| x in t2.users && Cleared(x, u.username) && x.id in active;
    UpdatedWithAlias(t2, row, v, x);
  }

  lemma EmailLastRepeats(t: Table, rows: seq<Row>, row: Row)
    requires Valid(t) && NoEmails(rows) && WithEmail(row) && row.username !in Names(rows)
    ensures Repeats(t, rows + [row])
  {
    hide Valid, NamesSettle, IdsSettle, NamesCarried, IdsCarried, Held, Thinned, Upsert;
    var names, who := Names(rows), CwaIdentity(row);
    var st := SyncRows(Start(t), rows);
    SyncSettles(t, rows);
    SyncAppend(Start(t), rows, [row]);
    SyncOne(st, row);
    UpsertReaches(st.table, row);
    var (tr, outcome) := Upsert(st.table, who);
    var active := st.active + {outcome.id};
    CarriesAfter(st.table, names, st.active, row);
    var t1 := Synced(t, rows + [row]);
    SyncIsExact(t, rows + [row]);
    PrunedHolds(tr, names, st.active, active);
    PruningThins(tr, active);
    SyncAgain(t1, rows, names);
    SyncSettles(t1, rows);
    var again := SyncRows(Start(t1), rows);
    ThinnedTwice(tr, t1, again.table);
    SyncAppend(Start(t1), rows, [row]);
    SyncOne(again, row);
    StillThere(tr, t1, rows, active, outcome.id);
    EmailRowAgain(st.table, tr, again.table, names, st.active, again.active, row);
    UpsertReaches(again.table, row);
    var (t3, last) := Upsert(again.table, who);
    forall w | w in t3.users && SourceOf(w) == Cwa ensures w.id in again.active + {last.id} {
      if w.id != last.id {
        WasActive(t1, again.table, active, w);
        if w.id in st.active {
          ActiveAgain(tr, again.table, names, st.active, again.active, w);
        }
      }
    }
    assert StaleIds(t3, again.active + {last.id}) == {};
  }

  /** An active account is there after the second round of rows too, unless one of them reached it. */
  lemma StillThere(tr: Table, t1: Table, rows: seq<Row>, active: set<int>, id: int)
    requires Valid(tr) && Valid(t1) && t1 == Without(tr, StaleIds(tr, active)) && id in active
    ensures var again := SyncRows(Start(t1), rows);
            forall u :: u in tr.users && u.id == id ==> u in again.table.users || id in again.active
  {
    hide Valid, SyncRow;
    var again := SyncRows(Start(t1), rows);
    RowsKeepInvariant(t1, Start(t1), rows);
    forall u | u in tr.users && u.id == id ensures u in again.table.users || id in again.active {
      ActiveStays(tr, active, u);
    }
  }

  lemma RepeatsWhenLast(t: Table, rows: seq<Row>)
    requires Valid(t) && DifferentUsers(rows) && EmailOnlyLast(rows)
    ensures Repeats(t, rows)
  {
    hide Valid, Repeats, SyncRow;
    if NoEmails(rows) {
      NoEmailsRepeat(t, rows);
    } else {
      var row :| row in rows && row.username != "" && row.email.Some?;
      var i :| 0 <= i < |rows| && rows[i] == row;
      var front := rows[..i];
      assert NoEmails(front) && row.username !in Names(front) by {
        forall r | r in front && r.username != "" ensures r.email.None? && r.username != row.username {
          var k :| 0 <= k < |front| && front[k] == r;
          assert rows[k] == r;
        }
      }
      EmailLastRepeats(t, front, row);
      BlankEnd(t, front + [row], rows[i + 1..]);
      assert rows == front + [row] + rows[i + 1..];
    }
  }

  lemma {:induction false} BlankEnd(t: Table, rows: seq<Row>, blank: seq<Row>)
    requires Repeats(t, rows) && forall i :: 0 <= i < |blank| ==> blank[i].username == ""
    ensures Repeats(t, rows + blank)
  {
    hide SyncRow;
    SyncAppend(Start(t), rows, blank);
    BlankRows(SyncRows(Start(t), rows), blank);
    SyncAppend(Start(Synced(t, rows)), rows, blank);
    BlankRows(SyncRows(Start(Synced(t, rows)), rows), blank);
  }

  // ----- Otherwise some table does not settle -----

  /** An account reached by a row whose name no other source has: it gets that name, or keeps another source's. */
  lemma PlainRow(t: Table, row: Row)
    requires Valid(t) && row.username != ""
    requires forall q :: q in t.users && q.username == row.username ==> SourceOf(q) == Cwa
    ensures var (t1, outcome) := Upsert(t, CwaIdentity(row));
            && (outcome.Updated? || outcome.Created?)
            && (forall p :: p in t.users && p.id == outcome.id ==>
                  p.username == row.username || (EmailKey(p.email) == EmailKey(row.email) != ""))
            && (forall q :: q in t1.users && q.id == outcome.id ==>
                  q.username == row.username
                  || exists p :: p in t.users && p.id == q.id && p.username == q.username && SourceOf(p) != Cwa)
  {
    hide Valid, NextSuffix, MatchesAlias;
    ValidParts(t);
    var who := CwaIdentity(row);
    var matched := FindMatch(t.users, who);
    if matched.Some? {
      MatchIsAccount(t.users, who);
      PlainMatch(t, row, matched.value);
    } else {
      assert First(t.users, Named(row.username)).None?;
    }
  }

  lemma PlainMatch(t: Table, row: Row, m: User)
    requires Valid(t) && row.username != "" && m in t.users && FindMatch(t.users, CwaIdentity(row)) == Some(m)
    requires forall q :: q in t.users && q.username == row.username ==> SourceOf(q) == Cwa
    ensures forall p :: p in t.users && p.id == m.id ==> p == m
    ensures m.username == row.username || (EmailKey(m.email) == EmailKey(row.email) != "")
    ensures SourceOf(m) == Cwa ==> SyncedName(t.users, m, CwaIdentity(row)) == Some(row.username)
  {
    hide Valid, NextSuffix, MatchesAlias;
    ValidParts(t);
    var who := CwaIdentity(row);
    forall p | p in t.users && p.id == m.id ensures p == m {
      SameAccount(t, p, m);
    }
    if m.username != row.username {
      var k :| 0 <= k < |t.users| && t.users[k] == m;
      UniqueEmailAlone(t.users, GivenEmail(who), k);
    }
    var existing := First(t.users, Named(row.username));
    if existing.Some? && m.username == row.username {
      SameAccount(t, existing.value, m);
    }
  }

  /** Rows of other users than the two at odds. */
  ghost predicate Others(rows: seq<Row>, name: string, taken: string, key: string) {
    forall row :: row in rows && row.username != "" ==>
      row.username != name && row.username != taken && EmailKey(row.email) != key
  }

  /** The first row's address belongs to a local account that has the second row's name. */
  ghost predicate Waiting(t: Table, x: User, name: string, taken: string, key: string) {
    && Valid(t) && x in t.users && x.username == taken && EmailKey(x.email) == key && SourceOf(x) != Cwa
    && forall q :: q in t.users ==>
         q == x || (SourceOf(q) == Cwa && q.username != taken && q.username != name && EmailKey(q.email) != key)
  }

  lemma WaitingStep(t: Table, x: User, name: string, taken: string, key: string, row: Row)
    requires Waiting(t, x, name, taken, key) && row.username != "" && Others([row], name, taken, key)
    ensures Waiting(Upsert(t, CwaIdentity(row)).0, x, name, taken, key)
  {
    hide Valid, Upsert;
    assert row in [row];
    UpsertReaches(t, row);
    ReachedEmail(t, row);
    PlainRow(t, row);
    var (t1, outcome) := Upsert(t, CwaIdentity(row));
    assert x.id != outcome.id;
  }

  /** That account is then linked under its old name. */
  ghost predicate LinkedUnder(t: Table, name: string, taken: string, key: string) {
    && Valid(t)
    && (exists q :: q in t.users && q.username == taken)
    && forall q :: q in t.users ==>
         SourceOf(q) == Cwa && q.username != name && (EmailKey(q.email) == key ==> q.username == taken)
  }

  lemma LinkStep(t: Table, x: User, taken: string, row: Row)
    requires WithEmail(row) && Waiting(t, x, row.username, taken, EmailKey(row.email)) && taken != row.username
    ensures LinkedUnder(Upsert(t, CwaIdentity(row)).0, row.username, taken, EmailKey(row.email))
  {
    hide Valid, Upsert;
    var who := CwaIdentity(row);
    MatchesWaiting(t, x, taken, row);
    UpsertReaches(t, row);
    var t1 := Upsert(t, who).0;
    var q :| q in t1.users && q.id == x.id && q.username == taken && SourceOf(q) == Cwa;
    forall p | p in t1.users ensures p == q || (p in t.users && p != x) {
      if p.id == x.id {
        SameAccount(t1, p, q);
      }
    }
  }

  lemma MatchesWaiting(t: Table, x: User, taken: string, row: Row)
    requires WithEmail(row) && Waiting(t, x, row.username, taken, EmailKey(row.email)) && taken != row.username
    ensures var (t1, outcome) := Upsert(t, CwaIdentity(row));
            && outcome == Updated(x.id)
            && exists q :: q in t1.users && q.id == x.id && q.username == taken && SourceOf(q) == Cwa
  {
    hide Valid, FindMatch;
    ValidParts(t);
    KeyOfEmail(row);
    var who := CwaIdentity(row);
    var k :| 0 <= k < |t.users| && t.users[k] == x;
    forall i | 0 <= i < |t.users| && i != k ensures EmailKey(t.users[i].email) != EmailKey(row.email) {
      assert t.users[i] in t.users && t.users[i].id != x.id;
    }
    UniqueEmailIs(t.users, GivenEmail(who), k);
    forall i | 0 <= i < |t.users| ensures t.users[i].username != row.username {
      assert t.users[i] in t.users;
    }
    MatchWithoutName(t.users, who);
    WithUserAt(t, k, Linked(x, who, None));
    assert Upsert(t, who).0.users[k] in Upsert(t, who).0.users;
  }

  /** Nobody has the first row's name or address any more. */
  ghost predicate Lost(t: Table, name: string, key: string) {
    Valid(t) && forall q :: q in t.users ==> SourceOf(q) == Cwa && q.username != name && EmailKey(q.email) != key
  }

  lemma TakeStep(t: Table, name: string, key: string, row: Row)
    requires LinkedUnder(t, name, row.username, key) && row.username != "" && row.username != name && EmailKey(row.email) != key
    ensures Lost(Upsert(t, CwaIdentity(row)).0, name, key)
  {
    hide Valid, Upsert, FindMatch;
    ValidParts(t);
    var who := CwaIdentity(row);
    UpsertReaches(t, row);
    ReachedEmail(t, row);
    PlainRow(t, row);
    var x :| x in t.users && x.username == row.username;
    var k :| 0 <= k < |t.users| && t.users[k] == x;
    AfterNameMatch(t, who, k);
    forall p | p in t.users && EmailKey(p.email) == key ensures p == x {
      SameAccount(t, p, x);
    }
  }

  lemma LostStep(t: Table, name: string, key: string, row: Row)
    requires Lost(t, name, key) && row.username != "" && row.username != name && EmailKey(row.email) != key
    ensures Lost(Upsert(t, CwaIdentity(row)).0, name, key)
  {
    hide Valid, Upsert;
    UpsertReaches(t, row);
    ReachedEmail(t, row);
    PlainRow(t, row);
  }

  lemma {:induction false} WaitingRows(st: Progress, x: User, name: string, taken: string, key: string, rows: seq<Row>)
    requires Waiting(st.table, x, name, taken, key) && Others(rows, name, taken, key)
    ensures Waiting(SyncRows(st, rows).table, x, name, taken, key)
    decreases |rows|
  {
    hide Waiting, Upsert;
    if rows != [] {
      var row := rows[0];
      assert row in rows;
      assert Others([row], name, taken, key) && Others(rows[1..], name, taken, key);
      if row.username != "" {
        WaitingStep(st.table, x, name, taken, key, row);
        CwaUpsertReaches(st.table, row);
      }
      WaitingRows(SyncRow(st, row), x, name, taken, key, rows[1..]);
    }
  }

  lemma {:induction false} LostRows(st: Progress, name: string, key: string, rows: seq<Row>)
    requires Lost(st.table, name, key)
    requires forall row :: row in rows && row.username != "" ==> row.username != name && EmailKey(row.email) != key
    ensures Lost(SyncRows(st, rows).table, name, key)
    decreases |rows|
  {
    hide Lost, Upsert;
    if rows != [] {
      var row := rows[0];
      assert row in rows;
      if row.username != "" {
        LostStep(st.table, name, key, row);
        CwaUpsertReaches(st.table, row);
      }
      LostRows(SyncRow(st, row), name, key, rows[1..]);
    }
  }

  lemma {:induction false} CreatedGrows(st: Progress, rows: seq<Row>)
    ensures SyncRows(st, rows).created >= st.created
    decreases |rows|
  {
    hide Upsert;
    if rows != [] {
      CreatedGrows(SyncRow(st, rows[0]), rows[1..]);
    }
  }

  lemma LostIsCreated(t: Table, row: Row)
    requires WithEmail(row) && Lost(t, row.username, EmailKey(row.email))
    ensures Upsert(t, CwaIdentity(row)).1.Created?
  {
    hide NextSuffix, MatchesAlias;
    var who := CwaIdentity(row);
    FilterNone(t.users, HasEmail(EmailKey(row.email)));
    assert First(t.users, Named(row.username)).None?;
  }

  lemma PruningKeepsLost(t: Table, active: set<int>, name: string, key: string)
    requires Lost(t, name, key)
    ensures Lost(Without(t, StaleIds(t, active)), name, key)
  {
    hide Valid;
    var stale := StaleIds(t, active);
    WithoutKeepsValid(t, stale);
    FilterMembers(t.users, NotAmong(stale));
  }

  /** After the first sync of two such rows, the first row's user is lost; the second sync creates it again. */
  lemma {:induction false} EarlierEmailBreaks(front: seq<Row>, a: Row, blank: seq<Row>, b: Row, back: seq<Row>)
    returns (t: Table)
    requires WithEmail(a) && b.username != "" && a.username != b.username && EmailKey(a.email) != EmailKey(b.email)
    requires Others(front + back, a.username, b.username, EmailKey(a.email))
    requires forall i :: 0 <= i < |blank| ==> blank[i].username == ""
    ensures Valid(t) && !Repeats(t, front + [a] + blank + [b] + back)
  {
    hide Valid, Upsert, Waiting, LinkedUnder, Lost;
    var rows := front + [a] + blank + [b] + back;
    var key := EmailKey(a.email);
    assert forall row :: row in front || row in back ==> row in front + back;
    var x := User(1, b.username, a.email, None, Some(Builtin), None, Member);
    t := Table([x], 2);
    StartsWaiting(t, x, a, b);
    var st := Start(t);
    FirstSync(st, x, front, a, blank, b, back);
    var end := SyncRows(st, rows);
    PruningKeepsLost(end.table, end.active, a.username, key);
    var st2 := Start(Synced(t, rows));
    assert rows == front + ([a] + blank + [b] + back);
    SyncAppend(st2, front, [a] + blank + [b] + back);
    LostRows(st2, a.username, key, front);
    var before := SyncRows(st2, front);
    LostIsCreated(before.table, a);
    assert ([a] + blank + [b] + back)[0] == a;
    CreatedGrows(SyncRow(before, a), ([a] + blank + [b] + back)[1..]);
  }

  lemma StartsWaiting(t: Table, x: User, a: Row, b: Row)
    requires x == User(1, b.username, a.email, None, Some(Builtin), None, Member) && t == Table([x], 2)
    ensures Valid(t) && Waiting(t, x, a.username, b.username, EmailKey(a.email))
  {
  }

  lemma {:induction false} FirstSync(st: Progress, x: User, front: seq<Row>, a: Row, blank: seq<Row>, b: Row,
                                     back: seq<Row>)
    requires WithEmail(a) && b.username != "" && a.username != b.username && EmailKey(a.email) != EmailKey(b.email)
    requires Others(front, a.username, b.username, EmailKey(a.email))
    requires Others(back, a.username, b.username, EmailKey(a.email))
    requires forall i :: 0 <= i < |blank| ==> blank[i].username == ""
    requires Waiting(st.table, x, a.username, b.username, EmailKey(a.email))
    ensures Lost(SyncRows(st, front + [a] + blank + [b] + back).table, a.username, EmailKey(a.email))
  {
    hide Upsert, Waiting, LinkedUnder, Lost;
    var key := EmailKey(a.email);
    WaitingRows(st, x, a.username, b.username, key, front);
    var s1 := SyncRows(st, front);
    LinkStep(s1.table, x, b.username, a);
    CwaUpsertReaches(s1.table, a);
    var s2 := SyncRow(s1, a);
    BlankRows(s2, blank);
    TakeStep(s2.table, a.username, key, b);
    CwaUpsertReaches(s2.table, b);
    var s3 := SyncRow(s2, b);
    LostRows(s3, a.username, key, back);
    SyncOne(s1, a);
    SyncOne(s2, b);
    SyncAppend(st, front, [a]);
    SyncAppend(st, front + [a], blank);
    SyncAppend(st, front + [a] + blank, [b]);
    SyncAppend(st, front + [a] + blank + [b], back);
  }

  lemma {:induction false} NextNamed(rows: seq<Row>, i: nat, j: nat) returns (n: nat)
    requires i < j < |rows| && rows[j].username != ""
    ensures i < n <= j && rows[n].username != ""
    ensures forall k :: i < k < n ==> rows[k].username == ""
    decreases j - i
  {
    if k :| i < k < j && rows[k].username != "" {
      n := NextNamed(rows, i, k);
    } else {
      n := j;
    }
  }

  lemma OthersAround(rows: seq<Row>, i: nat, n: nat)
    requires DifferentUsers(rows) && i < n < |rows| && WithEmail(rows[i]) && rows[n].username != ""
    ensures Others(rows[..i] + rows[n + 1..], rows[i].username, rows[n].username, EmailKey(rows[i].email))
  {
  }

  lemma BreaksUnlessLast(rows: seq<Row>) returns (t: Table)
    requires DifferentUsers(rows) && !EmailOnlyLast(rows)
    ensures Valid(t) && !Repeats(t, rows)
  {
    hide Valid, Repeats, Others, EmailKey;
    var i, j :| 0 <= i < j < |rows| && rows[i].username != "" && rows[j].username != "" && rows[i].email.Some?;
    var n := NextNamed(rows, i, j);
    OthersAround(rows, i, n);
    AtOdds(rows, i, n);
    var blank := rows[i + 1..n];
    assert forall k :: 0 <= k < |blank| ==> blank[k] == rows[i + 1 + k];
    t := EarlierEmailBreaks(rows[..i], rows[i], blank, rows[n], rows[n + 1..]);
    assert rows == rows[..i] + [rows[i]] + rows[i + 1..n] + [rows[n]] + rows[n + 1..];
  }

  lemma AtOdds(rows: seq<Row>, i: nat, n: nat)
    requires DifferentUsers(rows) && i < n < |rows| && WithEmail(rows[i]) && rows[n].username != ""
    ensures rows[i].username != rows[n].username && EmailKey(rows[i].email) != EmailKey(rows[n].email)
  {
  }

  /** Exactly when repeating a sync is sure to change no account's existence. */
  lemma SyncRepeatsExactly(rows: seq<Row>)
    requires DifferentUsers(rows)
    ensures (forall t :: Valid(t) ==> Repeats(t, rows)) <==> EmailOnlyLast(rows)
  {
    hide Valid, Repeats, DifferentUsers, EmailOnlyLast;
    if EmailOnlyLast(rows) {
      forall t | Valid(t) ensures Repeats(t, rows) {
        RepeatsWhenLast(t, rows);
      }
    } else {
      var t := BreaksUnlessLast(rows);
    }
  }
}
