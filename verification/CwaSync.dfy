/** Syncing the accounts of a Calibre-Web database: upsert every row, then prune the whole source. */
module CwaSync {
  import opened Basics
  import opened Accounts
  import opened Linking

  /** A raw row; the username and email are held trimmed. */
  datatype Row = Row(username: string, roleFlags: int, email: Option<string>)

  const ALIAS_SUFFIX := "__cwa"

  function CwaIdentity(row: Row): Identity {
    Identity(Cwa, row.username, if row.roleFlags % 2 == 1 then Admin else Member, Set(row.email), Unset, None,
             true, true, true, true, if row.email.Some? then Alias else Takeover, ALIAS_SUFFIX)
  }

  datatype Progress = Progress(table: Table, active: set<int>, created: nat, updated: nat)

  /** One row: a blank username is skipped. */
  function SyncRow(st: Progress, row: Row): Progress {
    if row.username == "" then st
    else
      var (t, outcome) := Upsert(st.table, CwaIdentity(row));
      match outcome
      case Created(id) => Progress(t, st.active + {id}, st.created + 1, st.updated)
      case Updated(id) => Progress(t, st.active + {id}, st.created, st.updated + 1)
      case _ => st
  }

  function SyncRows(st: Progress, rows: seq<Row>): Progress
    decreases |rows|
  {
    if rows == [] then st else SyncRows(SyncRow(st, rows[0]), rows[1..])
  }

  function Start(t: Table): Progress {
    Progress(t, {}, 0, 0)
  }

  function StaleIds(t: Table, active: set<int>): set<int> {
    set u | u in t.users && SourceOf(u) == Cwa && u.id !in active :: u.id
  }

  /** The table after a sync of these rows. */
  function Synced(t: Table, rows: seq<Row>): Table {
    var st := SyncRows(Start(t), rows);
    Without(st.table, StaleIds(st.table, st.active))
  }

  datatype Summary = Summary(created: nat, updated: nat, deleted: nat, total: nat)

  method SyncCwaUsersFromRows(db: UserDb, rows: seq<Row>) returns (summary: Summary)
    requires db.Ok()
    modifies db
    ensures db.Ok() && db.table == Synced(old(db.table), rows)
    ensures var st := SyncRows(Start(old(db.table)), rows);
            && summary.created == st.created && summary.updated == st.updated
            && summary.deleted == |StaleIds(st.table, st.active)|
            && summary.total == st.created + st.updated
  {
    hide Upsert, Valid, Writes, Reaches, CwaIdentity, Without;
    var created, updated := 0, 0;
    var active: set<int> := {};
    for k := 0 to |rows|
      invariant db.Ok()
      invariant SyncRows(Start(old(db.table)), rows)
             == SyncRows(Progress(db.table, active, created, updated), rows[k..])
    {
      var row := rows[k];
      assert rows[k..][1..] == rows[k + 1..];
      if row.username == "" {
        continue;
      }
      CwaUpsertReaches(db.table, row);
      var outcome := UpsertExternalUser(db, CwaIdentity(row));
      active := active + {outcome.id};
      if outcome.Created? {
        created := created + 1;
      } else {
        updated := updated + 1;
      }
    }
    var listed := db.table.users;
    ghost var before := db.table;
    ghost var stale := StaleIds(before, active);
    var deleted := 0;
    ghost var gone: set<int> := {};
    IdsAreDistinct(before);
    for k := 0 to |listed|
      invariant db.Ok() && db.table == Without(before, gone)
      invariant gone == set i | 0 <= i < k && SourceOf(listed[i]) == Cwa && listed[i].id !in active :: listed[i].id
      invariant deleted == |gone|
    {
      var u := listed[k];
      if SourceOf(u) != Cwa || u.id in active {
        continue;
      }
      assert u.id !in gone;
      WithoutTwice(before, gone, {u.id});
      db.Delete(u.id);
      gone := gone + {u.id};
      deleted := deleted + 1;
    }
    assert gone == stale;
    summary := Summary(created, updated, deleted, created + updated);
  }

  lemma IdsAreDistinct(t: Table)
    requires Valid(t)
    ensures forall i, j :: 0 <= i < j < |t.users| ==> t.users[i].id != t.users[j].id
    ensures Without(t, {}) == t
  {
    FilterAll(t.users, NotAmong({}));
  }

  lemma WithoutTwice(t: Table, a: set<int>, b: set<int>)
    ensures Without(Without(t, a), b) == Without(t, a + b)
  {
    FilterTwice(t.users, a, b);
  }

  lemma {:induction false} FilterTwice(users: seq<User>, a: set<int>, b: set<int>)
    ensures Filter(Filter(users, NotAmong(a)), NotAmong(b)) == Filter(users, NotAmong(a + b))
  {
    if users != [] {
      FilterTwice(users[1..], a, b);
      var rest := Filter(users[1..], NotAmong(a));
      if NotAmong(a)(users[0]) {
        assert Filter(users, NotAmong(a)) == [users[0]] + rest;
        assert ([users[0]] + rest)[1..] == rest;
      } else {
        assert Filter(users, NotAmong(a)) == rest;
      }
    }
  }

  lemma CwaUpsertReaches(t: Table, row: Row)
    requires row.username != ""
    ensures var outcome := Upsert(t, CwaIdentity(row)).1; outcome.Updated? || outcome.Created?
  {
  }

  // ----- What a sync guarantees -----

  function IdsOf(t: Table): set<int> {
    set u | u in t.users :: u.id
  }

  /** The accounts whose effective source is Calibre-Web. */
  function CwaIds(t: Table): set<int> {
    set u | u in t.users && SourceOf(u) == Cwa :: u.id
  }

  /** One upsert turns the account it reaches into a Calibre-Web account and leaves the others alone. */
  lemma UpsertReaches(t: Table, row: Row)
    requires Valid(t) && row.username != ""
    ensures var (t1, outcome) := Upsert(t, CwaIdentity(row));
            && Valid(t1) && (outcome.Updated? || outcome.Created?)
            && (forall u :: u in t.users && u.id != outcome.id ==> u in t1.users)
            && (forall u :: u in t1.users && u.id != outcome.id ==> u in t.users)
            && IdsOf(t1) == IdsOf(t) + {outcome.id}
            && outcome.id in CwaIds(t1)
  {
    hide FindMatch, CreateTarget, NameAfterUpdate, Valid;
    var who := CwaIdentity(row);
    UpsertKeepsValid(t, who);
    var (t1, outcome) := Upsert(t, who);
    var matched := FindMatch(t.users, who);
    ValidIds(t);
    if matched.Some? {
      MatchIsAccount(t.users, who);
      RewriteReaches(t, matched.value, Linked(matched.value, who, SyncedName(t.users, matched.value, who)));
    } else {
      match CreateTarget(t.users, who) {
        case Use(u) =>
          TargetIsAccount(t.users, who);
          RewriteReaches(t, u, Linked(u, who, None));
        case New(name) =>
          AddReaches(t, NewAccount(who, name));
      }
    }
  }

  lemma ValidIds(t: Table)
    requires Valid(t)
    ensures IdsAscend(t)
  {
  }

  lemma RewriteReaches(t: Table, was: User, now: User)
    requires IdsAscend(t) && was in t.users && now.id == was.id && SourceOf(now) == Cwa
    ensures var t1 := WithUser(t, now);
            && (forall u :: u in t.users && u.id != now.id ==> u in t1.users)
            && (forall u :: u in t1.users && u.id != now.id ==> u in t.users)
            && IdsOf(t1) == IdsOf(t) + {now.id} && now.id in CwaIds(t1)
  {
  }

  lemma AddReaches(t: Table, u: User)
    requires IdsAscend(t) && SourceOf(u) == Cwa
    ensures var t1 := WithNewUser(t, u);
            && (forall q :: q in t.users ==> q in t1.users)
            && (forall q :: q in t1.users && q.id != t.nextId ==> q in t.users)
            && IdsOf(t1) == IdsOf(t) + {t.nextId} && t.nextId in CwaIds(t1)
  {
  }

  /** No account disappears while the rows are upserted, and the active accounts are Calibre-Web's. */
  ghost predicate Invariant(start: Table, st: Progress) {
    && Valid(st.table)
    && IdsOf(st.table) == IdsOf(start) + st.active
    && st.active <= CwaIds(st.table)
    && (forall u :: u in st.table.users && u.id !in st.active ==> u in start.users)
    && (forall u :: u in start.users && u.id !in st.active ==> u in st.table.users)
  }

  function NonBlank(rows: seq<Row>): nat {
    if rows == [] then 0 else (if rows[0].username != "" then 1 else 0) + NonBlank(rows[1..])
  }

  lemma RowKeepsInvariant(start: Table, st: Progress, row: Row)
    requires Invariant(start, st)
    ensures Invariant(start, SyncRow(st, row))
  {
    hide Upsert, Valid, SourceOf;
    if row.username != "" {
      UpsertReaches(st.table, row);
      var (t1, outcome) := Upsert(st.table, CwaIdentity(row));
      var next := SyncRow(st, row);
      assert next.table == t1 && next.active == st.active + {outcome.id};
      forall id | id in next.active ensures id in CwaIds(t1) {
        if id != outcome.id {
          assert id in CwaIds(st.table);
          var u :| u in st.table.users && SourceOf(u) == Cwa && u.id == id;
          assert u in t1.users;
        }
      }
    }
  }

  lemma {:induction false} RowsKeepInvariant(start: Table, st: Progress, rows: seq<Row>)
    requires Invariant(start, st)
    ensures Invariant(start, SyncRows(st, rows))
    ensures var end := SyncRows(st, rows);
            end.created + end.updated == st.created + st.updated + NonBlank(rows)
    decreases |rows|
  {
    hide Invariant, Upsert;
    if rows != [] {
      RowKeepsInvariant(start, st, rows[0]);
      if rows[0].username != "" {
        CwaUpsertReaches(st.table, rows[0]);
      }
      RowsKeepInvariant(start, SyncRow(st, rows[0]), rows[1..]);
    }
  }

  /**
  After a sync the Calibre-Web accounts are exactly the accounts the rows mapped to; no other account
  was deleted or changed; created and updated count the rows with a username, also when several rows
  map to one account; and the table is still valid.
  */
  lemma SyncIsExact(t: Table, rows: seq<Row>)
    requires Valid(t)
    ensures var st, after := SyncRows(Start(t), rows), Synced(t, rows);
            && Valid(after)
            && CwaIds(after) == st.active
            && st.created + st.updated == NonBlank(rows)
            && (forall u :: u in t.users && SourceOf(u) != Cwa ==> u.id in IdsOf(after))
            && (forall u :: u in t.users && SourceOf(u) != Cwa && u.id !in st.active ==> u in after.users)
            && (forall u :: u in after.users && u.id !in st.active ==> u in t.users && SourceOf(u) != Cwa)
  {
    hide Upsert, Valid, SyncRow;
    var st := SyncRows(Start(t), rows);
    RowsKeepInvariant(t, Start(t), rows);
    var stale := StaleIds(st.table, st.active);
    WithoutKeepsValid(st.table, stale);
    var after := Without(st.table, stale);
    FilterMembers(st.table.users, NotAmong(stale));
    assert forall u :: u in after.users <==> u in st.table.users && NotAmong(stale)(u);
    KeptOrStale(t, st);
    forall id ensures id in CwaIds(after) <==> id in st.active {
      if id in st.active {
        assert id in CwaIds(st.table);
        var u :| u in st.table.users && SourceOf(u) == Cwa && u.id == id;
        assert u.id !in stale;
        assert u in after.users;
      }
    }
    forall u | u in t.users && SourceOf(u) != Cwa ensures u.id in IdsOf(after) {
      if u.id in st.active {
        assert u.id in CwaIds(st.table);
        var now :| now in st.table.users && SourceOf(now) == Cwa && now.id == u.id;
        assert now in after.users;
      } else {
        assert u in after.users;
      }
    }
  }

  /** An id that is not active belongs to one account, so being stale is a property of that account. */
  lemma KeptOrStale(t: Table, st: Progress)
    requires Valid(st.table)
    ensures forall u :: u in st.table.users ==>
      (u.id in StaleIds(st.table, st.active) <==> SourceOf(u) == Cwa && u.id !in st.active)
  {
  }

  // ----- What the accounts show afterwards -----

  /** Administrators are those whose lowest role bit is set; an address that is missing is removed. */
  predicate Shows(u: User, row: Row) {
    && row.username != ""
    && (row.roleFlags % 2 == 1 <==> u.role == Admin)
    && u.email == row.email && u.stored == Some(Cwa)
  }

  /** A row with a username rewrites one account or adds one, which then shows that row. */
  lemma RowWrites(t: Table, row: Row) returns (k: nat)
    requires Valid(t) && row.username != ""
    ensures var (t1, outcome) := Upsert(t, CwaIdentity(row));
            && k < |t1.users| && t1.users[k].id == outcome.id && Shows(t1.users[k], row)
            && (forall i :: 0 <= i < |t1.users| && i != k ==> i < |t.users| && t1.users[i] == t.users[i])
            && |t1.users| == |t.users| + (if outcome.Created? then 1 else 0)
            && (outcome.Created? <==> t1.nextId != t.nextId)
  {
    hide Valid, Upsert, NameAfter;
    var who := CwaIdentity(row);
    CwaUpsertReaches(t, row);
    UpsertWrites(t, who);
    var (t1, outcome) := Upsert(t, who);
    if outcome.Created? {
      k := |t.users|;
      assert forall i :: 0 <= i < |t.users| ==> t1.users[i] == t1.users[..|t.users|][i];
    } else {
      k :| k < |t.users| && t.users[k].id == outcome.id && Rewritten(who, t.users[k], t1.users[k])
           && forall i :: 0 <= i < |t.users| && i != k ==> t1.users[i] == t.users[i];
    }
  }

  /** Every active account shows one of these rows. */
  ghost predicate ActiveShow(st: Progress, rows: seq<Row>) {
    forall u :: u in st.table.users && u.id in st.active ==> exists row :: row in rows && Shows(u, row)
  }

  lemma RowShows(st: Progress, row: Row, rows: seq<Row>)
    requires Valid(st.table) && ActiveShow(st, rows) && row in rows
    ensures Valid(SyncRow(st, row).table) && ActiveShow(SyncRow(st, row), rows)
    ensures |SyncRow(st, row).table.users| == |st.table.users| + SyncRow(st, row).created - st.created
  {
    hide Valid, Upsert, Shows;
    if row.username != "" {
      var k := RowWrites(st.table, row);
      UpsertKeepsValid(st.table, CwaIdentity(row));
      var (t1, outcome) := Upsert(st.table, CwaIdentity(row));
      CwaUpsertReaches(st.table, row);
      IdsAreDistinct(t1);
      forall u | u in t1.users && u.id in SyncRow(st, row).active ensures exists r :: r in rows && Shows(u, r) {
        var i :| 0 <= i < |t1.users| && t1.users[i] == u;
        if i != k {
          assert u == st.table.users[i];
        }
      }
    }
  }

  lemma {:induction false} RowsShow(st: Progress, rows: seq<Row>, all: seq<Row>)
    requires Valid(st.table) && ActiveShow(st, all)
    requires forall row :: row in rows ==> row in all
    ensures ActiveShow(SyncRows(st, rows), all)
    ensures |SyncRows(st, rows).table.users| == |st.table.users| + SyncRows(st, rows).created - st.created
    decreases |rows|
  {
    hide Valid, ActiveShow, SyncRow;
    if rows != [] {
      RowShows(st, rows[0], all);
      RowsShow(SyncRow(st, rows[0]), rows[1..], all);
    }
  }

  /** Exactly as many accounts are added as are counted as created. */
  lemma CreatedAreNew(t: Table, rows: seq<Row>)
    requires Valid(t)
    ensures |SyncRows(Start(t), rows).table.users| == |t.users| + SyncRows(Start(t), rows).created
  {
    RowsShow(Start(t), rows, rows);
  }

  /** After a sync every Calibre-Web account has the role and the address of one of the rows. */
  lemma AccountsShowTheirRow(t: Table, rows: seq<Row>, u: User)
    requires Valid(t) && u in Synced(t, rows).users && SourceOf(u) == Cwa
    ensures exists row :: row in rows && Shows(u, row)
  {
    hide Valid, Shows, SyncRow;
    var st := SyncRows(Start(t), rows);
    SyncIsExact(t, rows);
    RowsShow(Start(t), rows, rows);
    FilterMember(st.table.users, NotAmong(StaleIds(st.table, st.active)), u);
    assert u.id in CwaIds(Synced(t, rows));
  }
}
