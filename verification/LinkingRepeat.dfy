/** Repeating an upsert: the same identity always lands on the same account. */
module LinkingRepeat {
  import opened Basics
  import opened Accounts
  import opened Linking

  /** The next upsert of this identity will update `u`. */
  ghost predicate Selects(users: seq<User>, who: Identity, u: User) {
    || FindMatch(users, who) == Some(u)
    || (FindMatch(users, who) == None && who.allowCreate && CreateTarget(users, who) == Use(u))
  }

  lemma SelectedIsUpdated(t: Table, who: Identity, u: User)
    requires who.username != "" && Selects(t.users, who, u)
    ensures Upsert(t, who).1 == Updated(u.id)
    ensures |Upsert(t, who).0.users| == |t.users|
  {
  }

  /** An account that carries the identity's subject is found first. */
  lemma FoundBySubject(users: seq<User>, who: Identity, k: nat)
    requires UniqueSubjects(users) && k < |users|
    requires who.subject.Some? && users[k].subject == who.subject
    ensures FindMatch(users, who) == Some(users[k])
  {
    FirstIs(users, WithSubject(who.subject.value), k);
  }

  lemma FoundByName(users: seq<User>, who: Identity, k: nat)
    requires UniqueNames(users) && k < |users|
    requires who.subject.None? && users[k].username == who.username && SourceOf(users[k]) == who.source
    ensures FindMatch(users, who) == Some(users[k])
  {
    FirstIs(users, Named(who.username), k);
  }

  /** No account has both the name and the source. */
  ghost predicate NotByName(users: seq<User>, who: Identity) {
    forall i :: 0 <= i < |users| && users[i].username == who.username ==> SourceOf(users[i]) != who.source
  }

  lemma MatchWithoutName(users: seq<User>, who: Identity)
    requires who.subject.None? && NotByName(users, who)
    ensures FindMatch(users, who) == if who.linkByEmail then UniqueByEmail(users, GivenEmail(who)) else None
  {
  }

  lemma UniqueEmailIs(users: seq<User>, email: Option<string>, k: nat)
    requires k < |users| && EmailKey(users[k].email) == EmailKey(email)
    ensures UniqueByEmail(users, email) == None || UniqueByEmail(users, email) == Some(users[k])
    ensures EmailKey(email) != "" &&
            (forall i :: 0 <= i < |users| && i != k ==> EmailKey(users[i].email) != EmailKey(email)) ==>
            UniqueByEmail(users, email) == Some(users[k])
  {
    FilterOnly(users, HasEmail(EmailKey(email)), k);
  }

  lemma UniqueEmailAlone(users: seq<User>, email: Option<string>, k: nat)
    requires k < |users| && UniqueByEmail(users, email) == Some(users[k])
    ensures EmailKey(email) != "" && EmailKey(users[k].email) == EmailKey(email)
    ensures forall i :: 0 <= i < |users| && i != k ==> EmailKey(users[i].email) != EmailKey(email)
  {
    var p := HasEmail(EmailKey(email));
    FilterMember(users, p, users[k]);
    FilterOnly(users, p, k);
    forall i | 0 <= i < |users| && i != k ensures EmailKey(users[i].email) != EmailKey(email) {
      assert !p(users[i]);
    }
  }

  // ----- One case after the other -----

  /** Matched by name and source: a sync asks for the name the account already has. */
  lemma AfterNameMatch(t: Table, who: Identity, k: nat)
    requires Valid(t) && who.subject.None? && k < |t.users|
    requires t.users[k].username == who.username && SourceOf(t.users[k]) == who.source
    ensures var name := SyncedName(t.users, t.users[k], who);
            name.Some? ==> name.value == who.username
    ensures var t1 := Upsert(t, who).0;
            who.username != "" ==>
              |t1.users| == |t.users| && Upsert(t, who).1 == Updated(t.users[k].id)
              && t1.users[k].id == t.users[k].id && FindMatch(t1.users, who) == Some(t1.users[k])
  {
    hide FindMatch, UniqueByEmail, Available, SuffixIndex, Valid;
    ValidParts(t);
    FoundByName(t.users, who, k);
    FirstIs(t.users, Named(who.username), k);
    if who.username != "" {
      UpsertKeepsValid(t, who);
      var u1 := Linked(t.users[k], who, SyncedName(t.users, t.users[k], who));
      WithUserAt(t, k, u1);
      ValidParts(Upsert(t, who).0);
      FoundByName(Upsert(t, who).0.users, who, k);
    }
  }

  lemma ValidParts(t: Table)
    requires Valid(t)
    ensures IdsAscend(t) && UniqueNames(t.users) && UniqueSubjects(t.users)
  {
  }

  /** Matched by the only account with that email address, perhaps renamed and re-sourced. */
  lemma AfterEmailMatch(t: Table, who: Identity, k: nat)
    requires Valid(t) && who.subject.None? && who.username != "" && k < |t.users|
    requires NotByName(t.users, who) && who.linkByEmail && UniqueByEmail(t.users, GivenEmail(who)) == Some(t.users[k])
    ensures var t1 := Upsert(t, who).0;
            |t1.users| == |t.users| && Upsert(t, who).1 == Updated(t.users[k].id)
            && t1.users[k].id == t.users[k].id && FindMatch(t1.users, who) == Some(t1.users[k])
  {
    hide FindMatch, UniqueByEmail, NameAfterUpdate, Valid;
    ValidParts(t);
    MatchWithoutName(t.users, who);
    UniqueEmailAlone(t.users, GivenEmail(who), k);
    var u1 := Linked(t.users[k], who, SyncedName(t.users, t.users[k], who));
    WithUserAt(t, k, u1);
    UpsertKeepsValid(t, who);
    var t1 := Upsert(t, who).0;
    ValidParts(t1);
    assert t1.users == t.users[k := u1];
    if u1.username == who.username {
      FoundByName(t1.users, who, k);
    } else {
      assert NotByName(t1.users, who);
      MatchWithoutName(t1.users, who);
      UniqueEmailIs(t1.users, GivenEmail(who), k);
    }
  }

  /** A taken-over or newly created account that has the requested name. */
  lemma AfterNameTaken(t: Table, who: Identity)
    requires Valid(t) && who.subject.None? && who.username != "" && who.allowCreate && who.strategy != Suffix
    requires FindMatch(t.users, who).None?
    requires First(t.users, Named(who.username)).None? || who.strategy == Takeover
    ensures var (t1, outcome) := Upsert(t, who);
            exists k :: 0 <= k < |t1.users| && FindMatch(t1.users, who) == Some(t1.users[k])
                        && (outcome == Updated(t1.users[k].id) || outcome == Created(t1.users[k].id))
  {
    hide FindMatch, Valid;
    ValidParts(t);
    UpsertKeepsValid(t, who);
    var t1 := Upsert(t, who).0;
    ValidParts(t1);
    var existing := First(t.users, Named(who.username));
    if existing.None? {
      FoundByName(t1.users, who, |t.users|);
    } else {
      var k := FirstAt(t.users, Named(who.username));
      WithUserAt(t, k, Linked(t.users[k], who, None));
      FoundByName(t1.users, who, k);
    }
  }

  /** The name is somebody else's; the account at `k` is the first alias, and has the given email if any. */
  ghost predicate AliasAt(users: seq<User>, who: Identity, k: nat) {
    && k < |users|
    && NotByName(users, who)
    && (exists v :: 0 <= v < |users| && users[v].username == who.username)
    && IsAliasOf(who.username + who.aliasSuffix, who.source)(users[k])
    && (forall i :: 0 <= i < k ==> !IsAliasOf(who.username + who.aliasSuffix, who.source)(users[i]))
    && (who.email.Set? ==> users[k].email == who.email.value)
  }

  lemma AliasIsSelected(users: seq<User>, who: Identity, k: nat)
    requires who.subject.None? && who.allowCreate && who.strategy == Alias && AliasAt(users, who, k)
    ensures Selects(users, who, users[k])
  {
    hide MatchesAlias, SourceOf, NextSuffix, FindMatch;
    MatchWithoutName(users, who);
    if who.email.Set? {
      UniqueEmailIs(users, GivenEmail(who), k);
    }
    if FindMatch(users, who).None? {
      var v :| 0 <= v < |users| && users[v].username == who.username;
      assert Named(who.username)(users[v]);
      FirstIs(users, IsAliasOf(who.username + who.aliasSuffix, who.source), k);
    }
  }

  lemma NoNameMatch(users: seq<User>, who: Identity)
    requires UniqueNames(users) && who.subject.None? && FindMatch(users, who).None?
    ensures NotByName(users, who)
  {
    forall i | 0 <= i < |users| && users[i].username == who.username ensures SourceOf(users[i]) != who.source {
      FirstIs(users, Named(who.username), i);
    }
  }

  /** The name is somebody else's and an alias is used or created. */
  lemma AfterAlias(t: Table, who: Identity)
    requires Valid(t) && who.subject.None? && who.username != "" && who.allowCreate && who.strategy == Alias
    requires FindMatch(t.users, who).None? && First(t.users, Named(who.username)).Some?
    ensures var (t1, outcome) := Upsert(t, who);
            exists k :: 0 <= k < |t1.users| && Selects(t1.users, who, t1.users[k])
                        && (outcome == Updated(t1.users[k].id) || outcome == Created(t1.users[k].id))
  {
    hide FindMatch, Valid, MatchesAlias, NextSuffix, Selects, SuffixIndex;
    ValidParts(t);
    NoNameMatch(t.users, who);
    var v := FirstAt(t.users, Named(who.username));
    var base := who.username + who.aliasSuffix;
    var test := IsAliasOf(base, who.source);
    var t1 := Upsert(t, who).0;
    var k: nat;
    if First(t.users, test).Some? {
      k := FirstAt(t.users, test);
      var u1 := Linked(t.users[k], who, None);
      WithUserAt(t, k, u1);
      assert t1.users == t.users[k := u1];
      assert t1.users[v].username == who.username;
      assert test(u1);
    } else {
      k := |t.users|;
      NewAliasMatches(t.users, base);
      assert t1.users[v].username == who.username;
      NewAliasIsAnother(t.users, base, who, v);
      forall i | 0 <= i < k ensures !test(t1.users[i]) {
        assert t.users[i] in t.users;
      }
    }
    assert AliasAt(t1.users, who, k);
    AliasIsSelected(t1.users, who, k);
  }

  lemma NewAliasMatches(users: seq<User>, base: string)
    ensures MatchesAlias(base, NextSuffix(users, base, None))
  {
  }

  /** The alias is a free name, so not the name that is taken. */
  lemma NewAliasIsAnother(users: seq<User>, base: string, who: Identity, v: nat)
    requires v < |users| && users[v].username == who.username
    ensures NextSuffix(users, base, None) != who.username
  {
    NobodyNamed(users, NextSuffix(users, base, None));
  }

  // ----- The result -----

  /** After an upsert that reached an account, the same identity selects that account. */
  lemma AfterUpsert(t: Table, who: Identity)
    requires Valid(t) && (who.strategy != Suffix || who.subject.Some?)
    ensures var (t1, outcome) := Upsert(t, who);
            outcome.Updated? || outcome.Created? ==>
              exists k :: 0 <= k < |t1.users| && Selects(t1.users, who, t1.users[k])
                          && (outcome == Updated(t1.users[k].id) || outcome == Created(t1.users[k].id))
  {
    hide FindMatch, Valid, CreateTarget, SyncedName;
    var (t1, outcome) := Upsert(t, who);
    if outcome.Updated? || outcome.Created? {
      if who.subject.Some? {
        AfterUpsertWithSubject(t, who);
      } else {
        var matched := FindMatch(t.users, who);
        if matched.Some? {
          AfterMatch(t, who);
        } else if First(t.users, Named(who.username)).None? || who.strategy == Takeover {
          AfterNameTaken(t, who);
        } else {
          AfterAlias(t, who);
        }
      }
    }
  }

  lemma AfterUpsertWithSubject(t: Table, who: Identity)
    requires Valid(t) && who.subject.Some?
    ensures var (t1, outcome) := Upsert(t, who);
            outcome.Updated? || outcome.Created? ==>
              exists k :: 0 <= k < |t1.users| && FindMatch(t1.users, who) == Some(t1.users[k])
                          && (outcome == Updated(t1.users[k].id) || outcome == Created(t1.users[k].id))
  {
    hide FindMatch, Valid, CreateTarget, SyncedName;
    var (t1, outcome) := Upsert(t, who);
    UpsertKeepsValid(t, who);
    ValidParts(t);
    ValidParts(t1);
    if outcome.Created? {
      FoundBySubject(t1.users, who, |t.users|);
    } else if outcome.Updated? {
      var matched := FindMatch(t.users, who);
      var u := if matched.Some? then matched.value else CreateTarget(t.users, who).account;
      if matched.Some? {
        MatchIsAccount(t.users, who);
      } else {
        TargetIsAccount(t.users, who);
      }
      var k :| 0 <= k < |t.users| && t.users[k] == u;
      WithUserAt(t, k, Linked(u, who, if matched.Some? then SyncedName(t.users, u, who) else None));
      FoundBySubject(t1.users, who, k);
    }
  }

  lemma AfterMatch(t: Table, who: Identity)
    requires Valid(t) && who.subject.None? && who.username != "" && FindMatch(t.users, who).Some?
    ensures var (t1, outcome) := Upsert(t, who);
            exists k :: 0 <= k < |t1.users| && FindMatch(t1.users, who) == Some(t1.users[k])
                        && (outcome == Updated(t1.users[k].id) || outcome == Created(t1.users[k].id))
  {
    hide Upsert, Valid, UniqueByEmail;
    ValidParts(t);
    var byName := First(t.users, Named(who.username));
    if byName.Some? && SourceOf(byName.value) == who.source {
      var k := FirstAt(t.users, Named(who.username));
      AfterNameMatch(t, who, k);
    } else {
      forall i | 0 <= i < |t.users| && t.users[i].username == who.username
        ensures SourceOf(t.users[i]) != who.source
      {
        FirstIs(t.users, Named(who.username), i);
      }
      MatchIsAccount(t.users, who);
      var k :| 0 <= k < |t.users| && t.users[k] == FindMatch(t.users, who).value;
      AfterEmailMatch(t, who, k);
    }
  }

  function RepeatUpsert(t: Table, who: Identity, times: nat): Table
    decreases times
  {
    if times == 0 then t else RepeatUpsert(Upsert(t, who).0, who, times - 1)
  }

  function IdOf(outcome: Outcome): int
    requires outcome.Updated? || outcome.Created?
  {
    outcome.id
  }

  /**
  Once an upsert has reached an account, any number of repetitions reaches the same account and creates
  no other, whatever was renamed, re-sourced or re-mailed on the way; under takeover and alias
  always, and under suffix when the identity carries a subject.
  */
  lemma {:induction false} UpsertRepeats(t: Table, who: Identity, times: nat)
    requires Valid(t) && (who.strategy != Suffix || who.subject.Some?)
    requires var outcome := Upsert(t, who).1; outcome.Updated? || outcome.Created?
    ensures var (t1, outcome) := Upsert(t, who);
            var tn := RepeatUpsert(t1, who, times);
            && Valid(tn)
            && Upsert(tn, who).1 == Updated(IdOf(outcome))
            && |Upsert(tn, who).0.users| == |tn.users| == |t1.users|
    decreases times
  {
    hide Upsert, Valid, Selects;
    var (t1, outcome) := Upsert(t, who);
    UpsertKeepsValid(t, who);
    ReachedHasName(t, who);
    AfterUpsert(t, who);
    var k :| 0 <= k < |t1.users| && Selects(t1.users, who, t1.users[k])
             && (outcome == Updated(t1.users[k].id) || outcome == Created(t1.users[k].id));
    SelectedIsUpdated(t1, who, t1.users[k]);
    if times > 0 {
      UpsertRepeats(t1, who, times - 1);
    }
  }

  lemma ReachedHasName(t: Table, who: Identity)
    ensures Upsert(t, who).1.Updated? || Upsert(t, who).1.Created? ==> who.username != ""
  {
  }

  /** Under suffix without a subject or email link, a taken name means another account on every repetition. */
  lemma SuffixKeepsCreating(t: Table, who: Identity)
    requires Valid(t) && who.strategy == Suffix && who.subject.None? && !who.linkByEmail
    requires who.username != "" && who.allowCreate
    requires First(t.users, Named(who.username)).Some? && NotByName(t.users, who)
    ensures Upsert(t, who).1 == Created(t.nextId)
    ensures Upsert(Upsert(t, who).0, who).1 == Created(t.nextId + 1)
  {
  }

  /** An upsert that may not create and finds nothing changes nothing, so it can be repeated freely. */
  lemma NotFoundRepeats(t: Table, who: Identity)
    requires Upsert(t, who).1.NotFound? || Upsert(t, who).1.UsernameRequired?
    ensures Upsert(t, who).0 == t
  {
  }
}
