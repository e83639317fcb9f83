/**
Linking an external identity to a local account: find the account, or take one over, or alias, suffix
or create one. Usernames, emails and display names are held trimmed, and None when empty.
*/
module Linking {
  import opened Basics
  import opened Accounts
  import Decimal

  datatype Strategy = Takeover | Suffix | Alias

  /** A field the caller may leave out. */
  datatype Given = Unset | Set(value: Option<string>)

  /** `subject` is only there when the identity carries a non-empty OIDC subject. */
  datatype Identity = Identity(
    source: Source,
    username: string,
    role: Role,
    email: Given,
    displayName: Given,
    subject: Option<string>,
    linkByEmail: bool,
    syncRole: bool,
    syncUsername: bool,
    allowCreate: bool,
    strategy: Strategy,
    aliasSuffix: string)

  datatype Outcome = Updated(id: int) | Created(id: int) | NotFound | UsernameRequired

  // ----- Matching -----

  function Lower(s: string): string {
    seq(|s|, i requires 0 <= i < |s| =>
      if 'A' <= s[i] <= 'Z' then (s[i] as int + 32) as char else s[i])
  }

  function EmailKey(email: Option<string>): string {
    if email.Some? then Lower(email.value) else ""
  }

  function GivenEmail(who: Identity): Option<string> {
    if who.email.Set? then who.email.value else None
  }

  function HasEmail(key: string): User -> bool {
    (u: User) => EmailKey(u.email) == key
  }

  /** The one account with that email address, if there is exactly one. */
  function UniqueByEmail(users: seq<User>, email: Option<string>): Option<User> {
    if EmailKey(email) == "" then None
    else
      var matches := Filter(users, HasEmail(EmailKey(email)));
      if |matches| == 1 then Some(matches[0]) else None
  }

  function FindMatch(users: seq<User>, who: Identity): Option<User> {
    var bySubject := if who.subject.Some? then First(users, WithSubject(who.subject.value)) else None;
    if bySubject.Some? then bySubject
    else
      var byName := First(users, Named(who.username));
      if byName.Some? && SourceOf(byName.value) == who.source then byName
      else if who.linkByEmail then UniqueByEmail(users, GivenEmail(who))
      else None
  }

  // ----- Suffixed names -----

  /** The names tried in turn: the base name, then the base name with _1, _2 and so on. */
  function Candidate(base: string, k: nat): string {
    if k == 0 then base else base + "_" + Decimal.Text(k)
  }

  lemma CandidateInjective(base: string, j: nat, k: nat)
    requires Candidate(base, j) == Candidate(base, k)
    ensures j == k
  {
    var a, b := Candidate(base, j), Candidate(base, k);
    if j > 0 && k > 0 {
      assert Decimal.Text(j) == a[|base| + 1..] == b[|base| + 1..] == Decimal.Text(k);
      Decimal.TextInjective(j, k);
    } else {
      assert |a| == |base| <==> j == 0;
      assert |b| == |base| <==> k == 0;
    }
  }

  lemma CandidateText(base: string, k: nat)
    ensures Candidate(base, k) == if k == 0 then base else base + "_" + Decimal.Text(k)
  {
  }

  /** Nobody has the name, or the excluded account has it. */
  predicate Available(users: seq<User>, name: string, exclude: Option<int>) {
    var owner := First(users, Named(name));
    owner.None? || (exclude.Some? && owner.value.id == exclude.value)
  }

  /** Distinct names cannot outnumber the accounts that hold them. */
  lemma TakenNamesAreFew(users: seq<User>, base: string, exclude: Option<int>, k: nat)
    requires forall j :: 0 <= j < k ==> !Available(users, Candidate(base, j), exclude)
    ensures k <= |users|
  {
    var tried := seq(k, j requires 0 <= j < k => Candidate(base, j));
    forall i, j | 0 <= i < j < k ensures tried[i] != tried[j] {
      if tried[i] == tried[j] {
        CandidateInjective(base, i, j);
      }
    }
    DistinctSize(tried);
    var names := set u | u in users :: u.username;
    forall name | name in tried ensures name in names {
      var j :| 0 <= j < k && tried[j] == name;
      assert !Available(users, Candidate(base, j), exclude);
    }
    assert (set x | x in tried) <= names;
    SubsetSize((set x | x in tried), names);
    NamesAreFew(users);
  }

  lemma {:induction false} NamesAreFew(users: seq<User>)
    ensures |(set u | u in users :: u.username)| <= |users|
  {
    var names := set u | u in users :: u.username;
    if users == [] {
      assert names == {};
    } else {
      NamesAreFew(users[1..]);
      assert users == [users[0]] + users[1..];
      assert names == {users[0].username} + (set u | u in users[1..] :: u.username);
    }
  }

  /** How many suffixes are tried before a name is available, counting on from `k`. */
  function SuffixIndex(users: seq<User>, base: string, exclude: Option<int>, k: nat): (n: nat)
    requires forall j :: 0 <= j < k ==> !Available(users, Candidate(base, j), exclude)
    ensures Available(users, Candidate(base, n), exclude)
    ensures forall j :: 0 <= j < n ==> !Available(users, Candidate(base, j), exclude)
    decreases |users| + 1 - k
  {
    TakenNamesAreFew(users, base, exclude, k);
    if Available(users, Candidate(base, k), exclude) then k
    else SuffixIndex(users, base, exclude, k + 1)
  }

  function NextSuffix(users: seq<User>, base: string, exclude: Option<int>): string {
    Candidate(base, SuffixIndex(users, base, exclude, 0))
  }

  /** The search as the program writes it. It always ends, with the first name that is available. */
  method NextSuffixUsername(users: seq<User>, base: string, exclude: Option<int>) returns (candidate: string)
    ensures candidate == NextSuffix(users, base, exclude)
    ensures exists k :: 0 <= k <= |users| && candidate == Candidate(base, k)
              && Available(users, candidate, exclude)
              && forall j :: 0 <= j < k ==> !Available(users, Candidate(base, j), exclude)
  {
    hide Candidate;
    CandidateText(base, 0);
    candidate := base;
    var suffix := 1;
    ghost var k := 0;
    while true
      invariant candidate == Candidate(base, k) && suffix == k + 1
      invariant forall j :: 0 <= j < k ==> !Available(users, Candidate(base, j), exclude)
      invariant NextSuffix(users, base, exclude) == Candidate(base, SuffixIndex(users, base, exclude, k))
      decreases |users| + 1 - k
    {
      TakenNamesAreFew(users, base, exclude, k);
      var existing := First(users, Named(candidate));
      if existing.None? {
        return;
      }
      if exclude.Some? && existing.value.id == exclude.value {
        return;
      }
      CandidateText(base, suffix);
      candidate := base + "_" + Decimal.Text(suffix);
      suffix := suffix + 1;
      k := k + 1;
    }
  }

  // ----- Names for aliases -----

  predicate AllDigits(s: string) {
    s != "" && forall i :: 0 <= i < |s| ==> Decimal.IsDigit(s[i])
  }

  predicate IsAliasName(base: string, name: string) {
    base <= name
    && (name == base || (name[|base|] == '_' && AllDigits(name[|base| + 1..])))
  }

  /** The alias pattern; its end also matches before one final line break. */
  predicate MatchesAlias(base: string, name: string) {
    IsAliasName(base, name)
    || (name != "" && name[|name| - 1] == '\n' && IsAliasName(base, name[..|name| - 1]))
  }

  function IsAliasOf(base: string, source: Source): User -> bool {
    (u: User) => MatchesAlias(base, u.username) && SourceOf(u) == source
  }

  // ----- The name and account to use -----

  function NameAfterUpdate(users: seq<User>, current: User, who: Identity): string {
    var existing := First(users, Named(who.username));
    if existing.None? || existing.value.id == current.id then who.username
    else match who.strategy
      case Suffix => NextSuffix(users, who.username, Some(current.id))
      case Alias => NextSuffix(users, who.username + who.aliasSuffix, Some(current.id))
      case Takeover => current.username
  }

  datatype Target = Use(account: User) | New(username: string)

  /** The lowest id comes first in the table, so the first alias is the one the program picks. */
  function CreateTarget(users: seq<User>, who: Identity): Target {
    var existing := First(users, Named(who.username));
    if existing.None? then New(who.username)
    else match who.strategy
      case Takeover => Use(existing.value)
      case Suffix => New(NextSuffix(users, who.username, None))
      case Alias =>
        var base := who.username + who.aliasSuffix;
        var alias := First(users, IsAliasOf(base, who.source));
        if alias.Some? then Use(alias.value) else New(NextSuffix(users, base, None))
  }

  /** The account after the update; `name` is given only when the username is synced. */
  function Linked(u: User, who: Identity, name: Option<string>): User {
    User(u.id,
         if name.Some? then name.value else u.username,
         if who.email.Set? then who.email.value else u.email,
         if who.displayName.Set? then who.displayName.value else u.displayName,
         Some(who.source),
         if who.subject.Some? then who.subject else u.subject,
         if who.syncRole then who.role else u.role)
  }

  function NewAccount(who: Identity, name: string): User {
    User(0, name, GivenEmail(who), if who.displayName.Set? then who.displayName.value else None,
         Some(who.source), who.subject, who.role)
  }

  /** Syncing applies to a matched account that already has the identity's source. */
  function SyncedName(users: seq<User>, matched: User, who: Identity): Option<string> {
    if who.syncUsername && SourceOf(matched) == who.source then Some(NameAfterUpdate(users, matched, who)) else None
  }

  function Upsert(t: Table, who: Identity): (Table, Outcome) {
    if who.username == "" then (t, UsernameRequired)
    else
      var matched := FindMatch(t.users, who);
      if matched.Some? then
        (WithUser(t, Linked(matched.value, who, SyncedName(t.users, matched.value, who))), Updated(matched.value.id))
      else if !who.allowCreate then (t, NotFound)
      else match CreateTarget(t.users, who)
        case Use(u) => (WithUser(t, Linked(u, who, None)), Updated(u.id))
        case New(name) => (WithNewUser(t, NewAccount(who, name)), Created(t.nextId))
  }

  /** No write of it ever breaks a constraint of the table. */
  method UpsertExternalUser(db: UserDb, who: Identity) returns (outcome: Outcome)
    requires db.Ok()
    modifies db
    ensures db.Ok()
    ensures (db.table, outcome) == Upsert(old(db.table), who)
    ensures Writes(old(db.table), who, db.table, outcome) && Reaches(old(db.table), who, db.table, outcome)
  {
    hide Valid, Linked, NewAccount, FindMatch, CreateTarget, SyncedName, Writes, Reaches;
    UpsertWrites(db.table, who);
    UpsertFinds(db.table, who);
    if who.username == "" {
      return UsernameRequired;
    }
    UpsertKeepsValid(db.table, who);
    var matched := FindMatch(db.table.users, who);
    if matched.Some? {
      MatchIsAccount(db.table.users, who);
      var name: Option<string> := None;
      if who.syncUsername && SourceOf(matched.value) == who.source {
        var newName := ResolveUpdateUsername(db.table.users, matched.value, who);
        name := Some(newName);
      }
      SyncedNameIs(db.table.users, matched.value, who, name);
      LinkedKeepsId(matched.value, who, name);
      AccountIsThere(db.table.users, matched.value);
      var ok := db.Update(Linked(matched.value, who, name));
      assert ok;
      return Updated(matched.value.id);
    }
    if !who.allowCreate {
      return NotFound;
    }
    var target := ResolveCreateUsername(db.table.users, who);
    match target {
      case Use(u) =>
        TargetIsAccount(db.table.users, who);
        LinkedKeepsId(u, who, None);
        AccountIsThere(db.table.users, u);
        var ok := db.Update(Linked(u, who, None));
        assert ok;
        return Updated(u.id);
      case New(name) =>
        var id := db.Create(NewAccount(who, name));
        return Created(id.value);
    }
  }

  method ResolveUpdateUsername(users: seq<User>, current: User, who: Identity) returns (name: string)
    ensures name == NameAfterUpdate(users, current, who)
  {
    var existing := First(users, Named(who.username));
    if existing.None? || existing.value.id == current.id {
      return who.username;
    }
    if who.strategy == Suffix {
      name := NextSuffixUsername(users, who.username, Some(current.id));
    } else if who.strategy == Alias {
      name := NextSuffixUsername(users, who.username + who.aliasSuffix, Some(current.id));
    } else {
      name := current.username;
    }
  }

  method ResolveCreateUsername(users: seq<User>, who: Identity) returns (target: Target)
    ensures target == CreateTarget(users, who)
  {
    var existing := First(users, Named(who.username));
    if existing.None? {
      return New(who.username);
    }
    if who.strategy == Takeover {
      return Use(existing.value);
    }
    if who.strategy == Suffix {
      var name := NextSuffixUsername(users, who.username, None);
      return New(name);
    }
    var base := who.username + who.aliasSuffix;
    var alias := First(users, IsAliasOf(base, who.source));
    if alias.Some? {
      return Use(alias.value);
    }
    var name := NextSuffixUsername(users, base, None);
    target := New(name);
  }

  lemma SyncedNameIs(users: seq<User>, matched: User, who: Identity, name: Option<string>)
    requires name == if who.syncUsername && SourceOf(matched) == who.source
                     then Some(NameAfterUpdate(users, matched, who)) else None
    ensures name == SyncedName(users, matched, who)
  {
  }

  lemma LinkedKeepsId(u: User, who: Identity, name: Option<string>)
    ensures Linked(u, who, name).id == u.id
  {
  }

  lemma AccountIsThere(users: seq<User>, u: User)
    requires u in users
    ensures First(users, WithId(u.id)).Some?
  {
  }

  lemma MatchIsAccount(users: seq<User>, who: Identity)
    requires FindMatch(users, who).Some?
    ensures FindMatch(users, who).value in users
  {
    FilterMembers(users, HasEmail(EmailKey(GivenEmail(who))));
  }

  lemma TargetIsAccount(users: seq<User>, who: Identity)
    requires CreateTarget(users, who).Use?
    ensures CreateTarget(users, who).account in users
  {
  }

  // ----- Every upsert keeps usernames and subjects unique -----

  lemma NobodyNamed(users: seq<User>, name: string)
    requires Available(users, name, None)
    ensures forall i :: 0 <= i < |users| ==> users[i].username != name
  {
    forall i | 0 <= i < |users| ensures users[i].username != name {
      assert users[i] in users;
      assert !Named(name)(users[i]);
    }
  }

  lemma NobodyElseNamed(users: seq<User>, name: string, k: nat)
    requires UniqueNames(users) && k < |users|
    requires Available(users, name, Some(users[k].id))
    requires forall i :: 0 <= i < |users| && i != k ==> users[i].id != users[k].id
    ensures forall i :: 0 <= i < |users| && i != k ==> users[i].username != name
  {
    var owner := First(users, Named(name));
    if owner.None? {
      NobodyNamed(users, name);
    } else {
      var j := FirstAt(users, Named(name));
      assert j == k;
      assert users[k].username == name;
    }
  }

  /** The name given to a matched account is nobody else's. */
  lemma UpdatedNameIsFree(t: Table, k: nat, who: Identity)
    requires Valid(t) && k < |t.users|
    ensures var name := NameAfterUpdate(t.users, t.users[k], who);
            forall i :: 0 <= i < |t.users| && i != k ==> t.users[i].username != name
  {
    var u := t.users[k];
    var name := NameAfterUpdate(t.users, u, who);
    if name != u.username {
      NobodyElseNamed(t.users, name, k);
    }
  }

  lemma SubjectIsFree(users: seq<User>, subject: string)
    requires First(users, WithSubject(subject)).None?
    ensures forall i :: 0 <= i < |users| ==> users[i].subject != Some(subject)
  {
    forall i | 0 <= i < |users| ensures users[i].subject != Some(subject) {
      assert users[i] in users;
      assert !WithSubject(subject)(users[i]);
    }
  }

  /** The subject is nobody's, or it is the matched account's. */
  lemma SubjectFits(t: Table, k: nat, who: Identity)
    requires Valid(t) && k < |t.users|
    requires var m := FindMatch(t.users, who); m.Some? ==> m.value == t.users[k]
    ensures var u := Linked(t.users[k], who, None);
            u.subject.Some? ==> forall i :: 0 <= i < |t.users| && i != k ==> t.users[i].subject != u.subject
  {
    if who.subject.Some? {
      var bySubject := First(t.users, WithSubject(who.subject.value));
      if bySubject.None? {
        SubjectIsFree(t.users, who.subject.value);
      }
    }
  }

  lemma UpsertKeepsValid(t: Table, who: Identity)
    requires Valid(t)
    ensures Valid(Upsert(t, who).0)
  {
    hide FindMatch, NameAfterUpdate, UniqueNames, UniqueSubjects;
    var matched := FindMatch(t.users, who);
    if who.username == "" {
    } else if matched.Some? {
      MatchIsAccount(t.users, who);
      var k :| 0 <= k < |t.users| && t.users[k] == matched.value;
      LinkKeepsValid(t, k, who, SyncedName(t.users, matched.value, who));
    } else if who.allowCreate {
      var target := CreateTarget(t.users, who);
      if target.Use? {
        TargetIsAccount(t.users, who);
        var k :| 0 <= k < |t.users| && t.users[k] == target.account;
        LinkKeepsValid(t, k, who, None);
      } else {
        NewNameIsFree(t.users, who);
        NobodyNamed(t.users, target.username);
        NoMatchNoSubject(t.users, who);
        AddKeepsValid(t, NewAccount(who, target.username));
      }
    }
  }

  lemma NoMatchNoSubject(users: seq<User>, who: Identity)
    requires FindMatch(users, who).None?
    ensures who.subject.Some? ==> forall i :: 0 <= i < |users| ==> users[i].subject != who.subject
  {
    if who.subject.Some? {
      SubjectIsFree(users, who.subject.value);
    }
  }

  lemma NewNameIsFree(users: seq<User>, who: Identity)
    requires CreateTarget(users, who).New?
    ensures Available(users, CreateTarget(users, who).username, None)
  {
  }

  lemma LinkKeepsValid(t: Table, k: nat, who: Identity, name: Option<string>)
    requires Valid(t) && k < |t.users|
    requires var m := FindMatch(t.users, who); m.Some? ==> m.value == t.users[k]
    requires name.Some? ==> name.value == NameAfterUpdate(t.users, t.users[k], who)
    ensures Valid(WithUser(t, Linked(t.users[k], who, name)))
    ensures WithUser(t, Linked(t.users[k], who, name))
         == t.(users := t.users[k := Linked(t.users[k], who, name)])
  {
    hide FindMatch, NameAfterUpdate;
    SubjectFits(t, k, who);
    UpdatedNameIsFree(t, k, who);
    var u := Linked(t.users[k], who, name);
    assert u.subject == Linked(t.users[k], who, None).subject;
    assert name.None? ==> u.username == t.users[k].username;
    RewriteKeepsValid(t, k, u);
  }

  // ----- What an upsert writes, and where, in the fields of the rows -----

  /** The source a row counts under; an unknown one with a subject is OIDC, without one built in. */
  predicate HasSource(u: User, source: Source) {
    if u.stored.Some? then u.stored.value == source
    else source == if u.subject.Some? && u.subject.value != "" then Oidc else Builtin
  }

  ghost predicate Taken(users: seq<User>, name: string) {
    exists u :: u in users && u.username == name
  }

  /** `name` is the base name or the base name with a number, and it is the first that nobody but `but` has. */
  ghost predicate FirstFree(users: seq<User>, base: string, but: Option<int>, name: string) {
    exists n: nat :: name == Numbered(base, n) && FreeFor(users, Numbered(base, n), but)
      && forall m: nat :: m < n ==> !FreeFor(users, Numbered(base, m), but)
  }

  function Numbered(base: string, n: nat): string {
    if n == 0 then base else base + "_" + Decimal.Text(n)
  }

  ghost predicate FreeFor(users: seq<User>, name: string, but: Option<int>) {
    forall u :: u in users && u.username == name ==> but == Some(u.id)
  }

  /** The username of a row after the update: its own, unless names are synced and the source was the same. */
  ghost predicate NameAfter(users: seq<User>, was: User, who: Identity, name: string) {
    if !who.syncUsername || !HasSource(was, who.source) then name == was.username
    else if FreeFor(users, who.username, Some(was.id)) then name == who.username
    else match who.strategy
      case Takeover => name == was.username
      case Suffix => FirstFree(users, who.username, Some(was.id), name)
      case Alias => FirstFree(users, who.username + who.aliasSuffix, Some(was.id), name)
  }

  /** What is asked to be written is written; what is left out stays. */
  ghost predicate Rewritten(who: Identity, was: User, now: User) {
    && now.id == was.id
    && now.role == (if who.syncRole then who.role else was.role)
    && now.email == (match who.email case Set(email) => email case Unset => was.email)
    && now.displayName == (match who.displayName case Set(name) => name case Unset => was.displayName)
    && now.subject == (if who.subject.Some? then who.subject else was.subject)
    && now.stored == Some(who.source)
  }

  ghost predicate NewRow(who: Identity, now: User) {
    && now.role == who.role && now.stored == Some(who.source) && now.subject == who.subject
    && now.email == (match who.email case Set(email) => email case Unset => None)
    && now.displayName == (match who.displayName case Set(name) => name case Unset => None)
  }

  /** One row is rewritten, or one is added, or nothing happens; all others stay as they are. */
  ghost predicate Writes(t: Table, who: Identity, t1: Table, outcome: Outcome) {
    match outcome
    case Updated(id) =>
      exists k :: 0 <= k < |t.users| && t.users[k].id == id && t1.nextId == t.nextId && |t1.users| == |t.users|
        && Rewritten(who, t.users[k], t1.users[k])
        && (NameAfter(t.users, t.users[k], who, t1.users[k].username) || t1.users[k].username == t.users[k].username)
        && forall i :: 0 <= i < |t.users| && i != k ==> t1.users[i] == t.users[i]
    case Created(id) =>
      && id == t.nextId && t1.nextId == t.nextId + 1 && |t1.users| == |t.users| + 1
      && t1.users[..|t.users|] == t.users
      && t1.users[|t.users|].id == id && NewRow(who, t1.users[|t.users|])
    case _ => t1 == t
  }

  predicate SameEmail(u: User, email: Option<string>) {
    email.Some? && u.email.Some? && email.value != "" && SameButCase(u.email.value, email.value)
  }

  /** Letter by letter the same, small or large. */
  predicate SameButCase(a: string, b: string) {
    |a| == |b| && forall i :: 0 <= i < |a| ==> a[i] == b[i] || TwoCases(a[i], b[i]) || TwoCases(b[i], a[i])
  }

  predicate TwoCases(large: char, small: char) {
    'A' <= large <= 'Z' && small as int - 'a' as int == large as int - 'A' as int
  }

  /** The base name, or the base name with digits after an underscore, and perhaps one final line break. */
  ghost predicate AliasName(base: string, name: string) {
    exists digits, end :: Spelled(base, digits, end, name)
  }

  predicate Spelled(base: string, digits: string, end: string, name: string) {
    && (end == "" || end == "\n") && (forall i :: 0 <= i < |digits| ==> '0' <= digits[i] <= '9')
    && name == (if digits == "" then base else base + "_" + digits) + end
  }

  ghost predicate HeldBySubject(users: seq<User>, who: Identity) {
    who.subject.Some? && exists u :: u in users && u.subject == who.subject
  }

  ghost predicate HeldByName(users: seq<User>, who: Identity) {
    exists u :: u in users && u.username == who.username && HasSource(u, who.source)
  }

  ghost predicate IsAlias(u: User, who: Identity) {
    AliasName(who.username + who.aliasSuffix, u.username) && HasSource(u, who.source)
  }

  /**
  Whom the identity reaches: the row with its subject, else the row of its name and source, else, if that is
  allowed, the one row with its email address; then that row's name is what syncing asks for. Without any, if
  rows may be created, the free name is taken; a name that is not free is taken over, or suffixed, or the
  lowest alias of the source is used or a first one created.
  */
  ghost predicate Reaches(t: Table, who: Identity, t1: Table, outcome: Outcome) {
    if who.username == "" then outcome == UsernameRequired
    else if HeldBySubject(t.users, who) || HeldByName(t.users, who) || (exists k :: OneWithEmail(t.users, who, k)) then
      exists k :: 0 <= k < |t.users| && RightMatch(t.users, who, k) && Matches(t, who, t1, outcome, k)
    else if !who.allowCreate then outcome == NotFound
    else NewOrShared(t, who, t1, outcome)
  }

  ghost predicate NewOrShared(t: Table, who: Identity, t1: Table, outcome: Outcome) {
    if !Taken(t.users, who.username) then CreatedAs(t, t1, outcome, who.username)
    else match who.strategy
      case Takeover =>
        exists k :: 0 <= k < |t.users| && t.users[k].username == who.username && Kept(t, t1, outcome, k)
      case Suffix => CreatedFirst(t, t1, outcome, who.username)
      case Alias =>
        if exists u :: u in t.users && IsAlias(u, who) then
          exists k :: 0 <= k < |t.users| && IsAlias(t.users[k], who)
            && (forall u :: u in t.users && IsAlias(u, who) ==> t.users[k].id <= u.id)
            && Kept(t, t1, outcome, k)
        else CreatedFirst(t, t1, outcome, who.username + who.aliasSuffix)
  }

  /** The subject decides before name and source, and those before the address. */
  ghost predicate RightMatch(users: seq<User>, who: Identity, k: nat)
    requires k < |users|
  {
    if HeldBySubject(users, who) then users[k].subject == who.subject
    else if HeldByName(users, who) then users[k].username == who.username && HasSource(users[k], who.source)
    else OneWithEmail(users, who, k)
  }

  ghost predicate CreatedFirst(t: Table, t1: Table, outcome: Outcome, base: string) {
    outcome.Created? && |t1.users| > |t.users| && FirstFree(t.users, base, None, t1.users[|t.users|].username)
  }

  ghost predicate Matches(t: Table, who: Identity, t1: Table, outcome: Outcome, k: nat)
    requires k < |t.users|
  {
    outcome == Updated(t.users[k].id) && k < |t1.users| && NameAfter(t.users, t.users[k], who, t1.users[k].username)
  }

  ghost predicate Kept(t: Table, t1: Table, outcome: Outcome, k: nat)
    requires k < |t.users|
  {
    outcome == Updated(t.users[k].id) && k < |t1.users| && t1.users[k].username == t.users[k].username
  }

  ghost predicate CreatedAs(t: Table, t1: Table, outcome: Outcome, name: string) {
    outcome.Created? && |t1.users| > |t.users| && t1.users[|t.users|].username == name
  }

  ghost predicate OneWithEmail(users: seq<User>, who: Identity, k: nat) {
    && who.linkByEmail && who.email.Set? && k < |users| && SameEmail(users[k], who.email.value)
    && forall i :: 0 <= i < |users| && i != k ==> !SameEmail(users[i], who.email.value)
  }

  lemma SourceMeans(u: User, source: Source)
    ensures HasSource(u, source) <==> SourceOf(u) == source
  {
  }

  lemma AvailableMeans(users: seq<User>, name: string, but: Option<int>)
    requires UniqueNames(users)
    ensures Available(users, name, but) <==> FreeFor(users, name, but)
  {
    var owner := First(users, Named(name));
    if owner.Some? {
      forall u | u in users && u.username == name ensures u == owner.value {
        var i :| 0 <= i < |users| && users[i] == u;
        var j :| 0 <= j < |users| && users[j] == owner.value;
        assert i == j;
      }
    } else {
      forall u | u in users ensures u.username != name {
        assert !Named(name)(u);
      }
    }
  }

  lemma NextSuffixIsFirstFree(users: seq<User>, base: string, but: Option<int>)
    requires UniqueNames(users)
    ensures FirstFree(users, base, but, NextSuffix(users, base, but))
  {
    hide Available, FreeFor, UniqueNames;
    var n := SuffixIndex(users, base, but, 0);
    forall m: nat | m <= n
      ensures Candidate(base, m) == Numbered(base, m)
      ensures Available(users, Numbered(base, m), but) <==> FreeFor(users, Numbered(base, m), but)
    {
      AvailableMeans(users, Numbered(base, m), but);
    }
    assert NextSuffix(users, base, but) == Numbered(base, n);
  }

  lemma NameMeans(t: Table, k: nat, who: Identity)
    requires Valid(t) && k < |t.users|
    ensures var name := SyncedName(t.users, t.users[k], who);
            NameAfter(t.users, t.users[k], who, if name.Some? then name.value else t.users[k].username)
  {
    hide Valid, NextSuffix, FirstFree, SourceOf, HasSource;
    NamesAreUnique(t);
    var was := t.users[k];
    SourceMeans(was, who.source);
    AvailableMeans(t.users, who.username, Some(was.id));
    NextSuffixIsFirstFree(t.users, who.username, Some(was.id));
    NextSuffixIsFirstFree(t.users, who.username + who.aliasSuffix, Some(was.id));
  }

  lemma NamesAreUnique(t: Table)
    requires Valid(t)
    ensures UniqueNames(t.users) && IdsAscend(t)
  {
  }

  /** The row an update leaves at its place. */
  lemma LinkedAt(t: Table, k: nat, who: Identity, name: Option<string>)
    requires Valid(t) && k < |t.users|
    ensures var t1 := WithUser(t, Linked(t.users[k], who, name));
            && t1.nextId == t.nextId && |t1.users| == |t.users|
            && Rewritten(who, t.users[k], t1.users[k])
            && t1.users[k].username == (if name.Some? then name.value else t.users[k].username)
            && forall i :: 0 <= i < |t.users| && i != k ==> t1.users[i] == t.users[i]
  {
    hide Valid;
    NamesAreUnique(t);
    WithUserAt(t, k, Linked(t.users[k], who, name));
  }

  lemma UpsertWrites(t: Table, who: Identity)
    requires Valid(t)
    ensures Writes(t, who, Upsert(t, who).0, Upsert(t, who).1)
  {
    hide Valid, FindMatch, CreateTarget, SyncedName, NameAfter, Linked, Rewritten;
    var matched := FindMatch(t.users, who);
    if who.username == "" {
    } else if matched.Some? {
      MatchIsAccount(t.users, who);
      var k :| 0 <= k < |t.users| && t.users[k] == matched.value;
      LinkedAt(t, k, who, SyncedName(t.users, matched.value, who));
      NameMeans(t, k, who);
      IdOfLinked(t.users[k], who, SyncedName(t.users, matched.value, who));
    } else if who.allowCreate {
      var target := CreateTarget(t.users, who);
      if target.Use? {
        TargetIsAccount(t.users, who);
        var k :| 0 <= k < |t.users| && t.users[k] == target.account;
        LinkedAt(t, k, who, None);
      }
    }
  }

  lemma IdOfLinked(u: User, who: Identity, name: Option<string>)
    ensures Linked(u, who, name).id == u.id
  {
  }

  lemma EmailMeans(users: seq<User>, who: Identity, k: nat)
    requires who.linkByEmail && k < |users|
    ensures OneWithEmail(users, who, k) <==>
            UniqueByEmail(users, GivenEmail(who)) == Some(users[k]) && HoldsAlone(users, who, k)
  {
    var key := EmailKey(GivenEmail(who));
    forall i | 0 <= i < |users|
      ensures SameEmail(users[i], GivenEmail(who)) <==> key != "" && EmailKey(users[i].email) == key
    {
      SameEmailMeans(users[i], GivenEmail(who));
    }
    if key != "" && EmailKey(users[k].email) == key {
      FilterOnly(users, HasEmail(key), k);
    } else if UniqueByEmail(users, GivenEmail(who)) == Some(users[k]) {
      FilterMember(users, HasEmail(key), users[k]);
    }
  }

  lemma SameEmailMeans(u: User, email: Option<string>)
    ensures SameEmail(u, email) <==> EmailKey(email) != "" && EmailKey(u.email) == EmailKey(email)
  {
    if email.Some? && u.email.Some? {
      LowerMeans(u.email.value, email.value);
    }
  }

  lemma LowerMeans(a: string, b: string)
    ensures Lower(a) == Lower(b) <==> SameButCase(a, b)
  {
    if Lower(a) == Lower(b) {
      forall i | 0 <= i < |a| ensures a[i] == b[i] || TwoCases(a[i], b[i]) || TwoCases(b[i], a[i]) {
        assert Lower(a)[i] == Lower(b)[i];
      }
    }
  }

  /** Nobody else has the address. */
  ghost predicate HoldsAlone(users: seq<User>, who: Identity, k: nat) {
    forall i :: 0 <= i < |users| && i != k ==> EmailKey(users[i].email) != EmailKey(GivenEmail(who))
  }

  lemma UniqueIsAlone(users: seq<User>, who: Identity) returns (k: nat)
    requires UniqueByEmail(users, GivenEmail(who)).Some?
    ensures k < |users| && UniqueByEmail(users, GivenEmail(who)) == Some(users[k]) && HoldsAlone(users, who, k)
  {
    var test := HasEmail(EmailKey(GivenEmail(who)));
    var m := Filter(users, test)[0];
    FilterMember(users, test, m);
    k :| 0 <= k < |users| && users[k] == m;
    FilterOnly(users, test, k);
  }

  lemma MatchFinds(users: seq<User>, who: Identity)
    requires UniqueNames(users)
    ensures FindMatch(users, who).Some? <==>
      HeldBySubject(users, who) || HeldByName(users, who) || exists k :: OneWithEmail(users, who, k)
    ensures FindMatch(users, who).Some? ==>
      exists k :: 0 <= k < |users| && users[k] == FindMatch(users, who).value && RightMatch(users, who, k)
  {
    hide UniqueByEmail, OneWithEmail, HoldsAlone, HasSource, SourceOf;
    SubjectMeans(users, who);
    NameHeldMeans(users, who);
    MatchIsThere(users, who);
    if who.linkByEmail {
      forall k | 0 <= k < |users|
        ensures OneWithEmail(users, who, k) <==>
                UniqueByEmail(users, GivenEmail(who)) == Some(users[k]) && HoldsAlone(users, who, k)
      {
        EmailMeans(users, who, k);
      }
      if UniqueByEmail(users, GivenEmail(who)).Some? {
        var k := UniqueIsAlone(users, who);
        assert OneWithEmail(users, who, k);
      }
    }
    OnlyListed(users, who);
  }

  lemma OnlyListed(users: seq<User>, who: Identity)
    ensures forall k: nat :: OneWithEmail(users, who, k) ==> k < |users| && who.linkByEmail
  {
  }

  lemma MatchIsThere(users: seq<User>, who: Identity)
    ensures FindMatch(users, who).Some? ==>
      exists k :: 0 <= k < |users| && users[k] == FindMatch(users, who).value
  {
    if FindMatch(users, who).Some? {
      MatchIsAccount(users, who);
    }
  }

  lemma SubjectMeans(users: seq<User>, who: Identity)
    ensures HeldBySubject(users, who) <==> who.subject.Some? && First(users, WithSubject(who.subject.value)).Some?
  {
    if who.subject.Some? && First(users, WithSubject(who.subject.value)).None? {
      forall u | u in users ensures u.subject != who.subject {
        assert !WithSubject(who.subject.value)(u);
      }
    }
  }

  lemma NameHeldMeans(users: seq<User>, who: Identity)
    requires UniqueNames(users)
    ensures var byName := First(users, Named(who.username));
            && (HeldByName(users, who) <==> byName.Some? && SourceOf(byName.value) == who.source)
            && (byName.Some? ==> (HasSource(byName.value, who.source) <==> SourceOf(byName.value) == who.source))
            && (byName.Some? <==> Taken(users, who.username))
  {
    hide SourceOf, HasSource;
    var byName := First(users, Named(who.username));
    if byName.Some? {
      SourceMeans(byName.value, who.source);
      forall u | u in users && u.username == who.username ensures u == byName.value {
        var i :| 0 <= i < |users| && users[i] == u;
        var j :| 0 <= j < |users| && users[j] == byName.value;
        assert i == j;
      }
    } else {
      forall u | u in users ensures u.username != who.username {
        assert !Named(who.username)(u);
      }
    }
  }

  lemma AliasMeans(base: string, name: string)
    ensures MatchesAlias(base, name) <==> AliasName(base, name)
  {
    if IsAliasName(base, name) {
      AliasSpelled(base, name, "");
      assert name + "" == name;
    }
    if name != "" && name[|name| - 1] == '\n' && IsAliasName(base, name[..|name| - 1]) {
      AliasSpelled(base, name[..|name| - 1], "\n");
      assert name[..|name| - 1] + "\n" == name;
    }
    if AliasName(base, name) {
      var digits, end :| Spelled(base, digits, end, name);
      SpelledMatches(base, digits, end, name);
    }
  }

  lemma AliasSpelled(base: string, name: string, end: string)
    requires IsAliasName(base, name) && (end == "" || end == "\n")
    ensures AliasName(base, name + end)
  {
    var digits := if name == base then "" else name[|base| + 1..];
    assert name == base || name == base + "_" + digits;
    assert Spelled(base, digits, end, name + end);
  }

  lemma SpelledMatches(base: string, digits: string, end: string, name: string)
    requires Spelled(base, digits, end, name)
    ensures MatchesAlias(base, name)
  {
    var front := if digits == "" then base else base + "_" + digits;
    assert digits != "" ==> front[|base|] == '_' && front[|base| + 1..] == digits;
    assert IsAliasName(base, front);
    assert name == front + end;
    if end != "" {
      assert name[..|name| - 1] == front;
    } else {
      assert name == front;
    }
  }

  lemma AliasTestMeans(u: User, who: Identity)
    ensures IsAliasOf(who.username + who.aliasSuffix, who.source)(u) <==> IsAlias(u, who)
  {
    AliasMeans(who.username + who.aliasSuffix, u.username);
    SourceMeans(u, who.source);
  }

  lemma UpsertFinds(t: Table, who: Identity)
    requires Valid(t)
    ensures Reaches(t, who, Upsert(t, who).0, Upsert(t, who).1)
  {
    hide Valid, FindMatch, CreateTarget, SyncedName, NameAfter, Linked, RightMatch;
    hide OneWithEmail, HeldByName, HeldBySubject;
    NamesAreUnique(t);
    MatchFinds(t.users, who);
    if FindMatch(t.users, who).Some? {
      var k :| 0 <= k < |t.users| && t.users[k] == FindMatch(t.users, who).value && RightMatch(t.users, who, k);
      LinkedAt(t, k, who, SyncedName(t.users, t.users[k], who));
      NameMeans(t, k, who);
    } else if who.username != "" && who.allowCreate {
      CreationFinds(t, who);
    }
  }

  lemma CreationFinds(t: Table, who: Identity)
    requires Valid(t) && who.username != "" && who.allowCreate && FindMatch(t.users, who).None?
    requires !(HeldBySubject(t.users, who) || HeldByName(t.users, who) || exists k :: OneWithEmail(t.users, who, k))
    ensures Reaches(t, who, Upsert(t, who).0, Upsert(t, who).1)
  {
    hide Valid, FindMatch, CreateTarget, Linked, OneWithEmail, HeldByName, HeldBySubject, NewOrShared, RightMatch;
    match CreateTarget(t.users, who) {
      case Use(u) => SharedFinds(t, who, u);
      case New(name) => NewFinds(t, who, name);
    }
  }

  lemma SharedFinds(t: Table, who: Identity, u: User)
    requires Valid(t) && CreateTarget(t.users, who) == Use(u)
    ensures NewOrShared(t, who, WithUser(t, Linked(u, who, None)), Updated(u.id))
  {
    hide Valid, Linked, WithUser, FirstFree, NextSuffix, IsAlias, MatchesAlias, HeldByName, HasSource, SourceOf;
    NamesAreUnique(t);
    NameHeldMeans(t.users, who);
    LowestAlias(t, who);
    TargetIsAccount(t.users, who);
    var k :| 0 <= k < |t.users| && t.users[k] == u;
    LinkedAt(t, k, who, None);
    assert Kept(t, WithUser(t, Linked(u, who, None)), Updated(u.id), k);
  }

  lemma NewFinds(t: Table, who: Identity, name: string)
    requires Valid(t) && CreateTarget(t.users, who) == New(name)
    ensures NewOrShared(t, who, WithNewUser(t, NewAccount(who, name)), Created(t.nextId))
  {
    hide Valid, FirstFree, NextSuffix, IsAlias, MatchesAlias, HeldByName, HasSource, SourceOf;
    NamesAreUnique(t);
    NameHeldMeans(t.users, who);
    LowestAlias(t, who);
    NextSuffixIsFirstFree(t.users, who.username, None);
    NextSuffixIsFirstFree(t.users, who.username + who.aliasSuffix, None);
  }

  lemma LowestAlias(t: Table, who: Identity)
    requires Valid(t)
    ensures var alias := First(t.users, IsAliasOf(who.username + who.aliasSuffix, who.source));
            && (alias.Some? <==> exists u :: u in t.users && IsAlias(u, who))
            && (alias.Some? ==> IsAlias(alias.value, who))
            && (alias.Some? ==> forall u :: u in t.users && IsAlias(u, who) ==> alias.value.id <= u.id)
  {
    hide Valid, MatchesAlias, IsAlias;
    NamesAreUnique(t);
    var test := IsAliasOf(who.username + who.aliasSuffix, who.source);
    forall u | u in t.users ensures test(u) <==> IsAlias(u, who) {
      AliasTestMeans(u, who);
    }
    if First(t.users, test).Some? {
      var k := FirstAt(t.users, test);
      forall u | u in t.users && IsAlias(u, who) ensures t.users[k].id <= u.id {
        var i :| 0 <= i < |t.users| && t.users[i] == u;
        assert i >= k;
      }
    }
  }
}
