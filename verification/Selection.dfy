/**
Choosing the release to queue for one request: walk the sources in priority order, once per query,
and take the first source whose best few matching releases yield a choice.
*/
module Selection {
  import opened Basics
  import Requests
  import opened Releases
  import opened Ranking
  import opened RankingRules
  import Reopen

  const MAX_PACK_CHECKS := 3
  const MAX_AUTHOR_LOOKUPS := 3

  /** What inspecting a release's file list tells; a release that cannot be inspected is (false, false). */
  datatype Inspection = Inspection(isPack: bool, singleFile: bool)

  /** The searched book decides matching; the rest of the world answers for releases. */
  datatype World = World(
    content: ContentType,
    percent: int,
    deadness: Deadness,
    inspect: Release -> Inspection,
    credit: Release -> Option<string>,
    lookupsInTime: nat)

  /** Strict matching for one query: the whole rule, and its parts that do not and do need the author. */
  datatype Query = Query(
    strict: Release -> bool,
    besidesAuthor: Release -> bool,
    authorMatches: Release -> bool,
    namesAuthor: bool)

  /** One source's answer to one query. */
  datatype Answer = Answer(source: string, releases: seq<Release>, failed: bool)

  // ----- Releases that are not offered -----

  function FailedKeys(failed: seq<Requests.Remembered>): set<Requests.ReleaseKey> {
    set i | 0 <= i < |failed| && failed[i].Known? :: failed[i].key
  }

  /** What failed for this request, as far as it failed recently, and what died for any request. */
  function Excluded(failed: seq<Requests.Remembered>, recent: Option<set<Requests.ReleaseKey>>,
                    dead: set<Requests.ReleaseKey>): set<Requests.ReleaseKey>
  {
    (if recent.Some? then FailedKeys(failed) * recent.value else FailedKeys(failed)) + dead
  }

  lemma ExcludedExactly(failed: seq<Requests.Remembered>, recent: Option<set<Requests.ReleaseKey>>,
                        dead: set<Requests.ReleaseKey>, key: Requests.ReleaseKey)
    ensures key in Excluded(failed, recent, dead) <==>
      key in dead || (Requests.Known(key) in failed && (recent.None? || key in recent.value))
  {
    if Requests.Known(key) in failed {
      var i :| 0 <= i < |failed| && failed[i] == Requests.Known(key);
      assert key in FailedKeys(failed);
    }
  }

  function Offered(excluded: set<Requests.ReleaseKey>): Release -> bool {
    (r: Release) => KeyOf(r) !in excluded
  }

  // ----- Missing authors -----

  /** This release's page is worth reading: it fails the match only for want of an author. */
  predicate WantsAuthor(q: Query, r: Release) {
    r.author.None? && !q.authorMatches(r) && q.besidesAuthor(r)
  }

  /** Fill in the authors of at most three releases, from position `at` on. */
  function FillFrom(w: World, q: Query, releases: seq<Release>, at: nat, looked: nat): (filled: seq<Release>)
    requires at <= |releases|
    ensures |filled| == |releases|
    ensures forall i :: 0 <= i < |releases| ==>
      filled[i] == releases[i] || filled[i] == releases[i].(author := filled[i].author)
    decreases |releases| - at
  {
    if at == |releases| || looked >= MAX_AUTHOR_LOOKUPS || at >= w.lookupsInTime then releases
    else if !WantsAuthor(q, releases[at]) then FillFrom(w, q, releases, at + 1, looked)
    else
      var found := w.credit(releases[at]);
      var next := if found.Some? then releases[at := releases[at].(author := found)] else releases;
      FillFrom(w, q, next, at + 1, looked + 1)
  }

  /** Only releases that want an author get one, the credited one, and in time. */
  lemma {:induction false} FilledWantedAuthor(w: World, q: Query, releases: seq<Release>, at: nat, looked: nat)
    requires at <= |releases|
    ensures var filled := FillFrom(w, q, releases, at, looked);
            forall i :: 0 <= i < |releases| && filled[i] != releases[i] ==>
              && at <= i < w.lookupsInTime && WantsAuthor(q, releases[i])
              && filled[i] == releases[i].(author := w.credit(releases[i]))
    decreases |releases| - at
  {
    hide WantsAuthor;
    if at < |releases| && looked < MAX_AUTHOR_LOOKUPS && at < w.lookupsInTime {
      if !WantsAuthor(q, releases[at]) {
        FilledWantedAuthor(w, q, releases, at + 1, looked);
      } else {
        var found := w.credit(releases[at]);
        var next := if found.Some? then releases[at := releases[at].(author := found)] else releases;
        FilledWantedAuthor(w, q, next, at + 1, looked + 1);
      }
    }
  }

  /** How many releases differ. */
  function Differing(before: seq<Release>, after: seq<Release>): nat
    requires |before| == |after|
  {
    if before == [] then 0
    else (if before[0] != after[0] then 1 else 0) + Differing(before[1..], after[1..])
  }

  lemma {:induction false} DifferingOne(before: seq<Release>, next: seq<Release>, after: seq<Release>, at: nat)
    requires at < |before| == |next| == |after| && next == before[at := next[at]]
    ensures Differing(before, after) <= Differing(next, after) + 1
  {
    if at > 0 {
      assert next[1..] == before[1..][at - 1 := next[1..][at - 1]];
      DifferingOne(before[1..], next[1..], after[1..], at - 1);
    } else {
      assert next[1..] == before[1..];
    }
  }

  lemma {:induction false} DifferingNone(releases: seq<Release>)
    ensures Differing(releases, releases) == 0
  {
    if releases != [] {
      DifferingNone(releases[1..]);
    }
  }

  /** No more than three releases are filled in. */
  lemma {:induction false} FewAreFilled(w: World, q: Query, releases: seq<Release>, at: nat, looked: nat)
    requires at <= |releases| && looked <= MAX_AUTHOR_LOOKUPS
    ensures Differing(releases, FillFrom(w, q, releases, at, looked)) <= MAX_AUTHOR_LOOKUPS - looked
    decreases |releases| - at
  {
    hide WantsAuthor, Differing;
    if at == |releases| || looked >= MAX_AUTHOR_LOOKUPS || at >= w.lookupsInTime {
      DifferingNone(releases);
    } else if !WantsAuthor(q, releases[at]) {
      FewAreFilled(w, q, releases, at + 1, looked);
    } else {
      var found := w.credit(releases[at]);
      var next := if found.Some? then releases[at := releases[at].(author := found)] else releases;
      FewAreFilled(w, q, next, at + 1, looked + 1);
      DifferingOne(releases, next, FillFrom(w, q, releases, at, looked), at);
    }
  }

  /** How many of the first `n` releases lack nothing but an author. */
  function WantingBefore(q: Query, releases: seq<Release>, n: nat): nat
    requires n <= |releases|
  {
    if n == 0 then 0
    else
      var r := releases[n - 1];
      WantingBefore(q, releases, n - 1)
      + if r.author.None? && !q.authorMatches(r) && q.besidesAuthor(r) then 1 else 0
  }

  /** The first three releases that lack nothing but an author, if looked at in time, get the credited one. */
  ghost predicate FilledAt(w: World, q: Query, releases: seq<Release>, i: nat, r: Release)
    requires i < |releases|
  {
    var was := releases[i];
    var looked := i < w.lookupsInTime && WantingBefore(q, releases, i) < 3
                  && was.author.None? && !q.authorMatches(was) && q.besidesAuthor(was);
    r == if looked && w.credit(was).Some? then was.(author := w.credit(was)) else was
  }

  lemma {:induction false} FilledFrom(w: World, q: Query, start: seq<Release>, releases: seq<Release>, at: nat,
                                      looked: nat, i: nat)
    requires |start| == |releases| && at <= |releases| && i < |releases|
    requires at <= w.lookupsInTime ==>
               looked == if WantingBefore(q, start, at) < 3 then WantingBefore(q, start, at) else 3
    requires forall j :: at <= j < |releases| ==> releases[j] == start[j]
    requires i < at ==> FilledAt(w, q, start, i, releases[i])
    ensures FilledAt(w, q, start, i, FillFrom(w, q, releases, at, looked)[i])
    decreases |releases| - at
  {
    hide FilledAt;
    if at == |releases| || looked >= MAX_AUTHOR_LOOKUPS || at >= w.lookupsInTime {
      if i >= at {
        NotFilled(w, q, start, at, looked, i);
      }
    } else {
      var r := releases[at];
      if !WantsAuthor(q, r) {
        if i == at {
          NotFilledHere(w, q, start, at);
        }
        FilledFrom(w, q, start, releases, at + 1, looked, i);
      } else {
        var found := w.credit(r);
        var next := if found.Some? then releases[at := r.(author := found)] else releases;
        if i == at {
          FilledHere(w, q, start, at, next[at]);
        }
        FilledFrom(w, q, start, next, at + 1, looked + 1, i);
      }
    }
  }

  lemma NotFilled(w: World, q: Query, start: seq<Release>, at: nat, looked: nat, i: nat)
    requires at <= i < |start| && (looked >= 3 || at >= w.lookupsInTime)
    requires at <= w.lookupsInTime ==>
               looked == if WantingBefore(q, start, at) < 3 then WantingBefore(q, start, at) else 3
    ensures FilledAt(w, q, start, i, start[i])
  {
    WantingGrows(q, start, at, i);
  }

  lemma {:induction false} WantingGrows(q: Query, releases: seq<Release>, m: nat, n: nat)
    requires m <= n <= |releases|
    ensures WantingBefore(q, releases, m) <= WantingBefore(q, releases, n)
    decreases n - m
  {
    if m < n {
      WantingGrows(q, releases, m, n - 1);
    }
  }

  lemma NotFilledHere(w: World, q: Query, start: seq<Release>, at: nat)
    requires at < |start| && !WantsAuthor(q, start[at])
    ensures FilledAt(w, q, start, at, start[at])
  {
  }

  lemma FilledHere(w: World, q: Query, start: seq<Release>, at: nat, now: Release)
    requires at < |start| && at < w.lookupsInTime && WantingBefore(q, start, at) < 3 && WantsAuthor(q, start[at])
    requires now == if w.credit(start[at]).Some? then start[at].(author := w.credit(start[at])) else start[at]
    ensures FilledAt(w, q, start, at, now)
  {
  }

  lemma FilledExactly(w: World, q: Query, releases: seq<Release>, i: nat)
    requires i < |releases|
    ensures FilledAt(w, q, releases, i, FillFrom(w, q, releases, 0, 0)[i])
  {
    FilledFrom(w, q, releases, releases, 0, 0, i);
  }

  /** In place, as the program does it, stopping at the limit or the deadline. */
  method FillMissingAuthors(w: World, q: Query, releases: array<Release>)
    modifies releases
    ensures releases[..] == if q.namesAuthor then FillFrom(w, q, old(releases[..]), 0, 0) else old(releases[..])
  {
    if !q.namesAuthor {
      return;
    }
    ghost var start := releases[..];
    var at, looked := 0, 0;
    while at < releases.Length
      invariant 0 <= at <= releases.Length
      invariant FillFrom(w, q, start, 0, 0) == FillFrom(w, q, releases[..], at, looked)
    {
      if looked >= MAX_AUTHOR_LOOKUPS || at >= w.lookupsInTime {
        return;
      }
      ghost var now := releases[..];
      if WantsAuthor(q, releases[at]) {
        looked := looked + 1;
        var found := w.credit(releases[at]);
        if found.Some? {
          releases[at] := releases[at].(author := found);
          assert releases[..] == now[at := now[at].(author := found)];
        }
      }
      at := at + 1;
    }
  }

  function Filled(w: World, q: Query, offered: seq<Release>): seq<Release> {
    if Filter(offered, q.strict) == [] && q.namesAuthor then FillFrom(w, q, offered, 0, 0) else offered
  }

  function Candidates(w: World, q: Query, excluded: set<Requests.ReleaseKey>, found: seq<Release>): seq<Release> {
    Filter(Filled(w, q, Filter(found, Offered(excluded))), q.strict)
  }

  // ----- Inspecting the best few -----

  function Order(w: World, candidates: seq<Release>): seq<Release> {
    FinalRanking(candidates, w.content, w.percent, w.deadness)
  }

  /** A copy of full size made of a single file: queued as soon as it is seen. */
  predicate FullSingle(w: World, candidates: seq<Release>, r: Release) {
    && !w.inspect(r).isPack && w.inspect(r).singleFile
    && !Undersized(Ranked(candidates, w.content), w.content, w.percent, r)
  }

  /** Nothing behind this release needs to be inspected. */
  predicate EndsInspection(w: World, candidates: seq<Release>, r: Release) {
    !w.inspect(r).isPack
    && (w.content != Audiobook || AudiobookFormat(r) == "m4b" || FullSingle(w, candidates, r))
  }

  /** The inspection loop from position `at` on, with `chosen` the fallback found so far. */
  function ChooseFrom(w: World, candidates: seq<Release>, at: nat, chosen: Option<Release>): Option<Release>
    requires at <= |Order(w, candidates)|
    decreases |Order(w, candidates)| - at
  {
    var ranked := Order(w, candidates);
    if at == |ranked| || at >= MAX_PACK_CHECKS then chosen
    else
      var r := ranked[at];
      if w.inspect(r).isPack then ChooseFrom(w, candidates, at + 1, chosen)
      else if FullSingle(w, candidates, r) then Some(r)
      else
        var next := if chosen.None? then Some(r) else chosen;
        if w.content != Audiobook || AudiobookFormat(r) == "m4b" then next
        else ChooseFrom(w, candidates, at + 1, next)
  }

  function Choose(w: World, candidates: seq<Release>): Option<Release> {
    ChooseFrom(w, candidates, 0, None)
  }

  method InspectBest(w: World, candidates: seq<Release>) returns (chosen: Option<Release>, packs: bool)
    ensures chosen == Choose(w, candidates)
    ensures packs ==> exists i :: 0 <= i < |Order(w, candidates)| && i < MAX_PACK_CHECKS
                                  && w.inspect(Order(w, candidates)[i]).isPack
    ensures chosen.None? && candidates != [] ==> packs
  {
    hide Undersized;
    var ranked := Order(w, candidates);
    var thin := UndersizedCopies(Ranked(candidates, w.content), w.content, w.percent);
    chosen, packs := None, false;
    var index := 0;
    while index < |ranked|
      invariant 0 <= index <= |ranked|
      invariant Choose(w, candidates) == ChooseFrom(w, candidates, index, chosen)
      invariant packs ==> exists i :: 0 <= i < index && i < MAX_PACK_CHECKS && w.inspect(ranked[i]).isPack
      invariant index > 0 && chosen.None? ==> packs
    {
      if index >= MAX_PACK_CHECKS {
        break;
      }
      var candidate := ranked[index];
      OrderMembers(w, candidates);
      ThinMeansUndersized(w, candidates, candidate);
      var seen := w.inspect(candidate);
      if seen.isPack {
        packs := true;
        assert w.inspect(ranked[index]).isPack;
        index := index + 1;
        continue;
      }
      if seen.singleFile && candidate !in thin {
        chosen := Some(candidate);
        break;
      }
      if chosen.None? {
        chosen := Some(candidate);
      }
      if w.content != Audiobook || AudiobookFormat(candidate) == "m4b" {
        break;
      }
      index := index + 1;
    }
    OrderMembers(w, candidates);
  }

  lemma OrderMembers(w: World, candidates: seq<Release>)
    ensures multiset(Order(w, candidates)) == multiset(candidates)
    ensures |Order(w, candidates)| == |candidates|
    ensures forall i :: 0 <= i < |candidates| ==> Order(w, candidates)[i] in candidates
  {
    hide GroupsOf, FinalRanking;
    var _ := RankingIsFourSortedGroups(candidates, w.content, w.percent, w.deadness);
    var order := Order(w, candidates);
    assert |order| == |multiset(order)| == |multiset(candidates)| == |candidates|;
    forall i | 0 <= i < |order| ensures order[i] in candidates {
      assert order[i] in multiset(order);
    }
  }

  lemma ThinMeansUndersized(w: World, candidates: seq<Release>, r: Release)
    requires r in candidates
    ensures var ranked := Ranked(candidates, w.content);
            r in UndersizedCopies(ranked, w.content, w.percent) <==> Undersized(ranked, w.content, w.percent, r)
  {
    hide Undersized;
    var ranked := Ranked(candidates, w.content);
    Sorting.SortPermutes(candidates, Better(w.content));
    FilterMembers(ranked, IsThin(ranked, w.content, w.percent));
  }

  /**
  The rule of the choice, stated without the loop. Among the best three: nothing is chosen exactly when
  all of them are packs; a chosen release is a non-pack among the best three that is either a
  full-size single-file copy, no earlier one having ended the inspection, or the best-ranked
  non-pack; and the latter only when no full-size single-file copy was reached.
  */
  ghost predicate RightChoice(w: World, candidates: seq<Release>, chosen: Option<Release>) {
    var top := Take(Order(w, candidates), MAX_PACK_CHECKS);
    if chosen.None? then forall i :: 0 <= i < |top| ==> w.inspect(top[i]).isPack
    else
      exists k :: 0 <= k < |top| && top[k] == chosen.value && !w.inspect(top[k]).isPack
        && (|| (FullSingle(w, candidates, top[k])
                && forall i :: 0 <= i < k ==> !EndsInspection(w, candidates, top[i]))
            || ((forall i :: 0 <= i < k ==> w.inspect(top[i]).isPack)
                && forall m :: 0 <= m < |top| && FullSingle(w, candidates, top[m]) ==>
                     exists e :: 0 <= e < m && EndsInspection(w, candidates, top[e])))
  }

  /** The same for the loop part-way: `first` is the position of the fallback, if there is one. */
  ghost predicate Fallback(w: World, candidates: seq<Release>, at: nat, chosen: Option<Release>, first: nat) {
    var ranked := Order(w, candidates);
    && at <= |ranked|
    && (chosen.None? ==> forall i :: 0 <= i < at ==> w.inspect(ranked[i]).isPack)
    && (chosen.Some? ==>
          && first < at && first < MAX_PACK_CHECKS
          && ranked[first] == chosen.value && !w.inspect(ranked[first]).isPack
          && forall i :: 0 <= i < first ==> w.inspect(ranked[i]).isPack)
    && (forall i :: 0 <= i < at ==> !EndsInspection(w, candidates, ranked[i]))
  }

  lemma {:induction false} ChooseFromIsRight(w: World, candidates: seq<Release>, at: nat, chosen: Option<Release>,
                                             first: nat)
    requires at <= MAX_PACK_CHECKS && Fallback(w, candidates, at, chosen, first)
    ensures RightChoice(w, candidates, ChooseFrom(w, candidates, at, chosen))
    decreases |Order(w, candidates)| - at
  {
    hide FinalRanking, Undersized, RightChoice;
    var ranked := Order(w, candidates);
    if at == |ranked| || at >= MAX_PACK_CHECKS {
      AllInspected(w, candidates, at, chosen, first);
    } else {
      var r := ranked[at];
      if w.inspect(r).isPack {
        ChooseFromIsRight(w, candidates, at + 1, chosen, first);
      } else if FullSingle(w, candidates, r) {
        FullSingleIsRight(w, candidates, at, chosen, first);
      } else {
        var next := if chosen.None? then Some(r) else chosen;
        var firstNow := if chosen.None? then at else first;
        if w.content != Audiobook || AudiobookFormat(r) == "m4b" {
          InspectionEnded(w, candidates, at, chosen, first);
        } else {
          ChooseFromIsRight(w, candidates, at + 1, next, firstNow);
        }
      }
    }
  }

  lemma AllInspected(w: World, candidates: seq<Release>, at: nat, chosen: Option<Release>, first: nat)
    requires at <= MAX_PACK_CHECKS && Fallback(w, candidates, at, chosen, first)
    requires at == |Order(w, candidates)| || at >= MAX_PACK_CHECKS
    ensures RightChoice(w, candidates, chosen)
  {
    hide Order;
    var top := Take(Order(w, candidates), MAX_PACK_CHECKS);
    if chosen.Some? {
      assert top[first] == chosen.value;
    }
  }

  lemma FullSingleIsRight(w: World, candidates: seq<Release>, at: nat, chosen: Option<Release>, first: nat)
    requires at < MAX_PACK_CHECKS && Fallback(w, candidates, at, chosen, first)
    requires at < |Order(w, candidates)| && FullSingle(w, candidates, Order(w, candidates)[at])
    ensures RightChoice(w, candidates, Some(Order(w, candidates)[at]))
  {
    hide EndsInspection, Order;
    var ranked := Order(w, candidates);
    var top := Take(ranked, MAX_PACK_CHECKS);
    assert top[at] == ranked[at];
    assert forall i :: 0 <= i < at ==> top[i] == ranked[i];
  }

  lemma InspectionEnded(w: World, candidates: seq<Release>, at: nat, chosen: Option<Release>, first: nat)
    requires at < MAX_PACK_CHECKS && Fallback(w, candidates, at, chosen, first) && at < |Order(w, candidates)|
    requires var r := Order(w, candidates)[at];
             !FullSingle(w, candidates, r) && EndsInspection(w, candidates, r)
    ensures RightChoice(w, candidates, if chosen.None? then Some(Order(w, candidates)[at]) else chosen)
  {
    hide FullSingle, Order, EndsInspection;
    var ranked := Order(w, candidates);
    var top := Take(ranked, MAX_PACK_CHECKS);
    EndsOnlyAtSingles(w, candidates, ranked[at]);
    assert top[at] == ranked[at];
    var k := if chosen.None? then at else first;
    assert top[k] == ranked[k];
    forall m | 0 <= m < |top| && FullSingle(w, candidates, top[m])
      ensures exists e :: 0 <= e < m && EndsInspection(w, candidates, top[e])
    {
      EndsOnlyAtSingles(w, candidates, ranked[m]);
      assert top[m] == ranked[m];
      assert m > at;
    }
  }

  lemma EndsOnlyAtSingles(w: World, candidates: seq<Release>, r: Release)
    ensures FullSingle(w, candidates, r) ==> EndsInspection(w, candidates, r)
    ensures EndsInspection(w, candidates, r) ==> !w.inspect(r).isPack
  {
  }

  lemma ChoiceIsRight(w: World, candidates: seq<Release>)
    ensures RightChoice(w, candidates, Choose(w, candidates))
  {
    ChooseFromIsRight(w, candidates, 0, None, 0);
  }

  // ----- The same in the fields of the releases -----

  /** One file, and of full size. */
  ghost predicate WholeCopy(w: World, candidates: seq<Release>, r: Release) {
    w.inspect(r).singleFile && !w.inspect(r).isPack && !TooSmall(Ranked(candidates, w.content), w.content, w.percent, r)
  }

  /** No release behind it is looked at: an ebook, an m4b, or one whole file. */
  ghost predicate GoodEnough(w: World, candidates: seq<Release>, r: Release) {
    !w.inspect(r).isPack && (w.content == Ebook || CountsAsM4b(r) || WholeCopy(w, candidates, r))
  }

  function BestThree(order: seq<Release>): seq<Release> {
    if |order| > 3 then order[..3] else order
  }

  /**
  Among the best three: nothing is chosen exactly when all are packs. A chosen release is no pack. It is a
  whole copy with none good enough before it, or there are only packs before it and no whole copy was reached.
  And no other of the three that is in its group is the better release.
  */
  ghost predicate ChosenRightly(w: World, candidates: seq<Release>, g: Groups, chosen: Option<Release>) {
    var top := BestThree(g.liveFull + g.liveThin + g.deadFull + g.deadThin);
    && (chosen.None? <==> forall i :: 0 <= i < |top| ==> w.inspect(top[i]).isPack)
    && (chosen.Some? ==> exists k :: 0 <= k < |top| && top[k] == chosen.value && ChosenAt(w, candidates, g, top, k))
  }

  ghost predicate ChosenAt(w: World, candidates: seq<Release>, g: Groups, top: seq<Release>, k: nat)
    requires k < |top|
  {
    && !w.inspect(top[k]).isPack
    && (forall m :: k < m < |top| && GroupAt(g, m) == GroupAt(g, k) ==> NoWorse(w.content, top[k], top[m]))
    && (|| (WholeCopy(w, candidates, top[k]) && forall i :: 0 <= i < k ==> !GoodEnough(w, candidates, top[i]))
        || (&& (forall i :: 0 <= i < k ==> w.inspect(top[i]).isPack)
            && forall m :: 0 <= m < |top| && WholeCopy(w, candidates, top[m]) ==>
                 exists e :: 0 <= e < m && GoodEnough(w, candidates, top[e])))
  }

  lemma InFields(w: World, candidates: seq<Release>, r: Release)
    ensures FullSingle(w, candidates, r) <==> WholeCopy(w, candidates, r)
    ensures EndsInspection(w, candidates, r) <==> GoodEnough(w, candidates, r)
  {
    hide Undersized, TooSmall;
    UndersizedMeans(Ranked(candidates, w.content), w.content, w.percent, r);
  }

  lemma ChoiceInFields(w: World, candidates: seq<Release>) returns (g: Groups)
    ensures ChosenRightly(w, candidates, g, Choose(w, candidates))
    ensures Order(w, candidates) == g.liveFull + g.liveThin + g.deadFull + g.deadThin
    ensures multiset(g.liveFull + g.liveThin + g.deadFull + g.deadThin) == multiset(candidates)
    ensures var ranked := Ranked(candidates, w.content);
            && multiset(ranked) == multiset(candidates)
            && GroupMeans(g.liveFull, ranked, w.content, w.percent, w.deadness, false, false)
            && GroupMeans(g.liveThin, ranked, w.content, w.percent, w.deadness, true, false)
            && GroupMeans(g.deadFull, ranked, w.content, w.percent, w.deadness, false, true)
            && GroupMeans(g.deadThin, ranked, w.content, w.percent, w.deadness, true, true)
  {
    hide FinalRanking, Ranked, GroupMeans, Choose, FullSingle, EndsInspection, WholeCopy, GoodEnough, NoWorse, ChosenRightly;
    g := RankingMeans(candidates, w.content, w.percent, w.deadness);
    ChoiceIsRight(w, candidates);
    var order := Order(w, candidates);
    var top := Take(order, MAX_PACK_CHECKS);
    forall i | 0 <= i < |top|
      ensures top[i] == order[i]
      ensures FullSingle(w, candidates, top[i]) <==> WholeCopy(w, candidates, top[i])
      ensures EndsInspection(w, candidates, top[i]) <==> GoodEnough(w, candidates, top[i])
    {
      InFields(w, candidates, top[i]);
    }
    OrderMembers(w, candidates);
    RightIsRightly(w, candidates, g, Choose(w, candidates));
  }

  lemma RightIsRightly(w: World, candidates: seq<Release>, g: Groups, chosen: Option<Release>)
    requires RightChoice(w, candidates, chosen)
    requires Order(w, candidates) == g.liveFull + g.liveThin + g.deadFull + g.deadThin
    requires var top := Take(Order(w, candidates), MAX_PACK_CHECKS);
             forall i :: 0 <= i < |top| ==>
               && (FullSingle(w, candidates, top[i]) <==> WholeCopy(w, candidates, top[i]))
               && (EndsInspection(w, candidates, top[i]) <==> GoodEnough(w, candidates, top[i]))
    requires forall i, j :: 0 <= i < j < |Order(w, candidates)| && GroupAt(g, i) == GroupAt(g, j) ==>
               NoWorse(w.content, Order(w, candidates)[i], Order(w, candidates)[j])
    ensures ChosenRightly(w, candidates, g, chosen)
  {
    hide FinalRanking, FullSingle, EndsInspection, WholeCopy, GoodEnough, NoWorse, GroupAt, Order;
    var order := Order(w, candidates);
    var top := Take(order, MAX_PACK_CHECKS);
    assert top == BestThree(order);
    assert chosen.None? ==> forall i :: 0 <= i < |top| ==> w.inspect(top[i]).isPack;
    if chosen.Some? {
      var k :| 0 <= k < |top| && top[k] == chosen.value && !w.inspect(top[k]).isPack
               && (|| (FullSingle(w, candidates, top[k])
                       && forall i :: 0 <= i < k ==> !EndsInspection(w, candidates, top[i]))
                   || ((forall i :: 0 <= i < k ==> w.inspect(top[i]).isPack)
                       && forall m :: 0 <= m < |top| && FullSingle(w, candidates, top[m]) ==>
                            exists e :: 0 <= e < m && EndsInspection(w, candidates, top[e])));
      assert ChosenAt(w, candidates, g, top, k);
      assert !forall i :: 0 <= i < |top| ==> w.inspect(top[i]).isPack;
    }
  }

  // ----- The walk over sources and queries -----

  function ChoiceAt(w: World, q: Query, excluded: set<Requests.ReleaseKey>, a: Answer): Option<Release> {
    Choose(w, Candidates(w, q, excluded, a.releases))
  }

  /** What became of the request: `Refused` is a choice that could not be fulfilled. */
  datatype Verdict =
    | Queued(release: Release, source: string)
    | Refused(source: string)
    | SearchFailed
    | OnlyPacks
    | NoMatch

  /** One attempt is one source asked with one query; the queries come in order, each over all sources. */
  datatype Attempt = Attempt(query: Query, answer: Answer)

  function YieldsChoice(w: World, excluded: set<Requests.ReleaseKey>): Attempt -> bool {
    (a: Attempt) => ChoiceAt(w, a.query, excluded, a.answer).Some?
  }

  /** The attempt that decides: the first that yields a choice. */
  function FirstChoice(w: World, excluded: set<Requests.ReleaseKey>, attempts: seq<Attempt>): (n: nat)
    ensures n <= |attempts|
    ensures forall i :: 0 <= i < n ==> !YieldsChoice(w, excluded)(attempts[i])
    ensures n < |attempts| ==> YieldsChoice(w, excluded)(attempts[n])
  {
    FirstIndexProperties(attempts, YieldsChoice(w, excluded));
    FirstIndex(attempts, YieldsChoice(w, excluded))
  }

  /** All attempts, query by query. */
  function AttemptsOf(queries: seq<Query>, answers: seq<seq<Answer>>): seq<Attempt>
    requires |queries| == |answers|
  {
    if queries == [] then []
    else seq(|answers[0]|, i requires 0 <= i < |answers[0]| => Attempt(queries[0], answers[0][i]))
         + AttemptsOf(queries[1..], answers[1..])
  }

  /**
  The search for one request. `answers[k][s]` is what source `s` of the priority order returns to query
  `k`, the request's own query coming first; `fulfils` tells whether queueing a release succeeds.
  */
  method AutoDownload(w: World, queries: seq<Query>, answers: seq<seq<Answer>>, excluded: set<Requests.ReleaseKey>,
                      fulfils: Release -> bool)
    returns (verdict: Verdict)
    requires |queries| == |answers|
    ensures var attempts := AttemptsOf(queries, answers);
            var n := FirstChoice(w, excluded, attempts);
            if n < |attempts| then
              var r := ChoiceAt(w, attempts[n].query, excluded, attempts[n].answer).value;
              verdict == (if fulfils(r) then Queued(r, attempts[n].answer.source) else Refused(attempts[n].answer.source))
            else
              && (verdict == SearchFailed <==> exists i :: 0 <= i < |attempts| && attempts[i].answer.failed)
              && (verdict == OnlyPacks <==>
                    && (forall i :: 0 <= i < |attempts| ==> !attempts[i].answer.failed)
                    && exists i :: 0 <= i < |attempts| && SawPack(w, attempts[i], excluded))
              && verdict in {SearchFailed, OnlyPacks, NoMatch}
  {
    hide Choose, Candidates, SawPack, ChoiceAt, AttemptsOf, Order, FirstIndex, FirstChoice;
    var errors, packsSeen := false, false;
    ghost var attempts := AttemptsOf(queries, answers);
    ghost var done := 0;
    for k := 0 to |queries|
      invariant 0 <= done <= |attempts|
      invariant attempts[done..] == AttemptsOf(queries[k..], answers[k..])
      invariant forall i :: 0 <= i < done ==> ChoiceAt(w, attempts[i].query, excluded, attempts[i].answer).None?
      invariant errors <==> exists i :: 0 <= i < done && attempts[i].answer.failed
      invariant packsSeen <==> exists i :: 0 <= i < done && SawPack(w, attempts[i], excluded)
    {
      AttemptsOfQuery(queries[k..], answers[k..]);
      assert queries[k..][1..] == queries[k + 1..] && answers[k..][1..] == answers[k + 1..];
      ghost var base := done;
      for s := 0 to |answers[k]|
        invariant done == base + s <= |attempts|
        invariant attempts[base..] == AttemptsOf(queries[k..], answers[k..])
        invariant forall i :: 0 <= i < done ==> ChoiceAt(w, attempts[i].query, excluded, attempts[i].answer).None?
        invariant errors <==> exists i :: 0 <= i < done && attempts[i].answer.failed
        invariant packsSeen <==> exists i :: 0 <= i < done && SawPack(w, attempts[i], excluded)
      {
        var answer := answers[k][s];
        assert attempts[base..][s] == Attempt(queries[k], answer);
        assert attempts[done] == Attempt(queries[k], answer);
        errors := errors || answer.failed;
        var candidates := Candidates(w, queries[k], excluded, answer.releases);
        var chosen, packs := InspectBest(w, candidates);
        AttemptOutcome(w, attempts[done], excluded, chosen, packs);
        packsSeen := packsSeen || packs;
        if chosen.Some? {
          FirstChoiceIs(w, excluded, attempts, done);
          if fulfils(chosen.value) {
            return Queued(chosen.value, answer.source);
          } else {
            return Refused(answer.source);
          }
        }
        done := done + 1;
      }
      assert attempts[done..] == attempts[base..][|answers[k]|..];
    }
    NoQueries(queries[|queries|..], answers[|queries|..]);
    FirstChoiceIs(w, excluded, attempts, done);
    verdict := if errors then SearchFailed else if packsSeen then OnlyPacks else NoMatch;
  }

  /** A pack was seen among the best three of this attempt. */
  ghost predicate SawPack(w: World, a: Attempt, excluded: set<Requests.ReleaseKey>) {
    var order := Order(w, Candidates(w, a.query, excluded, a.answer.releases));
    exists i :: 0 <= i < |order| && i < MAX_PACK_CHECKS && w.inspect(order[i]).isPack
  }

  lemma AttemptOutcome(w: World, a: Attempt, excluded: set<Requests.ReleaseKey>, chosen: Option<Release>, packs: bool)
    requires var candidates := Candidates(w, a.query, excluded, a.answer.releases);
             && chosen == Choose(w, candidates)
             && (packs ==> exists i :: 0 <= i < |Order(w, candidates)| && i < MAX_PACK_CHECKS
                                       && w.inspect(Order(w, candidates)[i]).isPack)
             && (chosen.None? && candidates != [] ==> packs)
    ensures ChoiceAt(w, a.query, excluded, a.answer) == chosen
    ensures packs ==> SawPack(w, a, excluded)
    ensures chosen.None? && SawPack(w, a, excluded) ==> packs
  {
  }

  /** The best three of this attempt, or as many as there are, are all packs. */
  ghost predicate OnlyPacksOnTop(w: World, a: Attempt, excluded: set<Requests.ReleaseKey>) {
    var top := Take(Order(w, Candidates(w, a.query, excluded, a.answer.releases)), MAX_PACK_CHECKS);
    forall k :: 0 <= k < |top| ==> w.inspect(top[k]).isPack
  }

  lemma NoQueries(queries: seq<Query>, answers: seq<seq<Answer>>)
    requires |queries| == |answers| == 0
    ensures AttemptsOf(queries, answers) == []
  {
  }

  lemma AttemptsOfQuery(queries: seq<Query>, answers: seq<seq<Answer>>)
    requires |queries| == |answers| && queries != []
    ensures |AttemptsOf(queries, answers)| >= |answers[0]|
    ensures forall i :: 0 <= i < |answers[0]| ==> AttemptsOf(queries, answers)[i] == Attempt(queries[0], answers[0][i])
    ensures AttemptsOf(queries, answers)[|answers[0]|..] == AttemptsOf(queries[1..], answers[1..])
  {
  }

  lemma FirstChoiceIs(w: World, excluded: set<Requests.ReleaseKey>, attempts: seq<Attempt>, n: nat)
    requires n <= |attempts|
    requires forall i :: 0 <= i < n ==> ChoiceAt(w, attempts[i].query, excluded, attempts[i].answer).None?
    requires n < |attempts| ==> ChoiceAt(w, attempts[n].query, excluded, attempts[n].answer).Some?
    ensures FirstChoice(w, excluded, attempts) == n
  {
  }

  // ----- What is promised of the queued release -----

  lemma CandidateIsSound(w: World, q: Query, excluded: set<Requests.ReleaseKey>, found: seq<Release>, r: Release)
    requires r in Candidates(w, q, excluded, found)
    ensures q.strict(r)
    ensures KeyOf(r) !in excluded
    ensures exists f :: f in found && r == f.(author := r.author)
  {
    var offered := Filter(found, Offered(excluded));
    FilterMembers(found, Offered(excluded));
    var filled := Filled(w, q, offered);
    FilterMembers(filled, q.strict);
    var i :| 0 <= i < |filled| && filled[i] == r;
    assert |filled| == |offered|;
    var f := offered[i];
    assert f in offered;
    assert r == f.(author := r.author);
  }

  /** If anything offered matches, the matches are the candidates, all of them; only otherwise are authors looked up. */
  lemma CandidatesExactly(w: World, q: Query, excluded: set<Requests.ReleaseKey>, found: seq<Release>, r: Release)
    ensures (exists f :: f in found && KeyOf(f) !in excluded && q.strict(f)) || !q.namesAuthor ==>
      (r in Candidates(w, q, excluded, found) <==> r in found && KeyOf(r) !in excluded && q.strict(r))
    ensures !(exists f :: f in found && KeyOf(f) !in excluded && q.strict(f)) && q.namesAuthor ==>
      var offered := Filter(found, Offered(excluded));
      (r in Candidates(w, q, excluded, found) <==>
        q.strict(r) && exists i :: 0 <= i < |offered| && FilledAt(w, q, offered, i, r))
  {
    hide FilledAt;
    var offered := Filter(found, Offered(excluded));
    FilterMembers(found, Offered(excluded));
    FilterMembers(offered, q.strict);
    FilterMembers(Filled(w, q, offered), q.strict);
    if !(exists f :: f in found && KeyOf(f) !in excluded && q.strict(f)) && q.namesAuthor {
      NoneOffered(q, offered);
      var filled := FillFrom(w, q, offered, 0, 0);
      assert Filled(w, q, offered) == filled;
      forall i | 0 <= i < |offered| ensures FilledAt(w, q, offered, i, r) <==> r == filled[i] {
        FilledExactly(w, q, offered, i);
        FilledOnce(w, q, offered, i, r, filled[i]);
      }
    } else if q.namesAuthor {
      var f :| f in found && KeyOf(f) !in excluded && q.strict(f);
      assert f in Filter(offered, q.strict);
    }
  }

  lemma FilledOnce(w: World, q: Query, releases: seq<Release>, i: nat, a: Release, b: Release)
    requires i < |releases| && FilledAt(w, q, releases, i, b)
    ensures FilledAt(w, q, releases, i, a) <==> a == b
  {
  }

  lemma NoneOffered(q: Query, offered: seq<Release>)
    requires forall f :: f in offered ==> !q.strict(f)
    ensures Filter(offered, q.strict) == []
  {
    FilterNone(offered, q.strict);
  }

  /**
  A release is only queued if a source returned it (its author perhaps filled in), it has neither failed
  recently for this request nor died for another, it strictly matches, and it is the right choice
  among the best three candidates of its source; and only if no earlier source, nor any source under
  an earlier query, offered a choice, their best three all being packs.
  */
  lemma QueuedReleaseIsSound(w: World, excluded: set<Requests.ReleaseKey>, attempts: seq<Attempt>, n: nat)
    requires n == FirstChoice(w, excluded, attempts) < |attempts|
    ensures ChoiceAt(w, attempts[n].query, excluded, attempts[n].answer).Some?
    ensures var a := attempts[n];
            var candidates := Candidates(w, a.query, excluded, a.answer.releases);
            var r := ChoiceAt(w, a.query, excluded, a.answer).value;
            && a.query.strict(r) && KeyOf(r) !in excluded
            && (exists f :: f in a.answer.releases && r == f.(author := r.author))
            && r in candidates && !w.inspect(r).isPack
            && RightChoice(w, candidates, Some(r))
            && exists g :: ChosenRightly(w, candidates, g, Some(r))
                 && Order(w, candidates) == g.liveFull + g.liveThin + g.deadFull + g.deadThin
    ensures forall i :: 0 <= i < n ==> OnlyPacksOnTop(w, attempts[i], excluded)
  {
    hide FinalRanking, Undersized, Filled, Choose, EndsInspection;
    var a := attempts[n];
    var candidates := Candidates(w, a.query, excluded, a.answer.releases);
    var r := ChoiceAt(w, a.query, excluded, a.answer).value;
    ChoiceIsRight(w, candidates);
    var g := ChoiceInFields(w, candidates);
    OrderMembers(w, candidates);
    assert r in candidates;
    CandidateIsSound(w, a.query, excluded, a.answer.releases, r);
    forall i | 0 <= i < n ensures OnlyPacksOnTop(w, attempts[i], excluded) {
      assert !YieldsChoice(w, excluded)(attempts[i]);
      ChoiceIsRight(w, Candidates(w, attempts[i].query, excluded, attempts[i].answer.releases));
    }
  }

  /** This search does not queue that release. */
  ghost predicate Avoids(w: World, excluded: set<Requests.ReleaseKey>, attempts: seq<Attempt>, key: Requests.ReleaseKey) {
    var n := FirstChoice(w, excluded, attempts);
    n < |attempts| ==> KeyOf(ChoiceAt(w, attempts[n].query, excluded, attempts[n].answer).value) != key
  }

  /**
  What a request that failed or stalled was fulfilled with, and is reopened, is never what is queued next,
  whatever the sources return, exactly when that failure is still recent or the release is dead.
  */
  lemma RetryPicksAnotherRelease(was: Requests.Request, kind: Reopen.Kind,
                                 recent: Option<set<Requests.ReleaseKey>>, dead: set<Requests.ReleaseKey>)
    requires was.release.Some? && Reopen.IsFault(kind)
    ensures var excluded := Excluded(Requests.Reopened(Reopen.Noted(was, kind)).book.failed, recent, dead);
            (forall w, attempts :: Avoids(w, excluded, attempts, was.release.value))
            <==> recent.None? || was.release.value in recent.value || was.release.value in dead
  {
    hide Avoids;
    var failed := Requests.Reopened(Reopen.Noted(was, kind)).book.failed;
    var key := was.release.value;
    assert Requests.Known(key) in failed;
    var i :| 0 <= i < |failed| && failed[i] == Requests.Known(key);
    assert key in FailedKeys(failed);
    var excluded := Excluded(failed, recent, dead);
    if key in excluded {
      forall w, attempts ensures Avoids(w, excluded, attempts, key) {
        ExcludedIsAvoided(w, excluded, attempts, key);
      }
    } else {
      var w, attempts := OfferedIsQueued(excluded, key);
      assert !Avoids(w, excluded, attempts, key);
    }
  }

  lemma ExcludedIsAvoided(w: World, excluded: set<Requests.ReleaseKey>, attempts: seq<Attempt>, key: Requests.ReleaseKey)
    requires key in excluded
    ensures Avoids(w, excluded, attempts, key)
  {
    hide RightChoice, ChoiceAt, FirstChoice;
    if FirstChoice(w, excluded, attempts) < |attempts| {
      QueuedReleaseIsSound(w, excluded, attempts, FirstChoice(w, excluded, attempts));
    }
  }

  /** A release that is not excluded is queued when it is the one match found and is not a pack. */
  lemma OfferedIsQueued(excluded: set<Requests.ReleaseKey>, key: Requests.ReleaseKey)
    returns (w: World, attempts: seq<Attempt>)
    requires key !in excluded
    ensures !Avoids(w, excluded, attempts, key)
  {
    hide RightChoice, Choose, Order;
    var d := Deadness(_ => None, {}, 0);
    w := World(Ebook, 0, d, _ => Inspection(false, false), _ => None, 0);
    var q := Query(_ => true, _ => true, _ => true, false);
    var r := Release(key.source, key.sourceId, "epub", false, 0, None, None, "", None, None);
    attempts := [Attempt(q, Answer(key.source, [r], false))];
    FilterAll([r], Offered(excluded));
    FilterAll([r], q.strict);
    assert Candidates(w, q, excluded, [r]) == [r];
    OnlyCandidate(w, r);
    FirstChoiceIs(w, excluded, attempts, 0);
  }

  lemma OnlyCandidate(w: World, r: Release)
    requires !w.inspect(r).isPack
    ensures Choose(w, [r]) == Some(r)
  {
    hide FinalRanking, Choose, FullSingle, EndsInspection;
    OrderMembers(w, [r]);
    assert Order(w, [r]) == [r];
    ChoiceIsRight(w, [r]);
    assert Take(Order(w, [r]), MAX_PACK_CHECKS)[0] == r;
  }
}
