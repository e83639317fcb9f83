/**
What the ranking means, in the fields of the releases alone: which copies are too small, which sources
are dead, and that inside each group the better release comes first.
*/
module RankingRules {
  import opened Basics
  import opened Releases
  import opened Ranking
  import Sorting

  // ----- Copies that are too small -----

  function HasSize(): Release -> bool {
    (r: Release) => r.sizeBytes.Some? && r.sizeBytes.value > 0
  }

  /** The known sizes, one for each release that says how large it is. */
  ghost predicate SizesAre(releases: seq<Release>, sizes: seq<int>) {
    var sized := Filter(releases, HasSize());
    |sizes| == |sized| && forall i :: 0 <= i < |sizes| ==> sized[i].sizeBytes == Some(sizes[i])
  }

  ghost predicate Ascending(s: seq<int>) {
    forall i, j :: 0 <= i < j < |s| ==> s[i] <= s[j]
  }

  /** The two in the middle added up, or the middle one doubled. */
  ghost predicate IsTwiceMedian(sizes: seq<int>, t: int) {
    exists s :: multiset(s) == multiset(sizes) && Ascending(s) && s != [] && t == s[(|s| - 1) / 2] + s[|s| / 2]
  }

  /** The largest of two or more known sizes that is at most two and a half times their median. */
  ghost predicate IsReference(releases: seq<Release>, reference: int) {
    exists sizes, t :: SizesAre(releases, sizes) && IsTwiceMedian(sizes, t) && |sizes| >= 2
      && reference in sizes && 4 * reference <= 5 * t
      && forall size :: size in sizes && 4 * size <= 5 * t ==> size <= reference
  }

  /** An audiobook copy under that percentage of the reference. */
  ghost predicate TooSmall(releases: seq<Release>, content: ContentType, percent: int, r: Release) {
    && content == Audiobook && r.sizeBytes.Some? && r.sizeBytes.value > 0
    && exists reference :: IsReference(releases, reference) && 100 * r.sizeBytes.value < percent * reference
  }

  lemma {:induction false} KnownSizesAre(releases: seq<Release>)
    ensures SizesAre(releases, KnownSizes(releases))
  {
    if releases != [] {
      KnownSizesAre(releases[1..]);
    }
  }

  lemma SizesUnique(releases: seq<Release>, sizes: seq<int>)
    requires SizesAre(releases, sizes)
    ensures sizes == KnownSizes(releases)
  {
    KnownSizesAre(releases);
  }

  lemma {:induction false} SortedUnique(a: seq<int>, b: seq<int>)
    requires Ascending(a) && Ascending(b) && multiset(a) == multiset(b)
    ensures a == b
  {
    assert |multiset(a)| == |a| && |multiset(b)| == |b|;
    if a != [] {
      FirstInOther(a, b);
      FirstInOther(b, a);
      assert a == [a[0]] + a[1..] && b == [b[0]] + b[1..];
      assert multiset(a[1..]) == multiset(a) - multiset{a[0]};
      assert multiset(b[1..]) == multiset(b) - multiset{b[0]};
      SortedUnique(a[1..], b[1..]);
    }
  }

  lemma FirstInOther(a: seq<int>, b: seq<int>)
    requires Ascending(b) && multiset(a) == multiset(b) && a != [] && b != []
    ensures b[0] <= a[0]
  {
    assert a[0] in multiset(a);
    assert a[0] in b;
  }

  lemma SortedSizes(sizes: seq<int>)
    ensures var sorted := Sorting.SortBy(sizes, Smaller);
            multiset(sorted) == multiset(sizes) && |sorted| == |sizes| && Ascending(sorted)
  {
    Sorting.SortPermutes(sizes, Smaller);
    Sorting.SortSorted(sizes, Smaller);
    hide Sorting.SortBy;
    var sorted := Sorting.SortBy(sizes, Smaller);
    forall i, j | 0 <= i < j < |sorted| ensures sorted[i] <= sorted[j] {
      assert !Smaller(sorted[j], sorted[i]);
    }
  }

  lemma MedianIs(sizes: seq<int>, t: int)
    requires sizes != []
    ensures IsTwiceMedian(sizes, t) <==> t == TwiceMedian(sizes)
  {
    hide Sorting.SortBy, Ascending;
    var sorted := Sorting.SortBy(sizes, Smaller);
    SortedSizes(sizes);
    Middle(|sizes|);
    assert TwiceMedian(sizes) == sorted[(|sorted| - 1) / 2] + sorted[|sorted| / 2];
    if IsTwiceMedian(sizes, t) {
      var s :| multiset(s) == multiset(sizes) && Ascending(s) && s != [] && t == s[(|s| - 1) / 2] + s[|s| / 2];
      SortedUnique(s, sorted);
    }
  }

  lemma Middle(n: nat)
    requires n > 0
    ensures (n - 1) / 2 == if n % 2 == 1 then n / 2 else n / 2 - 1
  {
  }

  lemma ReferenceIs(releases: seq<Release>, reference: int)
    ensures IsReference(releases, reference) <==>
      |KnownSizes(releases)| >= 2 && reference == ReferenceSize(releases)
  {
    hide TwiceMedian, IsTwiceMedian, SizesAre, KnownSizes;
    var sizes := KnownSizes(releases);
    KnownSizesAre(releases);
    KnownSizesMembers(releases);
    if |sizes| >= 2 {
      MedianIs(sizes, TwiceMedian(sizes));
      ReferenceExists(sizes);
      FilterMembers(sizes, NotOutlier(sizes));
    }
    if IsReference(releases, reference) {
      var s, t :| SizesAre(releases, s) && IsTwiceMedian(s, t) && |s| >= 2
        && reference in s && 4 * reference <= 5 * t
        && forall size :: size in s && 4 * size <= 5 * t ==> size <= reference;
      SizesUnique(releases, s);
      MedianIs(s, t);
    }
  }

  /** The copies demoted for their size are exactly those. */
  lemma UndersizedMeans(releases: seq<Release>, content: ContentType, percent: int, r: Release)
    ensures Undersized(releases, content, percent, r) <==> TooSmall(releases, content, percent, r)
  {
    hide IsReference, ReferenceSize, KnownSizes;
    if |KnownSizes(releases)| >= 2 {
      ReferenceIs(releases, ReferenceSize(releases));
    }
    if TooSmall(releases, content, percent, r) {
      var reference :| IsReference(releases, reference) && 100 * r.sizeBytes.value < percent * reference;
      ReferenceIs(releases, reference);
    }
  }

  // ----- Dead sources -----

  /** How many of the first `n` releases have a page with complaints. */
  function PagesBefore(ranked: seq<Release>, n: nat): nat
    requires n <= |ranked|
  {
    if n == 0 then 0 else PagesBefore(ranked, n - 1) + if ranked[n - 1].source == "audiobookbay" then 1 else 0
  }

  /** Held by a peer that failed lately, or complained about on one of the first five pages read in time. */
  ghost predicate Dead(d: Deadness, ranked: seq<Release>, i: nat)
    requires i < |ranked|
  {
    var r := ranked[i];
    || (r.source == "slskd" && r.peerName != "" && r.peerName in d.deadPeers)
    || (r.source == "audiobookbay" && i < d.inTime && PagesBefore(ranked, i) < 5
        && d.complaints(r).Some? && d.complaints(r).value > 0)
  }

  /** The pages read before a release, while there is time: at most five. */
  function Budget(ranked: seq<Release>, n: nat): nat
    requires n <= |ranked|
  {
    if PagesBefore(ranked, n) < 5 then PagesBefore(ranked, n) else 5
  }

  lemma JudgeMeans(d: Deadness, ranked: seq<Release>, i: nat, checks: nat)
    requires i < |ranked| && (i <= d.inTime ==> checks == Budget(ranked, i))
    ensures var (dead, read) := Judge(d, ranked[i], i, checks);
            && (dead <==> Dead(d, ranked, i))
            && (i + 1 <= d.inTime ==> (if read then checks + 1 else checks) == Budget(ranked, i + 1))
  {
  }

  lemma {:induction false} VerdictMeans(d: Deadness, ranked: seq<Release>, at: nat, checks: nat, i: nat)
    requires at <= i < |ranked| && (at <= d.inTime ==> checks == Budget(ranked, at))
    ensures Verdicts(d, ranked, at, checks)[i - at] <==> Dead(d, ranked, i)
    decreases i - at
  {
    hide Judge, Dead, Budget;
    var (dead, read) := Judge(d, ranked[at], at, checks);
    JudgeMeans(d, ranked, at, checks);
    if at < i {
      VerdictMeans(d, ranked, at + 1, if read then checks + 1 else checks, i);
    }
  }

  /** Exactly the dead ones are moved behind the others. */
  lemma DeadExactly(d: Deadness, ranked: seq<Release>, i: nat)
    requires i < |ranked|
    ensures Verdicts(d, ranked, 0, 0)[i] <==> Dead(d, ranked, i)
  {
    VerdictMeans(d, ranked, 0, 0, i);
  }

  // ----- The order -----

  ghost predicate BestFirst(content: ContentType, s: seq<Release>) {
    forall i, j :: 0 <= i < j < |s| ==> NoWorse(content, s[i], s[j])
  }

  lemma SortedIsBestFirst(content: ContentType, s: seq<Release>)
    requires Sorting.Sorted(s, Better(content))
    ensures BestFirst(content, s)
  {
    hide NoWorse;
    forall i, j | 0 <= i < j < |s| ensures NoWorse(content, s[i], s[j]) {
      BetterMeans(content, s[i], s[j]);
    }
  }

  /** What a group says of its members: whether they are too small, and what a dead source is. */
  ghost predicate GroupMeans(s: seq<Release>, ranked: seq<Release>, content: ContentType, percent: int, d: Deadness,
                             thin: bool, dead: bool)
  {
    && BestFirst(content, s)
    && forall r :: r in s ==>
         && (TooSmall(ranked, content, percent, r) <==> thin)
         && (r.source == "slskd" ==> (dead <==> r.peerName != "" && r.peerName in d.deadPeers))
         && (dead && r.source != "slskd" ==> r.source == "audiobookbay" && d.complaints(r).Some? && d.complaints(r).value > 0)
  }

  /** Where in the ranking a group ends and the next begins. */
  function GroupAt(g: Groups, i: nat): nat {
    if i < |g.liveFull| then 0
    else if i < |g.liveFull| + |g.liveThin| then 1
    else if i < |g.liveFull| + |g.liveThin| + |g.deadFull| then 2
    else 3
  }

  /** The ranking in field terms: live before dead, full before thin, and each of the four groups best first. */
  lemma RankingMeans(candidates: seq<Release>, content: ContentType, percent: int, d: Deadness) returns (g: Groups)
    ensures FinalRanking(candidates, content, percent, d) == g.liveFull + g.liveThin + g.deadFull + g.deadThin
    ensures multiset(FinalRanking(candidates, content, percent, d)) == multiset(candidates)
    ensures var ranked := Ranked(candidates, content);
            && multiset(ranked) == multiset(candidates)
            && GroupMeans(g.liveFull, ranked, content, percent, d, false, false)
            && GroupMeans(g.liveThin, ranked, content, percent, d, true, false)
            && GroupMeans(g.deadFull, ranked, content, percent, d, false, true)
            && GroupMeans(g.deadThin, ranked, content, percent, d, true, true)
    ensures forall i, j :: 0 <= i < j < |candidates| && GroupAt(g, i) == GroupAt(g, j) ==>
      var order := FinalRanking(candidates, content, percent, d);
      |order| == |candidates| && NoWorse(content, order[i], order[j])
  {
    hide FinalRanking, Undersized, TooSmall, NoWorse, Better, Ranked, CanBeJudged, GroupMeans, Sorting.Sorted;
    g := RankingIsFourSortedGroups(candidates, content, percent, d);
    var ranked, order := Ranked(candidates, content), FinalRanking(candidates, content, percent, d);
    RankedPermutes(candidates, content);
    GroupIs(g.liveFull, ranked, content, percent, d, false, false);
    GroupIs(g.liveThin, ranked, content, percent, d, true, false);
    GroupIs(g.deadFull, ranked, content, percent, d, false, true);
    GroupIs(g.deadThin, ranked, content, percent, d, true, true);
    assert |multiset(order)| == |order| && |multiset(candidates)| == |candidates|;
    forall i, j | 0 <= i < j < |order| && GroupAt(g, i) == GroupAt(g, j) ensures NoWorse(content, order[i], order[j]) {
      InOneGroup(g, content, i, j);
    }
  }

  lemma RankedPermutes(candidates: seq<Release>, content: ContentType)
    ensures multiset(Ranked(candidates, content)) == multiset(candidates)
  {
    Sorting.SortPermutes(candidates, Better(content));
  }

  lemma GroupIs(s: seq<Release>, ranked: seq<Release>, content: ContentType, percent: int, d: Deadness, thin: bool, dead: bool)
    requires Sorting.Sorted(s, Better(content))
    requires forall r :: r in s ==> (Undersized(ranked, content, percent, r) <==> thin) && CanBeJudged(d, r, dead)
    ensures GroupMeans(s, ranked, content, percent, d, thin, dead) && BestFirst(content, s)
  {
    hide Undersized, TooSmall, Better, BestFirst, Sorting.Sorted;
    SortedIsBestFirst(content, s);
    forall r | r in s
      ensures TooSmall(ranked, content, percent, r) <==> thin
      ensures r.source == "slskd" ==> (dead <==> r.peerName != "" && r.peerName in d.deadPeers)
      ensures dead && r.source != "slskd" ==> r.source == "audiobookbay" && d.complaints(r).Some? && d.complaints(r).value > 0
    {
      UndersizedMeans(ranked, content, percent, r);
      var at: nat, checks: nat :| Judge(d, r, at, checks).0 == dead;
    }
  }

  lemma InOneGroup(g: Groups, content: ContentType, i: nat, j: nat)
    requires BestFirst(content, g.liveFull) && BestFirst(content, g.liveThin)
    requires BestFirst(content, g.deadFull) && BestFirst(content, g.deadThin)
    requires var order := g.liveFull + g.liveThin + g.deadFull + g.deadThin;
             i < j < |order| && GroupAt(g, i) == GroupAt(g, j)
    ensures var order := g.liveFull + g.liveThin + g.deadFull + g.deadThin;
            NoWorse(content, order[i], order[j])
  {
    hide NoWorse;
    var a, b, c := |g.liveFull|, |g.liveFull| + |g.liveThin|, |g.liveFull| + |g.liveThin| + |g.deadFull|;
    var order := g.liveFull + g.liveThin + g.deadFull + g.deadThin;
    var part, from := if i < a then g.liveFull else if i < b then g.liveThin else if i < c then g.deadFull else g.deadThin,
                      if i < a then 0 else if i < b then a else if i < c then b else c;
    assert order[i] == part[i - from] && order[j] == part[j - from];
  }
}
