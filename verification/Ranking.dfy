/**
The order in which a source's matching releases are tried: sorted by preference, copies far smaller
than the others moved behind, then releases from sources known to be dead moved behind.
*/
module Ranking {
  import opened Basics
  import opened Releases
  import Sorting

  // ----- Undersized copies -----

  function KnownSizes(releases: seq<Release>): seq<int> {
    if releases == [] then []
    else
      var first := releases[0].sizeBytes;
      (if first.Some? && first.value > 0 then [first.value] else []) + KnownSizes(releases[1..])
  }

  lemma {:induction false} KnownSizesMembers(releases: seq<Release>)
    ensures forall size :: size in KnownSizes(releases) ==> size > 0
    ensures forall size :: size in KnownSizes(releases) ==>
      exists i :: 0 <= i < |releases| && releases[i].sizeBytes == Some(size)
  {
    if releases != [] {
      KnownSizesMembers(releases[1..]);
      forall size | size in KnownSizes(releases)
        ensures exists i :: 0 <= i < |releases| && releases[i].sizeBytes == Some(size)
      {
        if size in KnownSizes(releases[1..]) {
          var i :| 0 <= i < |releases[1..]| && releases[1..][i].sizeBytes == Some(size);
          assert releases[i + 1].sizeBytes == Some(size);
        } else {
          assert releases[0].sizeBytes == Some(size);
        }
      }
    }
  }

  function Smaller(a: int, b: int): bool {
    a < b
  }

  /** Twice the median: the middle size doubled, or the sum of the two in the middle. */
  function TwiceMedian(sizes: seq<int>): int
    requires sizes != []
  {
    Sorting.SortPermutes(sizes, Smaller);
    var sorted := Sorting.SortBy(sizes, Smaller);
    var mid := |sizes| / 2;
    if |sizes| % 2 == 1 then 2 * sorted[mid] else sorted[mid - 1] + sorted[mid]
  }

  /** Sizes at most 2.5 times the median; what lies above is taken for a pack. */
  function NotOutlier(sizes: seq<int>): int -> bool
    requires sizes != []
  {
    (size: int) => 4 * size <= 5 * TwiceMedian(sizes)
  }

  function Largest(sizes: seq<int>): (m: int)
    requires sizes != []
    ensures m in sizes
    ensures forall size :: size in sizes ==> size <= m
  {
    if |sizes| == 1 then sizes[0]
    else
      var rest := Largest(sizes[1..]);
      assert sizes == [sizes[0]] + sizes[1..];
      if sizes[0] >= rest then sizes[0] else rest
  }

  lemma SmallestFirst(sizes: seq<int>)
    requires sizes != []
    ensures var sorted := Sorting.SortBy(sizes, Smaller);
            && |sorted| == |sizes|
            && sorted[0] in sizes
            && (forall i :: 0 <= i < |sorted| ==> sorted[0] <= sorted[i])
            && forall size :: size in sizes ==> sorted[0] <= size
  {
    var sorted := Sorting.SortBy(sizes, Smaller);
    Sorting.SortPermutes(sizes, Smaller);
    Sorting.SortSorted(sizes, Smaller);
    hide Sorting.SortBy;
    forall i | 0 <= i < |sorted| ensures sorted[0] <= sorted[i] {
      assert i == 0 || !Smaller(sorted[i], sorted[0]);
    }
    assert sorted[0] in sorted;
  }

  lemma TwiceMedianBounds(sizes: seq<int>) returns (smallest: int)
    requires sizes != []
    ensures smallest in sizes
    ensures forall size :: size in sizes ==> smallest <= size
    ensures 2 * smallest <= TwiceMedian(sizes)
  {
    hide Sorting.SortBy;
    SmallestFirst(sizes);
    smallest := Sorting.SortBy(sizes, Smaller)[0];
  }

  /** Among known (positive) sizes there is always one that is no outlier, so the largest exists. */
  lemma ReferenceExists(sizes: seq<int>)
    requires sizes != [] && forall size :: size in sizes ==> size > 0
    ensures Filter(sizes, NotOutlier(sizes)) != []
  {
    var smallest := TwiceMedianBounds(sizes);
    FilterMembers(sizes, NotOutlier(sizes));
    assert smallest in Filter(sizes, NotOutlier(sizes));
  }

  function ReferenceSize(releases: seq<Release>): int
    requires KnownSizes(releases) != []
  {
    var sizes := KnownSizes(releases);
    KnownSizesMembers(releases);
    ReferenceExists(sizes);
    Largest(Filter(sizes, NotOutlier(sizes)))
  }

  /** The size guard compares only audiobooks, and only when at least two sizes are known. */
  predicate GuardApplies(releases: seq<Release>, content: ContentType) {
    content == Audiobook && |KnownSizes(releases)| >= 2
  }

  /** Under `percent` of the reference size. */
  predicate Undersized(releases: seq<Release>, content: ContentType, percent: int, r: Release) {
    && GuardApplies(releases, content)
    && r.sizeBytes.Some?
    && 0 < r.sizeBytes.value
    && 100 * r.sizeBytes.value < percent * ReferenceSize(releases)
  }

  function IsThin(releases: seq<Release>, content: ContentType, percent: int): Release -> bool {
    (r: Release) => Undersized(releases, content, percent, r)
  }

  function UndersizedCopies(releases: seq<Release>, content: ContentType, percent: int): seq<Release> {
    Filter(releases, IsThin(releases, content, percent))
  }

  /** The reference size is the size of one of the copies. */
  lemma ReferenceIsASize(releases: seq<Release>)
    requires KnownSizes(releases) != []
    ensures ReferenceSize(releases) > 0
    ensures exists r :: r in releases && r.sizeBytes == Some(ReferenceSize(releases))
  {
    hide TwiceMedian;
    var sizes := KnownSizes(releases);
    KnownSizesMembers(releases);
    ReferenceExists(sizes);
    FilterMembers(sizes, NotOutlier(sizes));
    var reference := ReferenceSize(releases);
    assert reference in sizes;
    var i :| 0 <= i < |releases| && releases[i].sizeBytes == Some(reference);
    assert releases[i] in releases;
  }

  lemma UndersizedIsSmaller(releases: seq<Release>, content: ContentType, percent: int, r: Release)
    requires 0 <= percent <= 100 && Undersized(releases, content, percent, r)
    ensures r.sizeBytes.Some? && 0 < r.sizeBytes.value < ReferenceSize(releases) && percent > 0
  {
    hide ReferenceSize, KnownSizes;
    ShareIsSmaller(r.sizeBytes.value, percent, ReferenceSize(releases));
  }

  lemma ShareIsSmaller(size: int, percent: int, reference: int)
    requires 0 <= percent <= 100 && 0 < 100 * size < percent * reference
    ensures percent > 0 && size < reference
  {
    assert reference <= 0 ==> percent * reference <= 0;
    assert percent * reference <= 100 * reference;
  }

  /**
  With two or more known sizes, the copy the reference size was taken from is never undersized, nor
  is any copy as large, whatever the setting from 0 to 100; at 0 nothing is.
  */
  lemma ReferenceCopyIsKept(releases: seq<Release>, content: ContentType, percent: int)
    requires 0 <= percent <= 100 && |KnownSizes(releases)| >= 2
    ensures exists r :: r in releases && r.sizeBytes == Some(ReferenceSize(releases))
                        && !Undersized(releases, content, percent, r)
    ensures forall r :: r in UndersizedCopies(releases, content, percent) ==>
      r.sizeBytes.Some? && 0 < r.sizeBytes.value < ReferenceSize(releases)
    ensures percent == 0 ==> UndersizedCopies(releases, content, percent) == []
    ensures UndersizedCopies(releases, content, percent) != releases
  {
    hide Undersized, ReferenceSize, KnownSizes;
    ReferenceIsASize(releases);
    var kept :| kept in releases && kept.sizeBytes == Some(ReferenceSize(releases));
    if Undersized(releases, content, percent, kept) {
      UndersizedIsSmaller(releases, content, percent, kept);
      assert false;
    }
    FilterMembers(releases, IsThin(releases, content, percent));
    forall r | r in UndersizedCopies(releases, content, percent)
      ensures r.sizeBytes.Some? && 0 < r.sizeBytes.value < ReferenceSize(releases) && percent > 0
    {
      assert IsThin(releases, content, percent)(r);
      UndersizedIsSmaller(releases, content, percent, r);
    }
    assert kept !in UndersizedCopies(releases, content, percent);
    if UndersizedCopies(releases, content, percent) != [] {
      assert UndersizedCopies(releases, content, percent)[0] in UndersizedCopies(releases, content, percent);
    }
  }

  /** As the program writes it: what is not among the thin copies, then the thin copies. */
  function DemoteUndersized(ranked: seq<Release>, content: ContentType, percent: int): seq<Release> {
    var thin := UndersizedCopies(ranked, content, percent);
    Filter(ranked, (r: Release) => r !in thin) + thin
  }

  lemma DemoteUndersizedSplits(ranked: seq<Release>, content: ContentType, percent: int)
    ensures DemoteUndersized(ranked, content, percent)
         == Filter(ranked, Not(IsThin(ranked, content, percent))) + Filter(ranked, IsThin(ranked, content, percent))
  {
    hide Undersized;
    var thin := UndersizedCopies(ranked, content, percent);
    FilterMembers(ranked, IsThin(ranked, content, percent));
    FilterSame(ranked, (r: Release) => r !in thin, Not(IsThin(ranked, content, percent)));
  }

  // ----- Dead sources -----

  const MAX_COMPLAINT_CHECKS := 5

  /** Complaint counts on a release's page (None: it cannot be read), peers that failed lately, and
      how many releases are looked at before the search deadline passes. */
  datatype Deadness = Deadness(complaints: Release -> Option<nat>, deadPeers: set<string>, inTime: nat)

  /** Whether the release counts as dead, and whether its page had to be read to tell. */
  function Judge(d: Deadness, r: Release, at: nat, checks: nat): (verdict: (bool, bool)) {
    if r.source == "slskd" then (r.peerName != "" && r.peerName in d.deadPeers, false)
    else if r.source == "audiobookbay" && checks < MAX_COMPLAINT_CHECKS then
      if at >= d.inTime then (false, false)
      else (d.complaints(r).Some? && d.complaints(r).value > 0, true)
    else (false, false)
  }

  /** Judging the releases from position `at` on, after `checks` pages have been read. */
  function Verdicts(d: Deadness, ranked: seq<Release>, at: nat, checks: nat): (flags: seq<bool>)
    requires at <= |ranked|
    ensures |flags| == |ranked| - at
    decreases |ranked| - at
  {
    if at == |ranked| then []
    else
      var (dead, read) := Judge(d, ranked[at], at, checks);
      [dead] + Verdicts(d, ranked, at + 1, if read then checks + 1 else checks)
  }

  function PagesRead(d: Deadness, ranked: seq<Release>, at: nat, checks: nat): nat
    requires at <= |ranked|
    decreases |ranked| - at
  {
    if at == |ranked| then checks
    else
      var (_, read) := Judge(d, ranked[at], at, checks);
      PagesRead(d, ranked, at + 1, if read then checks + 1 else checks)
  }

  /** The elements whose flag is `want`, in order. */
  function Select<T>(s: seq<T>, flags: seq<bool>, want: bool): seq<T>
    requires |s| == |flags|
  {
    if s == [] then []
    else (if flags[0] == want then [s[0]] else []) + Select(s[1..], flags[1..], want)
  }

  method DemoteDeadSources(ranked: seq<Release>, d: Deadness) returns (result: seq<Release>, pages: nat)
    ensures var flags := Verdicts(d, ranked, 0, 0);
            result == Select(ranked, flags, false) + Select(ranked, flags, true)
    ensures pages == PagesRead(d, ranked, 0, 0) && pages <= 5
  {
    hide Judge;
    var live: seq<Release>, dead: seq<Release> := [], [];
    pages := 0;
    ghost var flags := Verdicts(d, ranked, 0, 0);
    for k := 0 to |ranked|
      invariant flags[k..] == Verdicts(d, ranked, k, pages)
      invariant PagesRead(d, ranked, 0, 0) == PagesRead(d, ranked, k, pages)
      invariant pages <= MAX_COMPLAINT_CHECKS
      invariant live == Select(ranked[..k], flags[..k], false)
      invariant dead == Select(ranked[..k], flags[..k], true)
    {
      var (isDead, read) := Judge(d, ranked[k], k, pages);
      ReadsWithinLimit(d, ranked[k], k, pages);
      assert flags[k] == flags[k..][0] == isDead;
      assert flags[k + 1..] == flags[k..][1..];
      SelectNext(ranked, flags, k, false);
      SelectNext(ranked, flags, k, true);
      if read {
        pages := pages + 1;
      }
      if isDead {
        dead := dead + [ranked[k]];
      } else {
        live := live + [ranked[k]];
      }
    }
    assert ranked[..|ranked|] == ranked && flags[..|ranked|] == flags;
    result := live + dead;
  }

  lemma ReadsWithinLimit(d: Deadness, r: Release, at: nat, checks: nat)
    ensures Judge(d, r, at, checks).1 ==> checks < MAX_COMPLAINT_CHECKS
  {
  }

  lemma {:induction false} SelectAppend<T>(a: seq<T>, fa: seq<bool>, b: seq<T>, fb: seq<bool>, want: bool)
    requires |a| == |fa| && |b| == |fb|
    ensures Select(a + b, fa + fb, want) == Select(a, fa, want) + Select(b, fb, want)
  {
    if a == [] {
      assert a + b == b && fa + fb == fb;
    } else {
      SelectAppend(a[1..], fa[1..], b, fb, want);
      assert (a + b)[1..] == a[1..] + b && (fa + fb)[1..] == fa[1..] + fb;
      var head := if fa[0] == want then [a[0]] else [];
      assert head + (Select(a[1..], fa[1..], want) + Select(b, fb, want))
          == (head + Select(a[1..], fa[1..], want)) + Select(b, fb, want);
    }
  }

  lemma SelectNext<T>(s: seq<T>, flags: seq<bool>, k: nat, want: bool)
    requires |s| == |flags| && k < |s|
    ensures Select(s[..k + 1], flags[..k + 1], want)
         == Select(s[..k], flags[..k], want) + if flags[k] == want then [s[k]] else []
  {
    assert s[..k + 1] == s[..k] + [s[k]] && flags[..k + 1] == flags[..k] + [flags[k]];
    SelectAppend(s[..k], flags[..k], [s[k]], [flags[k]], want);
    assert [s[k]][1..] == [];
  }

  lemma {:induction false} SelectMembers<T>(s: seq<T>, flags: seq<bool>, want: bool)
    requires |s| == |flags|
    ensures forall x :: x in Select(s, flags, want) ==>
      x in s && exists i :: 0 <= i < |s| && s[i] == x && flags[i] == want
  {
    if s != [] {
      SelectMembers(s[1..], flags[1..], want);
      assert s == [s[0]] + s[1..];
      forall x | x in Select(s, flags, want) ensures exists i :: 0 <= i < |s| && s[i] == x && flags[i] == want {
        if x in Select(s[1..], flags[1..], want) {
          var i :| 0 <= i < |s[1..]| && s[1..][i] == x && flags[1..][i] == want;
          assert s[i + 1] == x && flags[i + 1] == want;
        }
      }
    }
  }

  lemma {:induction false} SelectSplits<T>(s: seq<T>, flags: seq<bool>)
    requires |s| == |flags|
    ensures multiset(Select(s, flags, false)) + multiset(Select(s, flags, true)) == multiset(s)
  {
    if s != [] {
      SelectSplits(s[1..], flags[1..]);
      assert s == [s[0]] + s[1..];
      assert multiset(s) == multiset{s[0]} + multiset(s[1..]);
      var kept := Select(s[1..], flags[1..], flags[0]);
      assert Select(s, flags, flags[0]) == [s[0]] + kept;
      assert Select(s, flags, !flags[0]) == [] + Select(s[1..], flags[1..], !flags[0]);
    }
  }

  lemma {:induction false} SelectSorted<T>(s: seq<T>, flags: seq<bool>, want: bool, before: (T, T) -> bool)
    requires |s| == |flags| && Sorting.Sorted(s, before)
    ensures Sorting.Sorted(Select(s, flags, want), before)
  {
    if s != [] {
      SelectSorted(s[1..], flags[1..], want, before);
      SelectMembers(s[1..], flags[1..], want);
      var rest := Select(s[1..], flags[1..], want);
      forall j | 0 <= j < |rest| ensures !before(rest[j], s[0]) {
        assert rest[j] in s[1..];
        var k :| 0 <= k < |s[1..]| && s[1..][k] == rest[j];
        assert s[k + 1] == rest[j];
      }
    }
  }

  lemma FilterSorted<T>(s: seq<T>, test: T -> bool, before: (T, T) -> bool)
    requires Sorting.Sorted(s, before)
    ensures Sorting.Sorted(Filter(s, test), before)
  {
    var inOrder := (a: T, b: T) => !before(b, a);
    assert Pairwise(s, inOrder);
    FilterPairwise(s, test, inOrder);
    var kept := Filter(s, test);
    forall i, j | 0 <= i < j < |kept| ensures !before(kept[j], kept[i]) {
      assert inOrder(kept[i], kept[j]);
    }
  }

  // ----- The final ranking -----

  function Ranked(candidates: seq<Release>, content: ContentType): seq<Release> {
    Sorting.SortBy(candidates, Better(content))
  }

  function FinalRanking(candidates: seq<Release>, content: ContentType, percent: int, d: Deadness): seq<Release> {
    var demoted := DemoteUndersized(Ranked(candidates, content), content, percent);
    var flags := Verdicts(d, demoted, 0, 0);
    Select(demoted, flags, false) + Select(demoted, flags, true)
  }

  /** The ranking falls into four groups, in this order, each of them best first. */
  datatype Groups = Groups(liveFull: seq<Release>, liveThin: seq<Release>, deadFull: seq<Release>, deadThin: seq<Release>)

  ghost predicate GroupsOf(g: Groups, candidates: seq<Release>, content: ContentType, percent: int, d: Deadness) {
    var ranked := Ranked(candidates, content);
    && FinalRanking(candidates, content, percent, d) == g.liveFull + g.liveThin + g.deadFull + g.deadThin
    && (forall r :: r in g.liveFull + g.deadFull ==> !Undersized(ranked, content, percent, r))
    && (forall r :: r in g.liveThin + g.deadThin ==> Undersized(ranked, content, percent, r))
    && Sorting.Sorted(g.liveFull, Better(content)) && Sorting.Sorted(g.liveThin, Better(content))
    && Sorting.Sorted(g.deadFull, Better(content)) && Sorting.Sorted(g.deadThin, Better(content))
    && (forall r :: r in g.liveFull + g.liveThin ==> CanBeJudged(d, r, false))
    && (forall r :: r in g.deadFull + g.deadThin ==> CanBeJudged(d, r, true))
  }

  /** At some position and after some pages the release is judged dead, or not. */
  ghost predicate CanBeJudged(d: Deadness, r: Release, dead: bool) {
    exists at: nat, checks: nat :: Judge(d, r, at, checks).0 == dead
  }

  lemma {:induction false} JudgedSomehow(d: Deadness, ranked: seq<Release>, at: nat, checks: nat, i: nat)
    requires at <= i < |ranked|
    ensures CanBeJudged(d, ranked[i], Verdicts(d, ranked, at, checks)[i - at])
    decreases i - at
  {
    hide Judge;
    var (dead, read) := Judge(d, ranked[at], at, checks);
    if at < i {
      JudgedSomehow(d, ranked, at + 1, if read then checks + 1 else checks, i);
    } else {
      assert Judge(d, ranked[i], at, checks).0 == dead;
    }
  }

  /** The two size groups, before dead sources are looked at. */
  lemma SizeGroups(candidates: seq<Release>, content: ContentType, percent: int)
    ensures var ranked := Ranked(candidates, content);
            var full, thin := Filter(ranked, Not(IsThin(ranked, content, percent))),
                              Filter(ranked, IsThin(ranked, content, percent));
            && DemoteUndersized(ranked, content, percent) == full + thin
            && multiset(full) + multiset(thin) == multiset(candidates)
            && Sorting.Sorted(full, Better(content)) && Sorting.Sorted(thin, Better(content))
            && (forall r :: r in full ==> !Undersized(ranked, content, percent, r))
            && (forall r :: r in thin ==> Undersized(ranked, content, percent, r))
  {
    hide Undersized, Better, DemoteUndersized;
    var ranked := Ranked(candidates, content);
    var thin := IsThin(ranked, content, percent);
    Sorting.SortPermutes(candidates, Better(content));
    BetterIsOrder(content);
    Sorting.SortSorted(candidates, Better(content));
    DemoteUndersizedSplits(ranked, content, percent);
    FilterSplits(ranked, thin);
    FilterMembers(ranked, thin);
    FilterMembers(ranked, Not(thin));
    FilterSorted(ranked, thin, Better(content));
    FilterSorted(ranked, Not(thin), Better(content));
  }

  /** Moving the flagged elements of `a + b` behind keeps the two parts apart on either side. */
  lemma SelectHalves<T>(a: seq<T>, b: seq<T>, flags: seq<bool>)
    requires |flags| == |a| + |b|
    ensures var fa, fb := flags[..|a|], flags[|a|..];
            && Select(a + b, flags, false) + Select(a + b, flags, true)
               == Select(a, fa, false) + Select(b, fb, false) + Select(a, fa, true) + Select(b, fb, true)
            && multiset(Select(a + b, flags, false) + Select(a + b, flags, true)) == multiset(a + b)
  {
    var fa, fb := flags[..|a|], flags[|a|..];
    assert flags == fa + fb;
    SelectAppend(a, fa, b, fb, false);
    SelectAppend(a, fa, b, fb, true);
    SelectSplits(a + b, flags);
  }

  lemma SelectGroup(s: seq<Release>, flags: seq<bool>, want: bool, content: ContentType, d: Deadness)
    requires |s| == |flags| && Sorting.Sorted(s, Better(content))
    requires forall i :: 0 <= i < |s| ==> CanBeJudged(d, s[i], flags[i])
    ensures Sorting.Sorted(Select(s, flags, want), Better(content))
    ensures forall r :: r in Select(s, flags, want) ==> r in s && CanBeJudged(d, r, want)
  {
    hide CanBeJudged, Better, Sorting.Sorted;
    SelectMembers(s, flags, want);
    SelectSorted(s, flags, want, Better(content));
  }

  lemma HalvesJudged(d: Deadness, a: seq<Release>, b: seq<Release>)
    ensures var flags := Verdicts(d, a + b, 0, 0);
            && (forall i :: 0 <= i < |a| ==> CanBeJudged(d, a[i], flags[..|a|][i]))
            && (forall i :: 0 <= i < |b| ==> CanBeJudged(d, b[i], flags[|a|..][i]))
  {
    hide Verdicts, CanBeJudged;
    var flags := Verdicts(d, a + b, 0, 0);
    forall i | 0 <= i < |a| ensures CanBeJudged(d, a[i], flags[..|a|][i]) {
      JudgedSomehow(d, a + b, 0, 0, i);
    }
    forall i | 0 <= i < |b| ensures CanBeJudged(d, b[i], flags[|a|..][i]) {
      JudgedSomehow(d, a + b, 0, 0, |a| + i);
      assert (a + b)[|a| + i] == b[i] && flags[|a|..][i] == flags[|a| + i];
    }
  }

  /** Ranking loses and invents nothing, and keeps the preference order inside each group. */
  lemma RankingIsFourSortedGroups(candidates: seq<Release>, content: ContentType, percent: int, d: Deadness)
    returns (g: Groups)
    ensures GroupsOf(g, candidates, content, percent, d)
    ensures multiset(FinalRanking(candidates, content, percent, d)) == multiset(candidates)
  {
    hide Undersized, Verdicts, Select, Better, DemoteUndersized, Filter, Ranked, Sorting.Sorted, IsThin, CanBeJudged;
    var ranked := Ranked(candidates, content);
    var a, b := Filter(ranked, Not(IsThin(ranked, content, percent))), Filter(ranked, IsThin(ranked, content, percent));
    SizeGroups(candidates, content, percent);
    var flags := Verdicts(d, a + b, 0, 0);
    SelectHalves(a, b, flags);
    var fa, fb := flags[..|a|], flags[|a|..];
    HalvesJudged(d, a, b);
    g := Groups(Select(a, fa, false), Select(b, fb, false), Select(a, fa, true), Select(b, fb, true));
    SelectGroup(a, fa, false, content, d);
    SelectGroup(a, fa, true, content, d);
    SelectGroup(b, fb, false, content, d);
    SelectGroup(b, fb, true, content, d);
  }
}
