/** Shared vocabulary: optional values, filtering and distinctness of sequences. */
module Basics {

  datatype Option<+T> = None | Some(value: T)

  /** The elements of `s` that satisfy `p`, in order. */
  function Filter<T>(s: seq<T>, p: T -> bool): seq<T> {
    if s == [] then []
    else (if p(s[0]) then [s[0]] else []) + Filter(s[1..], p)
  }

  /** The first `n` elements, or all of them when there are fewer. */
  function Take<T>(s: seq<T>, n: nat): seq<T> {
    if n < |s| then s[..n] else s
  }

  /** The position of the first element that satisfies `p`, or the length. */
  function FirstIndex<T>(s: seq<T>, p: T -> bool): nat {
    if s == [] || p(s[0]) then 0 else 1 + FirstIndex(s[1..], p)
  }

  lemma {:induction false} FirstIndexProperties<T>(s: seq<T>, p: T -> bool)
    ensures FirstIndex(s, p) <= |s|
    ensures forall i :: 0 <= i < FirstIndex(s, p) ==> !p(s[i])
    ensures FirstIndex(s, p) < |s| ==> p(s[FirstIndex(s, p)])
  {
    if s != [] && !p(s[0]) {
      FirstIndexProperties(s[1..], p);
      forall i | 0 <= i < FirstIndex(s, p) ensures !p(s[i]) {
        if i > 0 {
          assert s[i] == s[1..][i - 1];
        }
      }
    }
  }

  lemma {:induction false} FirstIndexIs<T>(s: seq<T>, p: T -> bool, n: nat)
    requires n <= |s|
    requires forall i :: 0 <= i < n ==> !p(s[i])
    requires n < |s| ==> p(s[n])
    ensures FirstIndex(s, p) == n
  {
    if n > 0 {
      forall i | 0 <= i < n - 1 ensures !p(s[1..][i]) {
        assert s[1..][i] == s[i + 1];
      }
      FirstIndexIs(s[1..], p, n - 1);
    }
  }

  /** The complement of a test. */
  function Not<T>(p: T -> bool): T -> bool {
    (x: T) => !p(x)
  }

  ghost predicate Distinct<T>(s: seq<T>) {
    forall i, j :: 0 <= i < j < |s| ==> s[i] != s[j]
  }

  lemma {:induction false} FilterMembers<T>(s: seq<T>, p: T -> bool)
    ensures forall x :: x in Filter(s, p) <==> x in s && p(x)
    ensures |Filter(s, p)| <= |s|
  {
    if s != [] {
      FilterMembers(s[1..], p);
      assert s == [s[0]] + s[1..];
    }
  }

  lemma {:induction false} FilterMember<T>(s: seq<T>, p: T -> bool, x: T)
    requires x in Filter(s, p)
    ensures x in s && p(x)
  {
    if !(p(s[0]) && x == s[0]) {
      FilterMember(s[1..], p, x);
    }
  }

  /** Exactly one element satisfies `p`, and it is the one at `k`. */
  lemma {:induction false} FilterOnly<T>(s: seq<T>, p: T -> bool, k: nat)
    requires k < |s| && p(s[k])
    ensures |Filter(s, p)| >= 1
    ensures |Filter(s, p)| == 1 <==> forall i :: 0 <= i < |s| && i != k ==> !p(s[i])
    ensures |Filter(s, p)| == 1 ==> Filter(s, p)[0] == s[k]
  {
    if k == 0 {
      if Filter(s[1..], p) == [] {
        forall i | 1 <= i < |s| ensures !p(s[i]) {
          FilterEmpty(s[1..], p, i - 1);
        }
      } else {
        FilterMember(s[1..], p, Filter(s[1..], p)[0]);
        var i :| 0 <= i < |s[1..]| && s[1..][i] == Filter(s[1..], p)[0];
        assert p(s[i + 1]);
      }
    } else {
      FilterOnly(s[1..], p, k - 1);
      if |Filter(s, p)| == 1 {
        forall i | 0 <= i < |s| && i != k ensures !p(s[i]) {
          assert i > 0 ==> s[i] == s[1..][i - 1];
        }
      } else if !p(s[0]) {
        var i :| 0 <= i < |s[1..]| && i != k - 1 && p(s[1..][i]);
        assert p(s[i + 1]);
      }
    }
  }

  lemma {:induction false} FilterEmpty<T>(s: seq<T>, p: T -> bool, i: nat)
    requires Filter(s, p) == [] && i < |s|
    ensures !p(s[i])
  {
    if i > 0 {
      FilterEmpty(s[1..], p, i - 1);
    }
  }

  lemma {:induction false} FilterAppend<T>(a: seq<T>, b: seq<T>, p: T -> bool)
    ensures Filter(a + b, p) == Filter(a, p) + Filter(b, p)
  {
    if a == [] {
      assert a + b == b;
    } else {
      assert (a + b)[0] == a[0];
      assert (a + b)[1..] == a[1..] + b;
      FilterAppend(a[1..], b, p);
      var head := if p(a[0]) then [a[0]] else [];
      assert head + (Filter(a[1..], p) + Filter(b, p)) == (head + Filter(a[1..], p)) + Filter(b, p);
    }
  }

  /** Filtering by a weaker test first changes nothing. */
  lemma {:induction false} FilterThrough<T>(s: seq<T>, weak: T -> bool, strong: T -> bool)
    requires forall x :: x in s && strong(x) ==> weak(x)
    ensures Filter(Filter(s, weak), strong) == Filter(s, strong)
  {
    if s != [] {
      FilterThrough(s[1..], weak, strong);
      FilterAppend(if weak(s[0]) then [s[0]] else [], Filter(s[1..], weak), strong);
      assert Filter([s[0]], strong) == if strong(s[0]) then [s[0]] else [];
    }
  }

  lemma {:induction false} FilterSame<T>(s: seq<T>, p: T -> bool, q: T -> bool)
    requires forall x :: x in s ==> (p(x) <==> q(x))
    ensures Filter(s, p) == Filter(s, q)
  {
    if s != [] {
      FilterSame(s[1..], p, q);
    }
  }

  lemma {:induction false} FilterAll<T>(s: seq<T>, p: T -> bool)
    requires forall x :: x in s ==> p(x)
    ensures Filter(s, p) == s
  {
    if s != [] {
      FilterAll(s[1..], p);
      assert s == [s[0]] + s[1..];
    }
  }

  lemma {:induction false} FilterNone<T>(s: seq<T>, p: T -> bool)
    requires forall x :: x in s ==> !p(x)
    ensures Filter(s, p) == []
  {
    if s != [] {
      FilterNone(s[1..], p);
    }
  }

  /** Splitting by a test loses and duplicates nothing. */
  lemma {:induction false} FilterSplits<T>(s: seq<T>, p: T -> bool)
    ensures multiset(Filter(s, p)) + multiset(Filter(s, Not(p))) == multiset(s)
  {
    if s != [] {
      FilterSplits(s[1..], p);
      assert s == [s[0]] + s[1..];
    }
  }

  ghost predicate Pairwise<T>(s: seq<T>, related: (T, T) -> bool) {
    forall i, j :: 0 <= i < j < |s| ==> related(s[i], s[j])
  }

  /** What holds between any earlier and any later element still holds after filtering. */
  lemma {:induction false} FilterPairwise<T>(s: seq<T>, p: T -> bool, related: (T, T) -> bool)
    requires Pairwise(s, related)
    ensures Pairwise(Filter(s, p), related)
  {
    if s != [] {
      FilterPairwise(s[1..], p, related);
      var rest := Filter(s[1..], p);
      forall j | 0 <= j < |rest| ensures related(s[0], rest[j]) {
        FilterMember(s[1..], p, rest[j]);
        var k :| 0 <= k < |s[1..]| && s[1..][k] == rest[j];
        assert s[k + 1] == rest[j];
      }
    }
  }

  lemma MultisetDistinct<T>(a: seq<T>, b: seq<T>)
    requires multiset(a) == multiset(b)
    requires Distinct(a)
    ensures Distinct(b)
  {
    forall i, j | 0 <= i < j < |b| ensures b[i] != b[j] {
      if b[i] == b[j] {
        var front, back := b[..j], b[j..];
        assert b == front + back;
        assert front[i] in front && back[0] in back;
        assert multiset(b)[b[i]] >= 2;
        DistinctCount(a, b[i]);
      }
    }
  }

  lemma {:induction false} DistinctCount<T>(s: seq<T>, x: T)
    requires Distinct(s)
    ensures multiset(s)[x] == if x in s then 1 else 0
  {
    if s != [] {
      assert s == [s[0]] + s[1..];
      assert s[0] !in s[1..];
      DistinctCount(s[1..], x);
    }
  }

  /** The elements of a duplicate-free sequence are as many as its length. */
  lemma {:induction false} DistinctSize<T>(s: seq<T>)
    requires Distinct(s)
    ensures |(set x | x in s)| == |s|
  {
    if s != [] {
      DistinctSize(s[1..]);
      assert (set x | x in s) == {s[0]} + (set x | x in s[1..]);
      assert s[0] !in s[1..];
    }
  }

  lemma {:induction false} SubsetSize<T>(a: set<T>, b: set<T>)
    requires a <= b
    ensures |a| <= |b|
    decreases b
  {
    if a != {} {
      var x :| x in a;
      SubsetSize(a - {x}, b - {x});
    }
  }
}
