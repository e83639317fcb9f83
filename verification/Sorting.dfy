/**
Stable sorting, as the program's `sorted` and `list.sort` do it: the order is given as a strict
"comes before" test, and elements neither of which comes before the other keep their order.
*/
module Sorting {
  import opened Basics

  ghost predicate StrictWeakOrder<T(!new)>(before: (T, T) -> bool) {
    && (forall x :: !before(x, x))
    && (forall x, y, z :: before(x, z) ==> before(x, y) || before(y, z))
    && (forall x, y :: before(x, y) ==> !before(y, x))
  }

  /** If `y` is not before `x` and `x` is not before `z`, then `y` is not before `z`. */
  lemma NotBeforeTransitive<T(!new)>(before: (T, T) -> bool, y: T, x: T, z: T)
    requires StrictWeakOrder(before) && !before(y, x) && !before(x, z)
    ensures !before(y, z)
  {
  }

  lemma Asymmetric<T(!new)>(before: (T, T) -> bool, x: T, y: T)
    requires StrictWeakOrder(before) && before(x, y)
    ensures !before(y, x)
  {
  }

  ghost predicate Sorted<T>(s: seq<T>, before: (T, T) -> bool) {
    forall i, j :: 0 <= i < j < |s| ==> !before(s[j], s[i])
  }

  function Insert<T>(x: T, s: seq<T>, before: (T, T) -> bool): seq<T> {
    if s == [] then [x]
    else if before(s[0], x) then [s[0]] + Insert(x, s[1..], before)
    else [x] + s
  }

  function SortBy<T>(s: seq<T>, before: (T, T) -> bool): seq<T> {
    if s == [] then [] else Insert(s[0], SortBy(s[1..], before), before)
  }

  lemma {:induction false} InsertPermutes<T>(x: T, s: seq<T>, before: (T, T) -> bool)
    ensures multiset(Insert(x, s, before)) == multiset([x] + s)
  {
    if s != [] && before(s[0], x) {
      InsertPermutes(x, s[1..], before);
      assert s == [s[0]] + s[1..];
    }
  }

  lemma {:induction false} SortPermutes<T>(s: seq<T>, before: (T, T) -> bool)
    ensures multiset(SortBy(s, before)) == multiset(s)
    ensures |SortBy(s, before)| == |s|
    ensures forall x :: x in SortBy(s, before) <==> x in s
  {
    if s != [] {
      SortPermutes(s[1..], before);
      InsertPermutes(s[0], SortBy(s[1..], before), before);
      assert s == [s[0]] + s[1..];
    }
    assert |multiset(SortBy(s, before))| == |multiset(s)|;
    forall x ensures x in SortBy(s, before) <==> x in s {
      assert x in SortBy(s, before) <==> x in multiset(SortBy(s, before));
      assert x in s <==> x in multiset(s);
    }
  }

  lemma {:induction false} InsertSorted<T(!new)>(x: T, s: seq<T>, before: (T, T) -> bool)
    requires StrictWeakOrder(before) && Sorted(s, before)
    ensures Sorted(Insert(x, s, before), before)
  {
    hide StrictWeakOrder;
    if s != [] {
      if before(s[0], x) {
        Asymmetric(before, s[0], x);
        InsertSorted(x, s[1..], before);
        InsertPermutes(x, s[1..], before);
        var rest := Insert(x, s[1..], before);
        forall y | y in rest ensures !before(y, s[0]) {
          assert y in multiset([x] + s[1..]);
        }
      } else {
        forall j | 0 <= j < |s| ensures !before(s[j], x) {
          if j > 0 {
            NotBeforeTransitive(before, s[j], s[0], x);
          }
        }
      }
    }
  }

  lemma {:induction false} SortSorted<T(!new)>(s: seq<T>, before: (T, T) -> bool)
    requires StrictWeakOrder(before)
    ensures Sorted(SortBy(s, before), before)
  {
    hide StrictWeakOrder;
    if s != [] {
      SortSorted(s[1..], before);
      InsertSorted(s[0], SortBy(s[1..], before), before);
    }
  }

  /** What does not come after the first element comes before none. */
  lemma FirstIsLowest<T(!new)>(x: T, s: seq<T>, before: (T, T) -> bool)
    requires StrictWeakOrder(before) && Sorted(s, before) && s != [] && !before(s[0], x)
    ensures forall y :: y in s ==> !before(y, x)
  {
    hide StrictWeakOrder;
    forall y | y in s ensures !before(y, x) {
      if y != s[0] {
        NotBeforeTransitive(before, y, s[0], x);
      }
    }
  }

  lemma {:induction false} InsertFilter<T(!new)>(x: T, s: seq<T>, before: (T, T) -> bool, p: T -> bool)
    requires StrictWeakOrder(before) && Sorted(s, before)
    ensures Filter(Insert(x, s, before), p)
         == if p(x) then Insert(x, Filter(s, p), before) else Filter(s, p)
  {
    hide StrictWeakOrder;
    if s == [] {
    } else if before(s[0], x) {
      InsertFilter(x, s[1..], before, p);
      FilterCons(s[0], s[1..], p);
      FilterCons(s[0], Insert(x, s[1..], before), p);
      InsertAfter(s[0], x, Filter(s[1..], p), before);
      assert s == [s[0]] + s[1..];
    } else {
      FilterCons(x, s, p);
      FirstIsLowest(x, s, before);
      FilterMembers(s, p);
    }
  }

  lemma InsertAfter<T>(first: T, x: T, rest: seq<T>, before: (T, T) -> bool)
    requires before(first, x)
    ensures Insert(x, [first] + rest, before) == [first] + Insert(x, rest, before)
  {
    assert ([first] + rest)[1..] == rest;
  }

  lemma FilterCons<T>(x: T, s: seq<T>, p: T -> bool)
    ensures Filter([x] + s, p) == if p(x) then [x] + Filter(s, p) else Filter(s, p)
  {
    assert ([x] + s)[1..] == s;
  }

  /** Sorting and filtering commute: what is dropped does not disturb the order of the rest. */
  lemma {:induction false} SortFilter<T(!new)>(s: seq<T>, before: (T, T) -> bool, p: T -> bool)
    requires StrictWeakOrder(before)
    ensures Filter(SortBy(s, before), p) == SortBy(Filter(s, p), before)
  {
    hide StrictWeakOrder;
    if s != [] {
      SortFilter(s[1..], before, p);
      SortSorted(s[1..], before);
      InsertFilter(s[0], SortBy(s[1..], before), before, p);
      if p(s[0]) {
        assert Filter(s, p)[1..] == Filter(s[1..], p);
      } else {
        assert Filter(s, p) == Filter(s[1..], p);
      }
    }
  }

  lemma {:induction false} SortTied<T>(s: seq<T>, before: (T, T) -> bool)
    requires forall x, y :: x in s && y in s ==> !before(x, y)
    ensures SortBy(s, before) == s
  {
    if s != [] {
      SortTied(s[1..], before);
      assert s == [s[0]] + s[1..];
    }
  }

  /** The elements tied with `e`. */
  function TiedWith<T>(e: T, before: (T, T) -> bool): T -> bool {
    (x: T) => !before(x, e) && !before(e, x)
  }

  /** Stability: the elements tied with any `e` stand in the sorted sequence as they stood before. */
  lemma SortStable<T(!new)>(s: seq<T>, before: (T, T) -> bool, e: T)
    requires StrictWeakOrder(before)
    ensures Filter(SortBy(s, before), TiedWith(e, before)) == Filter(s, TiedWith(e, before))
  {
    var tied := TiedWith(e, before);
    SortFilter(s, before, tied);
    FilterMembers(s, tied);
    forall x, y | x in Filter(s, tied) && y in Filter(s, tied) ensures !before(x, y) {
      assert tied(x) && tied(y);
    }
    SortTied(Filter(s, tied), before);
  }

  // ----- Keys in the order of a number -----

  function LowerRank(rank: string -> int): (string, string) -> bool {
    (a: string, b: string) => rank(a) < rank(b)
  }

  /** The keys once each, lowest rank first, ties in any order. */
  ghost predicate InRankOrder(keys: set<string>, rank: string -> int, order: seq<string>) {
    && Distinct(order)
    && (forall k :: k in order <==> k in keys)
    && (forall i, j :: 0 <= i < j < |order| ==> rank(order[i]) <= rank(order[j]))
  }

  lemma SortedByRank(keys: set<string>, rank: string -> int, ids: seq<string>)
    requires Distinct(ids) && forall k :: k in ids <==> k in keys
    ensures InRankOrder(keys, rank, SortBy(ids, LowerRank(rank)))
  {
    SortPermutes(ids, LowerRank(rank));
    SortSorted(ids, LowerRank(rank));
    var order := SortBy(ids, LowerRank(rank));
    MultisetDistinct(ids, order);
    forall i, j | 0 <= i < j < |order| ensures rank(order[i]) <= rank(order[j]) {
      assert !LowerRank(rank)(order[j], order[i]);
    }
  }

  /** A set written out in some order. */
  ghost function Listing(s: set<string>): (ids: seq<string>)
    ensures Distinct(ids) && forall k :: k in ids <==> k in s
    decreases |s|
  {
    if s == {} then []
    else
      var k :| k in s;
      [k] + Listing(s - {k})
  }

  /** The keys of a dictionary, sorted as `sorted` does it. */
  method KeysByRank(keys: set<string>, rank: string -> int) returns (order: seq<string>)
    ensures InRankOrder(keys, rank, order)
  {
    var ids: seq<string>, left := [], keys;
    while left != {}
      invariant Distinct(ids) && left <= keys
      invariant forall k :: k in ids <==> k in keys && k !in left
      decreases |left|
    {
      var k :| k in left;
      ids, left := ids + [k], left - {k};
    }
    order := SortBy(ids, LowerRank(rank));
    SortedByRank(keys, rank, ids);
  }

  /** The first `n` keys in rank order rank no higher than the rest. */
  lemma PrefixRanksLowest(keys: set<string>, rank: string -> int, order: seq<string>, n: nat)
    requires InRankOrder(keys, rank, order) && n <= |order|
    ensures Distinct(order[..n])
    ensures forall e :: e in order[..n] ==> e in keys
    ensures forall i, j :: 0 <= i < j < n ==> rank(order[..n][i]) <= rank(order[..n][j])
    ensures forall e, k :: e in order[..n] && k in keys && k !in order[..n] ==> rank(e) <= rank(k)
  {
  }
}
