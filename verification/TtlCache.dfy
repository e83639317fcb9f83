/**
The in-memory cache with expiry: bounded, evicting the soonest to expire when full. It refines a plain
map that remembers for each key what was last set, when and for how long, forgetting only what was
invalidated.
*/
module TtlCache {
  import opened Basics
  import opened Sorting

  datatype Entry<V> = Entry(value: V, expiresAt: int)

  /** The plain timed map: what was last set under a key, until it is invalidated. */
  datatype Timed<V> = Timed(value: V, setAt: int, ttl: int) {
    function Until(): int { setAt + ttl }
  }

  type Cache<V> = map<string, Entry<V>>
  type Plain<V> = map<string, Timed<V>>

  function ExpiryRank<V>(m: Cache<V>): string -> int {
    (k: string) => if k in m then m[k].expiresAt else 0
  }

  function WithPrefix(keys: set<string>, prefix: string): set<string> {
    set k | k in keys && prefix <= k
  }

  predicate StartsWith(k: string, prefix: string) {
    |k| >= |prefix| && forall i :: 0 <= i < |prefix| ==> k[i] == prefix[i]
  }

  /** One tenth of the entries, and at least one. */
  function BatchSize(n: nat): nat {
    if n / 10 > 1 then n / 10 else 1
  }

  /** `victims` are the entries that expire soonest, one batch of them. */
  ghost predicate Batch<V>(m: Cache<V>, victims: seq<string>) {
    && Distinct(victims)
    && |victims| == (if m == map[] then 0 else BatchSize(|m|))
    && (forall e :: e in victims ==> e in m)
    && (forall e, k :: e in victims && k in m && k !in victims ==> m[e].expiresAt <= m[k].expiresAt)
  }

  /** A batch is the tenth part, rounded down, of a cache of ten or more, and one entry of a smaller one. */
  lemma BatchIsTenth<V>(m: Cache<V>, victims: seq<string>)
    requires Batch(m, victims)
    ensures |m| >= 10 ==> 10 * |victims| <= |m| < 10 * |victims| + 10
    ensures 0 < |m| < 10 ==> |victims| == 1
    ensures |m| == 0 ==> victims == []
    ensures forall i, k :: 0 <= i < |victims| && k in m && k !in victims ==>
      victims[i] in m && m[victims[i]].expiresAt <= m[k].expiresAt
  {
  }

  lemma PrefixIsBatch<V>(m: Cache<V>, order: seq<string>, n: nat)
    requires InRankOrder(m.Keys, ExpiryRank(m), order)
    requires m != map[] && n == BatchSize(|m|)
    ensures n <= |order| && Batch(m, order[..n])
  {
    DistinctSize(order);
    assert (set k | k in order) == m.Keys;
    PrefixRanksLowest(m.Keys, ExpiryRank(m), order, n);
    forall e, k | e in order[..n] && k in m && k !in order[..n] ensures m[e].expiresAt <= m[k].expiresAt {
      assert ExpiryRank(m)(e) <= ExpiryRank(m)(k);
    }
  }

  function Members(ids: seq<string>): set<string> {
    set id | id in ids
  }

  lemma SizeAfter<V>(m: Cache<V>, ids: seq<string>)
    requires Distinct(ids) && forall id :: id in ids ==> id in m
    ensures |m - Members(ids)| == |m| - |ids|
  {
    DistinctSize(ids);
    assert (m - Members(ids)).Keys == m.Keys - Members(ids);
    assert |m.Keys - Members(ids)| == |m.Keys| - |Members(ids)|;
  }

  /**
  The cache holds exactly the entries of the plain map that were neither evicted nor dropped after
  they expired.
  */
  ghost predicate Refines<V>(cache: Cache<V>, plain: Plain<V>, evicted: set<string>, clock: int) {
    && (forall k :: k in cache ==> k in plain && k !in evicted && cache[k] == Entry(plain[k].value, plain[k].Until()))
    && (forall k :: k in plain && k !in cache ==> k in evicted || plain[k].Until() < clock)
  }

  /** What the plain map would answer. */
  function Answer<V>(plain: Plain<V>, k: string, now: int): Option<V> {
    if k in plain && now <= plain[k].Until() then Some(plain[k].value) else None
  }

  lemma SizeAfterSet<V>(m: Cache<V>, k: string, e: Entry<V>)
    ensures |m[k := e]| <= |m| + 1
  {
  }

  lemma NoMembers<V>(m: Cache<V>)
    ensures Members([]) == {} && m - Members([]) == m
    ensures m == map[] ==> Batch(m, [])
  {
  }

  lemma OneMoreMember<V>(m: Cache<V>, ids: seq<string>, i: nat)
    requires i < |ids|
    ensures m - Members(ids[..i]) - {ids[i]} == m - Members(ids[..i + 1])
  {
  }

  /** The cache without the victims and with the new entry. */
  function Replaced<V>(m: Cache<V>, victims: seq<string>, k: string, e: Entry<V>): Cache<V> {
    (m - Members(victims))[k := e]
  }

  lemma RefinesAfterSet<V>(cache: Cache<V>, left: Cache<V>, plain: Plain<V>, evicted: set<string>, clock: int,
                           victims: seq<string>, k: string, value: V, ttl: int, now: int)
    requires Refines(cache, plain, evicted, clock) && clock <= now && Members(victims) <= cache.Keys
    requires left == cache - Members(victims)
    ensures Refines(left[k := Entry(value, now + ttl)], plain[k := Timed(value, now, ttl)],
                    evicted + Members(victims) - {k}, now)
  {
  }

  class CacheService<V(==)> {
    const maxSize: int
    var cache: Cache<V>
    ghost var plain: Plain<V>
    /** Keys evicted since they were last set. */
    ghost var evicted: set<string>
    ghost var clock: int

    ghost predicate Valid()
      reads this
    {
      1 <= maxSize && |cache| <= maxSize && Refines(cache, plain, evicted, clock)
    }

    constructor (maxSize: int, now: int)
      requires 1 <= maxSize
      ensures Valid() && this.maxSize == maxSize && plain == map[] && evicted == {} && clock == now
    {
      this.maxSize := maxSize;
      cache, plain, evicted, clock := map[], map[], {}, now;
    }

    /** A hit is the value last set, within its time; a miss of a live one means it was evicted. */
    method Get(k: string, now: int) returns (result: Option<V>)
      requires Valid() && clock <= now
      modifies this
      ensures Valid() && clock == now && plain == old(plain) && evicted == old(evicted)
      ensures result == if k in evicted then None else Answer(plain, k, now)
      ensures result.Some? <==> k in old(cache) && now <= old(cache)[k].expiresAt
      ensures cache == if k in old(cache) && result == None then old(cache) - {k} else old(cache)
    {
      clock := now;
      if k !in cache {
        return None;
      }
      if now > cache[k].expiresAt {
        SizeWithout(cache, {k});
        cache := cache - {k};
        return None;
      }
      result := Some(cache[k].value);
    }

    method EvictOldest() returns (ghost victims: seq<string>)
      modifies this`cache
      ensures Batch(old(cache), victims) && cache == old(cache) - Members(victims)
    {
      hide Batch, InRankOrder, Members;
      victims := [];
      NoMembers(cache);
      if cache == map[] {
        return;
      }
      var n := BatchSize(|cache|);
      var order := KeysByRank(cache.Keys, ExpiryRank(cache));
      PrefixIsBatch(cache, order, n);
      ghost var start := cache;
      victims := order[..n];
      var i := 0;
      assert order[..0] == [];
      while i < n
        invariant 0 <= i <= n && cache == start - Members(order[..i])
      {
        OneMoreMember(start, order, i);
        cache := cache - {order[i]};
        i := i + 1;
      }
    }

    /** A full cache first drops a batch, also when the key is already in it. */
    method Set(k: string, value: V, ttl: int, now: int) returns (ghost victims: seq<string>)
      requires Valid() && clock <= now
      modifies this
      ensures Valid() && clock == now
      ensures plain == old(plain)[k := Timed(value, now, ttl)]
      ensures |old(cache)| < maxSize ==> victims == []
      ensures |old(cache)| == maxSize ==> Batch(old(cache), victims)
      ensures cache == Replaced(old(cache), victims, k, Entry(value, now + ttl))
      ensures evicted == old(evicted) + Members(victims) - {k}
    {
      hide Batch, Refines, Members, Replaced;
      victims := [];
      NoMembers(cache);
      ghost var start := cache;
      if |cache| >= maxSize {
        victims := EvictOldest();
      }
      SetFits(start, cache, victims, maxSize, k, Entry(value, now + ttl));
      RefinesAfterSet(start, cache, plain, evicted, clock, victims, k, value, ttl, now);
      cache := cache[k := Entry(value, now + ttl)];
      plain := plain[k := Timed(value, now, ttl)];
      evicted := evicted + Members(victims) - {k};
      clock := now;
    }

    method Invalidate(k: string) returns (found: bool)
      requires Valid()
      modifies this
      ensures Valid() && clock == old(clock) && evicted == old(evicted)
      ensures found <==> k in old(cache)
      ensures cache == old(cache) - {k} && plain == old(plain) - {k}
    {
      found := k in cache;
      SizeWithout(cache, {k});
      plain := plain - {k};
      if found {
        cache := cache - {k};
      } else {
        assert cache == cache - {k};
      }
    }

    method InvalidatePrefix(prefix: string) returns (count: nat)
      requires Valid()
      modifies this
      ensures Valid() && clock == old(clock) && evicted == old(evicted)
      ensures cache == old(cache) - WithPrefix(old(cache).Keys, prefix)
      ensures plain == old(plain) - WithPrefix(old(plain).Keys, prefix)
      ensures count == |WithPrefix(old(cache).Keys, prefix)|
      ensures forall k :: k in cache <==> k in old(cache) && !StartsWith(k, prefix)
    {
      var matching := WithPrefix(cache.Keys, prefix);
      count := |matching|;
      SizeWithout(cache, matching);
      cache := cache - matching;
      plain := plain - WithPrefix(plain.Keys, prefix);
    }

    method Clear()
      requires Valid()
      modifies this
      ensures Valid() && clock == old(clock) && cache == map[] && plain == map[] && evicted == {}
    {
      cache, plain, evicted := map[], map[], {};
    }

    /** Dropping what has expired changes no answer. */
    method CleanupExpired(now: int) returns (count: nat)
      requires Valid() && clock <= now
      modifies this
      ensures Valid() && clock == now && plain == old(plain) && evicted == old(evicted)
      ensures forall k :: k in cache <==> k in old(cache) && now <= old(cache)[k].expiresAt
      ensures count == |old(cache)| - |cache|
    {
      var expired := set k | k in cache && cache[k].expiresAt < now;
      count := |expired|;
      SizeWithout(cache, expired);
      cache := cache - expired;
      clock := now;
    }
  }

  lemma SizeWithout<V>(m: Cache<V>, ids: set<string>)
    ensures |m - ids| <= |m|
    ensures ids <= m.Keys ==> |m - ids| == |m| - |ids|
  {
  }

  /** Room for one more entry, after a batch is dropped from a full cache. */
  lemma SetFits<V>(m: Cache<V>, left: Cache<V>, victims: seq<string>, maxSize: int, k: string, e: Entry<V>)
    requires 1 <= maxSize && |m| <= maxSize && left == m - Members(victims)
    requires if |m| < maxSize then victims == [] else Batch(m, victims)
    ensures |left[k := e]| <= maxSize && Members(victims) <= m.Keys && left[k := e] == Replaced(m, victims, k, e)
  {
    if |m| < maxSize {
      NoMembers(m);
    } else {
      SizeAfter(m, victims);
    }
    SizeAfterSet(left, k, e);
  }
}
