/**
The disk image cache: an index kept in memory and rewritten to disk, image files named by key and
extension, eviction by last access, and remembered failures. Writes succeed, and one process owns the
directory, starting from an empty one.
*/
module ImageCache {
  import opened Basics
  import opened Sorting

  type Bytes = seq<bv8>

  const NEGATIVE_TTL := 3600
  const TRANSIENT_TTL := 60
  const FLUSH := 30

  datatype Entry =
    | Negative(transient: bool, cachedAt: int)
    | Image(ext: string, contentType: string, size: nat, cachedAt: int, accessedAt: int)

  type Index = map<string, Entry>

  /** What was last put under a key, and when. */
  datatype Stored = Stored(data: Bytes, contentType: string, at: int)

  type Puts = map<string, Stored>

  /** Files by key and extension. */
  type Files = map<(string, string), Bytes>

  function SizeOf(e: Entry): nat {
    if e.Image? then e.size else 0
  }

  function AccessOf(e: Entry): int {
    if e.Image? then e.accessedAt else 0
  }

  /** The file eviction deletes; without an extension it takes the default one. */
  function FileOf(id: string, e: Entry): (string, string) {
    (id, if e.Image? then e.ext else "jpg")
  }

  function WithoutAccess(e: Entry): Entry {
    if e.Image? then e.(accessedAt := 0) else e
  }

  ghost predicate SameButAccess(a: Index, b: Index) {
    a.Keys == b.Keys && forall id :: id in a ==> WithoutAccess(a[id]) == WithoutAccess(b[id])
  }

  /** What loading the index file yields. */
  function OnDisk(saved: Option<Index>): Index {
    if saved.Some? then saved.value else map[]
  }

  predicate Expired(e: Entry, ttl: int, now: int) {
    match e
    case Negative(transient, at) => now - at > (if transient then TRANSIENT_TTL else NEGATIVE_TTL)
    case Image(_, _, _, at, _) => ttl != 0 && now - at > ttl
  }

  /**
  A remembered failure is over after an hour, a passing one after a minute; an image after the time to
  live, never when that is zero.
  */
  lemma ExpiredMeans(e: Entry, ttl: int, now: int)
    ensures e.Negative? && e.transient ==> (Expired(e, ttl, now) <==> now > e.cachedAt + 60)
    ensures e.Negative? && !e.transient ==> (Expired(e, ttl, now) <==> now > e.cachedAt + 60 * 60)
    ensures e.Image? ==> (Expired(e, ttl, now) <==> now > e.cachedAt + ttl && ttl != 0)
  {
  }

  // ----- Total size -----

  ghost function Total(m: Index): nat
    decreases |m|
  {
    if m == map[] then 0
    else
      var id :| id in m;
      SizeOf(m[id]) + Total(m - {id})
  }

  lemma {:induction false} TotalRemove(m: Index, id: string)
    requires id in m
    ensures Total(m) == SizeOf(m[id]) + Total(m - {id})
    decreases |m|
  {
    var first :| first in m && Total(m) == SizeOf(m[first]) + Total(m - {first});
    if first != id {
      TotalRemove(m - {first}, id);
      TotalRemove(m - {id}, first);
      assert m - {first} - {id} == m - {id} - {first};
    }
  }

  lemma TotalSet(m: Index, id: string, e: Entry)
    ensures Total(m[id := e]) == Total(m - {id}) + SizeOf(e)
    ensures Total(m - {id}) == Total(m) - if id in m then SizeOf(m[id]) else 0
  {
    TotalRemove(m[id := e], id);
    assert m[id := e] - {id} == m - {id};
    if id in m {
      TotalRemove(m, id);
    } else {
      assert m - {id} == m;
    }
  }

  /** The total is the sum of the image sizes; remembered failures take no room. */
  lemma TotalMeans(m: Index, id: string)
    ensures Total(map[]) == 0
    ensures id in m ==>
      Total(m) == Total(m - {id}) + match m[id] case Image(_, _, size, _, _) => size case Negative(_, _) => 0
  {
    if id in m {
      TotalRemove(m, id);
    }
  }

  lemma {:induction false} TotalIgnoresAccess(a: Index, b: Index)
    requires SameButAccess(a, b)
    ensures Total(a) == Total(b)
    decreases |a|
  {
    if a == map[] {
      assert b == map[];
    } else {
      var id :| id in a;
      TotalRemove(a, id);
      TotalRemove(b, id);
      assert WithoutAccess(a[id]) == WithoutAccess(b[id]);
      TotalIgnoresAccess(a - {id}, b - {id});
    }
  }

  // ----- Eviction -----

  function AccessRank(m: Index): string -> int {
    (id: string) => if id in m then AccessOf(m[id]) else 0
  }

  /** The order the entries are looked at: oldest access first, ties in any order. */
  ghost predicate LruOrder(m: Index, order: seq<string>) {
    InRankOrder(m.Keys, AccessRank(m), order)
  }

  /** Keys of the index, none twice. */
  ghost predicate Lists(order: seq<string>, m: Index) {
    Distinct(order) && forall id :: id in order ==> id in m
  }

  /** The entries deleted, one after the other, until the rest fits. */
  ghost function Victims(order: seq<string>, m: Index, target: int): seq<string>
    requires Lists(order, m)
  {
    if order == [] || Total(m) <= target then []
    else
      assert forall id :: id in order[1..] ==> id in order && id != order[0];
      [order[0]] + Victims(order[1..], m - {order[0]}, target)
  }

  function Gone(ids: seq<string>): set<string> {
    set id | id in ids
  }

  /** Some order of access leads to exactly these evictions. */
  ghost predicate Evicts(m: Index, evicted: seq<string>, target: int) {
    exists order :: LruOrder(m, order) && evicted == Victims(order, m, target)
  }

  /** `v` are the first entries of the order: enough of them, and none too many. */
  ghost predicate JustEnough(order: seq<string>, m: Index, target: int, v: seq<string>) {
    && |v| <= |order| && v == order[..|v|]
    && (Total(m - Gone(v)) <= target || v == order)
    && (v != [] ==> Total(m - Gone(v[..|v| - 1])) > target)
  }

  lemma {:induction false} VictimsArePrefix(order: seq<string>, m: Index, target: int)
    requires Lists(order, m)
    ensures JustEnough(order, m, target, Victims(order, m, target))
  {
    hide Total, JustEnough;
    if order == [] || Total(m) <= target {
      NoVictims(order, m, target);
    } else {
      assert forall id :: id in order[1..] ==> id in order && id != order[0];
      VictimsArePrefix(order[1..], m - {order[0]}, target);
      OneMoreVictim(order, m, target, Victims(order[1..], m - {order[0]}, target));
    }
  }

  lemma NoVictims(order: seq<string>, m: Index, target: int)
    requires order == [] || Total(m) <= target
    ensures JustEnough(order, m, target, [])
  {
    assert m - Gone([]) == m;
  }

  lemma OneMoreVictim(order: seq<string>, m: Index, target: int, rest: seq<string>)
    requires order != [] && Total(m) > target && JustEnough(order[1..], m - {order[0]}, target, rest)
    ensures JustEnough(order, m, target, [order[0]] + rest)
  {
    hide Total, Gone;
    var first, v := order[0], [order[0]] + rest;
    assert order == [first] + order[1..];
    GoneFirst(m, first, rest);
    if rest == [] {
      GoneNone(m);
      assert v[..0] == [];
    } else {
      assert v[..|v| - 1] == [first] + rest[..|rest| - 1];
      GoneFirst(m, first, rest[..|rest| - 1]);
    }
  }

  lemma GoneNone(m: Index)
    ensures m - Gone([]) == m
  {
  }

  lemma GoneFirst(m: Index, first: string, rest: seq<string>)
    ensures m - {first} - Gone(rest) == m - Gone([first] + rest)
  {
  }

  /**
  What one eviction means: the rest fits or nothing is left; the evicted entries are the least recently
  accessed ones, in that order; and with the last of them still there, the rest would not fit.
  */
  lemma EvictionIsLeastRecent(m: Index, evicted: seq<string>, target: int)
    requires Evicts(m, evicted, target)
    ensures Distinct(evicted) && Gone(evicted) <= m.Keys
    ensures Total(m - Gone(evicted)) <= target || m - Gone(evicted) == map[]
    ensures evicted != [] ==> Total(m - Gone(evicted[..|evicted| - 1])) > target
    ensures forall i, j :: 0 <= i < j < |evicted| ==> AccessOf(m[evicted[i]]) <= AccessOf(m[evicted[j]])
    ensures forall e, k :: e in evicted && k in m && k !in evicted ==> AccessOf(m[e]) <= AccessOf(m[k])
    ensures forall e, k :: e in evicted && k in m && k !in evicted && m[e].Image? && m[k].Image? ==>
      m[e].accessedAt <= m[k].accessedAt
  {
    hide Victims, Total;
    var order :| LruOrder(m, order) && evicted == Victims(order, m, target);
    VictimsArePrefix(order, m, target);
    PrefixRanksLowest(m.Keys, AccessRank(m), order, |evicted|);
    assert forall e :: e in evicted ==> e in m;
    assert forall k :: k in m ==> AccessRank(m)(k) == AccessOf(m[k]);
    if evicted == order {
      assert m - Gone(evicted) == map[];
    }
  }

  lemma LastGoes(m: Index, ids: seq<string>)
    requires Distinct(ids) && Gone(ids) <= m.Keys && ids != []
    ensures var n := |ids| - 1;
            ids[n] in m - Gone(ids[..n]) && m - Gone(ids[..n]) - {ids[n]} == m - Gone(ids)
  {
  }

  /** Remembered failures free no space and count as never accessed, so any eviction drops them all. */
  lemma EvictionForgetsFailures(m: Index, evicted: seq<string>, target: int, id: string)
    requires Evicts(m, evicted, target) && evicted != []
    requires forall k :: k in m && m[k].Image? ==> m[k].accessedAt > 0
    requires id in m && m[id].Negative?
    ensures id in evicted
  {
    hide Evicts, Total;
    EvictionIsLeastRecent(m, evicted, target);
    var n := |evicted| - 1;
    var last := evicted[n];
    LastGoes(m, evicted);
    TotalSet(m - Gone(evicted[..n]), last, Negative(false, 0));
    assert last in evicted;
    var lastAccess := AccessOf(m[last]);
    assert lastAccess <= 0 || id in evicted;
    assert id in evicted || id in m - Gone(evicted);
  }

  /** Part of the way: `evicted` are gone, and the victims still to come complete the list. */
  ghost predicate Evicting(order: seq<string>, m: Index, target: int, evicted: seq<string>, left: Index)
    requires Lists(order, m)
  {
    && evicted <= order
    && left == m - Gone(evicted)
    && Distinct(order[|evicted|..])
    && (forall id :: id in order[|evicted|..] ==> id in left)
    && Victims(order, m, target) == evicted + Victims(order[|evicted|..], left, target)
  }

  lemma EvictOne(order: seq<string>, m: Index, target: int, evicted: seq<string>, left: Index)
    requires Lists(order, m)
    requires Evicting(order, m, target, evicted, left) && |evicted| < |order| && Total(left) > target
    ensures order[|evicted|] in left && order[|evicted|] in m && left[order[|evicted|]] == m[order[|evicted|]]
    ensures Evicting(order, m, target, evicted + [order[|evicted|]], left - {order[|evicted|]})
  {
    hide Total;
    var id, rest := order[|evicted|], order[|evicted|..];
    assert rest == [id] + order[|evicted| + 1..];
    assert order[|evicted| + 1..] == rest[1..];
    assert evicted + [id] == order[..|evicted| + 1];
    assert Gone(evicted + [id]) == Gone(evicted) + {id};
    assert id in rest;
    forall k | k in rest[1..] ensures k in left && k != id {
      assert k in rest;
    }
    assert Victims(rest, left, target) == [id] + Victims(rest[1..], left - {id}, target);
  }

  lemma EvictedAll(order: seq<string>, m: Index, target: int, evicted: seq<string>, left: Index)
    requires LruOrder(m, order) && Lists(order, m)
    requires Evicting(order, m, target, evicted, left) && (|evicted| == |order| || Total(left) <= target)
    ensures Evicts(m, evicted, target) && left == m - Gone(evicted)
    ensures evicted == [] ==> left == m
  {
  }

  lemma LruLists(m: Index, order: seq<string>)
    requires LruOrder(m, order)
    ensures Lists(order, m)
  {
  }

  lemma EvictNone(order: seq<string>, m: Index, target: int)
    requires Lists(order, m)
    ensures Evicting(order, m, target, [], m)
  {
  }

  /** Every cache can be evicted down to any target. */
  lemma SomeEviction(m: Index, target: int) returns (evicted: seq<string>)
    ensures Evicts(m, evicted, target)
  {
    var order := SortBy(Listing(m.Keys), LowerRank(AccessRank(m)));
    SortedByRank(m.Keys, AccessRank(m), Listing(m.Keys));
    evicted := Victims(order, m, target);
  }

  /** The indexed total after storing `size` bytes under `id` with only `evicted` gone. */
  ghost function TotalStored(m: Index, evicted: seq<string>, id: string, size: nat): nat {
    Total((m - Gone(evicted)) - {id}) + size
  }

  /** With the last evicted entry kept, the new image would not have fitted. */
  ghost predicate NeededEviction(m: Index, id: string, size: nat, limit: int, evicted: seq<string>) {
    Evicts(m, evicted, limit - size) && evicted != [] ==> TotalStored(m, evicted[..|evicted| - 1], id, size) > limit
  }

  /**
  In a given cache whose other images are within its limit, no new image evicts more than it needs exactly
  when its key held no bytes: the image being replaced is counted as if it stayed.
  */
  lemma EvictsNoMoreThanNeeded(m: Index, id: string, limit: int)
    requires Total(m - {id}) <= limit
    ensures (forall size: nat, evicted :: NeededEviction(m, id, size, limit, evicted))
       <==> (id in m ==> SizeOf(m[id]) == 0)
  {
    hide NeededEviction, Total;
    if id in m && SizeOf(m[id]) > 0 {
      TotalRemove(m, id);
      var evicted := ReplacingWastes(m, id, limit);
      assert !NeededEviction(m, id, limit - Total(m) + SizeOf(m[id]), limit, evicted);
    } else {
      forall size: nat, evicted ensures NeededEviction(m, id, size, limit, evicted) {
        StoringNewNeeds(m, id, size, limit, evicted);
      }
    }
  }

  lemma StoringNewNeeds(m: Index, id: string, size: nat, limit: int, evicted: seq<string>)
    requires id in m ==> SizeOf(m[id]) == 0
    ensures NeededEviction(m, id, size, limit, evicted)
  {
    hide Evicts, Total;
    if Evicts(m, evicted, limit - size) && evicted != [] {
      EvictionIsLeastRecent(m, evicted, limit - size);
      TotalSet(m - Gone(evicted[..|evicted| - 1]), id, Negative(false, 0));
    }
  }

  /** An image that just fits in place of the old one evicts something, though nothing has to go. */
  lemma ReplacingWastes(m: Index, id: string, limit: int) returns (evicted: seq<string>)
    requires id in m && SizeOf(m[id]) > 0 && Total(m) - SizeOf(m[id]) <= limit
    ensures !NeededEviction(m, id, limit - Total(m) + SizeOf(m[id]), limit, evicted)
  {
    hide Evicts, Total;
    evicted := SomeEviction(m, Total(m) - SizeOf(m[id]));
    EvictionIsLeastRecent(m, evicted, Total(m) - SizeOf(m[id]));
    assert m - Gone([]) == m;
    if evicted != [] {
      var gone := Gone(evicted[..|evicted| - 1]);
      TotalShrinks(m - {id}, gone);
      TotalSet(m, id, Negative(false, 0));
      assert m - gone - {id} == m - {id} - gone;
    }
  }

  lemma {:induction false} TotalShrinks(m: Index, ids: set<string>)
    ensures Total(m - ids) <= Total(m)
    decreases |ids|
  {
    if ids == {} {
      assert m - ids == m;
    } else {
      var id :| id in ids;
      TotalShrinks(m, ids - {id});
      TotalSet(m - (ids - {id}), id, Negative(false, 0));
      assert m - (ids - {id}) - {id} == m - ids;
    }
  }

  lemma TotalAfterStore(m: Index, evicted: seq<string>, id: string, e: Entry, limit: int)
    requires Evicts(m, evicted, limit - SizeOf(e))
    ensures Total((m - Gone(evicted))[id := e]) <= if limit > SizeOf(e) then limit else SizeOf(e)
  {
    EvictionIsLeastRecent(m, evicted, limit - SizeOf(e));
    TotalSet(m - Gone(evicted), id, e);
  }

  // ----- The cache -----

  /** The index agrees with what was last put, and its file holds those bytes. */
  ghost predicate Faithful(index: Index, files: Files, latest: Puts) {
    forall id :: id in index && index[id].Image? ==>
      && id in latest
      && FileOf(id, index[id]) in files
      && files[FileOf(id, index[id])] == latest[id].data
      && index[id].size == |latest[id].data|
      && index[id].contentType == latest[id].contentType
      && index[id].cachedAt == latest[id].at
  }

  lemma RemovingKeepsFaithful(index: Index, files: Files, latest: Puts, id: string)
    requires Faithful(index, files, latest) && id in index
    ensures Faithful(index - {id}, files, latest)
    ensures Faithful(index - {id}, files - {FileOf(id, index[id])}, latest)
    ensures Total(index - {id}) <= Total(index)
  {
    hide Total;
    TotalSet(index, id, index[id]);
  }

  lemma StoringKeepsFaithful(index: Index, files: Files, latest: Puts, id: string, e: Entry, data: Bytes)
    requires Faithful(index, files, latest) && e.Image? && e.size == |data|
    ensures Faithful(index[id := e], files[FileOf(id, e) := data], latest[id := Stored(data, e.contentType, e.cachedAt)])
  {
  }

  lemma TouchingKeepsFaithful(index: Index, files: Files, latest: Puts, id: string, now: int)
    requires Faithful(index, files, latest) && id in index && index[id].Image?
    ensures var touched := index[id := index[id].(accessedAt := now)];
            && Faithful(touched, files, latest)
            && SameButAccess(index, touched)
            && Total(touched) == Total(index)
  {
    hide Total;
    TotalIgnoresAccess(index, index[id := index[id].(accessedAt := now)]);
  }

  lemma SameIsReflexive(a: Index, b: Index, c: Index)
    ensures SameButAccess(a, a)
    ensures SameButAccess(a, b) && SameButAccess(a, c) ==> SameButAccess(c, b)
  {
  }

  lemma SameKeys(a: Index, b: Index)
    requires SameButAccess(a, b)
    ensures a.Keys == b.Keys
  {
  }

  /** Reading the saved index back changes nothing but access times. */
  lemma ReloadingKeepsFaithful(index: Index, loaded: Index, files: Files, latest: Puts)
    requires Faithful(index, files, latest) && SameButAccess(index, loaded)
    ensures Faithful(loaded, files, latest) && Total(loaded) == Total(index)
  {
    hide Total;
    TotalIgnoresAccess(index, loaded);
    forall id | id in loaded && loaded[id].Image? ensures WithoutAccess(index[id]) == WithoutAccess(loaded[id]) {
    }
  }

  ghost function FilesOf(m: Index, ids: seq<string>): set<(string, string)> {
    set id | id in ids && id in m :: FileOf(id, m[id])
  }

  /** The files of all images but those under the given keys. */
  ghost function ImageFiles(m: Index, besides: set<string>): set<(string, string)> {
    set id | id in m && id !in besides && m[id].Image? :: FileOf(id, m[id])
  }

  lemma NoImages(m: Index, files: Files)
    ensures files - ImageFiles(m, m.Keys) == files
  {
  }

  lemma OneMoreImage(m: Index, files: Files, left: set<string>, id: string)
    requires id in left && id in m
    ensures m[id].Image? ==> files - ImageFiles(m, left) - {FileOf(id, m[id])} == files - ImageFiles(m, left - {id})
    ensures m[id].Negative? ==> ImageFiles(m, left) == ImageFiles(m, left - {id})
  {
  }

  lemma EmptyIsFaithful(files: Files)
    ensures Faithful(map[], files, map[]) && SameButAccess(map[], map[]) && Total(map[]) == 0
  {
  }

  lemma EvictingKeepsFaithful(index: Index, files: Files, latest: Puts, ids: seq<string>)
    requires Faithful(index, files, latest)
    ensures Faithful(index - Gone(ids), files - FilesOf(index, ids), latest)
  {
  }

  lemma NoFiles(m: Index, files: Files)
    ensures files - FilesOf(m, []) == files
  {
  }

  lemma OneMoreFile(m: Index, files: Files, ids: seq<string>, id: string)
    requires id in m
    ensures files - FilesOf(m, ids) - {FileOf(id, m[id])} == files - FilesOf(m, ids + [id])
  {
  }

  method TotalSize(m: Index) returns (total: nat)
    ensures total == Total(m)
  {
    total := 0;
    var left := m;
    while left != map[]
      invariant total + Total(left) == Total(m)
      decreases |left|
    {
      var id :| id in left;
      TotalRemove(left, id);
      total := total + SizeOf(left[id]);
      left := left - {id};
    }
  }

  class Cache {
    const limit: int
    const ttl: int
    var index: Index
    var saved: Option<Index>
    var files: Files
    var lastSaved: int
    var hits: nat
    var misses: nat
    ghost var latest: Puts
    ghost var largest: nat

    /** In every reachable state, `largest` being the largest image ever put. */
    ghost predicate Valid()
      reads this
    {
      && SameButAccess(index, OnDisk(saved))
      && Faithful(index, files, latest)
      && Total(index) <= if limit > largest then limit else largest
    }

    constructor (limit: int, ttl: int, mono: int)
      ensures Valid() && this.limit == limit && this.ttl == ttl
      ensures index == map[] && files == map[] && latest == map[] && largest == 0 && lastSaved == mono
    {
      this.limit, this.ttl := limit, ttl;
      index, saved, files, lastSaved, hits, misses := map[], None, map[], mono, 0, 0;
      latest, largest := map[], 0;
    }

    method SaveIndex(mono: int)
      modifies this`saved, this`lastSaved
      ensures saved == Some(index) && lastSaved == mono
    {
      saved, lastSaved := Some(index), mono;
    }

    method Unlink(file: (string, string))
      modifies this`files
      ensures files == old(files) - {file}
    {
      if file in files {
        files := files - {file};
      } else {
        assert files == files - {file};
      }
    }

    method Get(id: string, now: int, mono: int) returns (result: Option<(Bytes, string)>)
      requires Valid()
      modifies this
      ensures Valid() && latest == old(latest) && largest == old(largest)
      // A miss re-reads the index, which neither revives nor loses an entry.
      ensures id !in old(index) ==>
        && result == None && index == OnDisk(old(saved)) && saved == old(saved) && files == old(files)
        && lastSaved == old(lastSaved) && hits == old(hits) && misses == old(misses) + 1
      ensures id in old(index) && Expired(old(index)[id], ttl, now) ==>
        && result == None && index == old(index) - {id} && saved == Some(index) && lastSaved == mono
        && files == (if old(index)[id].Image? then old(files) - {FileOf(id, old(index)[id])} else old(files))
        && hits == old(hits) && misses == old(misses) + 1
      ensures id in old(index) && old(index)[id].Negative? && !Expired(old(index)[id], ttl, now) ==>
        && result == None && index == old(index) && saved == old(saved) && files == old(files)
        && lastSaved == old(lastSaved) && hits == old(hits) && misses == old(misses)
      // A hit returns what was last put under the key, and only its access time moves.
      ensures id in old(index) && old(index)[id].Image? && !Expired(old(index)[id], ttl, now) ==>
        && id in latest && result == Some((latest[id].data, latest[id].contentType))
        && index == old(index)[id := old(index)[id].(accessedAt := now)] && files == old(files)
        && (if mono - old(lastSaved) >= 30 then saved == Some(index) && lastSaved == mono
            else saved == old(saved) && lastSaved == old(lastSaved))
        && hits == old(hits) + 1 && misses == old(misses)
    {
      hide Total, SameButAccess, WithoutAccess;
      SameIsReflexive(index, OnDisk(saved), index);
      if id !in index {
        ReloadingKeepsFaithful(index, OnDisk(saved), files, latest);
        SameKeys(index, OnDisk(saved));
        SameIsReflexive(OnDisk(saved), index, index);
        index := OnDisk(saved);
        if id !in index {
          misses := misses + 1;
          return None;
        }
        assert false;
      }
      var entry := index[id];
      RemovingKeepsFaithful(index, files, latest, id);
      SameIsReflexive(index - {id}, index, index);
      if entry.Negative? {
        if Expired(entry, ttl, now) {
          index := index - {id};
          SaveIndex(mono);
          misses := misses + 1;
        }
        return None;
      }
      if Expired(entry, ttl, now) {
        Unlink(FileOf(id, entry));
        index := index - {id};
        SaveIndex(mono);
        misses := misses + 1;
        return None;
      }
      if FileOf(id, entry) !in files {
        assert false;
      }
      result := Some((files[FileOf(id, entry)], entry.contentType));
      TouchingKeepsFaithful(index, files, latest, id, now);
      SameIsReflexive(index, OnDisk(saved), index[id := entry.(accessedAt := now)]);
      SameIsReflexive(index[id := entry.(accessedAt := now)], index, index);
      index := index[id := entry.(accessedAt := now)];
      if mono - lastSaved >= FLUSH {
        SaveIndex(mono);
      }
      hits := hits + 1;
    }

    method EvictIfNeeded(required: nat, mono: int) returns (evicted: seq<string>)
      requires SameButAccess(index, OnDisk(saved)) && Faithful(index, files, latest)
      modifies this`index, this`files, this`saved, this`lastSaved
      ensures Evicts(old(index), evicted, limit - required)
      ensures index == old(index) - Gone(evicted)
      ensures files == old(files) - FilesOf(old(index), evicted)
      ensures SameButAccess(index, OnDisk(saved)) && Faithful(index, files, latest)
      ensures if evicted == [] then saved == old(saved) && lastSaved == old(lastSaved)
              else saved == Some(index) && lastSaved == mono
    {
      hide Total, Faithful, SameButAccess, Evicting, Victims, Gone, FilesOf, Lists, LruOrder, Evicts;
      var current := TotalSize(index);
      var target := limit - required;
      ghost var start := index;
      var order := KeysByRank(index.Keys, AccessRank(index));
      LruLists(index, order);
      EvictNone(order, index, target);
      NoFiles(start, files);
      evicted := [];
      while current > target && |evicted| < |order|
        invariant |evicted| <= |order|
        invariant Evicting(order, start, target, evicted, index)
        invariant files == old(files) - FilesOf(start, evicted)
        invariant current == Total(index)
        invariant saved == old(saved) && lastSaved == old(lastSaved)
        decreases |order| - |evicted|
      {
        var id := order[|evicted|];
        EvictOne(order, start, target, evicted, index);
        TotalRemove(index, id);
        Unlink(FileOf(id, index[id]));
        OneMoreFile(start, old(files), evicted, id);
        current := current - SizeOf(index[id]);
        index := index - {id};
        evicted := evicted + [id];
      }
      EvictedAll(order, start, target, evicted, index);
      EvictingKeepsFaithful(start, old(files), latest, evicted);
      SameIsReflexive(index, start, start);
      if evicted != [] {
        SaveIndex(mono);
      }
    }

    /** Store an image of the detected type; the evicted keys are reported for the record. */
    method Put(id: string, data: Bytes, contentType: string, ext: string, now: int, mono: int)
      returns (stored: bool, ghost evicted: seq<string>)
      requires Valid()
      modifies this
      ensures Valid() && stored
      ensures Evicts(old(index), evicted, limit - |data|)
      ensures index == (old(index) - Gone(evicted))[id := Image(ext, contentType, |data|, now, now)]
      ensures files == (old(files) - FilesOf(old(index), evicted))[(id, ext) := data]
      ensures saved == Some(index) && lastSaved == mono && hits == old(hits) && misses == old(misses)
      ensures latest == old(latest)[id := Stored(data, contentType, now)]
      ensures largest == if |data| > old(largest) then |data| else old(largest)
      ensures Total(index) <= if limit > |data| then limit else |data|
    {
      hide Total, Evicts, Faithful, SameButAccess, Gone, FilesOf;
      evicted := EvictIfNeeded(|data|, mono);
      StoringKeepsFaithful(index, files, latest, id, Image(ext, contentType, |data|, now, now), data);
      SameIsReflexive(index[id := Image(ext, contentType, |data|, now, now)], index, index);
      TotalAfterStore(old(index), evicted, id, Image(ext, contentType, |data|, now, now), limit);
      files := files[(id, ext) := data];
      index := index[id := Image(ext, contentType, |data|, now, now)];
      latest := latest[id := Stored(data, contentType, now)];
      largest := if |data| > largest then |data| else largest;
      SaveIndex(mono);
      stored := true;
    }

    method PutNegative(id: string, transient: bool, now: int, mono: int)
      requires Valid()
      modifies this
      ensures Valid()
      ensures index == old(index)[id := Negative(transient, now)] && files == old(files)
      ensures saved == Some(index) && lastSaved == mono && hits == old(hits) && misses == old(misses)
      ensures latest == old(latest) - {id} && largest == old(largest)
    {
      hide Total;
      TotalSet(index, id, Negative(transient, now));
      index := index[id := Negative(transient, now)];
      latest := latest - {id};
      SaveIndex(mono);
    }

    method Delete(id: string, mono: int) returns (deleted: bool)
      requires Valid()
      modifies this
      ensures Valid()
      ensures deleted <==> id in old(index)
      ensures index == old(index) - {id}
      ensures files == if deleted && old(index)[id].Image? then old(files) - {FileOf(id, old(index)[id])} else old(files)
      ensures if deleted then saved == Some(index) && lastSaved == mono && latest == old(latest) - {id}
              else saved == old(saved) && lastSaved == old(lastSaved) && latest == old(latest)
      ensures hits == old(hits) && misses == old(misses) && largest == old(largest)
    {
      hide Total;
      if id !in index {
        assert index == index - {id};
        return false;
      }
      RemovingKeepsFaithful(index, files, latest, id);
      if index[id].Image? {
        Unlink(FileOf(id, index[id]));
      }
      index := index - {id};
      latest := latest - {id};
      SaveIndex(mono);
      deleted := true;
    }

    method Clear(mono: int) returns (count: nat)
      requires Valid()
      modifies this
      ensures Valid()
      ensures count == |old(index)| && index == map[] && latest == map[]
      ensures files == old(files) - ImageFiles(old(index), {})
      ensures saved == Some(map[]) && lastSaved == mono && hits == 0 && misses == 0 && largest == old(largest)
    {
      hide Total, Faithful, SameButAccess, ImageFiles;
      count := |index|;
      var left := index.Keys;
      ghost var m := index;
      NoImages(m, files);
      while left != {}
        invariant left <= m.Keys && index == m && largest == old(largest)
        invariant files == old(files) - ImageFiles(m, left)
        decreases |left|
      {
        var id :| id in left;
        OneMoreImage(m, old(files), left, id);
        if index[id].Image? {
          Unlink(FileOf(id, index[id]));
        }
        left := left - {id};
      }
      index, latest := map[], map[];
      EmptyIsFaithful(files);
      SaveIndex(mono);
      hits, misses := 0, 0;
    }
  }

  /**
  Access times are not only lost in a crash: an unsaved one survives the next miss only when the read
  itself was due to rewrite the index.
  */
  method ReadThenMiss(c: Cache, id: string, other: string, now: int, mono: int)
    requires c.Valid() && other !in c.index
    requires id in c.index && c.index[id].Image? && !Expired(c.index[id], c.ttl, now)
    modifies c
    ensures c.Valid() && id in c.index && c.index[id].Image?
    ensures c.index[id].accessedAt == now
       <==> (mono - old(c.lastSaved) >= 30 || AccessOf(OnDisk(old(c.saved))[id]) == now)
  {
    hide Total;
    assert WithoutAccess(c.index[id]) == WithoutAccess(OnDisk(c.saved)[id]);
    var hit := c.Get(id, now, mono);
    var miss := c.Get(other, now, mono);
  }

  /** Such a loss: two images are put, the older one is read, and a miss makes it the older one again. */
  method MissUndoesRead(limit: int, first: Bytes, second: Bytes) returns (c: Cache)
    requires |first| + |second| <= limit
    ensures fresh(c) && c.Valid() && c.index.Keys == {"first", "second"}
    ensures AccessOf(c.index["first"]) == 1 < AccessOf(c.index["second"]) == 2
  {
    hide Total, Evicts, Faithful, SameButAccess, Gone, FilesOf;
    c := new Cache(limit, 0, 0);
    TotalOfOne("first", Image("png", "image/png", |first|, 1, 1));
    var stored, evicted := c.Put("first", first, "image/png", "png", 1, 1);
    NothingToEvict(map[], evicted, limit - |first|);
    ghost var held := c.index;
    assert held == map["first" := Image("png", "image/png", |first|, 1, 1)];
    stored, evicted := c.Put("second", second, "image/png", "png", 2, 2);
    NothingToEvict(held, evicted, limit - |second|);
    var hit := c.Get("first", 3, 3);
    assert AccessOf(c.index["first"]) == 3;
    var miss := c.Get("third", 4, 4);
  }

  lemma TotalOfOne(id: string, e: Entry)
    ensures Total(map[]) == 0 && Total(map[id := e]) == SizeOf(e)
  {
    TotalSet(map[], id, e);
    assert map[][id := e] == map[id := e];
  }

  lemma NothingToEvict(m: Index, evicted: seq<string>, target: int)
    requires Evicts(m, evicted, target) && Total(m) <= target
    ensures evicted == [] && m - Gone(evicted) == m
  {
  }
}
