/** The cache: a fixed number of shards and a key hasher that routes each
    key to one shard (the `Cache` class template of include/ssc/ssc.hpp).
    Per-key operations delegate to the owning shard; size, iteration, clear
    and curate run over every shard. Persistence is in module Persistence. */
module Caches {
  import opened Wrappers
  import opened Entries
  import Shards

  /** `shards` has one element per shard, so its length is the shard count
      fixed when the cache type is instantiated; `hasher` is the key hash. */
  datatype Cache<!K, V> = Cache(shards: seq<Shards.Shard<K, V>>, hasher: K -> nat)

  /** `Cache::getShardId`: the shard that owns `key`. */
  function ShardId<K, V>(c: Cache<K, V>, key: K): (i: nat)
    requires |c.shards| > 0
    ensures i < |c.shards|
  {
    c.hasher(key) % |c.shards|
  }

  /** `Cache::storeValue`: the store happens in the owning shard, under the
      shard's write-mode rules, and no other shard changes. */
  function StoreValue<K, V>(c: Cache<K, V>, key: K, value: V, expiry: TimePoint, mode: WriteMode)
    : (r: (bool, Cache<K, V>))
    requires |c.shards| > 0
    ensures r.1.hasher == c.hasher && |r.1.shards| == |c.shards|
    ensures forall i :: 0 <= i < |c.shards| && i != ShardId(c, key) ==> r.1.shards[i] == c.shards[i]
    ensures (r.0, r.1.shards[ShardId(c, key)]) == Shards.Store(c.shards[ShardId(c, key)], key, value, expiry, mode)
  {
    var id := ShardId(c, key);
    var (stored, shard) := Shards.Store(c.shards[id], key, value, expiry, mode);
    (stored, c.(shards := c.shards[id := shard]))
  }

  /** The overloads of `Cache::storeValue` without an expiry store with the
      latest time point, so a stored value is then readable at every time. */
  function StoreValueNoExpiry<K, V>(c: Cache<K, V>, key: K, value: V, mode: WriteMode)
    : (r: (bool, Cache<K, V>))
    requires |c.shards| > 0
    ensures r.1.hasher == c.hasher && |r.1.shards| == |c.shards|
    ensures r.0 <==> Shards.Admits(c.shards[ShardId(c, key)], key, mode)
    ensures forall i :: 0 <= i < |c.shards| && i != ShardId(c, key) ==> r.1.shards[i] == c.shards[i]
    ensures r.0 ==> forall now :: GetValue(r.1, key, now) == Some(value)
    ensures r.0 ==> GetExpiryTime(r.1, key) == Some(MaxTime)
    ensures !r.0 ==> r.1 == c
  {
    var r := StoreValue(c, key, value, MaxTime, mode);
    assert ShardId(r.1, key) == ShardId(c, key);
    r
  }

  /** `Cache::getValue`: read from the owning shard. */
  function GetValue<K, V>(c: Cache<K, V>, key: K, now: TimePoint): (r: Option<V>)
    requires |c.shards| > 0
    ensures var s := c.shards[ShardId(c, key)].storage;
            r.Some? <==> key in s && !IsExpired(s[key], now)
    ensures r.Some? ==> r.value == c.shards[ShardId(c, key)].storage[key].value
    ensures r.Some? ==> Visits(c, now, key, r.value)
  {
    Shards.GetValue(c.shards[ShardId(c, key)], key, now)
  }

  /** `Cache::getExpiryTime`: the raw expiry from the owning shard. */
  function GetExpiryTime<K, V>(c: Cache<K, V>, key: K): (r: Option<TimePoint>)
    requires |c.shards| > 0
    ensures r.Some? <==> key in c.shards[ShardId(c, key)].storage
    ensures r.Some? ==> r.value == c.shards[ShardId(c, key)].storage[key].expiry
  {
    Shards.GetExpiryTime(c.shards[ShardId(c, key)], key)
  }

  /** `Cache::erase`: erase from the owning shard; no other shard changes. */
  function Erase<K, V>(c: Cache<K, V>, key: K): (r: (bool, Cache<K, V>))
    requires |c.shards| > 0
    ensures r.1.hasher == c.hasher && |r.1.shards| == |c.shards|
    ensures forall i :: 0 <= i < |c.shards| && i != ShardId(c, key) ==> r.1.shards[i] == c.shards[i]
    ensures (r.0, r.1.shards[ShardId(c, key)]) == Shards.Erase(c.shards[ShardId(c, key)], key)
  {
    var id := ShardId(c, key);
    var (erased, shard) := Shards.Erase(c.shards[id], key);
    (erased, c.(shards := c.shards[id := shard]))
  }

  /** `Cache::clear`: every shard is cleared. The size drops to zero while
      every dirty flag stays as it was. */
  function Clear<K, V>(c: Cache<K, V>): (r: Cache<K, V>)
    ensures r.hasher == c.hasher && |r.shards| == |c.shards|
    ensures GetSize(r) == 0
    ensures forall i :: 0 <= i < |c.shards| ==> r.shards[i].dirty == c.shards[i].dirty
  {
    var r := c.(shards := seq(|c.shards|, i requires 0 <= i < |c.shards| => Shards.Clear(c.shards[i])));
    SumSizesZero(r.shards);
    r
  }

  /** Total number of entries, expired or not, held by the shards. */
  function SumSizes<K, V>(shards: seq<Shards.Shard<K, V>>): nat {
    if |shards| == 0 then 0 else |shards[0].storage| + SumSizes(shards[1..])
  }

  /** `Cache::getSize`: the entries of all shards, including expired entries
      that no sweep has removed yet. */
  function GetSize<K, V>(c: Cache<K, V>): (r: nat)
    ensures r == 0 <==> forall i :: 0 <= i < |c.shards| ==> c.shards[i].storage == map[]
    ensures forall i :: 0 <= i < |c.shards| ==> |c.shards[i].storage| <= r
  {
    SumSizesZero(c.shards);
    ShardSizesBelowTotal(c.shards);
    SumSizes(c.shards)
  }

  /** `Cache::isEmpty`: the size is zero, which is to say every shard is empty. */
  function IsEmpty<K, V>(c: Cache<K, V>): (r: bool)
    ensures r <==> forall i :: 0 <= i < |c.shards| ==> c.shards[i].storage == map[]
  {
    SumSizesZero(c.shards);
    GetSize(c) == 0
  }

  /** Replacing one shard changes the total by the change in that shard's size. */
  lemma {:induction false} SumSizesUpdate<K, V>(shards: seq<Shards.Shard<K, V>>, i: nat, s: Shards.Shard<K, V>)
    requires i < |shards|
    ensures SumSizes(shards[i := s]) + |shards[i].storage| == SumSizes(shards) + |s.storage|
  {
    if i == 0 {
      assert shards[i := s][1..] == shards[1..];
    } else {
      SumSizesUpdate(shards[1..], i - 1, s);
      assert shards[i := s][1..] == shards[1..][i - 1 := s];
    }
  }

  /** The total is zero iff every shard is empty. */
  lemma {:induction false} SumSizesZero<K, V>(shards: seq<Shards.Shard<K, V>>)
    ensures SumSizes(shards) == 0 <==> forall i :: 0 <= i < |shards| ==> shards[i].storage == map[]
  {
    if |shards| > 0 {
      SumSizesZero(shards[1..]);
      assert forall i :: 1 <= i < |shards| ==> shards[i] == shards[1..][i - 1];
    }
  }

  /** Every shard's entry count is part of the total. */
  lemma {:induction false} ShardSizeBelowTotal<K, V>(shards: seq<Shards.Shard<K, V>>, i: nat)
    requires i < |shards|
    ensures |shards[i].storage| <= SumSizes(shards)
  {
    if i > 0 {
      ShardSizeBelowTotal(shards[1..], i - 1);
    }
  }

  /** Every shard's full count is within the total. */
  lemma ShardSizesBelowTotal<K, V>(shards: seq<Shards.Shard<K, V>>)
    ensures forall i :: 0 <= i < |shards| ==> |shards[i].storage| <= SumSizes(shards)
  {
    forall i | 0 <= i < |shards|
      ensures |shards[i].storage| <= SumSizes(shards)
    {
      ShardSizeBelowTotal(shards, i);
    }
  }

  /** Reference definition of `Cache::curate`: every shard swept at `now`. */
  function Curated<K, V>(c: Cache<K, V>, now: TimePoint): Cache<K, V> {
    c.(shards := seq(|c.shards|, i requires 0 <= i < |c.shards| => Shards.EraseExpired(c.shards[i], now).1))
  }

  /** `Cache::curate`: sweeps the shards one after the other and returns the
      total number of entries removed, which is the drop in size. */
  method Curate<K, V>(c: Cache<K, V>, now: TimePoint) returns (total: nat, r: Cache<K, V>)
    ensures r == Curated(c, now)
    ensures total == GetSize(c) - GetSize(r)
  {
    var shards := c.shards;
    total := 0;
    for i := 0 to |c.shards|
      invariant |shards| == |c.shards|
      invariant forall j :: 0 <= j < i ==> shards[j] == Shards.EraseExpired(c.shards[j], now).1
      invariant forall j :: i <= j < |c.shards| ==> shards[j] == c.shards[j]
      invariant SumSizes(shards) + total == SumSizes(c.shards)
    {
      var count, swept := Shards.EraseExpiredEntries(shards[i], now);
      SumSizesUpdate(shards, i, swept);
      shards := shards[i := swept];
      total := total + count;
    }
    r := c.(shards := shards);
    assert shards == Curated(c, now).shards;
  }

  /** True iff some shard holds `key` unexpired with value `v`. */
  ghost predicate Visits<K, V>(c: Cache<K, V>, now: TimePoint, k: K, v: V) {
    exists i :: 0 <= i < |c.shards| && Shards.GetValue(c.shards[i], k, now) == Some(v)
  }

  /** `Cache::doForAll`: the (key, value) pairs the functor is called with,
      shard by shard: exactly the unexpired entries of every shard. */
  method DoForAll<K, V>(c: Cache<K, V>, now: TimePoint) returns (visited: seq<(K, V)>)
    ensures forall k, v :: (k, v) in visited <==> Visits(c, now, k, v)
    ensures WellRouted(c) ==> forall a, b :: 0 <= a < b < |visited| ==> visited[a].0 != visited[b].0
  {
    visited := [];
    for i := 0 to |c.shards|
      invariant forall k, v :: (k, v) in visited <==>
                  exists j :: 0 <= j < i && Shards.GetValue(c.shards[j], k, now) == Some(v)
      invariant WellRouted(c) ==> forall a :: 0 <= a < |visited| ==> ShardId(c, visited[a].0) < i
      invariant WellRouted(c) ==> forall a, b :: 0 <= a < b < |visited| ==> visited[a].0 != visited[b].0
    {
      var part := Shards.DoForAll(c.shards[i], now);
      if WellRouted(c) {
        RoutedPart(c, now, i, part);
      }
      visited := visited + part;
    }
  }

  /** In a well-routed cache, every key visited in shard `i` routes to `i`. */
  lemma RoutedPart<K, V>(c: Cache<K, V>, now: TimePoint, i: nat, part: seq<(K, V)>)
    requires WellRouted(c) && i < |c.shards|
    requires forall k, v :: (k, v) in part <==> Shards.GetValue(c.shards[i], k, now) == Some(v)
    ensures forall a :: 0 <= a < |part| ==> ShardId(c, part[a].0) == i
  {
    forall a | 0 <= a < |part|
      ensures ShardId(c, part[a].0) == i
    {
      assert part[a] in part;
      assert Shards.GetValue(c.shards[i], part[a].0, now) == Some(part[a].1);
    }
  }

  /** Every key sits in the shard it is routed to. This holds of a created
      cache and every per-key operation keeps it. */
  ghost predicate WellRouted<K, V>(c: Cache<K, V>) {
    |c.shards| > 0
    && forall i, k :: 0 <= i < |c.shards| && k in c.shards[i].storage ==> ShardId(c, k) == i
  }

  // ---------------------------------------------------------------------
  // Properties of the per-key and whole-cache operations.
  // ---------------------------------------------------------------------

  /** A store that happens is read back from the cache while it is
      unexpired, and its raw expiry is read back always. An ALWAYS store
      always happens. */
  lemma StoreThenGet<K, V>(c: Cache<K, V>, key: K, value: V, expiry: TimePoint, mode: WriteMode, now: TimePoint)
    requires |c.shards| > 0
    ensures mode == Always ==> StoreValue(c, key, value, expiry, mode).0
    ensures var (stored, c') := StoreValue(c, key, value, expiry, mode);
            stored && !IsExpired(Entry(value, expiry), now) ==> GetValue(c', key, now) == Some(value)
    ensures var (stored, c') := StoreValue(c, key, value, expiry, mode);
            stored ==> GetExpiryTime(c', key) == Some(expiry)
  {
    var (stored, c') := StoreValue(c, key, value, expiry, mode);
    assert ShardId(c', key) == ShardId(c, key);
  }

  /** A store or an erase of `key` changes no read of any other key, even one
      routed to the same shard. */
  lemma OtherKeysUnchanged<K, V>(c: Cache<K, V>, key: K, value: V, expiry: TimePoint, mode: WriteMode,
                                 other: K, now: TimePoint)
    requires |c.shards| > 0 && other != key
    ensures var c' := StoreValue(c, key, value, expiry, mode).1;
            GetValue(c', other, now) == GetValue(c, other, now) && GetExpiryTime(c', other) == GetExpiryTime(c, other)
    ensures var c' := Erase(c, key).1;
            GetValue(c', other, now) == GetValue(c, other, now) && GetExpiryTime(c', other) == GetExpiryTime(c, other)
  {
    var c1 := StoreValue(c, key, value, expiry, mode).1;
    var c2 := Erase(c, key).1;
    assert ShardId(c1, other) == ShardId(c, other);
    assert ShardId(c2, other) == ShardId(c, other);
  }

  /** IF_NOT_SET never replaces a present key: a second IF_NOT_SET store of
      the same key is refused and the first value is still read back. */
  lemma IfNotSetKeepsFirst<K, V>(c: Cache<K, V>, key: K, v1: V, v2: V, e1: TimePoint, e2: TimePoint, now: TimePoint)
    requires |c.shards| > 0
    requires GetExpiryTime(c, key).None?
    requires !IsExpired(Entry(v1, e1), now)
    ensures var (first, c1) := StoreValue(c, key, v1, e1, IfNotSet);
            var (second, c2) := StoreValue(c1, key, v2, e2, IfNotSet);
            first && !second && c2 == c1 && GetValue(c2, key, now) == Some(v1)
  {
    var (first, c1) := StoreValue(c, key, v1, e1, IfNotSet);
    assert ShardId(c1, key) == ShardId(c, key);
  }

  /** IF_SET on an absent key is refused and leaves the key absent. */
  lemma IfSetOnAbsentRefused<K, V>(c: Cache<K, V>, key: K, value: V, expiry: TimePoint, now: TimePoint)
    requires |c.shards| > 0
    requires GetExpiryTime(c, key).None?
    ensures var (stored, c') := StoreValue(c, key, value, expiry, IfSet);
            !stored && c' == c && GetValue(c', key, now).None?
  {
  }

  /** A store that happens grows the size by one for a new key and keeps it
      for an existing key; a refused store keeps it. */
  lemma StoreSize<K, V>(c: Cache<K, V>, key: K, value: V, expiry: TimePoint, mode: WriteMode)
    requires |c.shards| > 0
    ensures var (stored, c') := StoreValue(c, key, value, expiry, mode);
            GetSize(c') == GetSize(c) + (if stored && GetExpiryTime(c, key).None? then 1 else 0)
  {
    var id := ShardId(c, key);
    var (stored, shard) := Shards.Store(c.shards[id], key, value, expiry, mode);
    SumSizesUpdate(c.shards, id, shard);
    if stored && key !in c.shards[id].storage {
      assert shard.storage.Keys == c.shards[id].storage.Keys + {key};
    } else if stored {
      assert shard.storage.Keys == c.shards[id].storage.Keys;
    }
  }

  /** Erase reports whether the key was present (expired or not); afterwards
      the key is absent and the size dropped by one iff it was present. */
  lemma EraseThenGet<K, V>(c: Cache<K, V>, key: K, now: TimePoint)
    requires |c.shards| > 0
    ensures var (erased, c') := Erase(c, key);
            && (erased <==> GetExpiryTime(c, key).Some?)
            && GetValue(c', key, now).None? && GetExpiryTime(c', key).None?
            && GetSize(c') + (if erased then 1 else 0) == GetSize(c)
  {
    var id := ShardId(c, key);
    var (erased, shard) := Shards.Erase(c.shards[id], key);
    SumSizesUpdate(c.shards, id, shard);
    assert ShardId(Erase(c, key).1, key) == id;
    if erased {
      assert c.shards[id].storage.Keys == shard.storage.Keys + {key};
    } else {
      assert c.shards[id].storage.Keys == shard.storage.Keys;
    }
  }

  /** Curation at `now` changes no read made at `now` or later. */
  lemma CuratePreservesReads<K, V>(c: Cache<K, V>, now: TimePoint, later: TimePoint, key: K)
    requires |c.shards| > 0 && now <= later
    ensures GetValue(Curated(c, now), key, later) == GetValue(c, key, later)
  {
    var id := ShardId(c, key);
    assert ShardId(Curated(c, now), key) == id;
    Shards.EraseExpiredPreservesReads(c.shards[id], now, later, key);
  }

  /** A key that is present but expired is hidden from reads, still reports
      its expiry and is still counted in the size. */
  lemma ExpiredStillCounted<K, V>(c: Cache<K, V>, key: K, now: TimePoint)
    requires |c.shards| > 0
    requires GetExpiryTime(c, key).Some?
    requires var e := GetExpiryTime(c, key).value; e != MaxTime && now > e
    ensures GetValue(c, key, now).None?
    ensures GetSize(c) >= 1
  {
    ShardSizeBelowTotal(c.shards, ShardId(c, key));
  }

  /** A store with a finite expiry into an empty cache, followed by a
      refused IF_NOT_SET store: before the expiry the first value is read,
      after it the value is hidden yet still counted, and curation then
      removes exactly that one entry. */
  lemma ExpiryScenario<K, V>(c: Cache<K, V>, key: K, v1: V, v2: V, expiry: TimePoint, before: TimePoint, after: TimePoint)
    requires |c.shards| > 0 && GetSize(c) == 0
    requires before <= expiry < after && expiry != MaxTime
    ensures var (s1, c1) := StoreValue(c, key, v1, expiry, Always);
            var (s2, c2) := StoreValue(c1, key, v2, MaxTime, IfNotSet);
            && s1 && GetValue(c1, key, before) == Some(v1)
            && !s2 && GetValue(c2, key, before) == Some(v1)
            && GetValue(c2, key, after).None? && GetSize(c2) == 1
            && GetSize(Curated(c2, after)) == 0
  {
    SumSizesZero(c.shards);
    var (s1, c1) := StoreValue(c, key, v1, expiry, Always);
    StoreThenGet(c, key, v1, expiry, Always, before);
    StoreSize(c, key, v1, expiry, Always);
    var (s2, c2) := StoreValue(c1, key, v2, MaxTime, IfNotSet);
    assert ShardId(c1, key) == ShardId(c, key);
    var id := ShardId(c, key);
    assert c2 == c1;
    var c3 := Curated(c2, after);
    forall i | 0 <= i < |c3.shards|
      ensures c3.shards[i].storage == map[]
    {
      if i == id {
        assert c2.shards[i].storage.Keys == {key};
      } else {
        assert c2.shards[i] == c.shards[i];
      }
    }
    SumSizesZero(c3.shards);
  }

  /** In a well-routed cache `doForAll` visits exactly what the reads see. */
  lemma RoutedVisitsAreReads<K, V>(c: Cache<K, V>, now: TimePoint, k: K, v: V)
    requires WellRouted(c)
    ensures Visits(c, now, k, v) <==> GetValue(c, k, now) == Some(v)
  {
    if Visits(c, now, k, v) {
      var i :| 0 <= i < |c.shards| && Shards.GetValue(c.shards[i], k, now) == Some(v);
      assert k in c.shards[i].storage;
    }
  }

  /** Stores, erases, clears and curation keep every key in its own shard. */
  lemma OperationsKeepRouting<K, V>(c: Cache<K, V>, key: K, value: V, expiry: TimePoint, mode: WriteMode,
                                    now: TimePoint)
    requires WellRouted(c)
    ensures WellRouted(StoreValue(c, key, value, expiry, mode).1)
    ensures WellRouted(Erase(c, key).1)
    ensures WellRouted(Clear(c))
    ensures WellRouted(Curated(c, now))
  {
    var c1 := StoreValue(c, key, value, expiry, mode).1;
    forall i, k | 0 <= i < |c1.shards| && k in c1.shards[i].storage
      ensures ShardId(c1, k) == i
    {
      assert ShardId(c1, k) == ShardId(c, k);
      if k != key {
        assert k in c.shards[i].storage;
      }
    }
    var c2 := Erase(c, key).1;
    forall i, k | 0 <= i < |c2.shards| && k in c2.shards[i].storage
      ensures ShardId(c2, k) == i
    {
      assert ShardId(c2, k) == ShardId(c, k);
      assert k in c.shards[i].storage;
    }
    var c4 := Curated(c, now);
    forall i, k | 0 <= i < |c4.shards| && k in c4.shards[i].storage
      ensures ShardId(c4, k) == i
    {
      assert ShardId(c4, k) == ShardId(c, k);
      assert k in c.shards[i].storage;
    }
  }
}
