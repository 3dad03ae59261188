/** One shard of the cache: a finite map from key to entry plus a dirty flag
    that records whether the map may differ from the shard's file on disk
    (the nested `Shard` class of include/ssc/ssc.hpp). */
module Shards {
  import opened Wrappers
  import opened Entries

  datatype Shard<K, V> = Shard(storage: map<K, Entry<V>>, dirty: bool)

  /** A freshly constructed shard: clean, and no key has an entry. */
  function Empty<K, V>(): (r: Shard<K, V>)
    ensures !r.dirty && |r.storage| == 0
    ensures forall k :: k !in r.storage
  {
    Shard(map[], false)
  }

  /** Both shards agree on `key`: either neither holds it, or both hold the
      same entry for it. */
  ghost predicate SameAt<K, V>(s: Shard<K, V>, t: Shard<K, V>, key: K) {
    (key in s.storage <==> key in t.storage)
    && (key in s.storage ==> s.storage[key] == t.storage[key])
  }

  /** True iff the write mode lets a store for `key` go ahead. */
  predicate Admits<K, V>(s: Shard<K, V>, key: K, mode: WriteMode) {
    match mode
    case Always => true
    case IfNotSet => key !in s.storage
    case IfSet => key in s.storage
  }

  /** `Shard::store`: the write mode decides whether the store happens; a
      store that happens puts the new entry, keeps every other key and marks
      the shard dirty; a refused store changes nothing. */
  function Store<K, V>(s: Shard<K, V>, key: K, value: V, expiry: TimePoint, mode: WriteMode)
    : (r: (bool, Shard<K, V>))
    ensures r.0 <==> Admits(s, key, mode)
    ensures !r.0 ==> r.1 == s
    ensures r.0 ==> r.1.dirty && key in r.1.storage && r.1.storage[key] == Entry(value, expiry)
    ensures r.0 ==> r.1.storage.Keys == s.storage.Keys + {key}
    ensures forall k :: k in s.storage && k != key ==> r.1.storage[k] == s.storage[k]
  {
    var keyExists := key in s.storage;
    var put := (true, Shard(s.storage[key := Entry(value, expiry)], true));
    match mode
    case Always => put
    case IfNotSet => if keyExists then (false, s) else put
    case IfSet => if !keyExists then (false, s) else put
  }

  /** `Shard::getValue`: nothing for an absent or expired key, the stored
      value otherwise. Expired entries stay in the map. */
  function GetValue<K, V>(s: Shard<K, V>, key: K, now: TimePoint): (r: Option<V>)
    ensures r.None? <==> key !in s.storage || IsExpired(s.storage[key], now)
    ensures r.Some? ==> r.value == s.storage[key].value
  {
    if key !in s.storage then None
    else
      var e := s.storage[key];
      if IsExpired(e, now) then None else Some(e.value)
  }

  /** `Shard::getExpiryTime`: the raw stored expiry of a present key, whether
      or not it has passed. */
  function GetExpiryTime<K, V>(s: Shard<K, V>, key: K): (r: Option<TimePoint>)
    ensures r.Some? <==> key in s.storage
    ensures r.Some? ==> r.value == s.storage[key].expiry
  {
    if key in s.storage then Some(s.storage[key].expiry) else None
  }

  /** `Shard::erase`: reports whether the key was present, removes exactly
      that key and marks the shard dirty only when something was removed. */
  function Erase<K, V>(s: Shard<K, V>, key: K): (r: (bool, Shard<K, V>))
    ensures r.0 <==> key in s.storage
    ensures r.1.storage.Keys == s.storage.Keys - {key}
    ensures forall k :: k in r.1.storage ==> r.1.storage[k] == s.storage[k]
    ensures r.1.dirty <==> s.dirty || r.0
  {
    if key in s.storage then (true, Shard(s.storage - {key}, true)) else (false, s)
  }

  /** `Shard::clear`: drops every entry. As in ssc.hpp, the dirty flag is
      left as it was. */
  function Clear<K, V>(s: Shard<K, V>): (r: Shard<K, V>)
    ensures |r.storage| == 0 && forall k :: k !in r.storage
    ensures r.dirty == s.dirty
  {
    Shard(map[], s.dirty)
  }

  /** The keys whose entries are expired at `now`. */
  function ExpiredKeys<K, V>(s: Shard<K, V>, now: TimePoint): set<K> {
    set k | k in s.storage && IsExpired(s.storage[k], now)
  }

  /** Reference definition of `Shard::eraseExpiredEntries`: exactly the
      expired entries go, every other entry is kept as it was, the count is
      the drop in size, and the shard becomes dirty iff something went. */
  function EraseExpired<K, V>(s: Shard<K, V>, now: TimePoint): (r: (nat, Shard<K, V>))
    ensures r.1.storage.Keys <= s.storage.Keys
    ensures forall k :: k in s.storage ==> (k in r.1.storage <==> !IsExpired(s.storage[k], now))
    ensures forall k :: k in r.1.storage ==> r.1.storage[k] == s.storage[k]
    ensures r.0 == |s.storage| - |r.1.storage|
    ensures r.1.dirty <==> s.dirty || r.0 != 0
  {
    var expired := ExpiredKeys(s, now);
    var kept := s.storage - expired;
    assert kept.Keys == s.storage.Keys - expired;
    CardDifference(s.storage.Keys, expired);
    (|expired|, Shard(kept, s.dirty || |expired| != 0))
  }

  /** Removing a subset takes away exactly its size. */
  lemma {:induction false} CardDifference<T>(a: set<T>, b: set<T>)
    requires b <= a
    ensures |a - b| == |a| - |b|
  {
    if b != {} {
      var x :| x in b;
      CardDifference(a - {x}, b - {x});
      assert (a - {x}) - (b - {x}) == a - b;
    }
  }

  /** `Shard::eraseExpiredEntries` as the C++ implementation runs it: one pass over the
      map, erasing each expired entry and counting it. */
  method EraseExpiredEntries<K, V>(s: Shard<K, V>, now: TimePoint) returns (count: nat, r: Shard<K, V>)
    ensures (count, r) == EraseExpired(s, now)
    ensures forall k :: k in r.storage ==> !IsExpired(r.storage[k], now)
  {
    var storage := s.storage;
    var pending := s.storage.Keys;
    count := 0;
    while pending != {}
      invariant pending <= s.storage.Keys
      invariant forall k :: k in storage ==> k in s.storage && storage[k] == s.storage[k]
      invariant forall k :: k in s.storage ==> (k in storage <==> k in pending || !IsExpired(s.storage[k], now))
      invariant |storage| + count == |s.storage|
      decreases pending
    {
      var k :| k in pending;
      if IsExpired(storage[k], now) {
        assert (storage - {k}).Keys == storage.Keys - {k};
        storage := storage - {k};
        count := count + 1;
      }
      pending := pending - {k};
    }
    r := Shard(storage, s.dirty || count != 0);
    var expected := EraseExpired(s, now);
    assert storage == expected.1.storage;
  }

  /** The entries `doForAll` hands to its functor: the unexpired ones. */
  function Visible<K, V>(s: Shard<K, V>, now: TimePoint): map<K, V> {
    map k | k in s.storage && !IsExpired(s.storage[k], now) :: s.storage[k].value
  }

  /** `Shard::doForAll`: the sequence of (key, value) pairs the functor is
      called with, in the map's iteration order. Each unexpired entry is
      visited exactly once and nothing else is. */
  method DoForAll<K, V>(s: Shard<K, V>, now: TimePoint) returns (visited: seq<(K, V)>)
    ensures forall k, v :: (k, v) in visited <==> GetValue(s, k, now) == Some(v)
    ensures forall k, v :: (k, v) in visited <==> k in Visible(s, now) && Visible(s, now)[k] == v
    ensures forall i, j :: 0 <= i < j < |visited| ==> visited[i].0 != visited[j].0
  {
    var pending := s.storage.Keys;
    visited := [];
    while pending != {}
      invariant pending <= s.storage.Keys
      invariant forall k, v :: (k, v) in visited <==> k !in pending && GetValue(s, k, now) == Some(v)
      invariant forall i :: 0 <= i < |visited| ==> visited[i].0 !in pending
      invariant forall i, j :: 0 <= i < j < |visited| ==> visited[i].0 != visited[j].0
      decreases pending
    {
      var k :| k in pending;
      var value := GetValue(s, k, now);
      if value.Some? {
        visited := visited + [(k, value.value)];
      }
      pending := pending - {k};
    }
  }

  /** `Shard::serialize`: the snapshot written to the shard's file is the
      whole map, and writing it leaves the shard clean. */
  function Persist<K, V>(s: Shard<K, V>): (r: (map<K, Entry<V>>, Shard<K, V>))
    ensures r.1.storage == s.storage && !r.1.dirty
    ensures r.0 == r.1.storage
  {
    (s.storage, Shard(s.storage, false))
  }

  /** Whether a merge applies a loaded entry, given whether its key is live:
      a live key is skipped by MergeOnlyNew, an absent one by MergeOnlyExisting. */
  predicate Applies(mode: DeserializationMode, present: bool) {
    if present then mode != MergeOnlyNew else mode != MergeOnlyExisting
  }

  /** The loaded entries a merge writes into the live map. */
  function Applied<K, V>(live: map<K, Entry<V>>, loaded: map<K, Entry<V>>, mode: DeserializationMode)
    : map<K, Entry<V>>
  {
    map k | k in loaded && Applies(mode, k in live) :: loaded[k]
  }

  /** Reference definition of `Shard::deserialize`. Overwrite replaces the map
      by the loaded one and leaves the dirty flag as it was; a merge writes
      the applied entries over the live map and marks the shard dirty iff at
      least one entry was applied, even one equal to the live entry. */
  function Reload<K, V>(s: Shard<K, V>, loaded: map<K, Entry<V>>, mode: DeserializationMode): Shard<K, V> {
    if mode == Overwrite then Shard(loaded, s.dirty)
    else
      var applied := Applied(s.storage, loaded, mode);
      Shard(s.storage + applied, s.dirty || |applied| != 0)
  }

  /** Taking one more loaded key into account adds it to the applied entries
      exactly when the merge applies it. */
  lemma AppliedStep<K, V>(live: map<K, Entry<V>>, loaded: map<K, Entry<V>>, pending: set<K>, k: K,
                          mode: DeserializationMode)
    requires k in pending && pending <= loaded.Keys
    ensures k !in Applied(live, loaded - pending, mode)
    ensures Applies(mode, k in live) ==>
              Applied(live, loaded - (pending - {k}), mode) == Applied(live, loaded - pending, mode)[k := loaded[k]]
    ensures !Applies(mode, k in live) ==>
              Applied(live, loaded - (pending - {k}), mode) == Applied(live, loaded - pending, mode)
  {
  }

  /** Updating a union at one key is updating its right operand there. */
  lemma UnionUpdate<K, V>(a: map<K, V>, b: map<K, V>, k: K, v: V)
    ensures (a + b)[k := v] == a + b[k := v]
  {
  }

  /** `Shard::deserialize` as the C++ implementation runs it: for a merge, one pass over
      the loaded map that tests each key against the live map as it is being
      updated. */
  method Deserialize<K, V>(s: Shard<K, V>, loaded: map<K, Entry<V>>, mode: DeserializationMode)
    returns (r: Shard<K, V>)
    ensures r == Reload(s, loaded, mode)
  {
    if mode == Overwrite {
      return Shard(loaded, s.dirty);
    }
    var storage := s.storage;
    var dirty := s.dirty;
    var pending := loaded.Keys;
    ghost var applied: map<K, Entry<V>> := map[];
    assert loaded - pending == map[];
    while pending != {}
      invariant pending <= loaded.Keys
      invariant applied == Applied(s.storage, loaded - pending, mode)
      invariant storage == s.storage + applied
      invariant dirty <==> s.dirty || |applied| != 0
      decreases pending
    {
      var k :| k in pending;
      AppliedStep(s.storage, loaded, pending, k, mode);
      assert (k in storage) == (k in s.storage);
      if Applies(mode, k in storage) {
        UnionUpdate(s.storage, applied, k, loaded[k]);
        storage := storage[k := loaded[k]];
        applied := applied[k := loaded[k]];
        dirty := true;
      }
      pending := pending - {k};
    }
    assert loaded - pending == loaded;
    r := Shard(storage, dirty);
  }

  // ---------------------------------------------------------------------
  // Properties of the shard operations.
  // ---------------------------------------------------------------------

  /** A store that happens is read back while the entry is unexpired, and
      its raw expiry is read back always. */
  lemma StoreThenGet<K, V>(s: Shard<K, V>, key: K, value: V, expiry: TimePoint, mode: WriteMode, now: TimePoint)
    requires Store(s, key, value, expiry, mode).0
    ensures !IsExpired(Entry(value, expiry), now) ==> GetValue(Store(s, key, value, expiry, mode).1, key, now) == Some(value)
    ensures IsExpired(Entry(value, expiry), now) ==> GetValue(Store(s, key, value, expiry, mode).1, key, now) == None
    ensures GetExpiryTime(Store(s, key, value, expiry, mode).1, key) == Some(expiry)
  {
  }

  /** Once a read returns nothing for a present key, it keeps returning
      nothing at every later time: expiry never reverts. */
  lemma HiddenStaysHidden<K, V>(s: Shard<K, V>, key: K, now: TimePoint, later: TimePoint)
    requires now <= later
    requires GetValue(s, key, now).None?
    ensures GetValue(s, key, later).None?
  {
  }

  /** Sweeping at `now` changes no read made at `now` or later: it only
      removes what reads already hide. */
  lemma EraseExpiredPreservesReads<K, V>(s: Shard<K, V>, now: TimePoint, later: TimePoint, key: K)
    requires now <= later
    ensures GetValue(EraseExpired(s, now).1, key, later) == GetValue(s, key, later)
  {
  }

  /** A second sweep at the same time finds nothing to remove and changes
      nothing. */
  lemma EraseExpiredIdempotent<K, V>(s: Shard<K, V>, now: TimePoint)
    ensures var swept := EraseExpired(s, now).1;
            EraseExpired(swept, now) == (0, swept)
  {
    var swept := EraseExpired(s, now).1;
    var again := EraseExpired(swept, now);
    assert again.1.storage == swept.storage;
  }

  /** The entries a shard holds after a sweep are exactly the ones `doForAll`
      visits, so the sweep leaves the visited set as it was. */
  lemma EraseExpiredKeepsVisible<K, V>(s: Shard<K, V>, now: TimePoint)
    ensures Visible(EraseExpired(s, now).1, now) == Visible(s, now)
    ensures |EraseExpired(s, now).1.storage| == |Visible(s, now)|
  {
    var swept := EraseExpired(s, now).1;
    assert swept.storage.Keys == Visible(s, now).Keys;
  }

  /** Overwrite reload makes the map equal to the loaded one and keeps the
      dirty flag as it was. */
  lemma OverwriteReplaces<K, V>(s: Shard<K, V>, loaded: map<K, Entry<V>>)
    ensures Reload(s, loaded, Overwrite).storage == loaded
    ensures Reload(s, loaded, Overwrite).dirty == s.dirty
  {
  }

  /** MergeUpdate yields the live map overridden by the loaded map. */
  lemma MergeUpdateOverrides<K, V>(s: Shard<K, V>, loaded: map<K, Entry<V>>)
    ensures Reload(s, loaded, MergeUpdate).storage == s.storage + loaded
    ensures Reload(s, loaded, MergeUpdate).dirty <==> s.dirty || |loaded| != 0
  {
    assert Applied(s.storage, loaded, MergeUpdate) == loaded;
  }

  /** MergeOnlyNew never changes the entry of a live key and adds exactly the
      loaded keys that were absent. */
  lemma MergeOnlyNewKeepsLive<K, V>(s: Shard<K, V>, loaded: map<K, Entry<V>>)
    ensures forall k :: k in s.storage ==> SameAt(s, Reload(s, loaded, MergeOnlyNew), k)
    ensures Reload(s, loaded, MergeOnlyNew).storage.Keys == s.storage.Keys + loaded.Keys
  {
  }

  /** MergeOnlyNew yields the loaded map overridden by the live one, so every
      absent key takes the file's entry; the shard becomes dirty iff it was
      dirty or the file held some key the shard did not. */
  lemma MergeOnlyNewTakesFileEntries<K, V>(s: Shard<K, V>, loaded: map<K, Entry<V>>)
    ensures Reload(s, loaded, MergeOnlyNew).storage == loaded + s.storage
    ensures Reload(s, loaded, MergeOnlyNew).dirty <==> s.dirty || exists k :: k in loaded && k !in s.storage
  {
    var applied := Applied(s.storage, loaded, MergeOnlyNew);
    assert s.storage + applied == loaded + s.storage;
    NonEmptyMap(applied);
    assert forall k :: k in applied <==> k in loaded && k !in s.storage;
  }

  /** MergeOnlyExisting never adds a key that was absent; live keys that the
      file also holds take the file's entry. */
  lemma MergeOnlyExistingAddsNothing<K, V>(s: Shard<K, V>, loaded: map<K, Entry<V>>)
    ensures Reload(s, loaded, MergeOnlyExisting).storage.Keys == s.storage.Keys
    ensures forall k :: k in s.storage && k in loaded ==> Reload(s, loaded, MergeOnlyExisting).storage[k] == loaded[k]
    ensures forall k :: k in s.storage && k !in loaded ==> Reload(s, loaded, MergeOnlyExisting).storage[k] == s.storage[k]
    ensures Reload(s, loaded, MergeOnlyExisting).dirty <==> s.dirty || exists k :: k in loaded && k in s.storage
  {
    var applied := Applied(s.storage, loaded, MergeOnlyExisting);
    NonEmptyMap(applied);
  }

  /** A map has a non-zero size exactly when some key is in it. */
  lemma NonEmptyMap<K, V>(m: map<K, V>)
    ensures |m| != 0 <==> exists k :: k in m
  {
    if |m| != 0 {
      assert |m.Keys| != 0;
      var k :| k in m.Keys;
    }
  }

  /** Reloading a shard from the snapshot its serialization wrote restores its
      map under every mode. An OVERWRITE or MERGE_ONLY_NEW reload leaves it
      clean, while a MERGE_UPDATE or MERGE_ONLY_EXISTING reload of a non-empty
      snapshot marks it dirty although nothing changed. Serialization itself
      changes no read. */
  lemma PersistThenReload<K, V>(s: Shard<K, V>, mode: DeserializationMode, key: K, now: TimePoint)
    ensures var (snapshot, written) := Persist(s);
            Reload(written, snapshot, mode).storage == s.storage
    ensures var (snapshot, written) := Persist(s);
            Reload(written, snapshot, mode).dirty <==> mode != Overwrite && mode != MergeOnlyNew && |s.storage| != 0
    ensures GetValue(Persist(s).1, key, now) == GetValue(s, key, now)
    ensures !Persist(s).1.dirty
  {
    var (snapshot, written) := Persist(s);
    var applied := Applied(written.storage, snapshot, mode);
    if mode == MergeOnlyNew {
      assert applied == map[];
    } else if mode != Overwrite {
      assert applied == s.storage;
    }
  }

  /** A reload holds only keys that were live or loaded. */
  lemma ReloadKeys<K, V>(s: Shard<K, V>, loaded: map<K, Entry<V>>, mode: DeserializationMode)
    ensures Reload(s, loaded, mode).storage.Keys <= s.storage.Keys + loaded.Keys
  {
  }

  /** A merge marks the shard dirty even when every applied entry equals the
      live one, so the map is unchanged. */
  lemma MergeMarksDirtyWhenUnchanged<K, V>(s: Shard<K, V>, loaded: map<K, Entry<V>>, mode: DeserializationMode)
    requires mode != Overwrite && mode != MergeOnlyNew
    requires |loaded| != 0
    requires forall k :: k in loaded ==> k in s.storage && s.storage[k] == loaded[k]
    ensures Reload(s, loaded, mode).storage == s.storage
    ensures Reload(s, loaded, mode).dirty
  {
    var k :| k in loaded;
    assert k in Applied(s.storage, loaded, mode);
  }
}
