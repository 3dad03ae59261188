/** Persistence of the cache: writing dirty shards to their files
    (`Cache::serialize`), loading shard files under a deserialization mode
    (`Cache::deserialize`), and opening a cache directory with its metadata
    check (the `Cache` constructor), all of include/ssc/ssc.hpp. */
module Persistence {
  import opened Wrappers
  import opened Entries
  import opened Storage
  import Shards
  import opened Caches

  /** Serialization skips shard `i` when its file exists and it is clean. */
  predicate Skips<K, V>(c: Cache<K, V>, disk: Disk<K, V>, i: nat)
    requires i < |c.shards|
  {
    i in disk.files && !c.shards[i].dirty
  }

  /** Serialization rewrites shard `i` when it does not skip it and the
      file can be opened for writing. */
  predicate Writes<K, V>(c: Cache<K, V>, disk: Disk<K, V>, env: IoEnv, i: nat)
    requires i < |c.shards|
  {
    !Skips(c, disk, i) && i !in env.unwritable
  }

  /** The snapshots a serialization writes, by shard index. */
  function Written<K, V>(c: Cache<K, V>, disk: Disk<K, V>, env: IoEnv, upTo: nat): map<nat, map<K, Entry<V>>>
    requires upTo <= |c.shards|
  {
    map i: nat | i < upTo && Writes(c, disk, env, i) :: Shards.Persist(c.shards[i]).0
  }

  /** Reference definition of `Cache::serialize`: success, the cache with
      its dirty flags updated, and the directory afterwards. */
  function Persisted<K, V>(c: Cache<K, V>, disk: Disk<K, V>, env: IoEnv): (bool, Cache<K, V>, Disk<K, V>) {
    var n := |c.shards|;
    var ok := forall i: nat | i < n :: !Skips(c, disk, i) ==> i !in env.unwritable;
    var shards := seq(n, i requires 0 <= i < n =>
                        if Writes(c, disk, env, i) then Shards.Persist(c.shards[i]).1 else c.shards[i]);
    (ok, c.(shards := shards), disk.(files := disk.files + Written(c, disk, env, n)))
  }

  /** `Cache::serialize`: every shard that is dirty or has no file is written
      in full and becomes clean; a shard whose file cannot be opened is left
      as it is and makes the result false, without stopping the others. */
  method Serialize<K, V>(c: Cache<K, V>, disk: Disk<K, V>, env: IoEnv) returns (ok: bool, r: Cache<K, V>, disk': Disk<K, V>)
    ensures (ok, r, disk') == Persisted(c, disk, env)
  {
    var n := |c.shards|;
    var shards := c.shards;
    var files := disk.files;
    ok := true;
    assert Written(c, disk, env, 0) == map[];
    for i: nat := 0 to n
      invariant |shards| == n
      invariant forall j :: 0 <= j < n ==>
                  shards[j] == if j < i && Writes(c, disk, env, j) then Shards.Persist(c.shards[j]).1 else c.shards[j]
      invariant files == disk.files + Written(c, disk, env, i)
      invariant ok <==> forall j: nat :: j < i && !Skips(c, disk, j) ==> j !in env.unwritable
    {
      WrittenStep(c, disk, env, i);
      assert (i in files) == (i in disk.files);
      if i in files && !shards[i].dirty {
        // the file exists and the shard is clean: nothing to write
      } else if i in env.unwritable {
        ok := false;
      } else {
        var (snapshot, clean) := Shards.Persist(shards[i]);
        Shards.UnionUpdate(disk.files, Written(c, disk, env, i), i, snapshot);
        files := files[i := snapshot];
        shards := shards[i := clean];
      }
    }
    r := c.(shards := shards);
    disk' := disk.(files := files);
    PersistedAfterLoop(c, disk, env, ok, shards);
  }

  /** The loop's state after the last shard is the reference outcome. */
  lemma PersistedAfterLoop<K, V>(c: Cache<K, V>, disk: Disk<K, V>, env: IoEnv, ok: bool, shards: seq<Shards.Shard<K, V>>)
    requires |shards| == |c.shards|
    requires forall j :: 0 <= j < |c.shards| ==>
               shards[j] == if Writes(c, disk, env, j) then Shards.Persist(c.shards[j]).1 else c.shards[j]
    requires ok <==> forall j: nat :: j < |c.shards| && !Skips(c, disk, j) ==> j !in env.unwritable
    ensures Persisted(c, disk, env).0 == ok
    ensures Persisted(c, disk, env).1 == c.(shards := shards)
  {
  }

  /** Taking one more shard into account adds its snapshot to the written
      files exactly when serialization writes it. */
  lemma WrittenStep<K, V>(c: Cache<K, V>, disk: Disk<K, V>, env: IoEnv, i: nat)
    requires i < |c.shards|
    ensures i !in Written(c, disk, env, i)
    ensures Written(c, disk, env, i + 1) ==
              if Writes(c, disk, env, i) then Written(c, disk, env, i)[i := c.shards[i].storage]
              else Written(c, disk, env, i)
  {
  }

  /** What serialization does, shard by shard: it fails iff some shard it
      does not skip cannot be written; a written shard's file holds the
      shard's whole map and the shard becomes clean; every other shard and
      file stays as it was, and so does the metadata. */
  lemma PersistedShardByShard<K, V>(c: Cache<K, V>, disk: Disk<K, V>, env: IoEnv)
    ensures var (ok, r, disk') := Persisted(c, disk, env);
      && (ok <==> forall i: nat :: i < |c.shards| && !Skips(c, disk, i) ==> i !in env.unwritable)
      && r.hasher == c.hasher && |r.shards| == |c.shards| && disk'.meta == disk.meta
      && disk'.isDirectory == disk.isDirectory
      && (forall i: nat :: i < |c.shards| && Writes(c, disk, env, i) ==>
            i in disk'.files && disk'.files[i] == c.shards[i].storage && r.shards[i] == Shards.Shard(c.shards[i].storage, false))
      && (forall i: nat :: i < |c.shards| && !Writes(c, disk, env, i) ==>
            r.shards[i] == c.shards[i] && (i in disk'.files <==> i in disk.files)
            && (i in disk.files ==> disk'.files[i] == disk.files[i]))
      && (forall i: nat :: i >= |c.shards| ==> (i in disk'.files <==> i in disk.files))
  {
  }

  /** Shard `i` after deserialization: reloaded from its file if it has one. */
  function ReloadedShard<K, V>(c: Cache<K, V>, disk: Disk<K, V>, mode: DeserializationMode, i: nat): Shards.Shard<K, V>
    requires i < |c.shards|
  {
    if i in disk.files then Shards.Reload(c.shards[i], disk.files[i], mode) else c.shards[i]
  }

  /** Reference definition of `Cache::deserialize`: success, and the cache
      with every shard that has a file reloaded from it. */
  function Reloaded<K, V>(c: Cache<K, V>, disk: Disk<K, V>, mode: DeserializationMode): (bool, Cache<K, V>) {
    var n := |c.shards|;
    (forall i: nat | i < n :: i in disk.files,
     c.(shards := seq(n, i requires 0 <= i < n => ReloadedShard(c, disk, mode, i))))
  }

  /** `Cache::deserialize`: the shard loop computes the reference reload. */
  method Deserialize<K, V>(c: Cache<K, V>, disk: Disk<K, V>, mode: DeserializationMode) returns (ok: bool, r: Cache<K, V>)
    ensures (ok, r) == Reloaded(c, disk, mode)
  {
    var n := |c.shards|;
    var shards := c.shards;
    ok := true;
    for i: nat := 0 to n
      invariant |shards| == n
      invariant forall j: nat :: j < i ==> shards[j] == ReloadedShard(c, disk, mode, j)
      invariant forall j :: i <= j < n ==> shards[j] == c.shards[j]
      invariant ok <==> forall j: nat :: j < i ==> j in disk.files
    {
      if i in disk.files {
        var shard := Shards.Deserialize(c.shards[i], disk.files[i], mode);
        shards := shards[i := shard];
      } else {
        ok := false;
      }
    }
    r := c.(shards := shards);
    ReloadedAfterLoop(c, disk, mode, shards);
  }

  /** The loop's shards after the last index are the reference reload's. */
  lemma ReloadedAfterLoop<K, V>(c: Cache<K, V>, disk: Disk<K, V>, mode: DeserializationMode, shards: seq<Shards.Shard<K, V>>)
    requires |shards| == |c.shards|
    requires forall j: nat :: j < |c.shards| ==> shards[j] == ReloadedShard(c, disk, mode, j)
    ensures Reloaded(c, disk, mode).1 == c.(shards := shards)
  {
  }

  /** What deserialization does, shard by shard: it fails iff some shard
      file is missing; every shard that has a file is reloaded from it under
      the mode, and a missing file leaves its shard as it was without
      stopping the others. */
  lemma ReloadedShardByShard<K, V>(c: Cache<K, V>, disk: Disk<K, V>, mode: DeserializationMode)
    ensures var (ok, r) := Reloaded(c, disk, mode);
      && (ok <==> forall i: nat :: i < |c.shards| ==> i in disk.files)
      && r.hasher == c.hasher && |r.shards| == |c.shards|
      && (forall i: nat :: i < |c.shards| && i in disk.files ==> r.shards[i] == Shards.Reload(c.shards[i], disk.files[i], mode))
      && (forall i: nat :: i < |c.shards| && i !in disk.files ==> r.shards[i] == c.shards[i])
  {
  }

  /** Why opening a cache directory fails. */
  datatype OpenError =
    | CannotCreateDirectory   // the directory did not exist and could not be created
    | CannotWriteMeta         // the metadata file of a new directory could not be opened for writing
    | CannotReadMeta          // the directory exists but its metadata file cannot be opened
    | IncompatibleMeta        // key type, value type and/or shard count differ
    | InconsistentStore       // some shard file is missing

  /** A cache whose `n` shards are all empty and clean. */
  function EmptyCache<K, V>(n: nat, hasher: K -> nat): Cache<K, V> {
    Cache(seq(n, _ => Shards.Empty()), hasher)
  }

  /** The `Cache` constructor. A missing directory is created together with
      its metadata record and the cache starts empty. An existing directory
      is opened only when its metadata equals `expected` and every shard file
      loads; it is never modified, whatever the outcome. */
  function Open<K, V>(disk: Disk<K, V>, env: IoEnv, expected: Meta, hasher: K -> nat)
    : (r: (Result<Cache<K, V>, OpenError>, Disk<K, V>))
    ensures r.0.Success? ==> r.0.value.hasher == hasher && |r.0.value.shards| == expected.shardCount
    ensures r.0.Success? ==> forall i :: 0 <= i < expected.shardCount ==> !r.0.value.shards[i].dirty
    ensures disk.isDirectory ==> r.1 == disk
    ensures disk.isDirectory ==>
              (r.0.Success? <==> disk.meta == Some(expected) && forall i: nat :: i < expected.shardCount ==> i in disk.files)
    ensures disk.isDirectory && disk.meta.Some? && disk.meta.value != expected ==> r.0 == Failure(IncompatibleMeta)
    ensures disk.isDirectory && r.0.Success? ==>
              forall i: nat :: i < expected.shardCount ==> r.0.value.shards[i].storage == disk.files[i]
    ensures !disk.isDirectory ==> (r.0.Success? <==> !env.mkdirFails && !env.metaWriteFails)
    ensures !disk.isDirectory && env.mkdirFails ==> r == (Failure(CannotCreateDirectory), disk)
    ensures !disk.isDirectory && !env.mkdirFails && env.metaWriteFails ==>
              r == (Failure(CannotWriteMeta), Disk(true, None, map[]))
    ensures !disk.isDirectory && r.0.Success? ==> r.1 == Disk(true, Some(expected), map[]) && GetSize(r.0.value) == 0
  {
    var initial := EmptyCache(expected.shardCount, hasher);
    if !disk.isDirectory then
      if env.mkdirFails then (Failure(CannotCreateDirectory), disk)
      else if env.metaWriteFails then (Failure(CannotWriteMeta), Disk(true, None, map[]))
      else
        SumSizesZero(initial.shards);
        (Success(initial), Disk(true, Some(expected), map[]))
    else if disk.meta.None? then (Failure(CannotReadMeta), disk)
    else if disk.meta.value != expected then (Failure(IncompatibleMeta), disk)
    else
      var (ok, c) := Reloaded(initial, disk, Overwrite);
      if ok then (Success(c), disk) else (Failure(InconsistentStore), disk)
  }

  /** Every clean shard that has a file holds exactly what the file holds:
      skipping it on serialization loses nothing. */
  ghost predicate Synced<K, V>(c: Cache<K, V>, disk: Disk<K, V>) {
    forall i: nat :: i < |c.shards| && i in disk.files && !c.shards[i].dirty ==> disk.files[i] == c.shards[i].storage
  }

  // ---------------------------------------------------------------------
  // Properties of persisting and reopening.
  // ---------------------------------------------------------------------

  /** A second serialization with no mutation in between rewrites no file,
      changes no dirty flag and reports the same outcome. */
  lemma SerializeTwiceWritesNothing<K, V>(c: Cache<K, V>, disk: Disk<K, V>, env: IoEnv)
    ensures var (_, c1, d1) := Persisted(c, disk, env);
            forall i: nat :: i < |c.shards| ==> !Writes(c1, d1, env, i)
    ensures var (ok1, c1, d1) := Persisted(c, disk, env);
            Persisted(c1, d1, env) == (ok1, c1, d1)
  {
    var (ok1, c1, d1) := Persisted(c, disk, env);
    var (ok2, c2, d2) := Persisted(c1, d1, env);
    var n := |c.shards|;
    assert forall i: nat :: i < n ==> !Writes(c1, d1, env, i);
    assert Written(c1, d1, env, n) == map[];
    assert d2.files == d1.files;
    assert c2.shards == c1.shards;
  }

  /** Serialization keeps every clean shard in step with its file. */
  lemma PersistKeepsSynced<K, V>(c: Cache<K, V>, disk: Disk<K, V>, env: IoEnv)
    requires Synced(c, disk)
    ensures var (_, c1, d1) := Persisted(c, disk, env); Synced(c1, d1)
  {
  }

  /** After a successful serialization of a cache whose clean shards match
      their files, every shard's file holds that shard's whole map. */
  lemma PersistWritesEveryShard<K, V>(c: Cache<K, V>, disk: Disk<K, V>, env: IoEnv)
    requires Synced(c, disk)
    requires Persisted(c, disk, env).0
    ensures var (_, c1, d1) := Persisted(c, disk, env);
            forall i: nat :: i < |c.shards| ==>
              i in d1.files && d1.files[i] == c.shards[i].storage && c1.shards[i].storage == c.shards[i].storage
  {
  }

  /** Round trip: persist a cache, then open its directory afresh; the new
      cache holds the same map in every shard and answers every read the
      same way. */
  lemma ReopenAfterPersistRestores<K, V>(c: Cache<K, V>, disk: Disk<K, V>, env: IoEnv, expected: Meta)
    requires |c.shards| > 0 && expected.shardCount == |c.shards|
    requires disk.isDirectory && disk.meta == Some(expected)
    requires Synced(c, disk)
    requires Persisted(c, disk, env).0
    ensures var d1 := Persisted(c, disk, env).2;
            var reopened := Open(d1, env, expected, c.hasher).0;
            && reopened.Success?
            && (forall i: nat :: i < |c.shards| ==> reopened.value.shards[i].storage == c.shards[i].storage)
            && (forall k, now :: GetValue(reopened.value, k, now) == GetValue(c, k, now))
  {
    var d1 := Persisted(c, disk, env).2;
    PersistWritesEveryShard(c, disk, env);
    var reopened := Open(d1, env, expected, c.hasher).0;
    forall k, now
      ensures GetValue(reopened.value, k, now) == GetValue(c, k, now)
    {
      assert ShardId(reopened.value, k) == ShardId(c, k);
    }
  }

  /** A store or an erase keeps every clean shard in step with its file:
      the shard it changes becomes dirty. */
  lemma StoreAndEraseKeepSynced<K, V>(c: Cache<K, V>, disk: Disk<K, V>, key: K, value: V, expiry: TimePoint,
                                      mode: WriteMode)
    requires |c.shards| > 0
    requires Synced(c, disk)
    ensures Synced(StoreValue(c, key, value, expiry, mode).1, disk)
    ensures Synced(Erase(c, key).1, disk)
  {
  }

  /** Curation keeps every clean shard in step with its file: a shard it
      changes becomes dirty. */
  lemma CurateKeepsSynced<K, V>(c: Cache<K, V>, disk: Disk<K, V>, now: TimePoint)
    requires Synced(c, disk)
    ensures Synced(Curated(c, now), disk)
  {
    var c1 := Curated(c, now);
    forall i: nat | i < |c1.shards| && i in disk.files && !c1.shards[i].dirty
      ensures disk.files[i] == c1.shards[i].storage
    {
      var swept := Shards.EraseExpired(c.shards[i], now);
      assert swept.1.storage == c.shards[i].storage;
    }
  }

  /** Reloading from the directory, under any mode, keeps every clean shard
      in step with its file. */
  lemma ReloadKeepsSynced<K, V>(c: Cache<K, V>, disk: Disk<K, V>, mode: DeserializationMode)
    requires Synced(c, disk)
    ensures Synced(Reloaded(c, disk, mode).1, disk)
  {
    var c1 := Reloaded(c, disk, mode).1;
    forall i: nat | i < |c1.shards| && i in disk.files && !c1.shards[i].dirty
      ensures disk.files[i] == c1.shards[i].storage
    {
      if mode != Overwrite {
        assert Shards.Applied(c.shards[i].storage, disk.files[i], mode) == map[];
      }
    }
  }

  /** A cache opened successfully is in step with its directory. */
  lemma OpenIsSynced<K, V>(disk: Disk<K, V>, env: IoEnv, expected: Meta, hasher: K -> nat)
    requires Open(disk, env, expected, hasher).0.Success?
    ensures var (reopened, d1) := Open(disk, env, expected, hasher); Synced(reopened.value, d1)
  {
  }

  /** Every shard file below the shard count holds only keys that route to
      its own index; files with other indices are never read. The
      constructor and `deserialize` load files without checking this. */
  ghost predicate FilesRouted<K, V>(disk: Disk<K, V>, hasher: K -> nat, n: nat) {
    n > 0 && forall i: nat, k :: i < n && i in disk.files && k in disk.files[i] ==> hasher(k) % n == i
  }

  /** Deserialization keeps every key in its routed shard when every file
      holds only keys routed to it. */
  lemma ReloadKeepsRouting<K, V>(c: Cache<K, V>, disk: Disk<K, V>, mode: DeserializationMode)
    requires WellRouted(c) && FilesRouted(disk, c.hasher, |c.shards|)
    ensures WellRouted(Reloaded(c, disk, mode).1)
  {
    var c1 := Reloaded(c, disk, mode).1;
    forall i, k | 0 <= i < |c1.shards| && k in c1.shards[i].storage
      ensures ShardId(c1, k) == i
    {
      assert ShardId(c1, k) == ShardId(c, k);
      if i in disk.files {
        Shards.ReloadKeys(c.shards[i], disk.files[i], mode);
        if k in disk.files[i] {
          assert c.hasher(k) % |c.shards| == i;
        } else {
          assert k in c.shards[i].storage;
        }
      } else {
        assert k in c.shards[i].storage;
      }
    }
  }

  /** A cache the constructor opens has every key in its routed shard when
      every file holds only keys routed to it. */
  lemma OpenIsRouted<K, V>(disk: Disk<K, V>, env: IoEnv, expected: Meta, hasher: K -> nat)
    requires FilesRouted(disk, hasher, expected.shardCount)
    requires Open(disk, env, expected, hasher).0.Success?
    ensures WellRouted(Open(disk, env, expected, hasher).0.value)
  {
    var initial: Cache<K, V> := EmptyCache(expected.shardCount, hasher);
    assert WellRouted(initial);
    if disk.isDirectory {
      ReloadKeepsRouting(initial, disk, Overwrite);
    }
  }

  /** The constructor does not check routing: a directory whose shard file
      `i` holds a key routed elsewhere still opens, the key lands in shard
      `i`, the cache is no longer well routed, and unless the routed shard's
      file also holds the key, a read of it finds nothing. */
  lemma UnroutedFileOpens<K, V>(disk: Disk<K, V>, env: IoEnv, expected: Meta, hasher: K -> nat,
                                i: nat, key: K, now: TimePoint)
    requires disk.isDirectory && disk.meta == Some(expected)
    requires forall j: nat :: j < expected.shardCount ==> j in disk.files
    requires i < expected.shardCount && key in disk.files[i] && hasher(key) % expected.shardCount != i
    ensures Open(disk, env, expected, hasher).0.Success?
    ensures var c := Open(disk, env, expected, hasher).0.value;
            key in c.shards[i].storage && !WellRouted(c)
    ensures key !in disk.files[hasher(key) % expected.shardCount] ==>
              GetValue(Open(disk, env, expected, hasher).0.value, key, now) == None
  {
    var c := Open(disk, env, expected, hasher).0.value;
    assert c.shards[i].storage == disk.files[i];
    assert ShardId(c, key) == hasher(key) % expected.shardCount;
    assert c.shards[ShardId(c, key)].storage == disk.files[ShardId(c, key)];
  }

  /** A directory created without its metadata record is left behind, and
      every later attempt to open it fails for want of metadata, whatever is
      expected of it. */
  lemma FailedMetaWriteBlocksLaterOpens<K, V>(disk: Disk<K, V>, env: IoEnv, expected: Meta, hasher: K -> nat,
                                             env': IoEnv, expected': Meta, hasher': K -> nat)
    requires !disk.isDirectory && !env.mkdirFails && env.metaWriteFails
    ensures var d1 := Open(disk, env, expected, hasher).1;
            d1.isDirectory && Open(d1, env', expected', hasher') == (Failure(CannotReadMeta), d1)
  {
  }

  /** Clearing keeps the dirty flags, so a clean shard that had a file is
      skipped by the next serialization: the file keeps the cleared entries
      and reopening the directory brings them back. */
  lemma ClearedEntriesComeBack()
    ensures var entry := Entry(10, MaxTime);
            var c := Cache([Shards.Shard(map[1 := entry], false)], (k: int) => 0);
            var meta := Meta(1, 2, 1);
            var disk := Disk(true, Some(meta), map[0 := map[1 := entry]]);
            var env := IoEnv(false, false, {});
            var cleared := Clear(c);
            var (ok, _, d1) := Persisted(cleared, disk, env);
            var reopened := Open(d1, env, meta, c.hasher).0;
            && Synced(c, disk)
            && GetValue(cleared, 1, 0) == None
            && ok && d1 == disk
            && reopened.Success? && GetValue(reopened.value, 1, 0) == Some(10)
  {
    var entry := Entry(10, MaxTime);
    var c := Cache([Shards.Shard(map[1 := entry], false)], (k: int) => 0);
    var meta := Meta(1, 2, 1);
    var disk := Disk(true, Some(meta), map[0 := map[1 := entry]]);
    var env := IoEnv(false, false, {});
    var cleared := Clear(c);
    assert Written(cleared, disk, env, 1) == map[];
    var (ok, _, d1) := Persisted(cleared, disk, env);
    assert d1.files == disk.files;
    var reopened := Open(d1, env, meta, c.hasher).0;
    assert reopened.value.shards[0].storage == map[1 := entry];
  }

  /** Opening a directory created for a different shard count fails with a
      metadata mismatch and leaves the directory as it was. */
  lemma ShardCountMismatchRejected<K, V>(disk: Disk<K, V>, env: IoEnv, stored: Meta, expected: Meta, hasher: K -> nat)
    requires disk.isDirectory && disk.meta == Some(stored)
    requires stored.shardCount != expected.shardCount
    ensures Open(disk, env, expected, hasher) == (Failure(IncompatibleMeta), disk)
  {
  }
}
