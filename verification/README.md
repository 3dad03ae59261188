# ssc cache engine in Dafny

This project models the cache engine of `ssc`, a disk-persisted key-value
cache that is embedded in the application using it. The cache holds a fixed
number of shards. Each key is routed to shard `hash(key) % shardCount`. A
shard is a map from key to entry plus a dirty flag. An entry is a value
together with an expiry time point.

- Expiry is lazy. Reads hide expired entries, but only `curate` removes entries because they expired.
- A store's write mode (ALWAYS, IF_SET, IF_NOT_SET) decides whether it happens.
- Serialization writes a shard only when it is dirty or has no file.
- Deserialization combines each shard file with the live shard under one of
  four modes: OVERWRITE, MERGE_UPDATE, MERGE_ONLY_NEW, MERGE_ONLY_EXISTING.
- The constructor creates a missing directory with a metadata record. It
  opens an existing directory only if the stored key-type hash, value-type
  hash and shard count equal the expected ones and every shard file loads.

Modules, following the structure of `ssc.hpp`:

- `Wrappers` (wrappers.dfy): `Option` stands in for a returned null pointer,
  and `Result` for a constructor that throws.
- `Entries` (entries.dfy): time points, `MaxTime` (the clock's
  `TimePoint::max()`, with a signed 64-bit tick count), `Entry`,
  `IsExpired`, and the write and deserialization modes.
- `Shards` (shards.dfy): the `Shard` class.
- `Storage` (storage.dfy): the cache directory, abstracted.
  - `Disk` holds whether the directory exists, the metadata record, and
    the map each `shard<i>` file decodes to.
  - `IoEnv` says which file-system requests fail.
- `Caches` (caches.dfy): routing, per-key operations, size, clear, curate
  and iteration.
- `Persistence` (persistence.dfy): serialize, deserialize and the
  constructor.

Time is an explicit `now` parameter. The key hash is a field
`hasher: K -> nat` of the cache, which stands for `std::hash<TKey>`. Each
loop of `ssc.hpp` is modelled twice:

- a method that runs the loop as `ssc.hpp` does, with loop invariants;
- a functional reference definition that the lemmas use.

The method's contract says that it computes the reference. Those loops are
`eraseExpiredEntries`, the merge loop of `Shard::deserialize`, `curate`,
`serialize` and `deserialize`. The two `doForAll` loops have no result but
the calls they make, so their contracts say which pairs are visited: a
shard's visible map (`Shards.Visible`), and for the whole cache the pairs
some shard holds unexpired (`Caches.Visits`).

Three behaviours of the code are reproduced as written:

- `Shard::clear` keeps the dirty flag.
- OVERWRITE deserialization keeps the dirty flag.
- A merge marks the shard dirty for every applied entry, even one equal to
  the live entry.

The predicate `Persistence.Synced` says that every clean shard with a file
holds what its file holds. Store, erase, curate, deserialize, serialize and
open all preserve it. `Clear` does not, and `ClearedEntriesComeBack` shows
the consequence:

1. A clean shard with a file is cleared.
2. The next serialization skips that shard.
3. Reopening the directory brings the cleared entry back.

## Model

| member | source | states |
|---|---|---|
| Entries.IsExpired | include/ssc/ssc.hpp:175 | an entry expires only when its expiry is not the maximal time point and the clock is strictly past it |
| Shards.Store | include/ssc/ssc.hpp:197-226 | the result is true iff the write mode admits the store: IF_NOT_SET needs an absent key, IF_SET a present one. A refused store leaves the shard identical, including the dirty flag. A store that happens maps the key to the new entry, adds only that key, keeps every other key's entry and sets dirty |
| Shards.Empty | include/ssc/ssc.hpp:193 | a new shard is clean and holds no key |
| Shards.Clear | include/ssc/ssc.hpp:269 | afterwards the shard holds no key, and its dirty flag is unchanged |
| Shards.GetValue | include/ssc/ssc.hpp:228-240 | nothing iff the key is absent or its entry is expired at `now`, otherwise the stored value |
| Shards.GetExpiryTime | include/ssc/ssc.hpp:252-259 | some iff the key is present, and then the raw stored expiry, whether or not it has passed |
| Shards.Erase | include/ssc/ssc.hpp:261-267 | true iff the key was present. Exactly that key is removed, every other entry is kept, and dirty is set iff something was removed |
| Shards.EraseExpired | include/ssc/ssc.hpp:271-284 | after the sweep a key remains iff it was present and unexpired, and kept entries are unchanged. The count equals old size minus new size. Dirty is set iff the count is non-zero |
| Shards.EraseExpiredEntries | include/ssc/ssc.hpp:271-284 | the one-pass erase-and-count loop computes exactly the reference sweep and leaves no expired entry |
| Shards.DoForAll | include/ssc/ssc.hpp:242-250 | the functor receives a pair (k, v) iff a read of k returns v, which is iff the shard's visible map sends k to v. No key is visited twice |
| Shards.PersistThenReload | include/ssc/ssc.hpp:286-315 | reloading a shard from the snapshot its serialization wrote restores its map under every mode. After an OVERWRITE or MERGE_ONLY_NEW reload the shard is clean; a MERGE_UPDATE or MERGE_ONLY_EXISTING reload of a non-empty snapshot marks it dirty although nothing changed. Serializing leaves the shard clean and changes no read |
| Shards.Deserialize | include/ssc/ssc.hpp:293-315 | the merge loop tests each loaded key against the live map while updating it, and yields exactly the reference reload |
| Shards.OverwriteReplaces | include/ssc/ssc.hpp:295-296 | OVERWRITE makes the map equal to the file's map and leaves dirty as it was |
| Shards.MergeUpdateOverrides | include/ssc/ssc.hpp:300-311 | MERGE_UPDATE yields the live map overridden by the file's map. It is dirty iff it was dirty or the file is non-empty |
| Shards.MergeOnlyNewKeepsLive | include/ssc/ssc.hpp:300-304 | MERGE_ONLY_NEW never changes a live key's entry, and the keys become the union of live and loaded keys |
| Shards.MergeOnlyNewTakesFileEntries | include/ssc/ssc.hpp:300-311 | MERGE_ONLY_NEW yields the file's map overridden by the live one, so each absent key takes the file's entry. The shard is dirty iff it was dirty or the file held a key the shard did not |
| Shards.MergeOnlyExistingAddsNothing | include/ssc/ssc.hpp:305-311 | MERGE_ONLY_EXISTING keeps the key set. Live keys the file holds take the file's entry, and the others keep theirs. The shard is dirty iff it was dirty or the file held some live key |
| Shards.MergeMarksDirtyWhenUnchanged | include/ssc/ssc.hpp:310-311 | a merge that applies only entries equal to the live ones leaves the map as it was and still sets dirty |
| Shards.StoreThenGet | include/ssc/ssc.hpp:197-240 | after a store that happens, the value is read back iff the entry is unexpired, and the raw expiry is read back always |
| Shards.HiddenStaysHidden | include/ssc/ssc.hpp:175 | once a read returns nothing it returns nothing at every later time |
| Shards.EraseExpiredPreservesReads | include/ssc/ssc.hpp:271-284 | a sweep at `now` changes no read made at `now` or later |
| Shards.EraseExpiredIdempotent | include/ssc/ssc.hpp:271-284 | a second sweep at the same time removes nothing and changes nothing |
| Shards.EraseExpiredKeepsVisible | include/ssc/ssc.hpp:242-284 | a sweep leaves the set of entries that doForAll visits unchanged, and afterwards the shard's size equals the number of visible entries |
| Caches.ShardId | include/ssc/ssc.hpp:324 | the owning shard's index is below the shard count |
| Caches.StoreValue | include/ssc/ssc.hpp:84-90 | the store happens in the owning shard under that shard's write-mode rules, and every other shard is unchanged |
| Caches.StoreValueNoExpiry | include/ssc/ssc.hpp:84-94 | the store happens iff the owning shard's write mode admits it, and no other shard changes. A store that happens is readable at every time and its expiry reads back as the maximal time point; a refused one changes nothing |
| Caches.GetValue | include/ssc/ssc.hpp:96-99 | a value is returned iff the owning shard holds the key unexpired, and it is that entry's value, which doForAll also visits |
| Caches.GetExpiryTime | include/ssc/ssc.hpp:116-119 | an expiry is returned iff the owning shard holds the key, expired or not, and it is that entry's stored expiry |
| Caches.Erase | include/ssc/ssc.hpp:107-110 | the erase happens in the owning shard, and every other shard is unchanged |
| Caches.Clear | include/ssc/ssc.hpp:112-114 | afterwards the size is zero and every shard's dirty flag is unchanged |
| Caches.GetSize | include/ssc/ssc.hpp:75-80 | the size is zero iff every shard is empty, and no shard holds more entries than the size |
| Caches.IsEmpty | include/ssc/ssc.hpp:82 | true iff every shard's map is empty |
| Caches.SumSizesZero | include/ssc/ssc.hpp:75-80 | the summed size is zero iff every shard is empty |
| Caches.SumSizesUpdate | include/ssc/ssc.hpp:75-80 | replacing one shard changes the size by the change in that shard's entry count |
| Caches.ShardSizeBelowTotal | include/ssc/ssc.hpp:75-80 | every shard's entries, expired or not, are counted in the size |
| Caches.Curate | include/ssc/ssc.hpp:121-127 | the shard-by-shard loop yields every shard swept, and the total returned equals the drop in size |
| Caches.DoForAll | include/ssc/ssc.hpp:101-105 | the functor receives (k, v) iff some shard holds k unexpired with value v. In a cache where every key sits in its routed shard, no key is visited twice |
| Caches.StoreThenGet | include/ssc/ssc.hpp:84-99 | an ALWAYS store always happens. A stored value is read back while unexpired, and its raw expiry is always read back |
| Caches.OtherKeysUnchanged | include/ssc/ssc.hpp:84-119 | a store or an erase of one key changes no read of any other key, even a key in the same shard |
| Caches.IfNotSetKeepsFirst | include/ssc/ssc.hpp:204-208 | of two IF_NOT_SET stores to an absent key, the second is refused and changes nothing, and the first value is read |
| Caches.IfSetOnAbsentRefused | include/ssc/ssc.hpp:209-212 | IF_SET on an absent key is refused, changes nothing and leaves the key unreadable |
| Caches.StoreSize | include/ssc/ssc.hpp:197-226 | the size grows by one iff a store happens for a key that was absent, and is unchanged otherwise |
| Caches.EraseThenGet | include/ssc/ssc.hpp:107-110 | erase reports whether the key was present, expired or not. Afterwards the key is gone and the size dropped by one iff it was present |
| Caches.CuratePreservesReads | include/ssc/ssc.hpp:121-127 | curating at `now` changes no read made at `now` or later |
| Caches.ExpiredStillCounted | include/ssc/ssc.hpp:75-80 | a present but expired key is hidden from reads and still counted in the size |
| Caches.ExpiryScenario | include/ssc/ssc.hpp:84-127 | in an empty cache, a store with a finite expiry is read before the expiry and a later IF_NOT_SET store is refused. After the expiry the value is hidden but counted, and curation empties the cache |
| Caches.RoutedVisitsAreReads | include/ssc/ssc.hpp:101-105 | in a cache where every key sits in its routed shard, doForAll visits exactly what reads return |
| Caches.OperationsKeepRouting | include/ssc/ssc.hpp:324-328 | store, erase, clear and curate keep every key in the shard it routes to |
| Persistence.Serialize | include/ssc/ssc.hpp:129-147 | the shard loop computes exactly the reference serialization |
| Persistence.PersistedShardByShard | include/ssc/ssc.hpp:129-147 | the result is false iff some shard that is not skipped cannot be opened for writing. A written shard's file holds its whole map and the shard becomes clean. Every other shard, file and the metadata stay as they were |
| Persistence.SerializeTwiceWritesNothing | include/ssc/ssc.hpp:134-136 | a second serialization with no mutation in between rewrites no file, changes no dirty flag and returns the same result |
| Persistence.PersistWritesEveryShard | include/ssc/ssc.hpp:129-147 | after a successful serialization of a cache in step with its directory, every shard has a file holding exactly its map |
| Persistence.PersistKeepsSynced | include/ssc/ssc.hpp:286-291 | serialization keeps every clean shard in step with its file |
| Persistence.Deserialize | include/ssc/ssc.hpp:149-162 | the shard loop computes exactly the reference deserialization |
| Persistence.ReloadedShardByShard | include/ssc/ssc.hpp:149-162 | the result is false iff some shard file is missing. Every shard with a file is reloaded under the mode, and the others are untouched, so a missing file does not stop the rest |
| Persistence.Open | include/ssc/ssc.hpp:35-73 | a missing directory is created with its metadata and the cache starts empty. A failed `mkdir` fails and changes nothing; a metadata file that cannot be written fails and leaves the directory behind with no metadata. An existing directory is never modified, and opening it succeeds iff the metadata equals the expected key hash, value hash and shard count and every shard file exists; the shards then hold the files' maps and are clean |
| Persistence.ReopenAfterPersistRestores | include/ssc/ssc.hpp:64-71 | for a cache whose clean shards match their files (open, store, erase, curate, deserialize and serialize keep this; clear does not), reopening the directory after a successful serialization restores every shard's map and gives the same answer to every read |
| Persistence.StoreAndEraseKeepSynced | include/ssc/ssc.hpp:261-267 | a store or an erase marks the shard it changes dirty, so clean shards stay in step with their files |
| Persistence.CurateKeepsSynced | include/ssc/ssc.hpp:280-282 | a sweep that changes a shard marks it dirty |
| Persistence.ReloadKeepsSynced | include/ssc/ssc.hpp:293-315 | reloading from the directory in any mode keeps clean shards in step with their files |
| Persistence.OpenIsSynced | include/ssc/ssc.hpp:35-73 | a cache that opened successfully is in step with its directory |
| Persistence.ReloadKeepsRouting | include/ssc/ssc.hpp:149-162 | when every shard file holds only keys routed to its own index, deserialization in any mode keeps every key in the shard it routes to |
| Persistence.OpenIsRouted | include/ssc/ssc.hpp:35-73 | when every shard file holds only keys routed to its own index, a cache that opened successfully has every key in the shard it routes to |
| Persistence.UnroutedFileOpens | include/ssc/ssc.hpp:64-71 | the constructor does not check routing: a directory whose shard file i holds a key routed elsewhere still opens, the key sits in shard i and the cache is not well routed; unless the routed shard's file also holds the key, a read of it finds nothing |
| Persistence.ClearedEntriesComeBack | include/ssc/ssc.hpp:269 | because clear keeps the dirty flag, a cleared clean shard with a file is skipped by serialization, and reopening brings the cleared entry back |
| Persistence.FailedMetaWriteBlocksLaterOpens | include/ssc/ssc.hpp:42-55 | after a creation whose metadata file could not be written, the directory exists without metadata, and every later open of it fails for want of metadata, whatever it expects |
| Persistence.ShardCountMismatchRejected | include/ssc/ssc.hpp:64-68 | opening a directory whose stored shard count differs fails with a metadata mismatch and leaves the directory unchanged |

## Left out

- The binary encoding of shard files and of the metadata record is not
  modelled. A shard file is the map it decodes to, and the metadata record
  is three numbers. Decoding errors on corrupt files are not modelled, and
  neither is a metadata file too short to hold three numbers.
- `typeid(...).hash_code()` becomes two caller-supplied numbers in the
  expected `Meta`. `std::hash<TKey>` becomes the cache's `hasher` function.
- `Clock::now()` becomes the parameter `now`. An entry stored without an
  expiry gets `MaxTime`.
- Shards.EraseExpiredEntries, Shards.DoForAll, Caches.Curate and
  Caches.DoForAll judge every entry at one `now`. The C++ implementation reads the
  clock again for each entry, so one sweep or iteration can judge entries
  at successive times, and a system clock may even step back. "No expired
  entry remains" and `EraseExpiredKeepsVisible` hold for that single time
  point only.
- include/ssc/Filesystem.hpp and include/ssc/FileLock.hpp are not part of
  this model. Directory and file existence are presence in `Disk`, and
  failed opens for writing and a failed `mkdir` are the flags of `IoEnv`. The cross-process file
  lock is not modelled.
- include/ssc/stringUtils.hpp and include/ssc/Exception.hpp are not part of
  this model. A constructor that throws is a `Failure` carrying an
  `OpenError`. The message text is not modelled.
- File names (`base/.meta`, `base/shard<i>`) are not modelled. Shard files
  are keyed by shard index.
- Shards.DoForAll: the functor is modelled by the sequence of pairs it
  receives. Side effects of the functor are not modelled, and the order is
  left open, as unordered-map iteration leaves it.
- Caches.DoForAll: a key held by two shards would be visited twice. The
  contract rules that out only for a cache in which every key sits in its
  routed shard. Store, erase, clear and curate keep that
  (`OperationsKeepRouting`). Deserialization and the constructor load files
  without checking routing, so they keep it only when every file holds keys
  routed to its own index (`ReloadKeepsRouting`, `OpenIsRouted`);
  `UnroutedFileOpens` shows a directory that breaks it.
- Persistence.Open, Persistence.Deserialize: a shard file that exists but
  cannot be opened for reading is not modelled. A key of `Disk.files` is a
  file that both exists and reads. In the C++ implementation such a file
  is skipped by `serialize`, whose `fs::isFile` test only checks that it
  exists, while `deserialize` fails on it and the constructor throws. So
  `ReopenAfterPersistRestores` assumes every shard file is readable.
- `getSize` adds `std::size_t` values, and the model uses unbounded
  naturals. The 64-bit wrap-around of that sum would need more than 2^64
  entries in memory, so it is not modelled.
- Failed writes to an opened stream are not modelled, because the C++ implementation
  never checks them. Only a failure to open a file is.
- With a shard count of zero, per-key routing would take a remainder by
  zero. Per-key operations therefore require at least one shard.
- The default `Entry()` constructor is not modelled, because it is only
  used inside the map's operator[].
