/** The cache directory on disk, abstracted: whether the directory exists,
    the metadata record `.meta`, and the snapshot held by each file
    `shard<i>`. The binary encoding of these files is not modelled; a shard
    file is the map it decodes to. */
module Storage {
  import opened Wrappers
  import opened Entries

  /** The metadata record: the key-type identifier, the value-type identifier
      and the shard count, in that order. */
  datatype Meta = Meta(keyTypeHash: nat, valueTypeHash: nat, shardCount: nat)

  /** The cache directory. `files` maps a shard index to the snapshot its
      file holds; an index with no file is absent. */
  datatype Disk<K, V> = Disk(isDirectory: bool, meta: Option<Meta>, files: map<nat, map<K, Entry<V>>>)

  /** Which file-system requests fail: creating the directory, opening the
      metadata file for writing, and opening a given shard file for writing. */
  datatype IoEnv = IoEnv(mkdirFails: bool, metaWriteFails: bool, unwritable: set<nat>)
}
