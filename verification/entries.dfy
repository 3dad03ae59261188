/** Time points, cache entries and the two mode enumerations of the cache
    engine (include/ssc/ssc.hpp). */
module Entries {

  /** A point in time of the cache's clock, counted in clock ticks since the
      epoch. The clock itself is not modelled: every operation that needs the
      current time takes it as a parameter `now`. */
  type TimePoint = int

  /** The latest representable time point of the system clock, whose duration
      is a signed 64-bit tick count. An entry stored with this expiry never
      expires; it is the default expiry of a store. */
  const MaxTime: TimePoint := 0x7fff_ffff_ffff_ffff

  /** When a store is allowed to write: always, only over an existing key, or
      only for a key that is not present yet. */
  datatype WriteMode = Always | IfSet | IfNotSet

  /** How a shard file read from disk is combined with the live shard. */
  datatype DeserializationMode = Overwrite | MergeUpdate | MergeOnlyNew | MergeOnlyExisting

  /** One stored value together with the time point after which it expires. */
  datatype Entry<V> = Entry(value: V, expiry: TimePoint)

  /** An entry is expired when it has a finite expiry and the clock has passed
      it. Reaching the expiry exactly does not expire it. */
  predicate IsExpired<V>(e: Entry<V>, now: TimePoint) {
    e.expiry != MaxTime && now > e.expiry
  }
}
