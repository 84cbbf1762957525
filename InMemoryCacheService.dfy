/** The cache-aside service: get-or-populate, overwrite and evict over a
    process-local map. */
module Cache {

  import opened Wrappers

  /** A length of time in 100-nanosecond ticks, as .NET's `TimeSpan`. */
  datatype TimeSpan = TimeSpan(ticks: int)

  const TicksPerSecond: int := 10_000_000

  /** The sliding expiration given to an entry that `GetOrSetAsync` creates
      when the caller names none: 90 seconds. */
  const DefaultSlidingExpiration: TimeSpan := TimeSpan(90 * TicksPerSecond)

  /** A cached value with the sliding expiration it was stored with; an entry
      stored by `SetAsync` carries none. Expiry itself is not modelled. */
  datatype Entry<V> = Entry(value: V, slidingExpiration: Option<TimeSpan>)

  class InMemoryCacheService<K(==), V> {
    var entries: map<K, Entry<V>>
    /** How many times a producer has been run. */
    ghost var producerCalls: nat

    /** A service over the memory cache it is given, with whatever entries
        that cache already holds from earlier users. */
    constructor (initial: map<K, Entry<V>>)
      ensures entries == initial && producerCalls == 0
    {
      entries := initial;
      producerCalls := 0;
    }

    /** A cached value for `key`, as `TryGetValue` would find it. */
    predicate IsHit(key: K)
      reads this
    {
      key in entries
    }

    /** On a hit returns the cached value and neither runs the producer nor
        changes the cache. On a miss runs the producer once, whose outcome is
        `produced`: a value is stored under `key` with the given sliding
        expiration (90 seconds if none) and returned; a failure is passed on
        and nothing is stored. */
    method GetOrSetAsync<E>(key: K, produced: Result<V, E>, slidingExpiration: Option<TimeSpan>)
      returns (r: Result<V, E>)
      modifies this
      ensures old(IsHit(key)) ==>
                && r == Success(old(entries)[key].value)
                && entries == old(entries) && producerCalls == old(producerCalls)
      ensures !old(IsHit(key)) ==> r == produced && producerCalls == old(producerCalls) + 1
      ensures !old(IsHit(key)) && produced.Success? ==>
                entries == old(entries)[key := Entry(produced.value, Some(slidingExpiration.GetOr(DefaultSlidingExpiration)))]
      ensures !old(IsHit(key)) && produced.Failure? ==> entries == old(entries)
    {
      if key in entries {
        return Success(entries[key].value);
      }
      producerCalls := producerCalls + 1;
      r := produced;
      if r.Failure? {
        return;
      }
      var options := slidingExpiration.GetOr(DefaultSlidingExpiration);
      entries := entries[key := Entry(r.value, Some(options))];
    }

    /** Stores `item` under `key`, replacing any entry, with no expiration. */
    method SetAsync(key: K, item: V)
      modifies this
      ensures entries == old(entries)[key := Entry(item, None)]
      ensures producerCalls == old(producerCalls)
    {
      entries := entries[key := Entry(item, None)];
    }

    /** Evicts the entry for `key`; nothing happens when there is none. */
    method RemoveAsync(key: K)
      modifies this
      ensures entries == old(entries) - {key}
      ensures !old(IsHit(key)) ==> entries == old(entries)
      ensures producerCalls == old(producerCalls)
    {
      entries := entries - {key};
    }
  }

  /** Each operation changes at most the entry of its own key. */
  ghost predicate OnlyKeyChanged<K, V>(before: map<K, Entry<V>>, after: map<K, Entry<V>>, key: K) {
    before - {key} == after - {key}
  }

  /** A get-or-populate leaves every other key's entry as it was. */
  method GetOrSetTouchesOnlyItsKey<K(==), V, E>(
    cache: InMemoryCacheService<K, V>, key: K, produced: Result<V, E>, sliding: Option<TimeSpan>)
    returns (r: Result<V, E>)
    modifies cache
    ensures OnlyKeyChanged(old(cache.entries), cache.entries, key)
  {
    r := cache.GetOrSetAsync(key, produced, sliding);
  }

  /** An overwrite leaves every other key's entry as it was. */
  method SetTouchesOnlyItsKey<K(==), V>(cache: InMemoryCacheService<K, V>, key: K, item: V)
    modifies cache
    ensures OnlyKeyChanged(old(cache.entries), cache.entries, key)
  {
    cache.SetAsync(key, item);
  }

  /** An eviction leaves every other key's entry as it was. */
  method RemoveTouchesOnlyItsKey<K(==), V>(cache: InMemoryCacheService<K, V>, key: K)
    modifies cache
    ensures OnlyKeyChanged(old(cache.entries), cache.entries, key)
  {
    cache.RemoveAsync(key);
  }

  /** After `SetAsync(key, item)`, a get-or-populate on `key` is a hit that
      returns `item` without running the producer. */
  method SetThenGetOrSetHits<K(==), V, E>(
    cache: InMemoryCacheService<K, V>, key: K, item: V, produced: Result<V, E>, sliding: Option<TimeSpan>)
    returns (r: Result<V, E>)
    modifies cache
    ensures r == Success(item)
    ensures cache.producerCalls == old(cache.producerCalls)
    ensures cache.entries == old(cache.entries)[key := Entry(item, None)]
  {
    cache.SetAsync(key, item);
    r := cache.GetOrSetAsync(key, produced, sliding);
  }

  /** After `RemoveAsync(key)`, a get-or-populate on `key` is a miss: it runs
      the producer and returns its outcome. */
  method RemoveThenGetOrSetMisses<K(==), V, E>(
    cache: InMemoryCacheService<K, V>, key: K, produced: Result<V, E>, sliding: Option<TimeSpan>)
    returns (r: Result<V, E>)
    modifies cache
    ensures r == produced
    ensures cache.producerCalls == old(cache.producerCalls) + 1
  {
    cache.RemoveAsync(key);
    r := cache.GetOrSetAsync(key, produced, sliding);
  }

  /** Two get-or-populates in a row run the producer at most once; the second
      returns what the first stored. */
  method SecondGetOrSetHits<K(==), V, E>(
    cache: InMemoryCacheService<K, V>, key: K, first: Result<V, E>, second: Result<V, E>, sliding: Option<TimeSpan>)
    returns (r1: Result<V, E>, r2: Result<V, E>)
    modifies cache
    ensures r1.Success? ==> r2 == r1 && cache.producerCalls <= old(cache.producerCalls) + 1
  {
    r1 := cache.GetOrSetAsync(key, first, sliding);
    r2 := cache.GetOrSetAsync(key, second, sliding);
  }
}
