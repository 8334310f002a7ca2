/**
 * The response cache of services/hypixel.js: a map from request key to the
 * response and the instant it was stored. An entry answers lookups for
 * CACHE_DURATION milliseconds; a lookup that finds no fresh entry deletes the key.
 * The clock reading `now` is passed in.
 */
module ResponseCache {
  import opened Wrappers

  const CACHE_DURATION: int := 60000

  datatype CacheEntry<D> = CacheEntry(data: D, timestamp: int)

  /** An entry is fresh while less than CACHE_DURATION has passed since it was stored. */
  predicate Fresh<D>(entry: CacheEntry<D>, now: int)
  {
    now - entry.timestamp < CACHE_DURATION
  }

  /** What getCached answers for `key` at `now`. */
  function Lookup<D>(entries: map<string, CacheEntry<D>>, key: string, now: int): Option<D>
  {
    if key in entries && Fresh(entries[key], now) then Some(entries[key].data) else None
  }

  /** The map getCached leaves behind: unchanged on a hit, without `key` otherwise. */
  function AfterLookup<D>(entries: map<string, CacheEntry<D>>, key: string, now: int): (m: map<string, CacheEntry<D>>)
    ensures forall k :: k in m ==> k in entries && m[k] == entries[k]
    ensures forall k :: k in entries && k != key ==> k in m
    ensures key in m <==> Lookup(entries, key, now).Some?
  {
    if key in entries && Fresh(entries[key], now) then entries else entries - {key}
  }

  /** A value stored at `stored` is read back at any `now` less than CACHE_DURATION later. */
  lemma StoredIsReturned<D>(entries: map<string, CacheEntry<D>>, key: string, data: D, stored: int, now: int)
    requires now - stored < CACHE_DURATION
    ensures Lookup(entries[key := CacheEntry(data, stored)], key, now) == Some(data)
  {
  }

  /** From CACHE_DURATION after it was stored on, a value is never returned. */
  lemma StoredExpires<D>(entries: map<string, CacheEntry<D>>, key: string, data: D, stored: int, now: int)
    requires now >= stored + CACHE_DURATION
    ensures Lookup(entries[key := CacheEntry(data, stored)], key, now) == None
    ensures key !in AfterLookup(entries[key := CacheEntry(data, stored)], key, now)
  {
  }

  /** Storing under one key changes no other key's answer. */
  lemma StoreKeepsOthers<D>(entries: map<string, CacheEntry<D>>, key: string, data: D, stored: int, other: string, now: int)
    requires other != key
    ensures Lookup(entries[key := CacheEntry(data, stored)], other, now) == Lookup(entries, other, now)
  {
  }

  /** A lookup changes no other key's answer, at any instant. */
  lemma LookupKeepsOthers<D>(entries: map<string, CacheEntry<D>>, key: string, now: int, other: string, later: int)
    requires other != key
    ensures Lookup(AfterLookup(entries, key, now), other, later) == Lookup(entries, other, later)
  {
  }

  /** Looking up twice at the same instant answers the same and leaves the same map. */
  lemma LookupIdempotent<D>(entries: map<string, CacheEntry<D>>, key: string, now: int)
    ensures Lookup(AfterLookup(entries, key, now), key, now) == Lookup(entries, key, now)
    ensures AfterLookup(AfterLookup(entries, key, now), key, now) == AfterLookup(entries, key, now)
  {
  }

  /** Once a key answers nothing, it answers nothing at every later instant. */
  lemma MissStaysMiss<D>(entries: map<string, CacheEntry<D>>, key: string, now: int, later: int)
    requires now <= later && Lookup(entries, key, now) == None
    ensures Lookup(entries, key, later) == None
    ensures Lookup(AfterLookup(entries, key, now), key, later) == None
  {
  }

  /** The module-level `cache` Map and the two functions that use it. */
  class Cache<D> {
    var entries: map<string, CacheEntry<D>>

    constructor()
      ensures entries == map[]
    {
      entries := map[];
    }

    /**
     * getCached: the stored data if its entry is fresh; otherwise the key is
     * deleted (a no-op when it is absent) and nothing is returned.
     */
    method GetCached(key: string, now: int) returns (r: Option<D>)
      modifies this
      ensures r == Lookup(old(entries), key, now) && entries == AfterLookup(old(entries), key, now)
      ensures key in old(entries) && Fresh(old(entries)[key], now) ==>
                r == Some(old(entries)[key].data) && entries == old(entries)
      ensures !(key in old(entries) && Fresh(old(entries)[key], now)) ==>
                r == None && key !in entries && forall k :: k != key ==> (k in entries <==> k in old(entries))
    {
      if key in entries && now - entries[key].timestamp < CACHE_DURATION {
        return Some(entries[key].data);
      }
      entries := entries - {key};
      return None;
    }

    /** setCache: stores `data` under `key`, stamped `now`, replacing any earlier entry. */
    method SetCache(key: string, data: D, now: int)
      modifies this
      ensures entries == old(entries)[key := CacheEntry(data, now)]
    {
      entries := entries[key := CacheEntry(data, now)];
    }
  }

  /**
   * The pattern of fetchSkyBlockData and fetchCurrentMayor: a hit at `now` is
   * answered from the cache; a miss fetches and stores the response stamped
   * `arrived`, the instant the awaited response came in, so asking again
   * within CACHE_DURATION of that is answered from the cache.
   * `fetched` stands for the response the request would return.
   */
  method CachedFetch<D>(cache: Cache<D>, key: string, fetched: D, now: int, arrived: int) returns (r: D)
    requires now <= arrived
    modifies cache
    ensures Lookup(old(cache.entries), key, now).Some? ==>
              r == Lookup(old(cache.entries), key, now).value && cache.entries == old(cache.entries)
    ensures Lookup(old(cache.entries), key, now).None? ==>
              && r == fetched
              && cache.entries == old(cache.entries)[key := CacheEntry(fetched, arrived)]
              && forall later :: later < arrived + CACHE_DURATION ==> Lookup(cache.entries, key, later) == Some(fetched)
  {
    var cached := cache.GetCached(key, now);
    if cached.Some? {
      return cached.value;
    }
    cache.SetCache(key, fetched, arrived);
    assert cache.entries == old(cache.entries)[key := CacheEntry(fetched, arrived)];
    return fetched;
  }
}
