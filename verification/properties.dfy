/**
  Properties relating the operations of `src/cache.rs` to one another:
  what `get` returns over time after a `set`, how the sweep relates to
  `get`, idempotence of the sweep, and the scenarios of the file's tests.
 */
module CacheProperties {
  import opened Optional
  import opened Time
  import opened TtlCache
  import opened Sweep

  // ---------------------------------------------------------------------------
  // Construction and TTL resolution
  // ---------------------------------------------------------------------------

  /** A cache built without a default (`DEFAULT_EXPIRATION`) keeps default-TTL items forever. */
  lemma NoStatedDefaultNeverExpires<K, V>(cleanExpiration: Secs, key: K, value: V, t: Secs, later: Secs)
    ensures var c := New<K, V>(DEFAULT_EXPIRATION, cleanExpiration).cache;
            CanSet(c, DEFAULT_EXPIRATION, t) && Get(Set(c, key, value, DEFAULT_EXPIRATION, t), key, later) == Some(value)
  {
  }

  /** Setting with `DEFAULT_EXPIRATION` is setting with the cache's own default. */
  lemma SetDefaultIsSetWithCacheDefault<K, V>(c: Cache<K, V>, key: K, value: V, t: Secs)
    requires CanSet(c, DEFAULT_EXPIRATION, t)
    ensures CanSet(c, c.defaultExpiration, t)
    ensures Set(c, key, value, DEFAULT_EXPIRATION, t) == Set(c, key, value, c.defaultExpiration, t)
  {
  }

  /** `set` panics exactly when the resolved TTL is finite, positive, and `now + ttl` overflows. */
  lemma SetPanicsOnOverflow<K, V>(c: Cache<K, V>, ed: Secs, now: Secs)
    ensures !CanSet(c, ed, now) <==>
      var ttl := if ed == DEFAULT_EXPIRATION then c.defaultExpiration else ed;
      0 < ttl < NO_EXPIRATION && now + ttl > MAX_SECS
  {
  }

  // ---------------------------------------------------------------------------
  // set and get
  // ---------------------------------------------------------------------------

  /**
    After `set` at time `t` with a finite positive resolved TTL `d`, `get`
    returns the value up to and including `t + d`, and nothing afterwards.
   */
  lemma SetThenGetTimeline<K, V>(c: Cache<K, V>, key: K, value: V, ed: Secs, t: Secs, later: Secs)
    requires CanSet(c, ed, t)
    requires 0 < ResolvedTtl(ed, c.defaultExpiration) < NO_EXPIRATION
    ensures Get(Set(c, key, value, ed, t), key, later) ==
      if later <= t + ResolvedTtl(ed, c.defaultExpiration) then Some(value) else None
  {
  }

  /** An item whose TTL resolves to `NO_EXPIRATION` is returned at every instant. */
  lemma NeverExpiringSetVisibleForever<K, V>(c: Cache<K, V>, key: K, value: V, ed: Secs, t: Secs, later: Secs)
    requires ResolvedTtl(ed, c.defaultExpiration) == NO_EXPIRATION
    ensures CanSet(c, ed, t)
    ensures Get(Set(c, key, value, ed, t), key, later) == Some(value)
  {
  }

  /** `set` does not change what `get` returns for any other key. */
  lemma SetLeavesOtherKeys<K, V>(c: Cache<K, V>, key: K, value: V, ed: Secs, t: Secs, other: K, later: Secs)
    requires CanSet(c, ed, t)
    requires other != key
    ensures Get(Set(c, key, value, ed, t), other, later) == Get(c, other, later)
  {
  }

  /** Every item in the table has a positive expiration: the two expiry predicates agree on it. */
  predicate AllExpirationsPositive<K, V>(c: Cache<K, V>)
  {
    forall k :: k in c.items ==> c.items[k].expiration > 0
  }

  /**
    On a constructed cache, `set` never stores expiration 0: only `new_from`
    can introduce such items.
   */
  lemma SetKeepsExpirationsPositive<K, V>(c: Cache<K, V>, key: K, value: V, ed: Secs, t: Secs)
    requires Valid(c) && CanSet(c, ed, t)
    ensures Set(c, key, value, ed, t).items[key].expiration > 0
    ensures AllExpirationsPositive(c) ==> AllExpirationsPositive(Set(c, key, value, ed, t))
  {
  }

  /** `replace` on a key that is stored but already expired leaves the expired item in place. */
  lemma ReplaceKeepsExpiredItem<K, V>(c: Cache<K, V>, key: K, value: V, ed: Secs, now: Secs)
    requires key in c.items && !Visible(c.items[key], now)
    ensures Replace(c, key, value, ed, now) == c
    ensures Get(Replace(c, key, value, ed, now), key, now) == None
  {
  }

  // ---------------------------------------------------------------------------
  // delete and flush
  // ---------------------------------------------------------------------------

  /** After `delete`, `get` finds nothing for the key and the same as before for every other key. */
  lemma DeleteHidesOnlyKey<K, V>(c: Cache<K, V>, key: K, other: K, now: Secs)
    ensures Get(Delete(c, key), key, now) == None
    ensures other != key ==> Get(Delete(c, key), other, now) == Get(c, other, now)
  {
  }

  /** After `flush`, the count is zero and `get` returns nothing for any key at any time. */
  lemma FlushHidesEverything<K, V>(c: Cache<K, V>, key: K, now: Secs)
    ensures ItemCount(Flush(c)) == 0
    ensures Get(Flush(c), key, now) == None
  {
  }

  // ---------------------------------------------------------------------------
  // The sweep
  // ---------------------------------------------------------------------------

  /** Two tables with the same keys and the same item under every key are equal. */
  lemma TablesEqual<K, V>(a: map<K, Item<V>>, b: map<K, Item<V>>)
    requires a.Keys == b.Keys
    requires forall k :: k in a ==> a[k] == b[k]
    ensures a == b
  {
  }

  /** The result of the sweep does not depend on the order `get_items` happened to produce. */
  lemma DeleteExpiredIgnoresSnapshotOrder<K, V>(c: Cache<K, V>, s1: seq<(K, Item<V>)>, s2: seq<(K, Item<V>)>, lockAcquired: bool, now: Secs)
    requires IsSnapshot(s1, c.items) && IsSnapshot(s2, c.items)
    ensures DeleteExpired(c, s1, lockAcquired, now) == DeleteExpired(c, s2, lockAcquired, now)
  {
    var r1 := DeleteExpired(c, s1, lockAcquired, now);
    var r2 := DeleteExpired(c, s2, lockAcquired, now);
    if lockAcquired {
      TablesEqual(r1.items, r2.items);
    }
  }

  /** After a sweep with the write lock, nothing left in the table is expired at that instant. */
  lemma NothingExpiredAfterSweep<K, V>(c: Cache<K, V>, s: seq<(K, Item<V>)>, now: Secs)
    requires IsSnapshot(s, c.items)
    ensures ExpiredTableKeys(DeleteExpired(c, s, true, now).items, now) == {}
  {
    var once := DeleteExpired(c, s, true, now);
    forall k | k in once.items ensures !IsExpired(once.items[k], now) {
      assert k in c.items.Keys - ExpiredTableKeys(c.items, now);
    }
  }

  /** Two sweeps at the same instant leave the table as the first one did. */
  lemma DeleteExpiredIdempotent<K, V>(c: Cache<K, V>, s1: seq<(K, Item<V>)>, s2: seq<(K, Item<V>)>, lockAcquired: bool, now: Secs)
    requires IsSnapshot(s1, c.items)
    requires IsSnapshot(s2, DeleteExpired(c, s1, true, now).items)
    ensures DeleteExpired(DeleteExpired(c, s1, true, now), s2, lockAcquired, now) == DeleteExpired(c, s1, true, now)
  {
    var once := DeleteExpired(c, s1, true, now);
    NothingExpiredAfterSweep(c, s1, now);
    if lockAcquired {
      var twice := DeleteExpired(once, s2, true, now);
      assert twice.items.Keys == once.items.Keys;
      assert forall k :: k in twice.items ==> twice.items[k] == once.items[k];
      TablesEqual(twice.items, once.items);
      assert twice == once;
    }
  }

  /**
    When every stored expiration is positive, the sweep at `now` is invisible
    to `get` at `now` and at every later instant.
   */
  lemma DeleteExpiredInvisibleToGet<K, V>(c: Cache<K, V>, s: seq<(K, Item<V>)>, lockAcquired: bool, now: Secs, key: K, later: Secs)
    requires IsSnapshot(s, c.items)
    requires AllExpirationsPositive(c)
    requires now <= later
    ensures Get(DeleteExpired(c, s, lockAcquired, now), key, later) == Get(c, key, later)
  {
    var r := DeleteExpired(c, s, lockAcquired, now);
    if lockAcquired && key in c.items && key !in r.items {
      assert key in ExpiredTableKeys(c.items, now);
    }
  }

  /** A key set with a finite positive TTL `d` at `t` is physically removed by a sweep after `t + d`. */
  lemma SweepRemovesKeyAfterDeadline<K, V>(c: Cache<K, V>, key: K, value: V, ed: Secs, t: Secs, s: seq<(K, Item<V>)>, now: Secs)
    requires CanSet(c, ed, t)
    requires 0 < ResolvedTtl(ed, c.defaultExpiration) < NO_EXPIRATION
    requires now > t + ResolvedTtl(ed, c.defaultExpiration)
    requires IsSnapshot(s, Set(c, key, value, ed, t).items)
    ensures key !in DeleteExpired(Set(c, key, value, ed, t), s, true, now).items
  {
    var c1 := Set(c, key, value, ed, t);
    assert key in ExpiredTableKeys(c1.items, now);
  }

  /**
    A sweep at `now` of a table in which exactly one stored item has expired
    lowers `item_count` by exactly one.
   */
  lemma SweepOfOneExpiredItemDropsCountByOne<K, V>(c: Cache<K, V>, s: seq<(K, Item<V>)>, key: K, now: Secs)
    requires IsSnapshot(s, c.items)
    requires key in c.items && IsExpired(c.items[key], now)
    requires forall k :: k in c.items && k != key ==> !IsExpired(c.items[k], now)
    ensures ItemCount(DeleteExpired(c, s, true, now)) == ItemCount(c) - 1
  {
    assert ExpiredTableKeys(c.items, now) == {key};
    DeleteExpiredCount(c, s, now);
  }

  /**
    The sweep removes by key: an entry expired in the snapshot takes the live
    item with it even when the live item under that key is a fresh one.
   */
  lemma SweepRemovesByKey<K, V>(live: map<K, Item<V>>, key: K, stale: Item<V>, now: Secs)
    requires IsExpired(stale, now)
    ensures key !in SweepSnapshot(live, [(key, stale)], item => IsExpired(item, now))
  {
    assert key in ExpiredKeys([(key, stale)], item => IsExpired(item, now)) by {
      assert [(key, stale)][0].0 == key;
    }
  }

  // ---------------------------------------------------------------------------
  // The sweep and items with expiration 0
  // ---------------------------------------------------------------------------

  /**
    As written, the sweep evicts an item with expiration 0 that `get` treats
    as never expiring: the item is visible before the sweep and gone after.
   */
  lemma SweepEvictsZeroExpirationItem<K, V>(key: K, value: V, s: seq<(K, Item<V>)>, now: Secs)
    requires now > 0
    requires IsSnapshot(s, map[key := Item(value, 0)])
    ensures var c := NewFrom(DEFAULT_EXPIRATION, 0, map[key := Item(value, 0)]).cache;
            Get(c, key, now) == Some(value) && Get(DeleteExpired(c, s, true, now), key, now) == None
  {
    var c := NewFrom(DEFAULT_EXPIRATION, 0, map[key := Item(value, 0)]).cache;
    assert key in ExpiredTableKeys(c.items, now);
  }

  /** The corrected sweep is invisible to `get`, now and later, for every table. */
  lemma IntendedSweepInvisibleToGet<K, V>(c: Cache<K, V>, s: seq<(K, Item<V>)>, lockAcquired: bool, now: Secs, key: K, later: Secs)
    requires IsSnapshot(s, c.items)
    requires now <= later
    ensures Get(DeleteExpiredIntended(c, s, lockAcquired, now), key, later) == Get(c, key, later)
  {
    var r := DeleteExpiredIntended(c, s, lockAcquired, now);
    if lockAcquired && key in c.items && key !in r.items {
      assert key !in set k | k in c.items && Visible(c.items[k], now);
    }
  }

  // ---------------------------------------------------------------------------
  // The scenarios of the tests and the example program
  // ---------------------------------------------------------------------------

  /**
    `test_cache`: with no stated default, three items set with the default
    TTL are stored with `NO_EXPIRATION`.
   */
  lemma BasicSetup(t: Secs)
    ensures var c0 := New<string, int>(DEFAULT_EXPIRATION, 0).cache;
            var c1 := Set(c0, "a", 1, DEFAULT_EXPIRATION, t);
            var c2 := Set(c1, "b", 2, DEFAULT_EXPIRATION, t);
            var c3 := Set(c2, "C", 3, DEFAULT_EXPIRATION, t);
            && c0.items == map[]
            && c3.items == map["a" := Item(1, NO_EXPIRATION), "b" := Item(2, NO_EXPIRATION), "C" := Item(3, NO_EXPIRATION)]
  {
  }

  /** `test_cache`: every key is absent before any `set`; the three stored items are returned at any time. */
  lemma BasicScenario(unset: string, t: Secs, later: Secs)
    ensures Get(New<string, int>(DEFAULT_EXPIRATION, 0).cache, unset, t) == None
    ensures var c := Cache(NO_EXPIRATION, map["a" := Item(1, NO_EXPIRATION), "b" := Item(2, NO_EXPIRATION), "C" := Item(3, NO_EXPIRATION)], Janitor(0));
            && Get(c, "a", later) == Some(1)
            && Get(c, "b", later) == Some(2)
            && Get(c, "C", later) == Some(3)
            && Get(c, "c", later) == None
  {
  }

  /**
    The table of `test_cache_times` after its four `set` calls at `t0` on a
    cache with a 50s default: with the default, no expiration, 20s and 70s.
   */
  lemma CacheTimesSetup(t0: Secs)
    requires t0 + 75 <= MAX_SECS
    ensures var r := New<string, int>(50, 1);
            && r.janitor.Some?
            && CanSet(r.cache, DEFAULT_EXPIRATION, t0)
            && var c1 := Set(r.cache, "a", 1, DEFAULT_EXPIRATION, t0);
               var c2 := Set(c1, "b", 2, NO_EXPIRATION, t0);
               var c3 := Set(c2, "c", 3, 20, t0);
               var c4 := Set(c3, "d", 4, 70, t0);
               c4.items == map["a" := Item(1, t0 + 50), "b" := Item(2, NO_EXPIRATION), "c" := Item(3, t0 + 20), "d" := Item(4, t0 + 70)]
  {
  }

  /**
    `test_cache_times`: the items above observed 25s, 55s and 75s after
    `t0`. The boundary is inclusive: the default-TTL item is still returned
    at exactly 50s.
   */
  lemma CacheTimesScenario(t0: Secs)
    requires t0 + 75 <= MAX_SECS
    ensures var c := Cache(50, map["a" := Item(1, t0 + 50), "b" := Item(2, NO_EXPIRATION), "c" := Item(3, t0 + 20), "d" := Item(4, t0 + 70)], Janitor(1));
            && Get(c, "c", t0 + 25) == None
            && Get(c, "b", t0 + 25) == Some(2)
            && Get(c, "a", t0 + 25) == Some(1)
            && Get(c, "a", t0 + 50) == Some(1)
            && Get(c, "a", t0 + 55) == None
            && Get(c, "d", t0 + 55) == Some(4)
            && Get(c, "d", t0 + 75) == None
            && Get(c, "b", t0 + 75) == Some(2)
  {
  }

  /** `test_new_from`: items stored with expiration 0 are returned by `get` at any time. */
  lemma NewFromScenario(now: Secs)
    ensures var items := map["a" := Item(1, 0), "b" := Item(2, 0)];
            var r := NewFrom<string, int>(DEFAULT_EXPIRATION, 0, items);
            && r.janitor.None?
            && ItemCount(r.cache) == 2
            && Get(r.cache, "a", now) == Some(1)
            && Get(r.cache, "b", now) == Some(2)
  {
    var items := map["a" := Item(1, 0), "b" := Item(2, 0)];
    assert items.Keys == {"a", "b"};
  }
}
