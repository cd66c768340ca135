# rust-cache TTL table, modelled in Dafny

This project models the sequential behaviour of the in-process TTL key/value
cache in `src/cache.rs`. The cache is a table from key to `Item { object,
expiration }`, plus a default expiration and a janitor configuration. The
operations modelled are:

- the public constructors `new`, `new_from` and `new_cache`, and the private
  helper `new_cache_with_janitor` that `new` and `new_from` call;
- `set` and `set_with_default_exp`;
- `get`, `replace`, `delete`, `flush`, `item_count` and `get_items`;
- the bulk sweep `delete_expired`, which the janitor thread calls on every tick.

Every operation is a pure function on an immutable `Cache` value:

- The wall clock (`SystemTime::now()` since the Unix epoch) is an explicit
  parameter `now`.
- Whether `try_write` obtained the write lock is an input `lockAcquired`.
- Every `Duration` is its whole number of seconds, a `Secs` between 0 and
  `u64::MAX`.
- The sentinels are kept as the code has them: `DEFAULT_EXPIRATION` is 0 and
  `NO_EXPIRATION` is `u64::MAX` seconds.

Files:

- `time.dfy`: `Optional.Option`, the `Secs` type, the two sentinels, and
  `Duration::checked_add`.
- `cache.dfy` (module `TtlCache`): items, the cache state, construction,
  the two expiry predicates, `set`, `get`, `replace`, `delete`, `flush` and
  `item_count`.
- `sweep.dfy` (module `Sweep`): `get_items`, and `delete_expired` over any
  snapshot `get_items` can return. The `HashMap` iteration order is
  unspecified, so the snapshot is a parameter with a `requires IsSnapshot`.
- `properties.dfy` (module `CacheProperties`): lemmas relating the
  operations, and the scenarios of the unit tests in `src/cache.rs`.

Points where a reader might expect other behaviour, and what the code does:

- **Expiry boundary.** `get` tests `now > expiration` (src/cache.rs:209), so
  an item with TTL `D` set at `t` is still returned at exactly `t + D` and
  absent only after it. This is shown by `SetThenGetTimeline` and
  `CacheTimesScenario`.
- **No re-check before removal.** `delete_expired` decides on the snapshot
  item and then removes by key (src/cache.rs:177-178), without looking at
  the live item under that key (`SweepRemovesByKey`).
- **Never-expiring entries can be swept.** The comment at src/cache.rs:81-82
  says items under a zero default "will never expire, and must be deleted
  manually", and `get` treats expiration 0 as never expiring. The sweep
  nevertheless evicts items stored with expiration 0 (see Findings).
- **Numeric TTL sentinels.** As the comment at src/cache.rs:112-114 says, a
  zero TTL means "use the cache default" and `NO_EXPIRATION` means "never
  expires". The model keeps these numeric sentinels.

## Model

| member | source | states |
|---|---|---|
| `TtlCache.NewCache` | src/cache.rs:76-98 | a default expiration equal to `DEFAULT_EXPIRATION` is stored as `NO_EXPIRATION`, any other is kept; so the stored default is never the sentinel (`Valid`); the table and the clean interval are taken as given |
| `TtlCache.NewCacheWithJanitor` | src/cache.rs:54-74 | the cache is `new_cache`'s; a janitor handle is returned iff the clean interval is positive, and it ticks at that interval |
| `TtlCache.New` | src/cache.rs:36-42 | the cache is `new_cache`'s over an empty table: a zero default is stored as `NO_EXPIRATION`, any other default is kept, the clean interval is stored; a janitor exists iff the clean interval is positive, and it ticks at that interval |
| `TtlCache.NewFrom` | src/cache.rs:45-51 | the cache is `new_cache`'s over exactly the given map, items with expiration 0 included: a zero default is stored as `NO_EXPIRATION`, any other default is kept, the clean interval is stored; a janitor exists iff the clean interval is positive, and it ticks at that interval |
| `TtlCache.IsExpired` | src/cache.rs:100-108 | `is_expired` agrees with `get`'s visibility test on items with a positive expiration; on expiration 0 `get` always shows the item while `is_expired` holds as soon as `now > 0` |
| `TtlCache.ResolvedTtl` | src/cache.rs:120-122 | a TTL of `DEFAULT_EXPIRATION` is replaced by the cache default, any other TTL is used as given |
| `TtlCache.ExpirationFor` | src/cache.rs:118-131 | the resolved TTL `NO_EXPIRATION` stores `NO_EXPIRATION`; a finite positive TTL stores `now + ttl` and panics (None) exactly when that sum exceeds `u64::MAX`; a zero TTL stores 0 |
| `TtlCache.Set` | src/cache.rs:115-138 | afterwards `key` maps to the new value with the resolved expiration, whatever was there before (expired or not); every other key keeps its item; the key set grows by `key` only, so the count grows by 1 iff `key` was absent; configuration unchanged |
| `TtlCache.SetWithDefaultExp` | src/cache.rs:141-143 | is `set` with `DEFAULT_EXPIRATION`, so the stored expiration is the one the cache default yields |
| `TtlCache.Get` | src/cache.rs:203-215 | returns a value iff the key is present and not (`expiration > 0 && now > expiration`), and the value is the stored object; the state is an input only, so `get` changes nothing |
| `TtlCache.Replace` | src/cache.rs:147-151 | if the key is present and visible, the result is `set`'s; otherwise (absent, or present but expired) the cache is unchanged |
| `TtlCache.Flush` | src/cache.rs:154-159 | the table is emptied; the default and janitor configuration are kept |
| `TtlCache.Delete` | src/cache.rs:162-167 | exactly `key` leaves the key set, every other item is unchanged, the count drops by one iff `key` was present, and an absent key leaves the cache unchanged |
| `Sweep.SnapshotLengthIsItemCount` | src/cache.rs:218-223 | `item_count` equals the number of pairs in any snapshot of the table, expired-but-unswept items included |
| `Sweep.GetItems` | src/cache.rs:188-200 | returns one `(key, item)` pair per key of the table, no key twice, each item equal to the stored one, so its length is `item_count` |
| `Sweep.SweepSnapshot` | src/cache.rs:175-180 | walking a snapshot and removing by key removes exactly the keys of the snapshot entries found expired, whatever the live item under that key is, and keeps every other live item unchanged |
| `Sweep.DeleteExpired` | src/cache.rs:170-186 | with the write lock, the remaining keys are exactly the stored keys whose item does not satisfy `now > expiration` (expiration-0 items are removed once `now > 0`), and the kept items are unchanged; without the lock the cache is unchanged |
| `Sweep.DeleteExpiredCount` | src/cache.rs:175-178 | with the write lock, `item_count` drops by exactly the number of stored items that `is_expired` |
| `CacheProperties.NoStatedDefaultNeverExpires` | src/cache.rs:81-85 | on a cache built with `DEFAULT_EXPIRATION` as its default, an item set with the default TTL is returned at every later instant |
| `CacheProperties.SetDefaultIsSetWithCacheDefault` | src/cache.rs:120-122 | `set` with `DEFAULT_EXPIRATION` gives the same cache as `set` with the cache's own default expiration |
| `CacheProperties.SetPanicsOnOverflow` | src/cache.rs:129-131 | `set` panics exactly when the resolved TTL is finite and positive and `now + ttl` exceeds `u64::MAX` |
| `CacheProperties.SetThenGetTimeline` | src/cache.rs:209-212 | after `set` at `t` with finite positive resolved TTL `d`, `get` returns the value at every instant up to and including `t + d`, and nothing after |
| `CacheProperties.NeverExpiringSetVisibleForever` | src/cache.rs:124-126 | an item whose TTL resolves to `NO_EXPIRATION` never panics on insertion and is returned at every instant |
| `CacheProperties.SetLeavesOtherKeys` | src/cache.rs:133-137 | `set` does not change what `get` returns for any other key at any time |
| `CacheProperties.SetKeepsExpirationsPositive` | src/cache.rs:118-131 | on a valid cache `set` stores a positive expiration, so only `new_from` can introduce expiration-0 items |
| `CacheProperties.ReplaceKeepsExpiredItem` | src/cache.rs:147-151 | `replace` on a key that is stored but expired leaves the expired item physically in place, and `get` still returns nothing |
| `CacheProperties.DeleteHidesOnlyKey` | src/cache.rs:162-167 | after `delete`, `get` returns nothing for the key and the same as before for every other key |
| `CacheProperties.FlushHidesEverything` | src/cache.rs:154-159 | after `flush`, `item_count` is 0 and `get` returns nothing for any key at any time |
| `CacheProperties.DeleteExpiredIgnoresSnapshotOrder` | src/cache.rs:192-197 | the sweep's result does not depend on the order in which `get_items` listed the keys |
| `CacheProperties.NothingExpiredAfterSweep` | src/cache.rs:175-180 | after a sweep with the write lock, no remaining item `is_expired` at that instant |
| `CacheProperties.DeleteExpiredIdempotent` | src/cache.rs:170-186 | a second sweep at the same instant, with or without the lock, leaves the cache the first sweep produced |
| `CacheProperties.DeleteExpiredInvisibleToGet` | src/cache.rs:177-178 | when every stored expiration is positive, the sweep at `now` changes nothing `get` returns at `now` or later |
| `CacheProperties.SweepRemovesKeyAfterDeadline` | src/cache.rs:102-108 | a key set with finite positive TTL `d` at `t` is physically removed by a sweep at any instant after `t + d` |
| `CacheProperties.SweepOfOneExpiredItemDropsCountByOne` | src/cache.rs:175-178 | when exactly one stored item is expired, the sweep lowers `item_count` by exactly one |
| `CacheProperties.SweepRemovesByKey` | src/cache.rs:177-178 | an entry expired in the snapshot removes the live entry under its key even when that live item is a different, fresh one |
| `CacheProperties.SweepEvictsZeroExpirationItem` | src/cache.rs:102-108 | an expiration-0 item from `new_from` is returned by `get` before the sweep and absent after a sweep at any `now > 0` |
| `Sweep.DeleteExpiredIntended` | src/cache.rs:209-212 | the corrected sweep keeps exactly the items `get` still returns at `now`, unchanged |
| `CacheProperties.IntendedSweepInvisibleToGet` | src/cache.rs:207-214 | the corrected sweep at `now` changes nothing `get` returns at `now` or later, for every table |
| `CacheProperties.BasicSetup` | src/cache.rs:232-240 | on a cache built with `DEFAULT_EXPIRATION`, three default-TTL `set` calls store `NO_EXPIRATION` items |
| `CacheProperties.BasicScenario` | src/cache.rs:234-244 | on a new cache every key is absent; the three stored items are returned at any time, and `"c"` differs from `"C"` |
| `CacheProperties.CacheTimesSetup` | src/cache.rs:261-265 | with a 50s default, `set` at `t0` stores `t0+50`, `NO_EXPIRATION`, `t0+20` and `t0+70`, and a janitor is started |
| `CacheProperties.CacheTimesScenario` | src/cache.rs:267-276 | at `t0+25` `c` is absent while `a` and `b` are returned; `a` is still returned at exactly `t0+50` and absent at `t0+55`; `d` is returned at `t0+55` and absent at `t0+75` |
| `CacheProperties.NewFromScenario` | src/cache.rs:280-299 | a cache built by `new_from` over two expiration-0 items has no janitor, counts 2, and returns both items at any time |

## Left out

- The janitor thread and its `crossbeam` ticker loop (src/cache.rs:64-70) are concurrency and timers. Only the returned handle is modelled, as `JanitorThread(tick)`. The janitor's repeated calls are `DeleteExpired` applied once per tick.
- The `Arc<RwLock<..>>` handle, lock contention and lock poisoning (`unwrap()` on `read`/`write`) are not modelled. A failed `try_write` is the input `lockAcquired == false`. The `println!` on that path is output only.
- The race between `get_items`' snapshot and the removal phase, with a concurrent `set` in between, is not modelled. In a sequential run the snapshot equals the live table. `SweepRemovesByKey` records that the code would remove a freshly set item in that race.
- `SystemTime::now()` is the parameter `now`. A clock before the Unix epoch, where `duration_since(..).unwrap()` panics, cannot occur because `now` is a natural number.
- Sweep.DeleteExpired: judges every snapshot entry at one instant `now`. The source calls `is_expired` once per entry (src/cache.rs:177), and each call reads the clock again (src/cache.rs:103), so later entries are judged at later instants. Because expiry is monotone in time, the set the source removes lies between the expired set at its first clock read and the expired set at its last; the model gives the first of these bounds when `now` is the first read.
- TtlCache.Replace: takes one `now` for its `get` and its `set`, and treats them as one step. The source reads the clock twice and takes the lock twice, so another thread could act in between.
- Durations are whole seconds. The nanosecond part of `Duration`, including a nanosecond carry that can make `checked_add` overflow one second earlier, is not modelled.
- TtlCache.Set: a panic of `checked_add(..).unwrap()` is modelled as the precondition `CanSet`, not as an error value. `SetPanicsOnOverflow` states exactly when it fails.
- Values (`serde_json::Value`) and keys (`&'static str`) are type parameters `V` and `K`. The value type checks of `test_type` therefore have nothing left to model.
- TtlCache.ItemCount: has no contract of its own; it is the table size. Its properties are stated by `SnapshotLengthIsItemCount` and `DeleteExpiredCount`.
- `examples/set.rs` is a caller, not logic. It also calls `set` on the tuple `new` returns without destructuring it. Its timeline is the same as `CacheTimesScenario` minus the key `d`.

## Findings

| source | as written | input that shows it | evidently intended | confidence | as-written member | corrected member |
|---|---|---|---|---|---|---|
| src/cache.rs:102-108 | `is_expired` tests `now > expiration`. An item stored with expiration 0 therefore counts as expired once the clock is past 0. `get` (line 209) treats expiration 0 as never expiring. | `new_from(DEFAULT_EXPIRATION, d, {"a": Item(1, 0)})` with `d > 0`, as in `test_new_from` but with a janitor. `Item`'s fields are private (src/cache.rs:24-27), so only code inside the `cache` module can build such an item; outside callers reach it only through items taken from `get_items`, and `set` never stores expiration 0 on a constructed cache. At any `now > 0`, `get("a")` is `Some(1)` before the janitor's `delete_expired` and `None` after it. | The sweep removes only items `get` already hides, i.e. those with `expiration > 0 && now > expiration`. | medium; not executed | `CacheProperties.SweepEvictsZeroExpirationItem` | `Sweep.DeleteExpiredIntended` |

`Sweep.DeleteExpired` stays the model of `delete_expired` as written. The
corrected sweep `Sweep.DeleteExpiredIntended` uses `get`'s visibility test.
`CacheProperties.IntendedSweepInvisibleToGet` proves that it changes nothing
`get` returns, now or later, for every table. The as-written sweep has this
property only when every stored expiration is positive
(`CacheProperties.DeleteExpiredInvisibleToGet`), which holds for caches that
only `set` fills (`CacheProperties.SetKeepsExpirationsPositive`).
