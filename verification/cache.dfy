/**
  The TTL key/value table of `src/cache.rs`, one operation per public
  function, as pure functions on an immutable cache state.

  The shared `RCache` handle (an `Arc<RwLock<Cache>>`) is modelled by the
  `Cache` value it protects: every operation takes the state it reads and
  returns the state it leaves. The wall clock read by `set`, `get` and
  `Item::is_expired` is the explicit parameter `now`.
 */
module TtlCache {
  import opened Optional
  import opened Time

  /** A cached value (the `object` field of `Item` in `src/cache.rs`) and the instant after which it expires. */
  datatype Item<V> = Item(value: V, expiration: Secs)

  /** The janitor configuration kept inside the cache: its clean interval. */
  datatype Janitor = Janitor(interval: Secs)

  /** The state behind the lock: default TTL, the table, the janitor config. */
  datatype Cache<K, V> = Cache(defaultExpiration: Secs, items: map<K, Item<V>>, janitor: Janitor)

  /** The background thread's `JoinHandle`, identified by its tick interval. */
  datatype JanitorThread = JanitorThread(tick: Secs)

  /** What the constructors return: the cache and, if one was spawned, the janitor's handle. */
  datatype Constructed<K, V> = Constructed(cache: Cache<K, V>, janitor: Option<JanitorThread>)

  /**
    The invariant every constructed cache keeps: its default expiration is
    never the "use the default" sentinel, because construction replaces it.
   */
  predicate Valid<K, V>(c: Cache<K, V>)
  {
    c.defaultExpiration != DEFAULT_EXPIRATION
  }

  // ---------------------------------------------------------------------------
  // Construction
  // ---------------------------------------------------------------------------

  /** `new_cache`: a zero default expiration means "never expire". */
  function NewCache<K, V>(defaultExpiration: Secs, cleanExpiration: Secs, items: map<K, Item<V>>): (c: Cache<K, V>)
    ensures Valid(c)
    ensures defaultExpiration == DEFAULT_EXPIRATION ==> c.defaultExpiration == NO_EXPIRATION
    ensures defaultExpiration != DEFAULT_EXPIRATION ==> c.defaultExpiration == defaultExpiration
    ensures c.items == items
    ensures c.janitor.interval == cleanExpiration
  {
    var d := if defaultExpiration == DEFAULT_EXPIRATION then NO_EXPIRATION else defaultExpiration;
    Cache(d, items, Janitor(cleanExpiration))
  }

  /** `new_cache_with_janitor`: a janitor thread is spawned iff the clean interval is positive. */
  function NewCacheWithJanitor<K, V>(defaultExpiration: Secs, cleanExpiration: Secs, items: map<K, Item<V>>): (r: Constructed<K, V>)
    ensures r.cache == NewCache(defaultExpiration, cleanExpiration, items)
    ensures r.janitor.Some? <==> cleanExpiration > 0
    ensures r.janitor.Some? ==> r.janitor.value.tick == cleanExpiration
  {
    var c := NewCache(defaultExpiration, cleanExpiration, items);
    if cleanExpiration > 0 then Constructed(c, Some(JanitorThread(cleanExpiration)))
    else Constructed(c, None)
  }

  /** `new`: a cache over an empty table. */
  function New<K, V>(defaultExpiration: Secs, cleanExpiration: Secs): (r: Constructed<K, V>)
    ensures r.cache == NewCache(defaultExpiration, cleanExpiration, map[])
    ensures Valid(r.cache)
    ensures |r.cache.items| == 0
    ensures defaultExpiration == DEFAULT_EXPIRATION ==> r.cache.defaultExpiration == NO_EXPIRATION
    ensures defaultExpiration != DEFAULT_EXPIRATION ==> r.cache.defaultExpiration == defaultExpiration
    ensures r.cache.janitor.interval == cleanExpiration
    ensures r.janitor.Some? <==> cleanExpiration > 0
    ensures r.janitor.Some? ==> r.janitor.value.tick == cleanExpiration
  {
    NewCacheWithJanitor(defaultExpiration, cleanExpiration, map[])
  }

  /** `new_from`: a cache over a caller-supplied table, taken as is. */
  function NewFrom<K, V>(defaultExpiration: Secs, cleanExpiration: Secs, items: map<K, Item<V>>): (r: Constructed<K, V>)
    ensures r.cache == NewCache(defaultExpiration, cleanExpiration, items)
    ensures Valid(r.cache)
    ensures r.cache.items == items
    ensures defaultExpiration == DEFAULT_EXPIRATION ==> r.cache.defaultExpiration == NO_EXPIRATION
    ensures defaultExpiration != DEFAULT_EXPIRATION ==> r.cache.defaultExpiration == defaultExpiration
    ensures r.cache.janitor.interval == cleanExpiration
    ensures r.janitor.Some? <==> cleanExpiration > 0
    ensures r.janitor.Some? ==> r.janitor.value.tick == cleanExpiration
  {
    NewCacheWithJanitor(defaultExpiration, cleanExpiration, items)
  }

  // ---------------------------------------------------------------------------
  // The two expiry predicates
  // ---------------------------------------------------------------------------

  /** The test `get` applies: an item is visible unless it has a positive expiration already passed. */
  predicate Visible<V>(item: Item<V>, now: Secs)
  {
    !(item.expiration > 0 && now > item.expiration)
  }

  /**
    `Item::is_expired`, the test the sweep applies. It agrees with `get` on
    items with a positive expiration, but treats expiration 0 as expired
    as soon as the clock is past 0, where `get` treats it as "never".
   */
  function IsExpired<V>(item: Item<V>, now: Secs): (expired: bool)
    ensures item.expiration > 0 ==> (expired <==> !Visible(item, now))
    ensures item.expiration == 0 ==> Visible(item, now) && (expired <==> now > 0)
  {
    now > item.expiration
  }

  // ---------------------------------------------------------------------------
  // set
  // ---------------------------------------------------------------------------

  /** The TTL `set` uses: the sentinel `DEFAULT_EXPIRATION` stands for the cache default. */
  function ResolvedTtl(ed: Secs, defaultExpiration: Secs): (ttl: Secs)
    ensures ed != DEFAULT_EXPIRATION ==> ttl == ed
    ensures ed == DEFAULT_EXPIRATION ==> ttl == defaultExpiration
  {
    if ed == DEFAULT_EXPIRATION then defaultExpiration else ed
  }

  /**
    The expiration `set` stores for a resolved TTL at time `now`, or `None`
    where `now.checked_add(ed).unwrap()` panics.
   */
  function ExpirationFor(ttl: Secs, now: Secs): (r: Option<Secs>)
    ensures r.None? <==> 0 < ttl < NO_EXPIRATION && now + ttl > MAX_SECS
    ensures ttl == NO_EXPIRATION ==> r == Some(NO_EXPIRATION)
    ensures 0 < ttl < NO_EXPIRATION && now + ttl <= MAX_SECS ==> r == Some(now + ttl)
    ensures ttl == 0 ==> r == Some(0)
  {
    if ttl == NO_EXPIRATION then Some(NO_EXPIRATION)
    else if ttl > 0 then CheckedAdd(now, ttl)
    else Some(0)
  }

  /** `set` does not panic: the resolved TTL added to `now` fits in a `Duration`. */
  predicate CanSet<K, V>(c: Cache<K, V>, ed: Secs, now: Secs)
  {
    ExpirationFor(ResolvedTtl(ed, c.defaultExpiration), now).Some?
  }

  /** `set`: insert or overwrite the item for `key`, whatever was there before. */
  function Set<K, V>(c: Cache<K, V>, key: K, value: V, ed: Secs, now: Secs): (r: Cache<K, V>)
    requires CanSet(c, ed, now)
    ensures key in r.items && r.items[key].value == value
    ensures r.items[key].expiration == ExpirationFor(ResolvedTtl(ed, c.defaultExpiration), now).value
    ensures r.items.Keys == c.items.Keys + {key}
    ensures forall k :: k in c.items && k != key ==> r.items[k] == c.items[k]
    ensures |r.items| == if key in c.items then |c.items| else |c.items| + 1
    ensures r.defaultExpiration == c.defaultExpiration && r.janitor == c.janitor
  {
    var expiration := ExpirationFor(ResolvedTtl(ed, c.defaultExpiration), now).value;
    c.(items := c.items[key := Item(value, expiration)])
  }

  /** `set_with_default_exp`: `set` with the `DEFAULT_EXPIRATION` sentinel. */
  function SetWithDefaultExp<K, V>(c: Cache<K, V>, key: K, value: V, now: Secs): (r: Cache<K, V>)
    requires CanSet(c, DEFAULT_EXPIRATION, now)
    ensures r == Set(c, key, value, DEFAULT_EXPIRATION, now)
    ensures r.items[key].expiration == ExpirationFor(c.defaultExpiration, now).value
  {
    Set(c, key, value, DEFAULT_EXPIRATION, now)
  }

  // ---------------------------------------------------------------------------
  // get, replace, delete, flush, item_count
  // ---------------------------------------------------------------------------

  /** `get`: the object for `key` if it is present and not expired; the table is left as is. */
  function Get<K, V>(c: Cache<K, V>, key: K, now: Secs): (r: Option<V>)
    ensures r.Some? <==> key in c.items && Visible(c.items[key], now)
    ensures r.Some? ==> r.value == c.items[key].value
  {
    if key in c.items then
      var i := c.items[key];
      if i.expiration > 0 && now > i.expiration then None else Some(i.value)
    else
      None
  }

  /** `replace`: `set`, but only when `get` currently returns something for `key`. */
  function Replace<K, V>(c: Cache<K, V>, key: K, value: V, ed: Secs, now: Secs): (r: Cache<K, V>)
    requires Get(c, key, now).Some? ==> CanSet(c, ed, now)
    ensures key in c.items && Visible(c.items[key], now) ==> r == Set(c, key, value, ed, now)
    ensures !(key in c.items && Visible(c.items[key], now)) ==> r == c
  {
    if Get(c, key, now).Some? then Set(c, key, value, ed, now) else c
  }

  /** `flush`: empty the table, keep the configuration. */
  function Flush<K, V>(c: Cache<K, V>): (r: Cache<K, V>)
    ensures |r.items| == 0
    ensures r.defaultExpiration == c.defaultExpiration && r.janitor == c.janitor
  {
    c.(items := map[])
  }

  /** `delete`: remove `key` if present; no effect otherwise. */
  function Delete<K, V>(c: Cache<K, V>, key: K): (r: Cache<K, V>)
    ensures r.items.Keys == c.items.Keys - {key}
    ensures forall k :: k in r.items ==> r.items[k] == c.items[k]
    ensures |r.items| == if key in c.items then |c.items| - 1 else |c.items|
    ensures key !in c.items ==> r == c
    ensures r.defaultExpiration == c.defaultExpiration && r.janitor == c.janitor
  {
    c.(items := c.items - {key})
  }

  /** `item_count`: the number of stored items, expired or not. */
  function ItemCount<K, V>(c: Cache<K, V>): nat
  {
    |c.items|
  }
}
