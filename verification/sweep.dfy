/**
  `get_items` and the bulk sweep `delete_expired` of `src/cache.rs`.

  `get_items` copies the table into a vector in the table's own (unspecified)
  iteration order; `delete_expired` walks that snapshot and removes, by key,
  every entry whose snapshot item `Item::is_expired`. Because the iteration
  order is not fixed, the sweep is modelled over ANY snapshot of the table
  (`IsSnapshot`), and whether `try_write` obtained the write lock is the
  input `lockAcquired`.
 */
module Sweep {
  import opened Time
  import opened TtlCache

  /** The keys of a snapshot. */
  function KeysOf<K(==), V(==)>(s: seq<(K, Item<V>)>): set<K>
  {
    set i | 0 <= i < |s| :: s[i].0
  }

  /** No key occurs twice in the snapshot. */
  predicate DistinctKeys<K(==), V(==)>(s: seq<(K, Item<V>)>)
  {
    forall i, j :: 0 <= i < j < |s| ==> s[i].0 != s[j].0
  }

  /** `s` holds one `(key, item)` pair per key of `m`, each equal to the stored item. */
  predicate IsSnapshot<K(==), V(==)>(s: seq<(K, Item<V>)>, m: map<K, Item<V>>)
  {
    && KeysOf(s) == m.Keys
    && DistinctKeys(s)
    && (forall i :: 0 <= i < |s| ==> s[i].0 in m && m[s[i].0] == s[i].1)
  }

  lemma {:induction false} DistinctKeysCount<K, V>(s: seq<(K, Item<V>)>)
    requires DistinctKeys(s)
    ensures |KeysOf(s)| == |s|
  {
    if |s| > 0 {
      var rest := s[1..];
      assert KeysOf(s) == {s[0].0} + KeysOf(rest) by {
        forall k | k in KeysOf(s) ensures k in {s[0].0} + KeysOf(rest) {
          var i :| 0 <= i < |s| && s[i].0 == k;
          if i > 0 { assert rest[i - 1].0 == k; }
        }
        forall k | k in KeysOf(rest) ensures k in KeysOf(s) {
          var i :| 0 <= i < |rest| && rest[i].0 == k;
          assert s[i + 1].0 == k;
        }
      }
      assert s[0].0 !in KeysOf(rest) by {
        forall i | 0 <= i < |rest| ensures rest[i].0 != s[0].0 {
          assert rest[i] == s[i + 1];
        }
      }
      assert DistinctKeys(rest) by {
        forall i, j | 0 <= i < j < |rest| ensures rest[i].0 != rest[j].0 {
          assert rest[i] == s[i + 1] && rest[j] == s[j + 1];
        }
      }
      DistinctKeysCount(rest);
    }
  }

  /** A snapshot has exactly as many entries as `item_count` reports. */
  lemma SnapshotLengthIsItemCount<K, V>(s: seq<(K, Item<V>)>, c: Cache<K, V>)
    requires IsSnapshot(s, c.items)
    ensures |s| == ItemCount(c)
  {
    DistinctKeysCount(s);
    assert |c.items| == |c.items.Keys|;
  }

  lemma KeysOfAppend<K, V>(s: seq<(K, Item<V>)>, entry: (K, Item<V>))
    ensures KeysOf(s + [entry]) == KeysOf(s) + {entry.0}
    ensures entry.0 !in KeysOf(s) && DistinctKeys(s) ==> DistinctKeys(s + [entry])
  {
    var t := s + [entry];
    forall k | k in KeysOf(t) ensures k in KeysOf(s) + {entry.0} {
      var i :| 0 <= i < |t| && t[i].0 == k;
      if i < |s| { assert s[i].0 == k; }
    }
    forall k | k in KeysOf(s) ensures k in KeysOf(t) {
      var i :| 0 <= i < |s| && s[i].0 == k;
      assert t[i].0 == k;
    }
    assert t[|s|].0 == entry.0;
    if entry.0 !in KeysOf(s) && DistinctKeys(s) {
      forall i, j | 0 <= i < j < |t| ensures t[i].0 != t[j].0 {
        if j == |s| {
          assert s[i].0 in KeysOf(s);
        }
      }
    }
  }

  /** The loop state of `get_items`: `items` is a snapshot of `m` except for the keys still in `todo`. */
  predicate PartialSnapshot<K(==), V(==)>(items: seq<(K, Item<V>)>, todo: set<K>, m: map<K, Item<V>>)
  {
    && KeysOf(items) + todo == m.Keys
    && KeysOf(items) !! todo
    && DistinctKeys(items)
    && (forall i :: 0 <= i < |items| ==> items[i].0 in m && m[items[i].0] == items[i].1)
  }

  lemma PartialSnapshotStep<K, V>(items: seq<(K, Item<V>)>, todo: set<K>, m: map<K, Item<V>>, key: K)
    requires PartialSnapshot(items, todo, m)
    requires key in todo
    ensures PartialSnapshot(items + [(key, m[key])], todo - {key}, m)
  {
    KeysOfAppend(items, (key, m[key]));
    var next := items + [(key, m[key])];
    forall i | 0 <= i < |next| ensures next[i].0 in m && m[next[i].0] == next[i].1 {
      if i < |items| { assert next[i] == items[i]; }
    }
  }

  /** `get_items`: copy every `(key, item)` pair of the table, in an unspecified order. */
  method GetItems<K(==), V(==)>(c: Cache<K, V>) returns (items: seq<(K, Item<V>)>)
    ensures IsSnapshot(items, c.items)
    ensures |items| == ItemCount(c)
  {
    var keys := c.items.Keys;
    items := [];
    while keys != {}
      invariant PartialSnapshot(items, keys, c.items)
      decreases keys
    {
      var key :| key in keys;
      PartialSnapshotStep(items, keys, c.items, key);
      items := items + [(key, c.items[key])];
      keys := keys - {key};
    }
    SnapshotLengthIsItemCount(items, c);
  }

  /** The keys of the snapshot entries whose snapshot item satisfies `expired`. */
  function ExpiredKeys<K(==), V(==)>(s: seq<(K, Item<V>)>, expired: Item<V> -> bool): set<K>
  {
    set i | 0 <= i < |s| && expired(s[i].1) :: s[i].0
  }

  /**
    The loop of `delete_expired`: for each snapshot entry in order, remove
    its key from the live table when the snapshot item is expired. The
    removal is by key alone: a live item that differs from the snapshot item
    is removed all the same.
   */
  function SweepSnapshot<K(==), V(==)>(live: map<K, Item<V>>, s: seq<(K, Item<V>)>, expired: Item<V> -> bool): (r: map<K, Item<V>>)
    ensures r.Keys == live.Keys - ExpiredKeys(s, expired)
    ensures forall k :: k in r ==> r[k] == live[k]
    decreases |s|
  {
    if |s| == 0 then
      live
    else
      var (key, item) := s[0];
      var rest := SweepSnapshot(if expired(item) then live - {key} else live, s[1..], expired);
      assert ExpiredKeys(s, expired) == (if expired(item) then {key} else {}) + ExpiredKeys(s[1..], expired) by {
        var tail := s[1..];
        forall k | k in ExpiredKeys(s, expired)
          ensures k in (if expired(item) then {key} else {}) + ExpiredKeys(tail, expired)
        {
          var i :| 0 <= i < |s| && expired(s[i].1) && s[i].0 == k;
          if i > 0 { assert tail[i - 1] == s[i]; }
        }
        forall k | k in ExpiredKeys(tail, expired) ensures k in ExpiredKeys(s, expired) {
          var i :| 0 <= i < |tail| && expired(tail[i].1) && tail[i].0 == k;
          assert s[i + 1] == tail[i];
        }
      }
      rest
  }

  /** The keys of the table whose stored item `Item::is_expired` at `now`. */
  function ExpiredTableKeys<K(==), V(==)>(m: map<K, Item<V>>, now: Secs): set<K>
  {
    set k | k in m && IsExpired(m[k], now)
  }

  lemma SnapshotExpiredKeys<K, V>(s: seq<(K, Item<V>)>, m: map<K, Item<V>>, expired: Item<V> -> bool)
    requires IsSnapshot(s, m)
    ensures ExpiredKeys(s, expired) == set k | k in m && expired(m[k])
  {
    forall k | k in m && expired(m[k]) ensures k in ExpiredKeys(s, expired) {
      assert k in KeysOf(s);
      var i :| 0 <= i < |s| && s[i].0 == k;
    }
  }

  /**
    `delete_expired` at time `now` over the snapshot `get_items` returned.
    With the write lock it removes exactly the items that `is_expired`,
    including items stored with expiration 0 once `now > 0`; without it the
    cache is unchanged.
   */
  function DeleteExpired<K(==), V(==)>(c: Cache<K, V>, snapshot: seq<(K, Item<V>)>, lockAcquired: bool, now: Secs): (r: Cache<K, V>)
    requires IsSnapshot(snapshot, c.items)
    ensures lockAcquired ==> r.items.Keys == c.items.Keys - ExpiredTableKeys(c.items, now)
    ensures forall k :: k in r.items ==> k in c.items && r.items[k] == c.items[k]
    ensures !lockAcquired ==> r == c
    ensures r.defaultExpiration == c.defaultExpiration && r.janitor == c.janitor
  {
    if lockAcquired then
      var swept := SweepSnapshot(c.items, snapshot, item => IsExpired(item, now));
      SnapshotExpiredKeys(snapshot, c.items, item => IsExpired(item, now));
      c.(items := swept)
    else
      c
  }

  /** With the write lock, the sweep lowers `item_count` by the number of expired items. */
  lemma DeleteExpiredCount<K, V>(c: Cache<K, V>, snapshot: seq<(K, Item<V>)>, now: Secs)
    requires IsSnapshot(snapshot, c.items)
    ensures ItemCount(DeleteExpired(c, snapshot, true, now)) == ItemCount(c) - |ExpiredTableKeys(c.items, now)|
  {
    var r := DeleteExpired(c, snapshot, true, now);
    assert |r.items| == |r.items.Keys| && |c.items| == |c.items.Keys|;
  }

  /** The sweep `get` would agree with: remove only items `get` no longer returns. */
  function DeleteExpiredIntended<K(==), V(==)>(c: Cache<K, V>, snapshot: seq<(K, Item<V>)>, lockAcquired: bool, now: Secs): (r: Cache<K, V>)
    requires IsSnapshot(snapshot, c.items)
    ensures lockAcquired ==> r.items.Keys == set k | k in c.items && Visible(c.items[k], now)
    ensures forall k :: k in r.items ==> k in c.items && r.items[k] == c.items[k]
    ensures !lockAcquired ==> r == c
    ensures r.defaultExpiration == c.defaultExpiration && r.janitor == c.janitor
  {
    if lockAcquired then
      var swept := SweepSnapshot(c.items, snapshot, item => !Visible(item, now));
      SnapshotExpiredKeys(snapshot, c.items, item => !Visible(item, now));
      c.(items := swept)
    else
      c
  }
}
