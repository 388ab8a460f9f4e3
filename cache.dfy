/** The storage engine's LRU cache: an ordered dictionary whose order runs
    from the least to the most recently used key, with hit and miss counters. */
module Lru {
  import opened Wrappers
  import opened Sequences

  /** `move_to_end`, or the insertion of a new key: `x` becomes the most
      recently used key and everything else keeps its relative order. */
  function Touch<K(==, !new)>(order: seq<K>, x: K): (r: seq<K>)
    ensures |r| > 0 && r[|r| - 1] == x
    ensures forall y :: y in r <==> y in order || y == x
  {
    Without(order, x) + [x]
  }

  lemma {:induction false} TouchDistinct<K(!new)>(order: seq<K>, x: K)
    requires Distinct(order)
    ensures Distinct(Touch(order, x))
    ensures |Touch(order, x)| == if x in order then |order| else |order| + 1
  {
    WithoutDistinct(order, x);
  }

  /** The keys other than the touched one keep their order: the least
      recently used key of `Touch(order, x)` is the first of `order` that is not `x`. */
  lemma {:induction false} TouchFirst<K(!new)>(order: seq<K>, x: K)
    requires |order| > 0 && order[0] != x
    ensures Touch(order, x)[0] == order[0]
  {
  }

  /** What the cache keeps: each key once, in `order` exactly when it has an
      entry, and no more entries than the capacity allows. */
  ghost predicate Consistent<K(!new), V>(order: seq<K>, entries: map<K, V>, capacity: int) {
    && Distinct(order)
    && (forall k :: k in order <==> k in entries)
    && |order| == |entries|
    && |order| <= Bound(capacity)
  }

  /** The order after `put`: the key becomes the most recent, and if that
      makes one entry too many the least recent one is popped. */
  function PutOrder<K(==, !new)>(order: seq<K>, key: K, capacity: int): seq<K> {
    var t := Touch(order, key);
    if |t| > capacity then t[1..] else t
  }

  /** The entries after `put`. */
  function PutEntries<K(==, !new), V>(entries: map<K, V>, order: seq<K>, key: K, value: V, capacity: int): map<K, V> {
    var t := Touch(order, key);
    if |t| > capacity then entries[key := value] - {t[0]} else entries[key := value]
  }

  lemma {:induction false} PutConsistent<K(!new), V>(order: seq<K>, entries: map<K, V>, key: K, value: V, capacity: int)
    requires Consistent(order, entries, capacity)
    ensures Consistent(PutOrder(order, key, capacity), PutEntries(entries, order, key, value, capacity), capacity)
  {
    TouchDistinct(order, key);
    var t := Touch(order, key);
    var e := entries[key := value];
    assert forall k :: k in t <==> k in e;
    if |t| > capacity {
      assert t[0] !in t[1..];
      RemoveCard(e, t[0]);
    }
  }

  lemma {:induction false} RemoveCard<K(!new), V>(m: map<K, V>, k: K)
    requires k in m
    ensures |m - {k}| == |m| - 1
  {
    assert (m - {k}).Keys == m.Keys - {k};
  }

  /** `invalidate` keeps the cache consistent. */
  lemma {:induction false} InvalidateConsistent<K(!new), V>(order: seq<K>, entries: map<K, V>, key: K, capacity: int)
    requires Consistent(order, entries, capacity)
    ensures Consistent(Without(order, key), entries - {key}, capacity)
  {
    WithoutDistinct(order, key);
    if key in entries {
      RemoveCard(entries, key);
    } else {
      assert entries - {key} == entries;
    }
  }

  /** What `put` promises: the key holds the new value (unless the capacity
      keeps nothing), other keys keep theirs, and the only key that can go
      is the least recently used one, and only when the cache was full. */
  lemma {:induction false} PutEffect<K(!new), V>(order: seq<K>, entries: map<K, V>, key: K, value: V, capacity: int)
    requires Consistent(order, entries, capacity)
    ensures var e := PutEntries(entries, order, key, value, capacity);
      && (forall k :: k in e ==> e[k] == if k == key then value else entries[k])
      && (capacity > 0 ==> key in e && e[key] == value)
      && (forall k :: k in entries && k !in e ==> k == order[0])
      && (key in entries ==> e.Keys == entries.Keys)
      && (|entries| < capacity ==> e.Keys == entries.Keys + {key})
  {
    TouchDistinct(order, key);
    var t := Touch(order, key);
    if |t| > capacity && t[0] != key {
      assert order != [] && order[0] != key;
      TouchFirst(order, key);
    }
  }

  datatype CacheStats = CacheStats(hits: nat, misses: nat, size: nat, capacity: int)

  class Cache<K(==, !new), V> {
    const capacity: int
    var order: seq<K>
    var entries: map<K, V>
    var hits: nat
    var misses: nat
    /** The number of `get` calls since the cache was created or cleared. */
    ghost var lookups: nat

    ghost predicate Valid()
      reads this
    {
      && Consistent(order, entries, capacity)
      && hits + misses == lookups
    }

    constructor (capacity: int)
      ensures Valid() && this.capacity == capacity
      ensures order == [] && entries == map[] && hits == 0 && misses == 0
    {
      this.capacity := capacity;
      order := [];
      entries := map[];
      hits := 0;
      misses := 0;
      lookups := 0;
    }

    /** A hit counts, makes the key the most recent and returns its value;
        a miss counts and leaves the entries as they are. */
    method Get(key: K) returns (r: Option<V>)
      requires Valid()
      modifies this
      ensures Valid() && entries == old(entries) && lookups == old(lookups) + 1
      ensures key in old(entries) ==>
        r == Some(old(entries)[key]) && hits == old(hits) + 1 && misses == old(misses) && order == Touch(old(order), key)
      ensures key !in old(entries) ==>
        r == None && misses == old(misses) + 1 && hits == old(hits) && order == old(order)
    {
      lookups := lookups + 1;
      if key in entries {
        hits := hits + 1;
        TouchDistinct(order, key);
        order := Touch(order, key);
        r := Some(entries[key]);
      } else {
        misses := misses + 1;
        r := None;
      }
    }

    /** Stores the value under the key as the most recent entry; when that
        leaves one entry too many, the least recently used one goes. */
    method Put(key: K, value: V)
      requires Valid()
      modifies this
      ensures Valid()
      ensures hits == old(hits) && misses == old(misses) && lookups == old(lookups)
      ensures order == PutOrder(old(order), key, capacity)
      ensures entries == PutEntries(old(entries), old(order), key, value, capacity)
      ensures forall k :: k in entries ==> entries[k] == if k == key then value else old(entries)[k]
      ensures capacity > 0 ==> key in entries
      ensures forall k :: k in old(entries) && k !in entries ==> k == old(order)[0]
      ensures key in old(entries) ==> entries.Keys == old(entries).Keys
      ensures |old(entries)| < capacity ==> entries.Keys == old(entries).Keys + {key}
    {
      PutConsistent(order, entries, key, value, capacity);
      PutEffect(order, entries, key, value, capacity);
      var t := Touch(order, key);
      if |t| > capacity {
        entries := entries[key := value] - {t[0]};
        order := t[1..];
      } else {
        entries := entries[key := value];
        order := t;
      }
    }

    /** Drops the key if it is cached; any other key stays. */
    method Invalidate(key: K)
      requires Valid()
      modifies this
      ensures Valid()
      ensures entries == old(entries) - {key} && order == Without(old(order), key)
      ensures hits == old(hits) && misses == old(misses) && lookups == old(lookups)
    {
      InvalidateConsistent(order, entries, key, capacity);
      entries := entries - {key};
      order := Without(order, key);
    }

    method Clear()
      requires Valid()
      modifies this
      ensures Valid()
      ensures entries == map[] && order == [] && hits == 0 && misses == 0 && lookups == 0
    {
      entries := map[];
      order := [];
      hits := 0;
      misses := 0;
      lookups := 0;
    }

    /** The integer part of `get_stats`. */
    function Stats(): (s: CacheStats)
      requires Valid()
      reads this
      ensures s.size == |entries| <= Bound(capacity)
      ensures s.hits + s.misses == lookups
    {
      CacheStats(hits, misses, |entries|, capacity)
    }
  }
}
