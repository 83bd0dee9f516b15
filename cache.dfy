/** `processed_requests`: an insertion-ordered dictionary of results. Each
    insertion of a new key that takes the size past `CACHE_SIZE_LIMIT` is
    followed by `processed_requests.pop(next(iter(processed_requests)))`,
    which removes the single oldest key. */
module Cache {
  import opened Wrappers

  /** The key order after storing `key`: an existing key keeps its place; a
      new key goes last, and the oldest key leaves when the size passes
      `limit`. */
  function AfterStore(order: seq<string>, key: string, limit: nat): (r: seq<string>)
  {
    if key in order then order
    else if |order| + 1 > limit then (order + [key])[1..]
    else order + [key]
  }

  predicate NoRepeats(order: seq<string>) {
    forall i, j :: 0 <= i < j < |order| ==> order[i] != order[j]
  }

  /** Storing keeps the keys distinct and the size within the limit, and the
      key just stored is present. */
  lemma AfterStoreBounded(order: seq<string>, key: string, limit: nat)
    requires NoRepeats(order) && |order| <= limit && 0 < limit
    ensures NoRepeats(AfterStore(order, key, limit))
    ensures |AfterStore(order, key, limit)| <= limit
    ensures key in AfterStore(order, key, limit)
  {
    var r := AfterStore(order, key, limit);
    if key !in order {
      var s := order + [key];
      assert s[|s| - 1] == key;
      forall i, j | 0 <= i < j < |s| ensures s[i] != s[j] {
        if j == |s| - 1 {
          assert s[i] == order[i];
        }
      }
      if |order| + 1 > limit {
        assert r == s[1..] && r[|r| - 1] == key;
        forall i, j | 0 <= i < j < |r| ensures r[i] != r[j] {
          assert r[i] == s[i + 1] && r[j] == s[j + 1];
        }
      }
    }
  }

  /** Storing a new key into a full cache evicts exactly the oldest key,
      and only it. */
  lemma AfterStoreEvictsOldest(order: seq<string>, key: string, limit: nat)
    requires NoRepeats(order) && |order| == limit && 0 < limit && key !in order
    ensures var r := AfterStore(order, key, limit);
      && order[0] !in r
      && (forall k :: k in r <==> (k in order && k != order[0]) || k == key)
  {
    var s := order + [key];
    var r := AfterStore(order, key, limit);
    assert r == s[1..];
    forall k ensures k in r <==> (k in order && k != order[0]) || k == key {
      if k in r {
        var t :| 0 <= t < |r| && r[t] == k;
        assert s[t + 1] == k;
        if t + 1 < |order| {
          assert order[t + 1] == k;
        }
      }
      if k in order && k != order[0] {
        var t :| 0 <= t < |order| && order[t] == k;
        assert r[t - 1] == k;
      }
      if k == key {
        assert r[|r| - 1] == key;
      }
    }
  }

  class RequestCache<V> {
    /** `CACHE_SIZE_LIMIT`. */
    const limit: nat
    /** The keys of the dictionary in insertion order. */
    var order: seq<string>
    var entries: map<string, V>

    ghost predicate Valid()
      reads this
    {
      && 0 < limit
      && NoRepeats(order)
      && (forall k :: k in entries <==> k in order)
      && |order| <= limit
    }

    constructor (limit: nat)
      requires 0 < limit
      ensures Valid() && this.limit == limit && order == [] && entries == map[]
    {
      this.limit := limit;
      order := [];
      entries := map[];
    }

    /** `key in processed_requests` and `processed_requests[key]`. */
    function Get(key: string): (r: Option<V>)
      reads this
      ensures r.Some? <==> key in entries
      ensures r.Some? ==> r.value == entries[key]
    {
      if key in entries then Some(entries[key]) else None
    }

    /** `processed_requests[key] = value` followed by the size check. */
    method Put(key: string, value: V)
      requires Valid()
      modifies this
      ensures Valid()
      ensures order == AfterStore(old(order), key, limit)
      ensures key in entries && entries[key] == value
      ensures forall k :: k in entries && k != key ==> k in old(entries) && entries[k] == old(entries)[k]
      ensures key !in old(entries) && |old(order)| == limit ==> old(order)[0] !in entries
      ensures Get(key) == Some(value)
      ensures forall k :: k != key && k in entries ==> Get(k) == old(Get(k))
    {
      AfterStoreBounded(order, key, limit);
      if key !in order && |order| + 1 > limit {
        AfterStoreEvictsOldest(order, key, limit);
      }
      entries := entries[key := value];
      if key !in order {
        order := order + [key];
      }
      // `order` lists exactly the keys, so its length is `len(processed_requests)`.
      if |order| > limit {
        var oldest := order[0];
        entries := entries - {oldest};
        order := order[1..];
      }
    }
  }
}
