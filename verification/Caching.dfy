/** The size-tracked cache with random eviction. */
module Caching {
  import opened Options

  datatype Policy = Policy(tracked: bool, maxSize: nat, minItems: nat)

  function CountPolicy(maxSize: nat): Policy {
    Policy(false, maxSize, 0)
  }

  function TrackedPolicy(maxSize: nat, minItems: nat): Policy {
    Policy(true, maxSize, minItems)
  }

  /** The sum of the sizes of all entries. */
  ghost function Total<K, V>(m: map<K, V>, size: V -> nat): nat {
    if m == map[] then 0
    else
      var k :| k in m;
      size(m[k]) + Total(m - {k}, size)
  }

  lemma {:induction false} TotalSplit<K, V>(m: map<K, V>, k: K, size: V -> nat)
    requires k in m
    ensures Total(m, size) == size(m[k]) + Total(m - {k}, size)
    decreases |m|
  {
    var j :| j in m && Total(m, size) == size(m[j]) + Total(m - {j}, size);
    if j != k {
      TotalSplit(m - {j}, k, size);
      TotalSplit(m - {k}, j, size);
      assert m - {j} - {k} == m - {k} - {j};
    }
  }

  /** m is part of n. */
  ghost predicate Within<K, V>(m: map<K, V>, n: map<K, V>) {
    forall k :: k in m ==> k in n && m[k] == n[k]
  }

  /** m is what eviction leaves of n: all of it, or no less than the minimum of entries, and
      with one of those missing it would be over the size. */
  ghost predicate Trimmed<K(!new), V>(m: map<K, V>, n: map<K, V>, policy: Policy, size: V -> nat) {
    && Within(m, n)
    && (m != n ==>
          && |m| >= policy.minItems
          && exists k :: k in n && k !in m && Total(m, size) + size(n[k]) > policy.maxSize)
  }

  /** The entries of a list, later ones first. */
  ghost function Updated<K, V>(m: map<K, V>, items: seq<(K, V)>): map<K, V> {
    if items == [] then m
    else Updated(m, items[..|items| - 1])[items[|items| - 1].0 := items[|items| - 1].1]
  }

  ghost function Removed<K, V>(m: map<K, V>, keys: seq<K>): map<K, V> {
    m - set k | k in keys
  }

  lemma RemovedNone<K, V>(m: map<K, V>, keys: seq<K>)
    ensures Removed(m, keys[..0]) == m
    ensures m == map[] ==> Removed(m, keys) == m
  {
  }

  lemma RemovedStep<K, V>(m: map<K, V>, keys: seq<K>, i: nat)
    requires i < |keys|
    ensures Removed(m, keys[..i + 1]) == Removed(m, keys[..i]) - {keys[i]}
  {
    assert keys[..i + 1] == keys[..i] + [keys[i]];
  }

  lemma OneLess<K, V>(m: map<K, V>, k: K, key: K, data: V)
    requires k in m
    ensures |(m - {k})[key := data]| + 1 >= |m[key := data]|
  {
    var n := (m - {k})[key := data];
    assert m[key := data].Keys <= n.Keys + {k};
    if k == key { assert n == m[key := data]; } else { assert n.Keys == m[key := data].Keys - {k}; }
  }

  class Cache<K(==, !new), V> {
    var entries: map<K, V>
    var trackedSize: nat
    const policy: Policy
    const size: V -> nat

    /** The tracked size is the total size and stays within its bounds, so that no
        subtraction can underflow. */
    ghost predicate Valid()
      reads this
    {
      && trackedSize == (if policy.tracked then Total(entries, size) else 0)
      && (policy.maxSize == 0 ==> entries == map[])
      && (if policy.tracked then trackedSize <= policy.maxSize || |entries| <= policy.minItems
          else |entries| <= policy.maxSize)
    }

    constructor (policy: Policy, size: V -> nat)
      ensures Valid() && entries == map[] && this.policy == policy && this.size == size
    {
      this.policy := policy;
      this.size := size;
      entries := map[];
      trackedSize := 0;
    }

    /** `tracked_evict`: drop random entries until the policy is met. */
    method TrackedEvict()
      requires policy.tracked && trackedSize == Total(entries, size) && policy.maxSize > 0
      modifies this
      ensures Valid() && Trimmed(entries, old(entries), policy, size)
      ensures old(trackedSize) <= policy.maxSize || old(|entries|) <= policy.minItems ==> entries == old(entries)
    {
      while trackedSize > policy.maxSize && |entries| > policy.minItems
        invariant trackedSize == Total(entries, size) && Trimmed(entries, old(entries), policy, size)
        invariant old(trackedSize) <= policy.maxSize || old(|entries|) <= policy.minItems ==> entries == old(entries)
        decreases |entries|
      {
        var k :| k in entries;
        TotalSplit(entries, k, size);
        assert k in old(entries) && k !in entries - {k};
        trackedSize := trackedSize - size(entries[k]);
        entries := entries - {k};
      }
    }

    /** In tracked mode eviction stops as soon as the policy is met; in count mode a full
        cache loses one entry and no other loses any. */
    method InnerInsert(key: K, data: V)
      requires Valid() && policy.maxSize > 0
      modifies this
      ensures Valid() && Within(entries, old(entries)[key := data])
      ensures policy.tracked ==> Trimmed(entries, old(entries)[key := data], policy, size)
      ensures !policy.tracked ==> key in entries && |entries| + 1 >= |old(entries)[key := data]|
      ensures !policy.tracked && |old(entries)| < policy.maxSize ==> entries == old(entries)[key := data]
    {
      if policy.tracked {
        trackedSize := trackedSize + size(data);
        ghost var before := entries;
        TotalSplit(before[key := data], key, size);
        assert before[key := data] - {key} == before - {key};
        if key in entries {
          TotalSplit(before, key, size);
          trackedSize := trackedSize - size(entries[key]);
        } else {
          assert before - {key} == before;
        }
        entries := entries[key := data];
        TrackedEvict();
      } else {
        if |entries| == policy.maxSize {
          assert entries != map[];
          var k :| k in entries;
          ghost var before := entries;
          entries := entries - {k};
          OneLess(before, k, key, data);
        }
        entries := entries[key := data];
      }
    }

    method Insert(key: K, data: V)
      requires Valid()
      modifies this
      ensures Valid() && Within(entries, old(entries)[key := data])
      ensures policy.maxSize == 0 ==> entries == old(entries)
      ensures policy.maxSize > 0 && policy.tracked ==> Trimmed(entries, old(entries)[key := data], policy, size)
      ensures policy.maxSize > 0 && !policy.tracked ==> key in entries && |entries| + 1 >= |old(entries)[key := data]|
      ensures !policy.tracked && |old(entries)| < policy.maxSize ==> entries == old(entries)[key := data]
    {
      if policy.maxSize == 0 {
        return;
      }
      InnerInsert(key, data);
    }

    method InsertMany(items: seq<(K, V)>)
      requires Valid()
      modifies this
      ensures Valid() && Within(entries, Updated(old(entries), items))
      ensures !policy.tracked && |old(entries)| + |items| <= policy.maxSize ==> entries == Updated(old(entries), items)
    {
      if policy.maxSize == 0 {
        return;
      }
      for i := 0 to |items|
        invariant Valid() && Within(entries, Updated(old(entries), items[..i]))
        invariant !policy.tracked && |old(entries)| + |items| <= policy.maxSize ==>
                    entries == Updated(old(entries), items[..i]) && |entries| <= |old(entries)| + i
      {
        InnerInsert(items[i].0, items[i].1);
        assert items[..i + 1][..i] == items[..i];
      }
      assert items[..|items|] == items;
    }

    /** `update_if_entry_exists`. */
    method UpdateIfEntryExists(key: K, op: V -> V)
      requires Valid()
      modifies this
      ensures Valid()
      ensures key !in old(entries) ==> entries == old(entries)
      ensures key in old(entries) && policy.tracked ==>
                Trimmed(entries, old(entries)[key := op(old(entries)[key])], policy, size)
      ensures key in old(entries) && !policy.tracked ==> entries == old(entries)[key := op(old(entries)[key])]
    {
      if policy.maxSize == 0 || key !in entries {
        return;
      }
      var data := entries[key];
      if policy.tracked {
        ghost var before := entries;
        TotalSplit(before, key, size);
        TotalSplit(before[key := op(data)], key, size);
        assert before[key := op(data)] - {key} == before - {key};
        trackedSize := trackedSize - size(data);
        entries := entries[key := op(data)];
        trackedSize := trackedSize + size(op(data));
        TrackedEvict();
      } else {
        entries := entries[key := op(data)];
      }
    }

    method Remove(key: K) returns (removed: Option<V>)
      requires Valid()
      modifies this
      ensures Valid() && entries == old(entries) - {key}
      ensures removed == if key in old(entries) then Some(old(entries)[key]) else None
    {
      if policy.maxSize == 0 || key !in entries {
        assert entries - {key} == entries;
        return None;
      }
      removed := Some(entries[key]);
      TotalSplit(entries, key, size);
      if policy.tracked {
        trackedSize := trackedSize - size(entries[key]);
      }
      entries := entries - {key};
    }

    method RemoveMany(keys: seq<K>)
      requires Valid()
      modifies this
      ensures Valid() && entries == Removed(old(entries), keys)
    {
      hide Total, Removed;
      RemovedNone(entries, keys);
      if policy.maxSize == 0 {
        return;
      }
      for i := 0 to |keys|
        invariant Valid() && entries == Removed(old(entries), keys[..i])
      {
        var removed := Remove(keys[i]);
        RemovedStep(old(entries), keys, i);
      }
      assert keys[..|keys|] == keys;
    }

    method RemoveAll()
      requires Valid()
      modifies this
      ensures Valid() && entries == map[]
    {
      if policy.maxSize == 0 {
        return;
      }
      entries := map[];
      if policy.tracked {
        trackedSize := 0;
      }
    }
  }
}
