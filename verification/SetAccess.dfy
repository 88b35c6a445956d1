/** Cached access to sets of items: a bucket of the store is a set, and the cache holds
    whole sets. */
module SetAccess {
  import opened Options
  import opened ByteKeys
  import opened DbKeys
  import opened Store
  import opened Caching

  /** The items stored under prefix p (the store's prefix and a bucket key). */
  ghost function Items<D>(kv: KV, p: Bytes, de: Bytes -> Option<D>): set<D> {
    set key | key in kv && p <= key && de(key[|p|..]).Some? :: de(key[|p|..]).value
  }

  /** Some key under p does not decode. */
  ghost predicate Damaged<D>(kv: KV, p: Bytes, de: Bytes -> Option<D>) {
    exists key :: key in kv && p <= key && de(key[|p|..]).None?
  }

  /** What decodes behind the store's prefix and a bucket key of n bytes is a serialized item. */
  ghost predicate WellFormed<D>(kv: KV, prefix: Bytes, n: nat, ser: D -> Bytes, de: Bytes -> Option<D>) {
    forall key :: key in kv && prefix <= key && |key| >= |prefix| + n && de(key[|prefix| + n..]).Some? ==>
      ser(de(key[|prefix| + n..]).value) == key[|prefix| + n..]
  }

  lemma ItemStored<D>(kv: KV, prefix: Bytes, n: nat, k: Bytes, ser: D -> Bytes, de: Bytes -> Option<D>, d: D)
    requires WellFormed(kv, prefix, n, ser, de) && |k| == n && de(ser(d)) == Some(d)
    ensures d in Items(kv, prefix + k, de) <==> prefix + k + ser(d) in kv
  {
    var p := prefix + k;
    if d in Items(kv, p, de) {
      var key :| key in kv && p <= key && de(key[|p|..]) == Some(d);
      assert prefix <= key;
      assert key == p + key[|p|..];
    }
    if p + ser(d) in kv {
      assert (p + ser(d))[|p|..] == ser(d);
    }
  }

  lemma PutItem<D(!new)>(kv: KV, prefix: Bytes, n: nat, k: Bytes, ser: D -> Bytes, de: Bytes -> Option<D>, d: D,
                         v: Bytes)
    requires WellFormed(kv, prefix, n, ser, de) && |k| == n && forall x :: de(ser(x)) == Some(x)
    ensures var kv' := kv[prefix + k + ser(d) := v];
            && WellFormed(kv', prefix, n, ser, de)
            && Items(kv', prefix + k, de) == Items(kv, prefix + k, de) + {d}
            && forall k' :: |k'| == n && k' != k ==> Items(kv', prefix + k', de) == Items(kv, prefix + k', de)
  {
    var kv' := kv[prefix + k + ser(d) := v];
    assert (prefix + k + ser(d))[|prefix| + n..] == ser(d);
    SameItems(kv, kv', prefix, n, k, ser, de, d, true);
  }

  lemma DeleteItem<D(!new)>(kv: KV, prefix: Bytes, n: nat, k: Bytes, ser: D -> Bytes, de: Bytes -> Option<D>, d: D)
    requires WellFormed(kv, prefix, n, ser, de) && |k| == n && forall x :: de(ser(x)) == Some(x)
    ensures var kv' := kv - {prefix + k + ser(d)};
            && WellFormed(kv', prefix, n, ser, de)
            && Items(kv', prefix + k, de) == Items(kv, prefix + k, de) - {d}
            && forall k' :: |k'| == n && k' != k ==> Items(kv', prefix + k', de) == Items(kv, prefix + k', de)
  {
    SameItems(kv, kv - {prefix + k + ser(d)}, prefix, n, k, ser, de, d, false);
  }

  /** A store changed at one item's key has changed that item of that bucket only. */
  lemma SameItems<D(!new)>(kv: KV, kv': KV, prefix: Bytes, n: nat, k: Bytes, ser: D -> Bytes,
                           de: Bytes -> Option<D>, d: D, present: bool)
    requires WellFormed(kv, prefix, n, ser, de) && WellFormed(kv', prefix, n, ser, de)
    requires |k| == n && forall x :: de(ser(x)) == Some(x)
    requires forall key :: key in kv' <==> if key == prefix + k + ser(d) then present else key in kv
    ensures Items(kv', prefix + k, de) ==
              if present then Items(kv, prefix + k, de) + {d} else Items(kv, prefix + k, de) - {d}
    ensures forall k' :: |k'| == n && k' != k ==> Items(kv', prefix + k', de) == Items(kv, prefix + k', de)
  {
    hide Items, WellFormed;
    forall k', x | |k'| == n
      ensures x in Items(kv', prefix + k', de) <==>
              if k' == k && x == d then present else x in Items(kv, prefix + k', de)
    {
      ItemStored(kv, prefix, n, k', ser, de, x);
      ItemStored(kv', prefix, n, k', ser, de, x);
      if prefix + k' + ser(x) == prefix + k + ser(d) {
        SplitUnique(prefix, k', ser(x), k, ser(d));
        assert de(ser(x)) == de(ser(d));
      }
    }
  }

  lemma DropBucket<D(!new)>(kv: KV, prefix: Bytes, n: nat, k: Bytes, ser: D -> Bytes, de: Bytes -> Option<D>)
    requires WellFormed(kv, prefix, n, ser, de) && |k| == n && NextPrefix(prefix + k).Some?
    ensures var kv' := Without(kv, prefix + k, NextPrefix(prefix + k).value);
            && WellFormed(kv', prefix, n, ser, de)
            && Items(kv', prefix + k, de) == {}
            && forall k' :: |k'| == n && k' != k ==> Items(kv', prefix + k', de) == Items(kv, prefix + k', de)
  {
    var kv' := Without(kv, prefix + k, NextPrefix(prefix + k).value);
    forall key ensures key in kv' <==> key in kv && !(prefix + k <= key) {
      RangeIsPrefix(prefix + k, key);
    }
    forall k' | |k'| == n && k' != k
      ensures Items(kv', prefix + k', de) == Items(kv, prefix + k', de)
    {
      forall key | key in kv && prefix + k' <= key ensures !(prefix + k <= key) {
        OneBucket(prefix, k, k', key);
      }
    }
  }

  lemma OneBucket(prefix: Bytes, k: Bytes, k': Bytes, key: Bytes)
    requires |k| == |k'| && k != k' && prefix + k' <= key
    ensures !(prefix + k <= key)
  {
    var middle := key[|prefix|..|prefix| + |k'|];
    assert middle == k';
    assert prefix + k <= key ==> middle == k;
  }

  datatype SetError = Corrupt

  /** The answer of an operation: a set for a read. */
  type Reply<D> = Option<Result<set<D>, SetError>>

  class CachedDbSetAccess<D(==, !new)> {
    const db: Database
    const cache: Cache<Bytes, set<D>>
    const prefix: Bytes
    const keyLength: nat
    const serialize: D -> Bytes
    const deserialize: Bytes -> Option<D>

    ghost predicate Valid()
      reads this, cache
    {
      cache.Valid() && forall d :: deserialize(serialize(d)) == Some(d)
    }

    /** The store, as it will be after the pending batch, holds items in buckets. */
    ghost predicate Sound()
      reads this, db
    {
      WellFormed(db.View(), prefix, keyLength, serialize, deserialize)
    }

    /** Every cached set is exactly the set of items stored in its bucket. */
    ghost predicate Coherent()
      reads this, cache, db
    {
      Sound() && Holds(cache.entries, db.View())
    }

    ghost predicate Holds(entries: map<Bytes, set<D>>, kv: KV) {
      forall k :: k in entries ==> |k| == keyLength && entries[k] == Items(kv, prefix + k, deserialize)
    }

    ghost function Bucket(k: Bytes): set<D>
      reads this, db
    {
      Items(db.View(), prefix + k, deserialize)
    }

    constructor (db: Database, policy: Policy, size: set<D> -> nat, prefix: Bytes, keyLength: nat,
                 ser: D -> Bytes, de: Bytes -> Option<D>)
      requires forall d :: de(ser(d)) == Some(d)
      ensures Valid() && fresh(cache) && (Sound() ==> Coherent())
      ensures this.db == db && this.prefix == prefix && this.keyLength == keyLength
      ensures serialize == ser && deserialize == de
    {
      this.db := db;
      this.prefix := prefix;
      this.keyLength := keyLength;
      this.serialize := ser;
      this.deserialize := de;
      cache := new Cache<Bytes, set<D>>(policy, size);
    }

    /** The view has changed from old to new as a change of bucket k alone does it. */
    ghost predicate OnlyBucket(kv: KV, kv': KV, k: Bytes, items: set<D>) {
      && Items(kv', prefix + k, deserialize) == items
      && forall k' :: |k'| == keyLength && k' != k ==>
           Items(kv', prefix + k', deserialize) == Items(kv, prefix + k', deserialize)
    }

    lemma HoldsAfter(entries: map<Bytes, set<D>>, entries': map<Bytes, set<D>>, kv: KV, kv': KV,
                     k: Bytes, items: set<D>)
      requires Holds(entries, kv) && OnlyBucket(kv, kv', k, items)
      requires forall x :: x in entries' ==> x in entries && entries'[x] == if x == k then items else entries[x]
      ensures Holds(entries', kv')
    {
      hide Items;
    }

    lemma HoldsDropped(entries: map<Bytes, set<D>>, kv: KV, kv': KV, k: Bytes)
      requires Holds(entries, kv) && OnlyBucket(kv, kv', k, {})
      ensures Holds(entries - {k}, kv')
    {
      hide Items;
      HoldsAfter(entries, entries - {k}, kv, kv', k, {});
    }

    lemma HeldSet(entries: map<Bytes, set<D>>, kv: KV, k: Bytes)
      requires Holds(entries, kv)
      ensures k in entries ==> entries[k] == Items(kv, prefix + k, deserialize)
    {
      hide Items;
    }

    lemma PutChanges(kv: KV, k: Bytes, d: D)
      requires Valid() && |k| == keyLength && WellFormed(kv, prefix, keyLength, serialize, deserialize)
      ensures var kv' := kv[prefix + k + serialize(d) := []];
              && WellFormed(kv', prefix, keyLength, serialize, deserialize)
              && OnlyBucket(kv, kv', k, Items(kv, prefix + k, deserialize) + {d})
    {
      hide Items, WellFormed;
      PutItem(kv, prefix, keyLength, k, serialize, deserialize, d, []);
    }

    lemma DeleteChanges(kv: KV, k: Bytes, d: D)
      requires Valid() && |k| == keyLength && WellFormed(kv, prefix, keyLength, serialize, deserialize)
      ensures var kv' := kv - {prefix + k + serialize(d)};
              && WellFormed(kv', prefix, keyLength, serialize, deserialize)
              && OnlyBucket(kv, kv', k, Items(kv, prefix + k, deserialize) - {d})
    {
      hide Items, WellFormed;
      DeleteItem(kv, prefix, keyLength, k, serialize, deserialize, d);
    }

    lemma DropChanges(kv: KV, k: Bytes)
      requires |k| == keyLength && NextPrefix(prefix + k).Some?
      requires WellFormed(kv, prefix, keyLength, serialize, deserialize)
      ensures var kv' := Without(kv, prefix + k, NextPrefix(prefix + k).value);
              && WellFormed(kv', prefix, keyLength, serialize, deserialize)
              && OnlyBucket(kv, kv', k, {})
    {
      hide Items, WellFormed, NextPrefix, Without;
      DropBucket(kv, prefix, keyLength, k, serialize, deserialize);
    }

    /** `bucket_iterator`, collected: fails on the first item that does not decode. */
    method Collect(p: Bytes) returns (r: Result<set<D>, SetError>)
      ensures r == if Damaged(db.kv, p, deserialize) then Err(Corrupt) else Ok(Items(db.kv, p, deserialize))
      ensures r.Err? <==> exists key :: key in db.kv && p <= key && deserialize(key[|p|..]).None?
    {
      var next := NextPrefix(p);
      var todo := set key | key in db.kv && !Less(key, p) && (next.Some? ==> Less(key, next.value));
      assert forall key :: key in todo <==> key in db.kv && p <= key by {
        forall key { RangeIsPrefix(p, key); }
      }
      var items: set<D> := {};
      while todo != {}
        invariant forall key :: key in todo ==> key in db.kv && p <= key
        invariant forall key :: key in db.kv && p <= key && key !in todo ==> deserialize(key[|p|..]).Some?
        invariant items == set key | key in db.kv && p <= key && key !in todo && deserialize(key[|p|..]).Some? ::
                                     deserialize(key[|p|..]).value
        decreases |todo|
      {
        var key :| key in todo;
        todo := todo - {key};
        var item := deserialize(key[|p|..]);
        if item.None? {
          assert Damaged(db.kv, p, deserialize);
          return Err(Corrupt);
        }
        items := items + {item.value};
      }
      assert !Damaged(db.kv, p, deserialize);
      assert items == Items(db.kv, p, deserialize);
      r := Ok(items);
    }

    /** `read`: the cached set, or the bucket's items in the committed store, which are then
        cached. The cache stays coherent if the pending batch leaves that bucket as it is. */
    method Read(k: Bytes) returns (r: Result<set<D>, SetError>)
      requires Valid() && |k| == keyLength
      modifies cache
      ensures Valid()
      ensures r == if k in old(cache.entries) then Ok(old(cache.entries)[k])
                   else if Damaged(db.kv, prefix + k, deserialize) then Err(Corrupt)
                   else Ok(Items(db.kv, prefix + k, deserialize))
      ensures old(Coherent() && SafeToRead(k)) ==> Coherent()
      ensures old(Coherent()) && !cache.policy.tracked && cache.policy.maxSize > 0 ==>
                (Coherent() <==> old(SafeToRead(k)))
    {
      hide Items, WellFormed, Total;
      if k in cache.entries {
        return Ok(cache.entries[k]);
      }
      r := Collect(prefix + k);
      if r.Ok? {
        cache.Insert(k, r.value);
      }
    }

    /** Reading a bucket that is cached, or damaged, or not changed by the pending batch. */
    ghost predicate SafeToRead(k: Bytes)
      reads this, cache, db
    {
      || k in cache.entries
      || Damaged(db.kv, prefix + k, deserialize)
      || Items(db.kv, prefix + k, deserialize) == Bucket(k)
    }

    method Write(writer: Writer, k: Bytes, d: D)
      requires Valid() && |k| == keyLength
      modifies cache, db
      ensures Valid()
      ensures writer.Direct? ==> db.kv == old(db.kv)[prefix + k + serialize(d) := []] && db.batch == old(db.batch)
      ensures writer.Batch? ==> db.kv == old(db.kv)
      ensures writer.Batch? || db.batch == [] ==> db.View() == old(db.View())[prefix + k + serialize(d) := []]
      ensures old(Sound()) && (writer.Batch? || db.batch == []) ==>
                && Sound() && OnlyBucket(old(db.View()), db.View(), k, old(Bucket(k)) + {d})
                && (old(Coherent()) ==> Coherent())
    {
      hide Items, WellFormed, Total, Apply, OnlyBucket, Holds;
      ghost var before, view, coherent := cache.entries, db.View(), Coherent();
      if Sound() { PutChanges(view, k, d); }
      cache.UpdateIfEntryExists(k, s => s + {d});
      var key := NewWithBucket(prefix, k, serialize(d));
      db.Write(writer, Put(key.path, []));
      if coherent && (writer.Batch? || db.batch == []) {
        HeldSet(before, view, k);
        HoldsAfter(before, cache.entries, view, db.View(), k, Items(view, prefix + k, deserialize) + {d});
      }
    }

    method Delete(writer: Writer, k: Bytes, d: D)
      requires Valid() && |k| == keyLength
      modifies cache, db
      ensures Valid()
      ensures writer.Direct? ==> db.kv == old(db.kv) - {prefix + k + serialize(d)} && db.batch == old(db.batch)
      ensures writer.Batch? ==> db.kv == old(db.kv)
      ensures writer.Batch? || db.batch == [] ==> db.View() == old(db.View()) - {prefix + k + serialize(d)}
      ensures old(Sound()) && (writer.Batch? || db.batch == []) ==>
                && Sound() && OnlyBucket(old(db.View()), db.View(), k, old(Bucket(k)) - {d})
                && (old(Coherent()) ==> Coherent())
    {
      hide Items, WellFormed, Total, Apply, OnlyBucket, Holds;
      ghost var before, view, coherent := cache.entries, db.View(), Coherent();
      if Sound() { DeleteChanges(view, k, d); }
      cache.UpdateIfEntryExists(k, s => s - {d});
      var key := NewWithBucket(prefix, k, serialize(d));
      db.Write(writer, WriteOp.Delete(key.path));
      if coherent && (writer.Batch? || db.batch == []) {
        HeldSet(before, view, k);
        HoldsAfter(before, cache.entries, view, db.View(), k, Items(view, prefix + k, deserialize) - {d});
      }
    }

    /** `delete_bucket`. The upper bound of the range must exist, which the source unwraps. */
    method DeleteBucket(writer: Writer, k: Bytes)
      requires Valid() && |k| == keyLength && NextPrefix(prefix + k).Some?
      modifies cache, db
      ensures Valid()
      ensures writer.Direct? ==>
                db.kv == Without(old(db.kv), prefix + k, NextPrefix(prefix + k).value) && db.batch == old(db.batch)
      ensures writer.Batch? ==> db.kv == old(db.kv)
      ensures writer.Batch? || db.batch == [] ==>
                db.View() == Without(old(db.View()), prefix + k, NextPrefix(prefix + k).value)
      ensures old(Sound()) && (writer.Batch? || db.batch == []) ==>
                && Sound() && OnlyBucket(old(db.View()), db.View(), k, {})
                && (old(Coherent()) ==> Coherent())
    {
      hide Items, WellFormed, Total, NextPrefix, Apply, Without, OnlyBucket, Holds;
      ghost var before, view, coherent := cache.entries, db.View(), Coherent();
      if Sound() { DropChanges(view, k); }
      var removed := cache.Remove(k);
      var key := NewWithBucket(prefix, k, []);
      assert key.path == prefix + k;
      db.Write(writer, DeleteRange(key.path, NextPrefix(key.path).value));
      if coherent && (writer.Batch? || db.batch == []) {
        HoldsDropped(before, view, db.View(), k);
      }
    }

    ghost predicate Callable(op: SetOp<D>) {
      |op.bucket| == keyLength && (op.DeleteBucket? ==> NextPrefix(prefix + op.bucket).Some?)
    }

    /** The operation has changed every bucket as it changes a plain set. */
    ghost predicate Performed(kv: KV, kv': KV, op: SetOp<D>) {
      forall k :: |k| == keyLength ==>
        Items(kv', prefix + k, deserialize) == AfterOne(Items(kv, prefix + k, deserialize), op, k)
    }

    /** One operation; a read answers with the cached set, or from the committed store. */
    method Do(writer: Writer, op: SetOp<D>) returns (r: Reply<D>)
      requires Valid() && Callable(op)
      modifies cache, db
      ensures Valid()
      ensures writer.Batch? ==> db.kv == old(db.kv)
      ensures writer.Direct? ==> db.batch == old(db.batch) && NoMoreDamage(old(db.kv), db.kv)
      ensures old(Sound()) && (writer.Batch? || db.batch == []) ==>
                && Sound() && Performed(old(db.View()), db.View(), op)
                && (old(Coherent() && (op.Read? ==> SafeToRead(op.bucket))) ==> Coherent())
      ensures old(Coherent()) ==>
                var answer := Answer(old(db.kv), old(cache.entries.Keys), old(Bucket(op.bucket)), op.bucket);
                r == if op.Read? then Some(answer) else None
    {
      hide Items, WellFormed, Total, NextPrefix, Without, Apply, Damaged;
      r := None;
      match op {
        case Read(k) =>
          var items := Read(k);
          r := Some(items);
        case Write(k, d) =>
          DamagePut(db.kv, k, d);
          Write(writer, k, d);
        case Delete(k, d) =>
          DamageLess(db.kv, db.kv - {prefix + k + serialize(d)});
          Delete(writer, k, d);
        case DeleteBucket(k) =>
          DamageWithout(db.kv, prefix + k, NextPrefix(prefix + k).value);
          DeleteBucket(writer, k);
      }
    }

    /** What a read of bucket k answers: items are those of the bucket after the pending batch. */
    ghost function Answer(kv: KV, cached: set<Bytes>, items: set<D>, k: Bytes): Result<set<D>, SetError> {
      if k in cached then Ok(items)
      else if Damaged(kv, prefix + k, deserialize) then Err(Corrupt)
      else Ok(Items(kv, prefix + k, deserialize))
    }

    ghost predicate NoMoreDamage(kv: KV, kv': KV) {
      forall k :: |k| == keyLength && Damaged(kv', prefix + k, deserialize) ==> Damaged(kv, prefix + k, deserialize)
    }

    lemma DamagePut(kv: KV, k: Bytes, d: D)
      requires |k| == keyLength && deserialize(serialize(d)) == Some(d)
      ensures NoMoreDamage(kv, kv[prefix + k + serialize(d) := []])
    {
      var added := prefix + k + serialize(d);
      forall k' | |k'| == keyLength && prefix + k' <= added ensures deserialize(added[|prefix + k'|..]).Some? {
        assert added[|prefix + k'|..] == serialize(d);
      }
    }

    lemma DamageLess(kv: KV, kv': KV)
      requires kv'.Keys <= kv.Keys
      ensures NoMoreDamage(kv, kv')
    {
      forall key | key in kv' ensures key in kv { assert key in kv'.Keys; }
    }

    lemma DamageWithout(kv: KV, from: Bytes, to: Bytes)
      ensures NoMoreDamage(kv, Without(kv, from, to))
    {
      DamageLess(kv, Without(kv, from, to));
    }

    /** Every bucket is the plain set that the operations make of it. */
    ghost predicate PlainSets(start: KV, kv: KV, ops: seq<SetOp<D>>) {
      forall k :: |k| == keyLength ==>
        Items(kv, prefix + k, deserialize) == After(Items(start, prefix + k, deserialize), ops, k)
    }

    lemma PlainSetsNext(start: KV, kv: KV, kv': KV, ops: seq<SetOp<D>>, n: nat)
      requires n < |ops| && PlainSets(start, kv, ops[..n]) && Performed(kv, kv', ops[n])
      ensures PlainSets(start, kv', ops[..n + 1])
    {
      hide Items, AfterOne;
      assert ops[..n + 1][..n] == ops[..n];
    }

    /** What a read in place i of a run answers with the store alone. */
    ghost function PlainAnswer(start: KV, ops: seq<SetOp<D>>, i: nat): set<D>
      requires i < |ops|
    {
      After(Items(start, prefix + ops[i].bucket, deserialize), ops[..i], ops[i].bucket)
    }

    ghost predicate Answered(start: KV, ops: seq<SetOp<D>>, answers: seq<Reply<D>>)
      requires |answers| <= |ops|
    {
      forall i :: 0 <= i < |answers| && ops[i].Read? ==>
        || answers[i] == Some(Ok(PlainAnswer(start, ops, i)))
        || (answers[i] == Some(Err(Corrupt)) && Damaged(start, prefix + ops[i].bucket, deserialize))
    }

    /** Any run with direct writers, under any evictions: each bucket is a plain set of its
        own, and every read answers with what that set is at that point of the run, or
        fails on an undecodable key that was in the bucket from the start. */
    method RunDirect(ops: seq<SetOp<D>>) returns (answers: seq<Reply<D>>)
      requires Valid() && Coherent() && db.batch == [] && forall i :: 0 <= i < |ops| ==> Callable(ops[i])
      modifies cache, db
      ensures Valid() && Coherent() && db.batch == [] && PlainSets(old(db.kv), db.kv, ops)
      ensures |answers| == |ops| && Answered(old(db.kv), ops, answers)
    {
      hide Items, WellFormed, Total, NextPrefix, AfterOne, After, Holds, Damaged, Apply, PlainSets, PlainAnswer,
           NoMoreDamage, Answer, Answered, Performed, SafeToRead;
      answers := [];
      ghost var start := db.kv;
      NothingStaged([]);
      NothingDone(start, ops);
      for n := 0 to |ops|
        invariant Valid() && Coherent() && |answers| == n && db.batch == []
        invariant NoMoreDamage(start, db.kv) && PlainSets(start, db.kv, ops[..n])
        invariant Answered(start, ops, answers)
      {
        NothingStaged(ops[n].bucket);
        ghost var kv, keys := db.kv, cache.entries.Keys;
        var r := Do(Direct, ops[n]);
        AnsweredNext(start, kv, ops, answers, keys, r);
        NothingStaged([]);
        PlainSetsNext(start, kv, db.kv, ops, n);
        DamageChain(start, kv, db.kv);
        answers := answers + [r];
      }
      assert ops[..|ops|] == ops;
    }

    lemma NothingDone(start: KV, ops: seq<SetOp<D>>)
      ensures PlainSets(start, start, ops[..0]) && NoMoreDamage(start, start) && Answered(start, ops, [])
    {
    }

    lemma DamageChain(a: KV, b: KV, c: KV)
      requires NoMoreDamage(a, b) && NoMoreDamage(b, c)
      ensures NoMoreDamage(a, c)
    {
    }

    lemma AnsweredNext(start: KV, kv: KV, ops: seq<SetOp<D>>,
                       answers: seq<Reply<D>>, cached: set<Bytes>, r: Reply<D>)
      requires |answers| < |ops| && Callable(ops[|answers|]) && Answered(start, ops, answers)
      requires PlainSets(start, kv, ops[..|answers|]) && NoMoreDamage(start, kv)
      requires var op := ops[|answers|];
               op.Read? ==> r == Some(Answer(kv, cached, Items(kv, prefix + op.bucket, deserialize), op.bucket))
      ensures Answered(start, ops, answers + [r])
    {
      hide Items, Damaged, After;
    }

    lemma NothingStaged(k: Bytes)
      requires db.batch == []
      ensures db.View() == db.kv && SafeToRead(k)
    {
    }

    /** Any run with the batch writer, before the commit. cached[i] holds the buckets that are
        cached when operation i begins. */
    method RunStaged(ops: seq<SetOp<D>>)
      returns (answers: seq<Reply<D>>, ghost cached: seq<set<Bytes>>)
      requires Valid() && Coherent() && forall i :: 0 <= i < |ops| ==> Callable(ops[i])
      modifies cache, db
      ensures Valid() && Sound() && db.kv == old(db.kv) && PlainSets(old(db.View()), db.View(), ops)
      ensures |answers| == |cached| == |ops|
      ensures SafeRun(old(db.kv), old(db.View()), ops, cached, |ops|) ==> Coherent()
      ensures AnsweredStaged(old(db.kv), old(db.View()), ops, cached, answers)
    {
      hide Items, WellFormed, Total, NextPrefix, AfterOne, After, Holds, Damaged, Apply, PlainSets, PlainAnswer,
           SafeRun, Answer, AnsweredStaged, Performed, HarmlessRead, SafeToRead;
      ghost var kv, start := db.kv, db.View();
      answers, cached := [], [];
      NothingDone(start, ops);
      NothingAnswered(kv, start, ops);
      for n := 0 to |ops|
        invariant Valid() && Sound() && |answers| == |cached| == n && db.kv == kv
        invariant PlainSets(start, db.View(), ops[..n])
        invariant SafeRun(kv, start, ops, cached, n) ==> Coherent()
        invariant AnsweredStaged(kv, start, ops, cached, answers)
      {
        ghost var keys, view := cache.entries.Keys, db.View();
        SafeRunNext(kv, start, ops, cached, keys);
        HarmlessIsSafe(start, ops, n);
        BucketIsPlain(start, view, ops, n);
        var r := Do(Batch, ops[n]);
        AnsweredStagedNext(kv, start, ops, cached, answers, keys, r);
        PlainSetsNext(start, view, db.View(), ops, n);
        answers := answers + [r];
        cached := cached + [keys];
      }
      assert ops[..|ops|] == ops;
    }

    /** Any run with the batch writer, then the commit. As long as every read is of a bucket
        cached at that point, or damaged, or not changed by the staged writes, reads of
        cached buckets answer with the staged writes and others from the committed store.
        If this is so to the end, every cached set is its bucket after the commit. */
    method RunBatch(ops: seq<SetOp<D>>)
      returns (answers: seq<Reply<D>>, ghost cached: seq<set<Bytes>>)
      requires Valid() && Coherent() && forall i :: 0 <= i < |ops| ==> Callable(ops[i])
      modifies cache, db
      ensures Valid() && db.batch == [] && PlainSets(old(db.View()), db.kv, ops)
      ensures |answers| == |cached| == |ops|
      ensures SafeRun(old(db.kv), old(db.View()), ops, cached, |ops|) ==> Coherent()
      ensures AnsweredStaged(old(db.kv), old(db.View()), ops, cached, answers)
    {
      hide Items, WellFormed, Total, NextPrefix, After, Holds, Damaged, Apply, PlainSets, SafeRun, AnsweredStaged;
      answers, cached := RunStaged(ops);
      db.Commit();
    }

    lemma HarmlessIsSafe(start: KV, ops: seq<SetOp<D>>, n: nat)
      requires n < |ops| && Callable(ops[n]) && PlainSets(start, db.View(), ops[..n])
      ensures HarmlessRead(db.kv, start, ops, cache.entries.Keys, n) <==> SafeToRead(ops[n].bucket)
    {
      hide Items, Damaged, Apply, After;
      BucketIsPlain(start, db.View(), ops, n);
    }

    /** Each read up to the first unsafe one answers from the staged writes for a cached
        bucket, and from the committed store otherwise. */
    ghost predicate AnsweredStaged(kv: KV, start: KV, ops: seq<SetOp<D>>,
                                   cached: seq<set<Bytes>>, answers: seq<Reply<D>>)
      requires |answers| == |cached| <= |ops|
    {
      forall i :: 0 <= i < |answers| && ops[i].Read? && SafeRun(kv, start, ops, cached, i) ==>
        answers[i] == Some(Answer(kv, cached[i], PlainAnswer(start, ops, i), ops[i].bucket))
    }

    lemma NothingAnswered(kv: KV, start: KV, ops: seq<SetOp<D>>)
      ensures AnsweredStaged(kv, start, ops, [], [])
    {
    }

    lemma AnsweredStagedNext(kv: KV, start: KV, ops: seq<SetOp<D>>, cached: seq<set<Bytes>>,
                             answers: seq<Reply<D>>, keys: set<Bytes>,
                             r: Reply<D>)
      requires |answers| == |cached| < |ops| && AnsweredStaged(kv, start, ops, cached, answers)
      requires var n := |cached|;
               ops[n].Read? && SafeRun(kv, start, ops, cached, n) ==>
                 r == Some(Answer(kv, keys, PlainAnswer(start, ops, n), ops[n].bucket))
      ensures AnsweredStaged(kv, start, ops, cached + [keys], answers + [r])
    {
      hide SafeRun, Answer, PlainAnswer;
      SafeRunNext(kv, start, ops, cached, keys);
    }

    lemma BucketIsPlain(start: KV, kv: KV, ops: seq<SetOp<D>>, n: nat)
      requires n < |ops| && Callable(ops[n]) && PlainSets(start, kv, ops[..n])
      ensures Items(kv, prefix + ops[n].bucket, deserialize) == PlainAnswer(start, ops, n)
    {
      hide Items, After;
    }

    /** The first n reads leave no stale set. */
    ghost predicate SafeRun(kv: KV, start: KV, ops: seq<SetOp<D>>, cached: seq<set<Bytes>>, n: nat)
      requires n <= |ops| && n <= |cached|
    {
      forall i :: 0 <= i < n && ops[i].Read? ==> HarmlessRead(kv, start, ops, cached[i], i)
    }

    lemma SafeRunNext(kv: KV, start: KV, ops: seq<SetOp<D>>, cached: seq<set<Bytes>>, keys: set<Bytes>)
      requires |cached| < |ops|
      ensures forall n :: 0 <= n <= |cached| ==>
                SafeRun(kv, start, ops, cached + [keys], n) == SafeRun(kv, start, ops, cached, n)
      ensures SafeRun(kv, start, ops, cached + [keys], |cached| + 1) <==>
                SafeRun(kv, start, ops, cached, |cached|) &&
                (ops[|cached|].Read? ==> HarmlessRead(kv, start, ops, keys, |cached|))
    {
      hide HarmlessRead;
      var more := cached + [keys];
      assert forall i :: 0 <= i < |cached| ==> more[i] == cached[i];
      assert more[|cached|] == keys;
    }

    ghost predicate HarmlessRead(kv: KV, start: KV, ops: seq<SetOp<D>>, cached: set<Bytes>, i: nat)
      requires i < |ops|
    {
      || ops[i].bucket in cached
      || Damaged(kv, prefix + ops[i].bucket, deserialize)
      || Items(kv, prefix + ops[i].bucket, deserialize) == PlainAnswer(start, ops, i)
    }
  }

  datatype SetOp<D> =
    | Read(bucket: Bytes)
    | Write(bucket: Bytes, item: D)
    | Delete(bucket: Bytes, item: D)
    | DeleteBucket(bucket: Bytes)

  /** What an operation does to the set that bucket k is. */
  ghost function AfterOne<D>(items: set<D>, op: SetOp<D>, k: Bytes): set<D> {
    if op.bucket != k then items
    else
      match op
      case Read(_) => items
      case Write(_, d) => items + {d}
      case Delete(_, d) => items - {d}
      case DeleteBucket(_) => {}
  }

  ghost function After<D>(items: set<D>, ops: seq<SetOp<D>>, k: Bytes): set<D> {
    if ops == [] then items else AfterOne(After(items, ops[..|ops| - 1], k), ops[|ops| - 1], k)
  }
}
