/** Cached access to the entries of a store under one key prefix. */
module CachedAccess {
  import opened Options
  import opened ByteKeys
  import opened Store
  import opened Caching

  datatype StoreError = KeyNotFound(key: Bytes) | Corrupt

  /** What reading a key from the store itself gives. */
  ghost function Lookup<V>(kv: KV, prefix: Bytes, de: Bytes -> Option<V>, key: Bytes): Result<V, StoreError> {
    if prefix + key !in kv then Err(KeyNotFound(prefix + key))
    else match de(kv[prefix + key])
         case Some(v) => Ok(v)
         case None => Err(Corrupt)
  }

  /** Every cached value is the one in the store. */
  ghost predicate Agrees<V>(entries: map<Bytes, V>, view: KV, prefix: Bytes, de: Bytes -> Option<V>) {
    forall k :: k in entries ==> Lookup(view, prefix, de, k) == Ok(entries[k])
  }

  lemma PrefixInjective(prefix: Bytes, k: Bytes, k': Bytes)
    ensures prefix + k == prefix + k' <==> k == k'
  {
    assert (prefix + k)[|prefix|..] == k && (prefix + k')[|prefix|..] == k';
  }

  lemma AgreesWithin<V>(m: map<Bytes, V>, n: map<Bytes, V>, view: KV, prefix: Bytes, de: Bytes -> Option<V>)
    requires Within(m, n) && Agrees(n, view, prefix, de)
    ensures Agrees(m, view, prefix, de)
  {
  }

  lemma AgreesPut<V>(m: map<Bytes, V>, view: KV, prefix: Bytes, de: Bytes -> Option<V>, k: Bytes, v: V, b: Bytes)
    requires Agrees(m, view, prefix, de) && de(b) == Some(v)
    ensures Agrees(m[k := v], view[prefix + k := b], prefix, de)
  {
    forall k' { PrefixInjective(prefix, k, k'); }
  }

  lemma AgreesDelete<V>(m: map<Bytes, V>, view: KV, prefix: Bytes, de: Bytes -> Option<V>, k: Bytes)
    requires Agrees(m, view, prefix, de) && k !in m
    ensures Agrees(m, view - {prefix + k}, prefix, de)
  {
    forall k' { PrefixInjective(prefix, k, k'); }
  }

  /** The store after a list of puts. */
  ghost function PutAll<V>(view: KV, prefix: Bytes, ser: V -> Bytes, items: seq<(Bytes, V)>): KV {
    if items == [] then view
    else PutAll(view, prefix, ser, items[..|items| - 1])[prefix + items[|items| - 1].0 := ser(items[|items| - 1].1)]
  }

  lemma {:induction false} AgreesPutAll<V>(m: map<Bytes, V>, view: KV, prefix: Bytes, ser: V -> Bytes,
                                           de: Bytes -> Option<V>,
                                           items: seq<(Bytes, V)>)
    requires Agrees(m, view, prefix, de)
    requires forall i :: 0 <= i < |items| ==> de(ser(items[i].1)) == Some(items[i].1)
    ensures Agrees(Updated(m, items), PutAll(view, prefix, ser, items), prefix, de)
  {
    if items != [] {
      var n := |items| - 1;
      AgreesPutAll(m, view, prefix, ser, de, items[..n]);
      AgreesPut(Updated(m, items[..n]), PutAll(view, prefix, ser, items[..n]), prefix, de,
                items[n].0, items[n].1, ser(items[n].1));
    }
  }

  /** The store after a list of deletions. */
  ghost function DeleteKeys(view: KV, prefix: Bytes, keys: seq<Bytes>): KV {
    if keys == [] then view else DeleteKeys(view, prefix, keys[..|keys| - 1]) - {prefix + keys[|keys| - 1]}
  }

  lemma {:induction false} AgreesDeleteKeys<V>(m: map<Bytes, V>, view: KV, prefix: Bytes, de: Bytes -> Option<V>,
                                               keys: seq<Bytes>)
    requires Agrees(m, view, prefix, de) && forall k :: k in keys ==> k !in m
    ensures Agrees(m, DeleteKeys(view, prefix, keys), prefix, de)
  {
    if keys != [] {
      var n := |keys| - 1;
      AgreesDeleteKeys(m, view, prefix, de, keys[..n]);
      AgreesDelete(m, DeleteKeys(view, prefix, keys[..n]), prefix, de, keys[n]);
    }
  }

  /** The store without the keys under a prefix. */
  ghost function DropPrefix(view: KV, prefix: Bytes): KV {
    map k | k in view && !(prefix <= k) :: view[k]
  }

  lemma RangeDropsPrefix(view: KV, prefix: Bytes)
    requires NextPrefix(prefix).Some?
    ensures Without(view, prefix, NextPrefix(prefix).value) == DropPrefix(view, prefix)
  {
    forall k { RangeIsPrefix(prefix, k); }
  }

  class CachedDbAccess<V(!new)> {
    const db: Database
    const cache: Cache<Bytes, V>
    const prefix: Bytes
    const serialize: V -> Bytes
    const deserialize: Bytes -> Option<V>

    /** The cache keeps its own invariant, and values survive serialization. */
    ghost predicate Valid()
      reads this, cache
    {
      cache.Valid() && forall v :: deserialize(serialize(v)) == Some(v)
    }

    /** The cache agrees with the store as it will be after the pending batch. */
    ghost predicate Coherent()
      reads this, cache, db
    {
      Agrees(cache.entries, db.View(), prefix, deserialize)
    }

    constructor (db: Database, policy: Policy, size: V -> nat, prefix: Bytes, ser: V -> Bytes, de: Bytes -> Option<V>)
      requires forall v :: de(ser(v)) == Some(v)
      ensures Valid() && Coherent() && fresh(cache) && cache.entries == map[] && cache.policy == policy
      ensures this.db == db && this.prefix == prefix && serialize == ser && deserialize == de
    {
      this.db := db;
      this.prefix := prefix;
      this.serialize := ser;
      this.deserialize := de;
      cache := new Cache<Bytes, V>(policy, size);
    }

    method Has(key: Bytes) returns (r: bool)
      requires Valid()
      ensures r <==> key in cache.entries || prefix + key in db.kv
      ensures Coherent() && db.batch == [] ==> (r <==> prefix + key in db.kv)
    {
      r := key in cache.entries || prefix + key in db.kv;
      assert Coherent() && key in cache.entries ==>
             Lookup(db.View(), prefix, deserialize, key) == Ok(cache.entries[key]);
    }

    /** Reading a key that is cached, or that the pending batch does not change, or
        that is not readable in the committed store, cannot leave a stale entry. */
    ghost predicate SafeToRead(key: Bytes)
      reads this, cache, db
    {
      Harmless(cache.entries.Keys, db.kv, db.View(), key)
    }

    ghost predicate Harmless(cached: set<Bytes>, kv: KV, view: KV, key: Bytes) {
      || key in cached
      || Lookup(kv, prefix, deserialize, key).Err?
      || Lookup(kv, prefix, deserialize, key) == Lookup(view, prefix, deserialize, key)
    }

    /** The pending batch leaves the key as it is. */
    ghost predicate Settled(key: Bytes)
      reads this, db
    {
      Lookup(db.kv, prefix, deserialize, key) == Lookup(db.View(), prefix, deserialize, key)
    }

    method Read(key: Bytes) returns (r: Result<V, StoreError>)
      requires Valid()
      modifies cache
      ensures Valid()
      ensures r == if old(key in cache.entries) then Ok(old(cache.entries)[key])
                   else Lookup(db.kv, prefix, deserialize, key)
      ensures old(Coherent() && SafeToRead(key)) ==> Coherent()
      ensures old(Coherent()) && !cache.policy.tracked && cache.policy.maxSize > 0 ==>
                (Coherent() <==> old(SafeToRead(key)))
      ensures !cache.policy.tracked && cache.policy.maxSize > 0 && r.Ok? ==>
                key in cache.entries && cache.entries[key] == r.value
      ensures old(Coherent()) && db.batch == [] ==> Coherent() && r == Lookup(db.kv, prefix, deserialize, key)
      ensures old(Coherent() && Settled(key)) ==> r == Lookup(db.View(), prefix, deserialize, key)
    {
      hide Total, Apply;
      BatchEmpty();
      if key in cache.entries {
        assert Coherent() ==> Lookup(db.View(), prefix, deserialize, key) == Ok(cache.entries[key]);
        return Ok(cache.entries[key]);
      }
      if prefix + key !in db.kv {
        return Err(KeyNotFound(prefix + key));
      }
      var data := deserialize(db.kv[prefix + key]);
      if data.None? {
        return Err(Corrupt);
      }
      r := Ok(data.value);
      ghost var before, coherent := cache.entries, Coherent();
      cache.Insert(key, data.value);
      if coherent && Lookup(db.kv, prefix, deserialize, key) == Lookup(db.View(), prefix, deserialize, key) {
        assert Agrees(before[key := data.value], db.View(), prefix, deserialize);
        AgreesWithin(cache.entries, before[key := data.value], db.View(), prefix, deserialize);
      } else if key in cache.entries {
        assert cache.entries[key] == data.value;
      }
    }

    lemma BatchEmpty()
      ensures db.batch == [] ==> db.View() == db.kv
    {
    }

    method Write(writer: Writer, key: Bytes, data: V)
      requires Valid()
      modifies cache, db
      ensures Valid() && (old(Coherent()) && (writer.Batch? || db.batch == []) ==> Coherent())
      ensures writer.Direct? ==> db.kv == old(db.kv)[prefix + key := serialize(data)] && db.batch == old(db.batch)
      ensures writer.Batch? ==> db.kv == old(db.kv)
      ensures writer.Batch? || db.batch == [] ==> db.View() == old(db.View())[prefix + key := serialize(data)]
      ensures !cache.policy.tracked && cache.policy.maxSize > 0 ==> key in cache.entries && cache.entries[key] == data
    {
      hide Total, Apply, Agrees;
      ghost var before, coherent := cache.entries, Coherent();
      if coherent { AgreesPut(before, db.View(), prefix, deserialize, key, data, serialize(data)); }
      cache.Insert(key, data);
      db.Write(writer, Put(prefix + key, serialize(data)));
      if coherent && (writer.Batch? || db.batch == []) {
        AgreesWithin(cache.entries, before[key := data], db.View(), prefix, deserialize);
      }
    }

    /** The loop of puts that `write_many` and `write_many_without_cache` share. */
    method PutMany(writer: Writer, items: seq<(Bytes, V)>)
      modifies db
      ensures writer.Direct? ==> db.kv == PutAll(old(db.kv), prefix, serialize, items) && db.batch == old(db.batch)
      ensures writer.Batch? ==> db.kv == old(db.kv)
      ensures writer.Batch? || db.batch == [] ==> db.View() == PutAll(old(db.View()), prefix, serialize, items)
    {
      hide Apply;
      for i := 0 to |items|
        invariant writer.Direct? ==>
                    db.kv == PutAll(old(db.kv), prefix, serialize, items[..i]) && db.batch == old(db.batch)
        invariant writer.Batch? ==> db.kv == old(db.kv)
        invariant writer.Batch? || db.batch == [] ==> db.View() == PutAll(old(db.View()), prefix, serialize, items[..i])
      {
        db.Write(writer, Put(prefix + items[i].0, serialize(items[i].1)));
        assert items[..i + 1][..i] == items[..i];
      }
      assert items[..|items|] == items;
    }

    method WriteMany(writer: Writer, items: seq<(Bytes, V)>)
      requires Valid()
      modifies cache, db
      ensures Valid() && (old(Coherent()) && (writer.Batch? || db.batch == []) ==> Coherent())
      ensures writer.Direct? ==> db.kv == PutAll(old(db.kv), prefix, serialize, items) && db.batch == old(db.batch)
      ensures writer.Batch? ==> db.kv == old(db.kv)
      ensures writer.Batch? || db.batch == [] ==> db.View() == PutAll(old(db.View()), prefix, serialize, items)
    {
      hide Total, Apply, Agrees, PutAll;
      ghost var before, coherent := cache.entries, Coherent();
      if coherent { AgreesPutAll(before, db.View(), prefix, serialize, deserialize, items); }
      cache.InsertMany(items);
      PutMany(writer, items);
      if coherent && (writer.Batch? || db.batch == []) {
        AgreesWithin(cache.entries, Updated(before, items), db.View(), prefix, deserialize);
      }
    }

    method WriteManyWithoutCache(writer: Writer, items: seq<(Bytes, V)>)
      requires Valid()
      modifies cache, db
      ensures Valid() && Coherent() && cache.entries == map[]
      ensures writer.Direct? ==> db.kv == PutAll(old(db.kv), prefix, serialize, items) && db.batch == old(db.batch)
      ensures writer.Batch? ==> db.kv == old(db.kv)
      ensures writer.Batch? || db.batch == [] ==> db.View() == PutAll(old(db.View()), prefix, serialize, items)
    {
      hide Total, Apply, PutAll;
      PutMany(writer, items);
      cache.RemoveAll();
    }

    method Delete(writer: Writer, key: Bytes)
      requires Valid()
      modifies cache, db
      ensures Valid() && (old(Coherent()) && (writer.Batch? || db.batch == []) ==> Coherent())
      ensures writer.Direct? ==> db.kv == old(db.kv) - {prefix + key} && db.batch == old(db.batch)
      ensures writer.Batch? ==> db.kv == old(db.kv)
      ensures writer.Batch? || db.batch == [] ==> db.View() == old(db.View()) - {prefix + key}
    {
      hide Total, Apply, Agrees;
      ghost var before, view, coherent := cache.entries, db.View(), Coherent();
      var removed := cache.Remove(key);
      if coherent {
        AgreesWithin(before - {key}, before, view, prefix, deserialize);
        AgreesDelete(before - {key}, view, prefix, deserialize, key);
      }
      db.Write(writer, WriteOp.Delete(prefix + key));
    }

    /** The loop of deletions of `delete_many`. */
    method DropMany(writer: Writer, keys: seq<Bytes>)
      modifies db
      ensures writer.Direct? ==> db.kv == DeleteKeys(old(db.kv), prefix, keys) && db.batch == old(db.batch)
      ensures writer.Batch? ==> db.kv == old(db.kv)
      ensures writer.Batch? || db.batch == [] ==> db.View() == DeleteKeys(old(db.View()), prefix, keys)
    {
      hide Apply;
      for i := 0 to |keys|
        invariant writer.Direct? ==> db.kv == DeleteKeys(old(db.kv), prefix, keys[..i]) && db.batch == old(db.batch)
        invariant writer.Batch? ==> db.kv == old(db.kv)
        invariant writer.Batch? || db.batch == [] ==> db.View() == DeleteKeys(old(db.View()), prefix, keys[..i])
      {
        db.Write(writer, WriteOp.Delete(prefix + keys[i]));
        assert keys[..i + 1][..i] == keys[..i];
      }
      assert keys[..|keys|] == keys;
    }

    method DeleteMany(writer: Writer, keys: seq<Bytes>)
      requires Valid()
      modifies cache, db
      ensures Valid() && (old(Coherent()) && (writer.Batch? || db.batch == []) ==> Coherent())
      ensures writer.Direct? ==> db.kv == DeleteKeys(old(db.kv), prefix, keys) && db.batch == old(db.batch)
      ensures writer.Batch? ==> db.kv == old(db.kv)
      ensures writer.Batch? || db.batch == [] ==> db.View() == DeleteKeys(old(db.View()), prefix, keys)
    {
      hide Total, Apply, Agrees, DeleteKeys;
      ghost var before, coherent := cache.entries, Coherent();
      cache.RemoveMany(keys);
      if coherent {
        AgreesWithin(cache.entries, before, db.View(), prefix, deserialize);
        AgreesDeleteKeys(cache.entries, db.View(), prefix, deserialize, keys);
      }
      DropMany(writer, keys);
    }

    /** `delete_all`. The upper bound of the range must exist, which the source unwraps. */
    method DeleteAll(writer: Writer)
      requires Valid()
      requires NextPrefix(prefix).Some?
      modifies cache, db
      ensures Valid() && Coherent() && cache.entries == map[]
      ensures writer.Direct? ==> db.kv == DropPrefix(old(db.kv), prefix) && db.batch == old(db.batch)
      ensures writer.Batch? ==> db.kv == old(db.kv)
      ensures writer.Batch? || db.batch == [] ==> db.View() == DropPrefix(old(db.View()), prefix)
    {
      hide Total, Apply, DropPrefix, Without, NextPrefix;
      cache.RemoveAll();
      RangeDropsPrefix(db.View(), prefix);
      RangeDropsPrefix(db.kv, prefix);
      db.Write(writer, DeleteRange(prefix, NextPrefix(prefix).value));
    }

    /** One operation through the cache. A question about a cached key is answered from the
        store with the pending batch, any other from the committed store. */
    method Do(op: Op<V>, writer: Writer) returns (o: Outcome<V>)
      requires Valid() && NextPrefix(prefix).Some?
      modifies cache, db
      ensures Valid()
      ensures writer.Direct? ==> db.kv == PlainStore(old(db.kv), prefix, serialize, op) && db.batch == old(db.batch)
      ensures writer.Batch? ==> db.kv == old(db.kv)
      ensures writer.Batch? || db.batch == [] ==>
                && db.View() == PlainStore(old(db.View()), prefix, serialize, op)
                && (old(Coherent() && Safe(op)) ==> Coherent())
      ensures op.Write? && !cache.policy.tracked && cache.policy.maxSize > 0 ==> op.key in cache.entries
      ensures old(Coherent()) ==>
                var kv := if Hits(old(cache.entries.Keys), op) then old(db.View()) else old(db.kv);
                o == PlainOutcome(kv, prefix, deserialize, op)
    {
      hide Apply, Agrees, PutAll, DeleteKeys, DropPrefix, Total, NextPrefix;
      BatchEmpty();
      o := Done;
      match op {
        case Has(key) =>
          CachedIsStored(key);
          var r := Has(key);
          o := Flag(r);
        case Read(key) =>
          CachedIsStored(key);
          var r := Read(key);
          o := Value(r);
        case Write(key, data) => Write(writer, key, data);
        case WriteMany(items) => WriteMany(writer, items);
        case WriteManyWithoutCache(items) => WriteManyWithoutCache(writer, items);
        case Delete(key) => Delete(writer, key);
        case DeleteMany(keys) => DeleteMany(writer, keys);
        case DeleteAll => DeleteAll(writer);
      }
    }

    lemma CachedIsStored(key: Bytes)
      ensures Coherent() && key in cache.entries ==>
                Lookup(db.View(), prefix, deserialize, key) == Ok(cache.entries[key])
    {
    }

    /** An operation that cannot leave a stale entry. */
    ghost predicate Safe(op: Op<V>)
      reads this, cache, db
    {
      op.Read? ==> SafeToRead(op.key)
    }

    /** Any run with direct writers, under any evictions, gives the results that the
        store alone would give, and leaves the store that it would leave. */
    method RunDirect(ops: seq<Op<V>>) returns (outcomes: seq<Outcome<V>>)
      requires Valid() && Coherent() && db.batch == [] && NextPrefix(prefix).Some?
      modifies cache, db
      ensures Valid() && Coherent() && db.batch == []
      ensures db.kv == PlainRun(old(db.kv), prefix, serialize, ops)
      ensures |outcomes| == |ops| && PlainAnswers(old(db.kv), ops, outcomes)
    {
      hide Apply, Agrees, PlainStore, PlainOutcome, PlainRun, PlainAnswers, Total, NextPrefix, Lookup, Harmless;
      outcomes := [];
      ghost var start := db.kv;
      NothingRun(start, start, ops, {});
      for k := 0 to |ops|
        invariant Valid() && Coherent() && db.batch == [] && |outcomes| == k
        invariant db.kv == PlainRun(start, prefix, serialize, ops[..k])
        invariant PlainAnswers(start, ops, outcomes)
      {
        BatchEmpty();
        if ops[k].Read? { SafeUnstaged(ops[k].key); }
        PlainRunNext(start, ops, k);
        var o := Do(ops[k], Direct);
        PlainAnswersNext(start, ops, outcomes, o);
        outcomes := outcomes + [o];
      }
      assert ops[..|ops|] == ops;
    }

    /** Each answer is the one that the store alone would give at that point of the run. */
    ghost predicate PlainAnswers(start: KV, ops: seq<Op<V>>, outcomes: seq<Outcome<V>>)
      requires |outcomes| <= |ops|
    {
      forall i :: 0 <= i < |outcomes| ==>
        outcomes[i] == PlainOutcome(PlainRun(start, prefix, serialize, ops[..i]), prefix, deserialize, ops[i])
    }

    lemma PlainAnswersNext(start: KV, ops: seq<Op<V>>, outcomes: seq<Outcome<V>>, o: Outcome<V>)
      requires |outcomes| < |ops| && PlainAnswers(start, ops, outcomes)
      requires var kv := PlainRun(start, prefix, serialize, ops[..|outcomes|]);
               o == PlainOutcome(kv, prefix, deserialize, ops[|outcomes|])
      ensures PlainAnswers(start, ops, outcomes + [o])
    {
      hide PlainRun, PlainOutcome;
    }

    lemma SafeUnstaged(key: Bytes)
      requires db.batch == []
      ensures SafeToRead(key)
    {
    }

    /** Any run with the batch writer, before the commit. cached[i] holds the keys that are
        cached when operation i begins. */
    method RunStaged(ops: seq<Op<V>>) returns (outcomes: seq<Outcome<V>>, ghost cached: seq<set<Bytes>>)
      requires Valid() && Coherent() && NextPrefix(prefix).Some?
      modifies cache, db
      ensures Valid() && db.kv == old(db.kv) && db.View() == PlainRun(old(db.View()), prefix, serialize, ops)
      ensures |outcomes| == |cached| == |ops|
      ensures Answered(old(db.kv), old(db.View()), ops, cached, outcomes)
      ensures SafeRun(old(db.kv), old(db.View()), ops, cached, |ops|) ==> Coherent()
      ensures HoldsWritten(ops, cached + [cache.entries.Keys])
      ensures (cached + [cache.entries.Keys])[0] == old(cache.entries.Keys)
    {
      hide Apply, Agrees, PlainStore, PlainOutcome, PlainRun, Total, NextPrefix, Lookup, Harmless, Hits, SafeRun,
           Answered, HoldsWritten;
      ghost var kv, start := db.kv, db.View();
      outcomes, cached := [], [];
      NothingRun(kv, start, ops, cache.entries.Keys);
      for k := 0 to |ops|
        invariant Valid() && |outcomes| == |cached| == k && db.kv == kv
        invariant db.View() == PlainRun(start, prefix, serialize, ops[..k])
        invariant SafeRun(kv, start, ops, cached, k) ==> Coherent()
        invariant Answered(kv, start, ops, cached, outcomes)
        invariant HoldsWritten(ops, cached + [cache.entries.Keys])
        invariant (cached + [cache.entries.Keys])[0] == old(cache.entries.Keys)
      {
        ghost var keys := cache.entries.Keys;
        PlainRunNext(start, ops, k);
        SafeRunNext(kv, start, ops, cached, keys);
        var o := Do(ops[k], Batch);
        AnsweredNext(kv, start, ops, cached, outcomes, keys, o);
        HoldsWrittenNext(ops, cached + [keys], cache.entries.Keys);
        outcomes := outcomes + [o];
        cached := cached + [keys];
      }
      assert ops[..|ops|] == ops;
    }

    /** Any run with the batch writer, then the commit. As long as every read is of a key
        cached at that point, or of one that is not readable in the committed store or not
        changed by the staged writes, questions about cached keys are answered from the
        store with the staged writes and all others from the committed store; if this is
        so to the end, the cache agrees with the store after the commit. */
    method RunBatch(ops: seq<Op<V>>) returns (outcomes: seq<Outcome<V>>, ghost cached: seq<set<Bytes>>)
      requires Valid() && Coherent() && NextPrefix(prefix).Some?
      modifies cache, db
      ensures Valid() && db.batch == [] && db.View() == db.kv
      ensures db.kv == PlainRun(old(db.View()), prefix, serialize, ops)
      ensures |outcomes| == |cached| == |ops|
      ensures SafeRun(old(db.kv), old(db.View()), ops, cached, |ops|) ==> Coherent()
      ensures Answered(old(db.kv), old(db.View()), ops, cached, outcomes)
      ensures HoldsWritten(ops, cached) && (ops != [] ==> cached[0] == old(cache.entries.Keys))
      ensures ReadsHarmless(old(db.kv), old(db.View()), ops) ==> Coherent()
      ensures ReadsSettled(old(db.kv), old(db.View()), ops) ==>
                forall i :: 0 <= i < |ops| && ops[i].Read? ==>
                  var view := PlainRun(old(db.View()), prefix, serialize, ops[..i]);
                  outcomes[i] == PlainOutcome(view, prefix, deserialize, ops[i])
    {
      hide Apply, Agrees, PlainOutcome, PlainRun, Total, NextPrefix, Lookup, Harmless, Hits, SafeRun, Answered;
      ghost var kv, start := db.kv, db.View();
      outcomes, cached := RunStaged(ops);
      HarmlessIsSafe(kv, start, ops, cached);
      SettledAnswers(kv, start, ops, cached, outcomes);
      db.Commit();
    }

    lemma NothingRun(kv: KV, start: KV, ops: seq<Op<V>>, keys: set<Bytes>)
      ensures PlainRun(start, prefix, serialize, ops[..0]) == start
      ensures Answered(kv, start, ops, [], []) && HoldsWritten(ops, [] + [keys]) && PlainAnswers(start, ops, [])
    {
    }

    lemma PlainRunNext(start: KV, ops: seq<Op<V>>, k: nat)
      requires k < |ops|
      ensures PlainRun(start, prefix, serialize, ops[..k + 1])
           == PlainStore(PlainRun(start, prefix, serialize, ops[..k]), prefix, serialize, ops[k])
    {
      assert ops[..k + 1][..k] == ops[..k];
    }

    /** The first n reads of the run can leave no stale entry. */
    ghost predicate SafeRun(kv: KV, start: KV, ops: seq<Op<V>>, cached: seq<set<Bytes>>, n: nat)
      requires n <= |ops| && n <= |cached|
    {
      forall i :: 0 <= i < n && ops[i].Read? ==>
        Harmless(cached[i], kv, PlainRun(start, prefix, serialize, ops[..i]), ops[i].key)
    }

    /** Each answer up to the first unsafe read comes from the store with the staged writes
        for a cached key, and from the committed store otherwise. */
    ghost predicate Answered(kv: KV, start: KV, ops: seq<Op<V>>,
                             cached: seq<set<Bytes>>, outcomes: seq<Outcome<V>>)
      requires |outcomes| == |cached| <= |ops|
    {
      forall i :: 0 <= i < |cached| && SafeRun(kv, start, ops, cached, i) ==>
        var view := PlainRun(start, prefix, serialize, ops[..i]);
        outcomes[i] == PlainOutcome(if Hits(cached[i], ops[i]) then view else kv, prefix, deserialize, ops[i])
    }

    /** A counted cache holds a key right after it is written. */
    ghost predicate HoldsWritten(ops: seq<Op<V>>, cached: seq<set<Bytes>>)
      requires |cached| <= |ops| + 1
    {
      !cache.policy.tracked && cache.policy.maxSize > 0 ==>
        forall i :: 0 <= i < |cached| - 1 && ops[i].Write? ==> ops[i].key in cached[i + 1]
    }

    lemma SafeRunNext(kv: KV, start: KV, ops: seq<Op<V>>, cached: seq<set<Bytes>>, keys: set<Bytes>)
      requires |cached| < |ops|
      ensures forall n :: 0 <= n <= |cached| ==>
                SafeRun(kv, start, ops, cached + [keys], n) == SafeRun(kv, start, ops, cached, n)
      ensures var op, view := ops[|cached|], PlainRun(start, prefix, serialize, ops[..|cached|]);
              SafeRun(kv, start, ops, cached + [keys], |cached| + 1) <==>
                SafeRun(kv, start, ops, cached, |cached|) && (op.Read? ==> Harmless(keys, kv, view, op.key))
    {
      hide Harmless, PlainRun;
      var more := cached + [keys];
      assert forall i :: 0 <= i < |cached| ==> more[i] == cached[i];
      assert more[|cached|] == keys;
    }

    lemma AnsweredNext(kv: KV, start: KV, ops: seq<Op<V>>, cached: seq<set<Bytes>>,
                       outcomes: seq<Outcome<V>>, keys: set<Bytes>, o: Outcome<V>)
      requires |outcomes| == |cached| < |ops| && Answered(kv, start, ops, cached, outcomes)
      requires var op, view := ops[|cached|], PlainRun(start, prefix, serialize, ops[..|cached|]);
               SafeRun(kv, start, ops, cached, |cached|) ==>
                 o == PlainOutcome(if Hits(keys, op) then view else kv, prefix, deserialize, op)
      ensures Answered(kv, start, ops, cached + [keys], outcomes + [o])
    {
      hide SafeRun, PlainRun, PlainOutcome, Hits;
      SafeRunNext(kv, start, ops, cached, keys);
    }

    lemma HoldsWrittenNext(ops: seq<Op<V>>, cached: seq<set<Bytes>>, keys: set<Bytes>)
      requires 0 < |cached| <= |ops| && HoldsWritten(ops, cached)
      requires !cache.policy.tracked && cache.policy.maxSize > 0 && ops[|cached| - 1].Write? ==>
                 ops[|cached| - 1].key in keys
      ensures HoldsWritten(ops, cached + [keys])
    {
    }

    /** What a caller can see before the run: reads that are harmless whatever is cached. */
    ghost predicate ReadsHarmless(kv: KV, start: KV, ops: seq<Op<V>>) {
      forall i :: 0 <= i < |ops| && ops[i].Read? ==>
        Harmless({}, kv, PlainRun(start, prefix, serialize, ops[..i]), ops[i].key)
    }

    lemma HarmlessIsSafe(kv: KV, start: KV, ops: seq<Op<V>>, cached: seq<set<Bytes>>)
      requires |cached| == |ops|
      ensures ReadsHarmless(kv, start, ops) ==> SafeRun(kv, start, ops, cached, |ops|)
    {
      hide PlainRun, Lookup;
    }

    /** Every key the run reads is, at that point of the run, as in the committed store. */
    ghost predicate ReadsSettled(kv: KV, start: KV, ops: seq<Op<V>>) {
      forall i :: 0 <= i < |ops| && ops[i].Read? ==>
        Lookup(kv, prefix, deserialize, ops[i].key)
        == Lookup(PlainRun(start, prefix, serialize, ops[..i]), prefix, deserialize, ops[i].key)
    }

    lemma SettledAnswers(kv: KV, start: KV, ops: seq<Op<V>>, cached: seq<set<Bytes>>,
                         outcomes: seq<Outcome<V>>)
      requires |outcomes| == |cached| == |ops| && Answered(kv, start, ops, cached, outcomes)
      ensures ReadsSettled(kv, start, ops) ==> forall i :: 0 <= i < |ops| && ops[i].Read? ==>
                outcomes[i] == PlainOutcome(PlainRun(start, prefix, serialize, ops[..i]), prefix, deserialize, ops[i])
    {
      hide PlainRun, Lookup;
      assert ReadsSettled(kv, start, ops) ==> forall i :: 0 <= i < |ops| ==> SafeRun(kv, start, ops, cached, i);
    }
  }

  /** A cache of one entry and two staged writes: the first key is evicted before the
      commit, reading it back caches the old value, and the commit leaves it stale. */
  method StaleAfterCommit<V(!new)>(access: CachedDbAccess<V>, first: Bytes, second: Bytes, was: V, now: V)
    returns (cached: Result<V, StoreError>)
    requires access.Valid() && access.Coherent() && access.db.batch == []
    requires access.cache.policy == CountPolicy(1) && first != second
    modifies access.cache, access.db
    ensures access.db.batch == []
    ensures cached == Ok(was)
    ensures Lookup(access.db.kv, access.prefix, access.deserialize, first) == Ok(now)
  {
    hide Apply, Agrees, Total;
    var db, key := access.db, access.prefix + first;
    PrefixInjective(access.prefix, first, second);
    access.Write(Direct, first, was);
    access.BatchEmpty();
    access.Write(Batch, first, now);
    access.Write(Batch, second, now);
    OnlyOne(access.cache.entries, second, first);
    var early := access.Read(first);
    assert db.View()[key] == access.serialize(now);
    db.Commit();
    cached := access.Read(first);
  }

  lemma OnlyOne<K, V>(m: map<K, V>, a: K, b: K)
    requires |m| <= 1 && a in m && a != b
    ensures b !in m
  {
    assert |m.Keys - {a}| == |m.Keys| - 1;
  }

  datatype Op<V> =
    | Has(key: Bytes)
    | Read(key: Bytes)
    | Write(key: Bytes, data: V)
    | WriteMany(items: seq<(Bytes, V)>)
    | WriteManyWithoutCache(items: seq<(Bytes, V)>)
    | Delete(key: Bytes)
    | DeleteMany(keys: seq<Bytes>)
    | DeleteAll

  datatype Outcome<V> = Done | Flag(present: bool) | Value(result: Result<V, StoreError>)

  /** A question about a cached key. */
  predicate Hits<V>(cached: set<Bytes>, op: Op<V>) {
    (op.Has? || op.Read?) && op.key in cached
  }

  /** What an operation does to a store without a cache. */
  ghost function PlainStore<V>(kv: KV, prefix: Bytes, ser: V -> Bytes, op: Op<V>): KV {
    match op
    case Has(_) => kv
    case Read(_) => kv
    case Write(key, data) => kv[prefix + key := ser(data)]
    case WriteMany(items) => PutAll(kv, prefix, ser, items)
    case WriteManyWithoutCache(items) => PutAll(kv, prefix, ser, items)
    case Delete(key) => kv - {prefix + key}
    case DeleteMany(keys) => DeleteKeys(kv, prefix, keys)
    case DeleteAll => DropPrefix(kv, prefix)
  }

  /** What it answers. */
  ghost function PlainOutcome<V>(kv: KV, prefix: Bytes, de: Bytes -> Option<V>, op: Op<V>): Outcome<V> {
    match op
    case Has(key) => Flag(prefix + key in kv)
    case Read(key) => Value(Lookup(kv, prefix, de, key))
    case _ => Done
  }

  ghost function PlainRun<V>(kv: KV, prefix: Bytes, ser: V -> Bytes, ops: seq<Op<V>>): KV {
    if ops == [] then kv else PlainStore(PlainRun(kv, prefix, ser, ops[..|ops| - 1]), prefix, ser, ops[|ops| - 1])
  }
}
