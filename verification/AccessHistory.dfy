/** What a run of operations on a store comes to for one key, told from the operations alone:
    the last one that touches the key decides. */
module AccessHistory {
  import opened Options
  import opened ByteKeys
  import opened Store
  import opened CachedAccess

  predicate WritesMany<V>(op: Op<V>) {
    op.WriteMany? || op.WriteManyWithoutCache?
  }

  /** The operation writes v to the key, as the last of its items for that key. */
  ghost predicate Puts<V>(op: Op<V>, key: Bytes, v: V) {
    || op == Op.Write(key, v)
    || (WritesMany(op) && exists i :: 0 <= i < |op.items| && op.items[i] == (key, v) && NotAfter(op.items, key, i + 1))
  }

  ghost predicate NotAfter<V>(items: seq<(Bytes, V)>, key: Bytes, from: nat) {
    forall j :: from <= j < |items| ==> items[j].0 != key
  }

  /** The operation deletes the key. */
  ghost predicate Drops<V(!new)>(op: Op<V>, key: Bytes) {
    op == Op.Delete(key) || op == Op.DeleteAll || (op.DeleteMany? && key in op.keys)
  }

  ghost predicate Touches<V(!new)>(op: Op<V>, key: Bytes) {
    Drops(op, key) || (op.Write? && op.key == key) || (WritesMany(op) && !NotAfter(op.items, key, 0))
  }

  ghost predicate Untouched<V(!new)>(ops: seq<Op<V>>, key: Bytes, from: nat) {
    forall j :: from <= j < |ops| ==> !Touches(ops[j], key)
  }

  ghost function At(kv: KV, k: Bytes): Option<Bytes> {
    if k in kv then Some(kv[k]) else None
  }

  lemma {:induction false} PutAllAt<V>(kv: KV, prefix: Bytes, ser: V -> Bytes, items: seq<(Bytes, V)>, key: Bytes)
    ensures forall i :: 0 <= i < |items| && items[i].0 == key && NotAfter(items, key, i + 1) ==>
              At(PutAll(kv, prefix, ser, items), prefix + key) == Some(ser(items[i].1))
    ensures NotAfter(items, key, 0) ==> At(PutAll(kv, prefix, ser, items), prefix + key) == At(kv, prefix + key)
  {
    hide NotAfter;
    if items != [] {
      var n := |items| - 1;
      PutAllAt(kv, prefix, ser, items[..n], key);
      PutAllLast(kv, prefix, ser, items, key);
      NotAfterNext(items, key, 0);
      forall i | 0 <= i < |items| && items[i].0 == key && NotAfter(items, key, i + 1)
        ensures At(PutAll(kv, prefix, ser, items), prefix + key) == Some(ser(items[i].1))
      {
        if i < n {
          NotAfterNext(items, key, i + 1);
          assert items[..n][i] == items[i];
        }
      }
    }
  }

  lemma NotAfterNext<V>(items: seq<(Bytes, V)>, key: Bytes, from: nat)
    requires from < |items|
    ensures var n := |items| - 1;
            NotAfter(items, key, from) <==> NotAfter(items[..n], key, from) && items[n].0 != key
  {
    var n := |items| - 1;
    assert forall j :: 0 <= j < n ==> items[..n][j] == items[j];
  }

  lemma PutAllLast<V>(kv: KV, prefix: Bytes, ser: V -> Bytes, items: seq<(Bytes, V)>, key: Bytes)
    requires items != []
    ensures var n := |items| - 1;
            At(PutAll(kv, prefix, ser, items), prefix + key) ==
              if items[n].0 == key then Some(ser(items[n].1)) else At(PutAll(kv, prefix, ser, items[..n]), prefix + key)
  {
    PrefixInjective(prefix, items[|items| - 1].0, key);
  }

  lemma {:induction false} DeleteKeysAt(kv: KV, prefix: Bytes, keys: seq<Bytes>, key: Bytes)
    ensures At(DeleteKeys(kv, prefix, keys), prefix + key) == if key in keys then None else At(kv, prefix + key)
  {
    if keys != [] {
      var n := |keys| - 1;
      DeleteKeysAt(kv, prefix, keys[..n], key);
      PrefixInjective(prefix, keys[n], key);
      assert keys == keys[..n] + [keys[n]];
    }
  }

  lemma StoreAt<V(!new)>(kv: KV, prefix: Bytes, ser: V -> Bytes, op: Op<V>, key: Bytes)
    ensures forall v :: Puts(op, key, v) ==> At(PlainStore(kv, prefix, ser, op), prefix + key) == Some(ser(v))
    ensures Drops(op, key) ==> At(PlainStore(kv, prefix, ser, op), prefix + key) == None
    ensures !Touches(op, key) ==> At(PlainStore(kv, prefix, ser, op), prefix + key) == At(kv, prefix + key)
  {
    hide PutAll, DeleteKeys, NotAfter;
    match op {
      case Write(k, _) => PrefixInjective(prefix, k, key);
      case Delete(k) => PrefixInjective(prefix, k, key);
      case WriteMany(items) => PutAllAt(kv, prefix, ser, items, key);
      case WriteManyWithoutCache(items) => PutAllAt(kv, prefix, ser, items, key);
      case DeleteMany(keys) => DeleteKeysAt(kv, prefix, keys, key);
      case _ =>
    }
  }

  /** The last operation that touches a key decides what the store holds for it. */
  lemma {:induction false} LastTouchDecides<V(!new)>(kv: KV, prefix: Bytes, ser: V -> Bytes, ops: seq<Op<V>>,
                                                     key: Bytes)
    ensures forall i, v :: 0 <= i < |ops| && Puts(ops[i], key, v) && Untouched(ops, key, i + 1) ==>
              At(PlainRun(kv, prefix, ser, ops), prefix + key) == Some(ser(v))
    ensures forall i :: 0 <= i < |ops| && Drops(ops[i], key) && Untouched(ops, key, i + 1) ==>
              At(PlainRun(kv, prefix, ser, ops), prefix + key) == None
    ensures Untouched(ops, key, 0) ==> At(PlainRun(kv, prefix, ser, ops), prefix + key) == At(kv, prefix + key)
  {
    hide PlainStore, Puts, Drops, Touches, At;
    if ops != [] {
      var n := |ops| - 1;
      LastTouchDecides(kv, prefix, ser, ops[..n], key);
      StoreAt(PlainRun(kv, prefix, ser, ops[..n]), prefix, ser, ops[n], key);
      forall from: nat | from <= n
        ensures Untouched(ops, key, from) <==> Untouched(ops[..n], key, from) && !Touches(ops[n], key)
      {
        assert forall j :: 0 <= j < n ==> ops[..n][j] == ops[j];
      }
      assert forall i :: 0 <= i < n ==> ops[..n][i] == ops[i];
    }
  }

  /** Every answer of a run: after the last write of the key, what was written; after the last
      deletion, that there is no such key; before either, what the store began with. */
  lemma AnswersTell<V(!new)>(access: CachedDbAccess<V>, start: KV, ops: seq<Op<V>>, outcomes: seq<Outcome<V>>,
                             n: nat, key: Bytes)
    requires n < |ops| == |outcomes| && access.PlainAnswers(start, ops, outcomes)
    requires ops[n] == Op.Read(key) || ops[n] == Op.Has(key)
    requires forall v :: access.deserialize(access.serialize(v)) == Some(v)
    ensures forall i, v :: 0 <= i < n && Puts(ops[i], key, v) && Untouched(ops[..n], key, i + 1) ==>
              outcomes[n] == if ops[n].Read? then Outcome.Value(Ok(v)) else Flag(true)
    ensures forall i :: 0 <= i < n && Drops(ops[i], key) && Untouched(ops[..n], key, i + 1) ==>
              outcomes[n] == if ops[n].Read? then Outcome.Value(Err(KeyNotFound(access.prefix + key))) else Flag(false)
    ensures Untouched(ops[..n], key, 0) && access.prefix + key in start ==>
              var stored := access.deserialize(start[access.prefix + key]);
              outcomes[n] == if ops[n].Has? then Flag(true)
                             else if stored.Some? then Outcome.Value(Ok(stored.value)) else Outcome.Value(Err(Corrupt))
    ensures Untouched(ops[..n], key, 0) && access.prefix + key !in start ==>
              outcomes[n] == if ops[n].Read? then Outcome.Value(Err(KeyNotFound(access.prefix + key))) else Flag(false)
  {
    hide Puts, Drops, Untouched, PlainRun;
    LastTouchDecides(start, access.prefix, access.serialize, ops[..n], key);
    var kv, at := PlainRun(start, access.prefix, access.serialize, ops[..n]), access.prefix + key;
    forall i | 0 <= i < n && Untouched(ops[..n], key, i + 1)
      ensures Drops(ops[i], key) ==> At(kv, at) == None
      ensures forall v :: Puts(ops[i], key, v) ==> At(kv, at) == Some(access.serialize(v))
    {
      assert ops[..n][i] == ops[i];
    }
    assert outcomes[n] == PlainOutcome(kv, access.prefix, access.deserialize, ops[n]);
  }

  /** Keys outside the access's prefix stay as they were. */
  lemma {:induction false} OutsideUntouched<V>(kv: KV, prefix: Bytes, ser: V -> Bytes, ops: seq<Op<V>>, k: Bytes)
    requires !(prefix <= k)
    ensures At(PlainRun(kv, prefix, ser, ops), k) == At(kv, k)
  {
    if ops != [] {
      var n := |ops| - 1;
      OutsideUntouched(kv, prefix, ser, ops[..n], k);
      var before, op := PlainRun(kv, prefix, ser, ops[..n]), ops[n];
      assert forall key: Bytes :: prefix <= prefix + key;
      if WritesMany(op) { PutAllOutside(before, prefix, ser, op.items, k); }
      if op.DeleteMany? { DeleteKeysOutside(before, prefix, op.keys, k); }
    }
  }

  lemma {:induction false} PutAllOutside<V>(kv: KV, prefix: Bytes, ser: V -> Bytes, items: seq<(Bytes, V)>, k: Bytes)
    requires !(prefix <= k)
    ensures At(PutAll(kv, prefix, ser, items), k) == At(kv, k)
  {
    if items != [] {
      PutAllOutside(kv, prefix, ser, items[..|items| - 1], k);
      assert prefix <= prefix + items[|items| - 1].0;
    }
  }

  lemma {:induction false} DeleteKeysOutside(kv: KV, prefix: Bytes, keys: seq<Bytes>, k: Bytes)
    requires !(prefix <= k)
    ensures At(DeleteKeys(kv, prefix, keys), k) == At(kv, k)
  {
    if keys != [] {
      DeleteKeysOutside(kv, prefix, keys[..|keys| - 1], k);
      assert prefix <= prefix + keys[|keys| - 1];
    }
  }
}
