/** The key/value store with its two writers: a direct one, and one that collects its
    writes in a batch until the batch is committed. */
module Store {
  import opened ByteKeys

  type KV = map<Bytes, Bytes>

  datatype WriteOp = Put(key: Bytes, value: Bytes) | Delete(key: Bytes) | DeleteRange(from: Bytes, to: Bytes)

  datatype Writer = Direct | Batch

  ghost function Without(kv: KV, from: Bytes, to: Bytes): KV {
    map k | k in kv && !InRange(k, from, to) :: kv[k]
  }

  ghost function ApplyOne(kv: KV, op: WriteOp): KV {
    match op
    case Put(key, value) => kv[key := value]
    case Delete(key) => kv - {key}
    case DeleteRange(from, to) => Without(kv, from, to)
  }

  ghost function Apply(kv: KV, ops: seq<WriteOp>): KV {
    if ops == [] then kv else ApplyOne(Apply(kv, ops[..|ops| - 1]), ops[|ops| - 1])
  }

  class Database {
    var kv: KV
    var batch: seq<WriteOp>

    constructor ()
      ensures kv == map[] && batch == []
    {
      kv := map[];
      batch := [];
    }

    /** The store as it will be once the pending batch is committed. */
    ghost function View(): KV
      reads this
    {
      Apply(kv, batch)
    }

    /** `DbWriter::put`, `delete` and `delete_range`. */
    method Write(writer: Writer, op: WriteOp)
      modifies this
      ensures writer.Direct? ==> kv == ApplyOne(old(kv), op) && batch == old(batch)
      ensures writer.Batch? ==> kv == old(kv) && batch == old(batch) + [op]
      ensures writer.Batch? || batch == [] ==> View() == ApplyOne(old(View()), op)
    {
      if writer.Direct? {
        match op {
          case Put(key, value) => kv := kv[key := value];
          case Delete(key) => kv := kv - {key};
          case DeleteRange(from, to) => kv := map k | k in kv && !InRange(k, from, to) :: kv[k];
        }
      } else {
        assert (batch + [op])[..|batch|] == batch;
        batch := batch + [op];
      }
    }

    /** `DB::write` of the pending batch. */
    method Commit()
      modifies this
      ensures kv == View() == old(View()) && batch == []
    {
      ghost var view := View();
      for i := 0 to |batch|
        invariant batch == old(batch)
        invariant kv == Apply(old(kv), batch[..i])
      {
        assert batch[..i + 1][..i] == batch[..i];
        match batch[i] {
          case Put(key, value) => kv := kv[key := value];
          case Delete(key) => kv := kv - {key};
          case DeleteRange(from, to) => kv := map k | k in kv && !InRange(k, from, to) :: kv[k];
        }
      }
      assert batch[..|batch|] == batch;
      batch := [];
    }
  }
}
