/** What a run of operations on buckets comes to for one item, told from the operations alone:
    the last one that touches the item decides. */
module SetHistory {
  import opened Options
  import opened ByteKeys
  import opened Store
  import opened SetAccess

  /** The operation takes d out of bucket k. */
  ghost predicate Takes<D(!new)>(op: SetOp<D>, k: Bytes, d: D) {
    op == SetOp.Delete(k, d) || op == SetOp.DeleteBucket(k)
  }

  ghost predicate Untouched<D(!new)>(ops: seq<SetOp<D>>, k: Bytes, d: D, from: nat) {
    forall j :: from <= j < |ops| ==> ops[j] != SetOp.Write(k, d) && !Takes(ops[j], k, d)
  }

  /** An item is in a bucket exactly when it was written and not taken out since, or was there
      from the start and never touched. */
  lemma {:induction false} LastTouchDecides<D(!new)>(items: set<D>, ops: seq<SetOp<D>>, k: Bytes, d: D)
    ensures forall i :: 0 <= i < |ops| && ops[i] == SetOp.Write(k, d) && Untouched(ops, k, d, i + 1) ==>
              d in After(items, ops, k)
    ensures forall i :: 0 <= i < |ops| && Takes(ops[i], k, d) && Untouched(ops, k, d, i + 1) ==>
              d !in After(items, ops, k)
    ensures Untouched(ops, k, d, 0) ==> (d in After(items, ops, k) <==> d in items)
  {
    hide Takes, Untouched, AfterOne;
    if ops != [] {
      var n := |ops| - 1;
      var prev := After(items, ops[..n], k);
      LastTouchDecides(items, ops[..n], k, d);
      OneTouch(prev, ops[n], k, d);
      UntouchedNext(ops, k, d, 0);
      forall i | 0 <= i < n && Untouched(ops, k, d, i + 1)
        ensures d in After(items, ops, k) <==> d in prev
        ensures ops[i] == SetOp.Write(k, d) ==> d in prev
        ensures Takes(ops[i], k, d) ==> d !in prev
      {
        UntouchedNext(ops, k, d, i + 1);
        assert ops[..n][i] == ops[i];
      }
    }
  }

  lemma OneTouch<D(!new)>(items: set<D>, op: SetOp<D>, k: Bytes, d: D)
    ensures op == SetOp.Write(k, d) ==> d in AfterOne(items, op, k)
    ensures Takes(op, k, d) ==> d !in AfterOne(items, op, k)
    ensures op != SetOp.Write(k, d) && !Takes(op, k, d) ==> (d in AfterOne(items, op, k) <==> d in items)
  {
  }

  lemma UntouchedNext<D(!new)>(ops: seq<SetOp<D>>, k: Bytes, d: D, from: nat)
    requires from < |ops|
    ensures var n := |ops| - 1;
            Untouched(ops, k, d, from) <==>
              Untouched(ops[..n], k, d, from) && ops[n] != SetOp.Write(k, d) && !Takes(ops[n], k, d)
  {
    hide Takes;
    var n := |ops| - 1;
    assert forall j :: 0 <= j < n ==> ops[..n][j] == ops[j];
  }

  /** A read of an undamaged bucket in a direct run answers with a set, and an item is in it
      exactly as its last touch before the read says. */
  lemma AnswersTell<D(!new)>(access: CachedDbSetAccess<D>, start: KV, ops: seq<SetOp<D>>, answers: seq<Reply<D>>,
                             n: nat, d: D)
    requires n < |ops| == |answers| && access.Answered(start, ops, answers) && ops[n].Read?
    requires !Damaged(start, access.prefix + ops[n].bucket, access.deserialize)
    ensures answers[n].Some? && answers[n].value.Ok?
    ensures var k := ops[n].bucket;
            forall i :: 0 <= i < n && ops[i] == SetOp.Write(k, d) && Untouched(ops[..n], k, d, i + 1) ==>
              d in answers[n].value.value
    ensures var k := ops[n].bucket;
            forall i :: 0 <= i < n && Takes(ops[i], k, d) && Untouched(ops[..n], k, d, i + 1) ==>
              d !in answers[n].value.value
    ensures Untouched(ops[..n], ops[n].bucket, d, 0) ==>
              (d in answers[n].value.value <==>
                 exists key :: key in start && access.prefix + ops[n].bucket <= key &&
                   access.deserialize(key[|access.prefix + ops[n].bucket|..]) == Some(d))
  {
    hide Takes, Untouched, Damaged, After;
    var k := ops[n].bucket;
    var items := Items(start, access.prefix + k, access.deserialize);
    LastTouchDecides(items, ops[..n], k, d);
    assert answers[n] == Some(Ok(access.PlainAnswer(start, ops, n)));
    forall i | 0 <= i < n ensures ops[..n][i] == ops[i] {}
  }
}
