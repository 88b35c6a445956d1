/** Store keys built from a prefix, a bucket and an item key. */
module DbKeys {
  import opened ByteKeys

  class DbKey {
    var path: Bytes
    var prefixLen: nat

    constructor (prefix: Bytes, key: Bytes)
      ensures path == prefix + key && prefixLen == |prefix|
    {
      path := prefix + key;
      prefixLen := |prefix|;
    }

    method AddBucket(bucket: Bytes)
      modifies this
      ensures path == old(path) + bucket && prefixLen == old(prefixLen) + |bucket|
    {
      path := path + bucket;
      prefixLen := prefixLen + |bucket|;
    }

    /** Like `add_bucket`, this adds to the prefix length too. */
    method AddKey(key: Bytes)
      modifies this
      ensures path == old(path) + key && prefixLen == old(prefixLen) + |key|
    {
      path := path + key;
      prefixLen := prefixLen + |key|;
    }
  }

  /** `new_with_bucket`. */
  method NewWithBucket(prefix: Bytes, bucket: Bytes, key: Bytes) returns (k: DbKey)
    ensures fresh(k) && k.path == prefix + bucket + key && k.prefixLen == |k.path|
  {
    k := new DbKey(prefix, []);
    k.AddBucket(bucket);
    k.AddKey(key);
  }

  /** Two buckets can hold the same store key exactly when one bucket key begins with
      the other; keys of one length that differ never do. */
  lemma BucketsOverlapIff(p: Bytes, a: Bytes, b: Bytes)
    ensures (exists x, y :: p + a + x == p + b + y) <==> a <= b || b <= a
    ensures |a| == |b| && a != b ==> !(a <= b || b <= a)
  {
    if exists x, y :: p + a + x == p + b + y {
      var x, y :| p + a + x == p + b + y;
      var l, r := p + a + x, p + b + y;
      if |a| <= |b| {
        assert a == l[|p|..|p| + |a|] == r[|p|..|p| + |a|] == b[..|a|];
      } else {
        assert b == r[|p|..|p| + |b|] == l[|p|..|p| + |b|] == a[..|b|];
      }
    }
    if a <= b {
      assert p + a + b[|a|..] == p + b + [];
    }
    if b <= a {
      assert p + a + [] == p + b + a[|b|..];
    }
  }
}
