/** Byte strings in RocksDB's order, and the key range a prefix stands for. */
module ByteKeys {
  import opened Options

  newtype Byte = x: int | 0 <= x < 256

  type Bytes = seq<Byte>

  /** The bytewise order of keys. */
  predicate Less(a: Bytes, b: Bytes) {
    |b| > 0 && (|a| == 0 || a[0] < b[0] || (a[0] == b[0] && Less(a[1..], b[1..])))
  }

  /** a and b agree up to k, where a ends or has the smaller byte. */
  ghost predicate SmallerAt(a: Bytes, b: Bytes, k: nat) {
    k <= |a| && k < |b| && a[..k] == b[..k] && (k == |a| || a[k] < b[k])
  }

  /** The first difference decides: a proper prefix comes first, else the smaller byte. */
  lemma {:induction false} LessIff(a: Bytes, b: Bytes)
    ensures Less(a, b) <==> exists k: nat :: SmallerAt(a, b, k)
  {
    hide SmallerAt;
    AtStart(a, b);
    if |a| > 0 && |b| > 0 && a[0] == b[0] {
      LessIff(a[1..], b[1..]);
      forall k: nat { OneFurther(a, b, k); }
      if k: nat :| SmallerAt(a, b, k) { assert k > 0 && SmallerAt(a[1..], b[1..], k - 1); }
    }
  }

  lemma AtStart(a: Bytes, b: Bytes)
    ensures SmallerAt(a, b, 0) <==> |b| > 0 && (|a| == 0 || a[0] < b[0])
    ensures |a| == 0 || |b| == 0 || a[0] != b[0] ==> forall k: nat :: SmallerAt(a, b, k) ==> k == 0
  {
    forall k: nat | 0 < k && SmallerAt(a, b, k) ensures a[0] == b[0] { assert a[..k][0] == b[..k][0]; }
  }

  lemma OneFurther(a: Bytes, b: Bytes, k: nat)
    requires |a| > 0 && |b| > 0 && a[0] == b[0]
    ensures SmallerAt(a, b, k + 1) <==> SmallerAt(a[1..], b[1..], k)
  {
    if k + 1 <= |a| && k + 1 <= |b| {
      assert a[..k + 1] == [a[0]] + a[1..][..k] && b[..k + 1] == [b[0]] + b[1..][..k];
      assert a[1..][..k] == a[..k + 1][1..] && b[1..][..k] == b[..k + 1][1..];
    }
  }

  lemma {:induction false} LessTotal(a: Bytes, b: Bytes)
    ensures a == b || Less(a, b) || Less(b, a)
    ensures !(Less(a, b) && Less(b, a)) && !Less(a, a)
  {
    if |a| > 0 && |b| > 0 {
      LessTotal(a[1..], b[1..]);
      assert a == [a[0]] + a[1..] && b == [b[0]] + b[1..];
    } else if |a| > 0 {
      LessTotal(a[1..], []);
    }
  }

  lemma {:induction false} LessTransitive(a: Bytes, b: Bytes, c: Bytes)
    requires Less(a, b) && Less(b, c)
    ensures Less(a, c)
  {
    if |a| > 0 && a[0] == b[0] && b[0] == c[0] {
      LessTransitive(a[1..], b[1..], c[1..]);
    }
  }

  predicate InRange(k: Bytes, from: Bytes, to: Bytes) {
    !Less(k, from) && Less(k, to)
  }

  /** The upper bound of `PrefixRange`: the last byte that is not 0xFF goes up by one
      and what follows it is cut off. There is none for a prefix of 0xFF bytes only. */
  function NextPrefix(p: Bytes): Option<Bytes> {
    if |p| == 0 then None
    else
      match NextPrefix(p[1..])
      case Some(n) => Some([p[0]] + n)
      case None => if p[0] < 255 then Some([p[0] + 1]) else None
  }

  /** The range from a prefix to its upper bound holds exactly the keys with that prefix. */
  lemma {:induction false} RangeIsPrefix(p: Bytes, k: Bytes)
    ensures NextPrefix(p).None? ==> (!Less(k, p) <==> p <= k)
    ensures NextPrefix(p).Some? ==> (InRange(k, p, NextPrefix(p).value) <==> p <= k)
  {
    if |p| > 0 && |k| > 0 {
      RangeIsPrefix(p[1..], k[1..]);
      assert p <= k <==> p[0] == k[0] && p[1..] <= k[1..] by {
        assert p == [p[0]] + p[1..] && k == [k[0]] + k[1..];
      }
      var next := NextPrefix(p[1..]);
      if next.Some? {
        assert ([p[0]] + next.value)[1..] == next.value;
      } else if p[0] < 255 {
        assert [p[0] + 1][1..] == [] && !Less(k[1..], []);
      }
    }
  }

  /** Two keys that share their first n bytes and have a longer common extension. */
  lemma SplitUnique(p: Bytes, a: Bytes, x: Bytes, b: Bytes, y: Bytes)
    requires |a| == |b| && p + a + x == p + b + y
    ensures a == b && x == y
  {
    var l, r := p + a + x, p + b + y;
    assert a == l[|p|..|p| + |a|] && b == r[|p|..|p| + |b|];
    assert x == l[|p| + |a|..] && y == r[|p| + |b|..];
  }
}
