/** Schoolbook multiplication, with its overflow flag. */
module UintMul {
  import opened Powers
  import opened Limbs
  import opened UintBasics

  /** Row j of the product, cut at the limb count: the pairs with i + j < n. */
  ghost function KeptRow(a: Uint, b: Uint, j: nat): nat
    requires |a| == |b| && j < |a|
  {
    MulNonneg(b[j], Modulus(j));
    MulNonneg(b[j] * Modulus(j), Value(a[..|a| - j]));
    b[j] * Modulus(j) * Value(a[..|a| - j])
  }

  /** The rest of row j, the pairs with i + j >= n, in units of 2^(64 n). */
  ghost function SkippedRow(a: Uint, b: Uint, j: nat): nat
    requires |a| == |b| && j < |a|
  {
    MulNonneg(b[j], Value(a[|a| - j..]));
    b[j] * Value(a[|a| - j..])
  }

  /** What the loop adds up in its first j rows. */
  ghost function Kept(a: Uint, b: Uint, j: nat): nat
    requires |a| == |b| && j <= |a|
  {
    if j == 0 then 0 else Kept(a, b, j - 1) + KeptRow(a, b, j - 1)
  }

  lemma KeptNext(a: Uint, b: Uint, j: nat)
    requires |a| == |b| && j < |a|
    ensures Kept(a, b, 0) == 0
    ensures Kept(a, b, j + 1) == Kept(a, b, j) + b[j] * Modulus(j) * Value(a[..|a| - j])
  {
    hide Pow2, Value, Modulus;
  }

  /** What it never looks at in its first j rows. */
  ghost function Skipped(a: Uint, b: Uint, j: nat): nat
    requires |a| == |b| && j <= |a|
  {
    if j == 0 then 0 else Skipped(a, b, j - 1) + SkippedRow(a, b, j - 1)
  }

  /** The product is the kept partial products plus 2^(64 n) times the skipped ones. */
  lemma {:induction false} ProductSplit(a: Uint, b: Uint, j: nat)
    requires |a| == |b| && j <= |a|
    ensures Value(a) * Value(b[..j]) == Kept(a, b, j) + Modulus(|a|) * Skipped(a, b, j)
  {
    hide Pow2, Value, Modulus;
    if j == 0 {
      ValueZero(b[..0]);
    } else {
      var n, i := |a|, j - 1;
      ProductSplit(a, b, i);
      ValueTake(b, i);
      ValueSplit(a, n - i);
      ModulusAdd(i, n - i);
      ProductStep(Value(a), Value(b[..i]), b[i], Modulus(i), Value(a[..n - i]), Modulus(n - i), Value(a[n - i..]),
                  Modulus(n), Kept(a, b, i), Skipped(a, b, i), Kept(a, b, j), Skipped(a, b, j), Value(b[..j]));
    }
  }

  lemma ProductStep(va: int, vb: int, x: int, m: int, low: int, k: int, high: int, mn: int,
                    kept: int, skip: int, kept': int, skip': int, vb': int)
    requires va == low + k * high && m * k == mn
    requires va * vb == kept + mn * skip
    requires vb' == vb + x * m && kept' == kept + x * m * low && skip' == skip + x * high
    ensures va * vb' == kept' + mn * skip'
  {
    assert va * vb' == va * vb + va * (x * m);
    assert va * (x * m) == x * m * low + (k * high) * (x * m);
    assert (k * high) * (x * m) == (m * k) * (x * high);
    assert mn * skip' == mn * skip + mn * (x * high);
  }

  /** The inner loop: add the row of b's limb x, at index j, into result. */
  method AddRow(result: array<Limb>, a: Uint, x: Limb, j: nat) returns (carry: Limb)
    requires j < |a| == result.Length
    modifies result
    ensures Value(result[..]) + Modulus(|a|) * carry == old(Value(result[..])) + x * Modulus(j) * Value(a[..|a| - j])
  {
    ghost var start, weight := Value(result[..]), x * Modulus(j);
    carry := 0;
    var i := 0;
    while i + j < |a|
      invariant i + j <= |a|
      invariant Value(result[..]) + Modulus(i + j) * carry == start + weight * Value(a[..i])
    {
      MulNonneg(a[i], x);
      var p: nat := a[i] * x + result[i + j] + carry;
      ghost var before := result[..];
      var low: Limb := p % W;
      RowStep(before, a, x, weight, i, j, carry, p, low, start);
      result[i + j] := low;
      carry := p / W;
      assert result[..] == before[i + j := low];
      i := i + 1;
    }
    assert i == |a| - j;
  }

  method OverflowingMul(a: Uint, b: Uint) returns (r: Uint, overflow: bool)
    requires |a| == |b|
    ensures |r| == |a|
    ensures Value(r) == Value(a) * Value(b) % Modulus(|a|)
    ensures overflow <==> Kept(a, b, |a|) >= Modulus(|a|)
  {
    hide Pow2, Value, Modulus, Kept, KeptRow;
    var n := |a|;
    var result := new Limb[n](_ => 0);
    ValueZero(result[..]);
    overflow := false;
    KeptNext(a, b, 0);
    ghost var rowCarries: nat := 0;
    for j := 0 to n
      invariant Kept(a, b, j) == Value(result[..]) + Modulus(n) * rowCarries
      invariant overflow <==> rowCarries > 0
    {
      ghost var start := Value(result[..]);
      KeptNext(a, b, j);
      var carry := AddRow(result, a, b[j], j);
      RowEnd(Modulus(n), rowCarries, carry, start, Value(result[..]));
      overflow := overflow || carry != 0;
      rowCarries := rowCarries + carry;
    }
    r := result[..];
    FullProduct(a, b, r, rowCarries);
  }

  /** One limb of one row. */
  lemma RowStep(res: seq<Limb>, a: Uint, x: Limb, weight: int, i: nat, j: nat,
                carry: Limb, p: nat, low: Limb, start: int)
    requires i + j < |res| == |a| && weight == x * Modulus(j)
    requires p == a[i] * x + res[i + j] + carry && low == p % W
    requires Value(res) + Modulus(i + j) * carry == start + weight * Value(a[..i])
    ensures 0 <= p / W < W
    ensures Value(res[i + j := low]) + Modulus(i + 1 + j) * (p / W) == start + weight * Value(a[..i + 1])
  {
    hide Pow2, Value, Modulus;
    ProductFits(a[i], x, res[i + j], carry);
    QuotientFits(p, W);
    ValueUpdate(res, i + j, low);
    ValueTake(a, i);
    ModulusStep(i + j);
    ModulusAdd(j, i);
    DivModIdentity(p, W);
    RowArith(Value(res), Modulus(i + j), carry, res[i + j], a[i], x, weight, Modulus(j), Modulus(i), Value(a[..i]),
             start, p, p / W, low, W, Modulus(i + 1 + j), Value(a[..i + 1]), Value(res[i + j := low]));
  }

  lemma QuotientFits(p: nat, w: nat)
    requires 0 < w && p < w * w
    ensures 0 <= p / w < w
  {
    if p / w >= w { MulMono(w, w, p / w); }
  }

  lemma RowArith(v: int, m: int, c: int, old_: int, a: int, x: int, weight: int, mj: int, mi: int, va: int,
                 start: int, p: int, q: int, r: int, w: int, m': int, va': int, v': int)
    requires weight == x * mj && v + m * c == start + weight * va
    requires m == mj * mi && m' == w * m
    requires p == a * x + old_ + c && p == q * w + r
    requires v' == v + (r - old_) * m && va' == va + a * mi
    ensures v' + m' * q == start + weight * va'
  {
    assert m' * q == (q * w) * m;
    assert (r - old_) * m + (q * w) * m == (p - old_) * m;
    assert (a * x + c) * m == (a * x) * m + m * c;
    assert (a * x) * (mj * mi) == weight * (a * mi);
    assert weight * va' == weight * va + weight * (a * mi);
  }

  lemma RowEnd(m: nat, carries: nat, carry: nat, start: int, v: int)
    ensures v + m * (carries + carry) == v + m * carry + m * carries
  {
  }

  lemma FullProduct(a: Uint, b: Uint, r: Uint, carries: nat)
    requires |a| == |b| == |r|
    requires Kept(a, b, |a|) == Value(r) + Modulus(|a|) * carries
    ensures Value(r) == Value(a) * Value(b) % Modulus(|a|)
    ensures carries > 0 <==> Kept(a, b, |a|) >= Modulus(|a|)
  {
    var n, m, v := |a|, Modulus(|a|), Value(a) * Value(b);
    ProductSplit(a, b, n);
    assert b[..n] == b;
    ValueBound(r);
    Reduce(v, m, carries, Skipped(a, b, n), Value(r), Kept(a, b, n));
  }

  lemma Reduce(v: int, m: nat, carries: nat, skip: nat, r: nat, kept: int)
    requires r < m && kept == r + m * carries && v == kept + m * skip
    ensures v % m == r
    ensures carries > 0 <==> kept >= m
  {
    assert v == (carries + skip) * m + r;
    DivModUnique(v, m, carries + skip, r);
    if carries > 0 { MulMono(m, 1, carries); }
  }

  /** Two nonzero limbs whose indices sum to at least the limb count. */
  ghost predicate SkipsPair(a: Uint, b: Uint)
    requires |a| == |b|
  {
    exists i, j :: 0 <= i < |a| && 0 <= j < |b| && i + j >= |a| && a[i] != 0 && b[j] != 0
  }

  lemma {:induction false} SkippedIsZero(a: Uint, b: Uint, j: nat)
    requires |a| == |b| && j <= |a|
    ensures Skipped(a, b, j) == 0 <==> forall k :: 0 <= k < j ==> SkipsNone(a, b, k)
  {
    if j > 0 {
      SkippedIsZero(a, b, j - 1);
      RowIsZero(a, b, j - 1);
    }
  }

  /** Row k skips no nonzero pair. */
  ghost predicate SkipsNone(a: Uint, b: Uint, k: nat)
    requires |a| == |b| && k < |b|
  {
    b[k] == 0 || forall i :: |a| - k <= i < |a| ==> a[i] == 0
  }

  lemma RowIsZero(a: Uint, b: Uint, k: nat)
    requires |a| == |b| && k < |b|
    ensures SkippedRow(a, b, k) == 0 <==> SkipsNone(a, b, k)
  {
    var top := a[|a| - k..];
    ValueZeroIff(top);
    assert forall i :: |a| - k <= i < |a| ==> a[i] == top[i - (|a| - k)];
    if b[k] > 0 && Value(top) > 0 { MulMono(b[k], 1, Value(top)); }
  }

  lemma SkipsPairByRow(a: Uint, b: Uint)
    requires |a| == |b|
    ensures SkipsPair(a, b) <==> exists k :: 0 <= k < |b| && !SkipsNone(a, b, k)
  {
    if SkipsPair(a, b) {
      var i, j :| 0 <= i < |a| && 0 <= j < |b| && i + j >= |a| && a[i] != 0 && b[j] != 0;
      assert !SkipsNone(a, b, j);
    }
  }

  /** The product overflows exactly when the kept part does or a nonzero pair was
      skipped, so the flag `overflowing_mul` returns, which looks at the kept part
      alone, is sound, and it is exact unless a pair was skipped and the kept part fits. */
  lemma FlagIsExactIff(a: Uint, b: Uint)
    requires |a| == |b|
    ensures Value(a) * Value(b) >= Modulus(|a|) <==> Kept(a, b, |a|) >= Modulus(|a|) || SkipsPair(a, b)
    ensures (Kept(a, b, |a|) >= Modulus(|a|) <==> Value(a) * Value(b) >= Modulus(|a|))
       <==> (SkipsPair(a, b) ==> Kept(a, b, |a|) >= Modulus(|a|))
  {
    hide Pow2, Value, Kept, Skipped, SkipsNone, SkipsPair, Modulus;
    var n := |a|;
    ProductSplit(a, b, n);
    assert b[..n] == b;
    SkippedIsZero(a, b, n);
    var s := Skipped(a, b, n);
    assert s == 0 <==> !SkipsPair(a, b) by {
      SkipsPairByRow(a, b);
    }
    if s > 0 { MulMono(Modulus(n), 1, s); }
  }

  /** 2^64 times 2^64 on two limbs: the product is 2^128, the flag stays clear. */
  lemma FlagMissesOverflow()
    ensures var a: Uint := [0, 1];
            Value(a) * Value(a) >= Modulus(2) && Kept(a, a, 2) < Modulus(2)
  {
    var a: Uint := [0, 1];
    FlagIsExactIff(a, a);
    assert SkipsPair(a, a) by { assert a[1] != 0; }
    assert a[..1] == [0] && a[..2] == a;
    ValueZero(a[..1]);
    assert Kept(a, a, 1) == 0;
    assert Kept(a, a, 2) == 0;
  }
}
