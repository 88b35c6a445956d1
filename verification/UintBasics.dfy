/** The single-pass loops of the fixed-width integers: comparison, carry and
    borrow chains, and the fast forms that take one 64-bit operand. A Rust array
    is passed by value, so each operation takes sequences and works on a buffer
    of its own. */
module UintBasics {
  import opened Powers
  import opened Limbs
  import opened Words

  /** `from_u64` for n limbs. */
  function FromU64(n: nat, x: Limb): (r: Uint)
    requires n > 0
    ensures |r| == n && Value(r) == x
    ensures r[0] == x && forall i :: 0 < i < n ==> r[i] == 0
  {
    var r := seq(n, i => if i == 0 then x else 0);
    FromU64Value(r, x);
    r
  }

  lemma FromU64Value(r: seq<Limb>, x: Limb)
    requires |r| > 0 && r[0] == x
    requires forall i :: 0 < i < |r| ==> r[i] == 0
    ensures Value(r) == x
  {
    ValueDrop(r, 0);
    assert r[0..] == r;
    ValueZero(r[1..]);
  }

  predicate IsZero(a: Uint)
    ensures IsZero(a) <==> Value(a) == 0
  {
    ValueZeroIff(a);
    forall i | 0 <= i < |a| :: a[i] == 0
  }

  /** `bits`: scan from the most significant limb to the first nonzero one. */
  method Bits(a: Uint) returns (r: nat)
    ensures r == BitLength(Value(a))
    ensures r <= 64 * |a|
  {
    var i := |a|;
    while i > 0
      invariant 0 <= i <= |a|
      invariant forall k :: i <= k < |a| ==> a[k] == 0
    {
      i := i - 1;
      if a[i] != 0 {
        TopLimbBits(a, i);
        return 64 * (i + 1) - LeadingZeros(a[i]);
      }
    }
    ValueZero(a);
    return 0;
  }

  lemma TopLimbBits(a: seq<Limb>, i: nat)
    requires i < |a| && a[i] != 0
    requires forall k :: i < k < |a| ==> a[k] == 0
    ensures BitLength(Value(a)) == 64 * i + BitLength(a[i])
  {
    hide Pow2, BitLength;
    var b := BitLength(a[i]);
    ValueSplit(a, i);
    ValueDrop(a, i);
    ValueZero(a[i + 1..]);
    ValueBound(a[..i]);
    ScaleRange(Value(a[..i]), Modulus(i), a[i], Pow2(b - 1), Pow2(b));
    Pow2Add(64 * i, b - 1);
    Pow2Add(64 * i, b);
    BitLengthUnique(Value(a), 64 * i + b);
  }

  lemma ScaleRange(low: nat, m: nat, x: nat, lo: nat, hi: nat)
    requires low < m && lo <= x < hi
    ensures m * lo <= low + m * x < m * hi
  {
    MulMono(m, lo, x);
    MulMono(m, x + 1, hi);
    assert m * (x + 1) == m * x + m;
  }

  datatype Ordering = Less | Equal | Greater

  /** `Ord::cmp`: lexicographic from the most significant limb. */
  function Compare(a: seq<Limb>, b: seq<Limb>): (o: Ordering)
    requires |a| == |b|
    ensures o.Less? <==> Value(a) < Value(b)
    ensures o.Equal? <==> Value(a) == Value(b)
    ensures o.Greater? <==> Value(a) > Value(b)
  {
    if |a| == 0 then Equal
    else
      var n := |a| - 1;
      ValueBound(a[..n]); ValueBound(b[..n]);
      if a[n] < b[n] then TopDecides(Value(a[..n]), a[n], Value(b[..n]), b[n], Modulus(n)); Less
      else if a[n] > b[n] then TopDecides(Value(b[..n]), b[n], Value(a[..n]), a[n], Modulus(n)); Greater
      else Compare(a[..n], b[..n])
  }

  lemma TopDecides(u: nat, x: nat, v: nat, y: nat, m: nat)
    requires u < m && x < y
    ensures u + x * m < v + y * m
  {
    MulMono(m, x + 1, y);
    assert m * (x + 1) == x * m + m;
  }

  /** The weight of a carry or borrow out of n limbs. */
  ghost function Carried(n: nat, carry: bool): nat {
    if carry then Modulus(n) else 0
  }

  method OverflowingAdd(a: Uint, b: Uint) returns (r: Uint, carry: bool)
    requires |a| == |b|
    ensures |r| == |a|
    ensures Value(r) + Carried(|a|, carry) == Value(a) + Value(b)
  {
    hide Pow2, Modulus, Value, CarryingAdd;
    var n := |a|;
    var buf := new Limb[n](i requires 0 <= i < n => a[i]);
    carry := false;
    ValueZero(buf[..0]); ValueZero(a[..0]); ValueZero(b[..0]);
    for i := 0 to n
      invariant forall k :: i <= k < n ==> buf[k] == a[k]
      invariant Value(buf[..i]) + Carried(i, carry) == Value(a[..i]) + Value(b[..i])
    {
      ghost var done, c := buf[..i], carry;
      var (x, carryOut) := CarryingAdd(buf[i], b[i], carry);
      buf[i] := x;
      carry := carryOut;
      assert buf[..i + 1] == done + [x];
      CarryChain(done, a, b, i, x, c, carry);
    }
    r := buf[..];
    assert buf[..n] == buf[..] && a[..n] == a && b[..n] == b;
  }

  /** One limb of a carry chain. */
  lemma CarryChain(done: seq<Limb>, a: seq<Limb>, b: seq<Limb>, i: nat, x: Limb, c: bool, c': bool)
    requires i == |done| < |a| == |b|
    requires x + W * ToWord(c') == a[i] + b[i] + ToWord(c)
    requires Value(done) + Carried(i, c) == Value(a[..i]) + Value(b[..i])
    ensures Value(done + [x]) + Carried(i + 1, c') == Value(a[..i + 1]) + Value(b[..i + 1])
  {
    ValueSnoc(done, x);
    ValueTake(a, i); ValueTake(b, i);
    ModulusStep(i);
    CarryStep(Modulus(i), W, x, ToWord(c'), a[i], b[i], ToWord(c));
  }

  lemma CarryStep(m: int, w: int, x: int, c': int, a: int, b: int, c: int)
    requires x + w * c' == a + b + c
    ensures x * m + (w * m) * c' == a * m + b * m + m * c
  {
    assert (x + w * c') * m == (a + b + c) * m;
    assert (w * c') * m == (w * m) * c';
  }

  /** `overflowing_add_u64`: stops at the first limb that absorbs the carry. */
  method OverflowingAddU64(a: Uint, other: Limb) returns (r: Uint, carry: bool)
    ensures |r| == |a|
    ensures Value(r) + Carried(|a|, carry) == Value(a) + other
  {
    hide Pow2, Value, Carried, Modulus, AddWords;
    var n := |a|;
    var buf := new Limb[n](i requires 0 <= i < n => a[i]);
    var (x, c) := AddWords(buf[0], other);
    buf[0], carry := x, c;
    var i := 1;
    ghost var b := FromU64(n, other);
    assert buf[..1] == [x];
    CarryStart(a, b, x, carry);
    while i < n && carry
      invariant 1 <= i <= n
      invariant buf[i..] == a[i..]
      invariant Value(buf[..i]) + Carried(i, carry) == Value(a[..i]) + Value(b[..i])
    {
      ghost var done := buf[..i];
      var (y, c) := AddWords(buf[i], 1);
      buf[i], carry := y, c;
      assert buf[..i + 1] == done + [y];
      CarryChain(done, a, b, i, y, true, carry);
      i := i + 1;
    }
    r := buf[..];
    assert r[..i] == buf[..i] && r[i..] == a[i..];
    UntouchedTop(r, a, b, i, carry);
  }

  lemma CarryStart(a: Uint, b: Uint, x: Limb, c: bool)
    requires |a| == |b| && x as nat + W * ToWord(c) == a[0] as nat + b[0] as nat
    ensures Value([x]) + Carried(1, c) == Value(a[..1]) + Value(b[..1])
  {
    CarryChain([], a, b, 0, x, false, c);
    assert [] + [x] == [x];
  }

  /** Limbs above the point where the carry died are those of the operand. */
  lemma UntouchedTop(r: seq<Limb>, a: seq<Limb>, b: seq<Limb>, i: nat, c: bool)
    requires 0 < i <= |r| == |a| == |b| && r[i..] == a[i..]
    requires forall k :: i <= k < |b| ==> b[k] == 0
    requires i < |a| ==> !c
    requires Value(r[..i]) + Carried(i, c) == Value(a[..i]) + Value(b[..i])
    ensures Value(r) + Carried(|a|, c) == Value(a) + Value(b)
  {
    hide Pow2, Modulus, Value;
    if i == |a| {
      assert r[..i] == r && a[..i] == a && b[..i] == b;
    } else {
      ZeroTop(b, i);
      SameTop(r, a, i);
    }
  }

  lemma SameTop(r: seq<Limb>, a: seq<Limb>, i: nat)
    requires i <= |r| == |a| && r[i..] == a[i..]
    ensures Value(r) - Value(r[..i]) == Value(a) - Value(a[..i])
  {
    hide Pow2, Value;
    ValueSplit(r, i);
    ValueSplit(a, i);
  }

  lemma ZeroTop(b: seq<Limb>, i: nat)
    requires i <= |b| && forall k :: i <= k < |b| ==> b[k] == 0
    ensures Value(b) == Value(b[..i])
  {
    ValueSplit(b, i);
    ValueZero(b[i..]);
  }

  method OverflowingSub(a: Uint, b: Uint) returns (r: Uint, borrow: bool)
    requires |a| == |b|
    ensures |r| == |a|
    ensures Value(r) - Carried(|a|, borrow) == Value(a) - Value(b)
    ensures borrow <==> Value(a) < Value(b)
  {
    hide Pow2, Modulus, Value, BorrowingSub;
    var n := |a|;
    var buf := new Limb[n](i requires 0 <= i < n => a[i]);
    borrow := false;
    ValueZero(buf[..0]); ValueZero(a[..0]); ValueZero(b[..0]);
    for i := 0 to n
      invariant forall k :: i <= k < n ==> buf[k] == a[k]
      invariant Value(buf[..i]) - Carried(i, borrow) == Value(a[..i]) - Value(b[..i])
    {
      ghost var done, c := buf[..i], borrow;
      var (x, borrowOut) := BorrowingSub(buf[i], b[i], borrow);
      buf[i] := x;
      borrow := borrowOut;
      assert buf[..i + 1] == done + [x];
      BorrowChain(done, a, b, i, x, c, borrow);
    }
    r := buf[..];
    assert buf[..n] == buf[..] && a[..n] == a && b[..n] == b;
    ValueBound(r);
  }

  lemma BorrowChain(done: seq<Limb>, a: seq<Limb>, b: seq<Limb>, i: nat, x: Limb, c: bool, c': bool)
    requires i == |done| < |a| == |b|
    requires x - W * ToWord(c') == a[i] - b[i] - ToWord(c)
    requires Value(done) - Carried(i, c) == Value(a[..i]) - Value(b[..i])
    ensures Value(done + [x]) - Carried(i + 1, c') == Value(a[..i + 1]) - Value(b[..i + 1])
  {
    ValueSnoc(done, x);
    ValueTake(a, i); ValueTake(b, i);
    ModulusStep(i);
    BorrowStep(Modulus(i), W, x, ToWord(c'), a[i], b[i], ToWord(c));
  }

  lemma BorrowStep(m: int, w: int, x: int, c': int, a: int, b: int, c: int)
    requires x - w * c' == a - b - c
    ensures x * m - (w * m) * c' == a * m - b * m - m * c
  {
    assert (x - w * c') * m == (a - b - c) * m;
    assert (w * c') * m == (w * m) * c';
  }

  /** `carrying_mul_u64`: the product, with the word that does not fit. */
  method CarryingMulU64(a: Uint, other: Limb) returns (r: Uint, carry: Limb)
    ensures |r| == |a|
    ensures Value(r) + Modulus(|a|) * carry == Value(a) * other
  {
    hide Pow2;
    var n := |a|;
    var buf := new Limb[n](i requires 0 <= i < n => a[i]);
    var c: nat := 0;
    for i := 0 to n
      invariant forall k :: i <= k < n ==> buf[k] == a[k]
      invariant c < W
      invariant Value(buf[..i]) + Modulus(i) * c == Value(a[..i]) * other
    {
      ghost var done := buf[..i];
      MulMono(other, 0, buf[i]);
      var p: nat := c + other * buf[i];
      MulChain(done, a, i, other, c, p);
      buf[i] := p % W;
      c := p / W % W;
      assert buf[..i + 1] == done + [p % W];
    }
    r, carry := buf[..], c;
    assert buf[..n] == buf[..] && a[..n] == a;
  }

  /** One partial product with two words added stays below 2^128. */
  lemma ProductFits(x: Limb, y: Limb, z: Limb, c: Limb)
    ensures x * y + z + c < W * W
  {
    MulMono(x, y, W - 1);
    MulMono(W - 1, x, W - 1);
  }

  lemma MulChain(done: seq<Limb>, a: seq<Limb>, i: nat, other: Limb, c: Limb, p: nat)
    requires i == |done| < |a|
    requires p == c + other * a[i]
    requires Value(done) + Modulus(i) * c == Value(a[..i]) * other
    ensures p < W * W && p / W % W == p / W
    ensures Value(done + [p % W]) + Modulus(i + 1) * (p / W) == Value(a[..i + 1]) * other
  {
    ProductFits(other, a[i], c, 0);
    ValueSnoc(done, p % W);
    ValueTake(a, i);
    ModulusStep(i);
    MulStep(Modulus(i), W, p, c, a[i], other, Value(a[..i]));
  }

  lemma MulStep(m: int, w: int, p: int, c0: int, a: int, b: int, v: int)
    requires w > 0 && p == c0 + b * a && 0 <= p < w * w
    ensures p / w % w == p / w
    ensures p % w * m + (w * m) * (p / w) + v * b == m * c0 + (v + a * m) * b
  {
    var q, r := p / w, p % w;
    assert p == q * w + r;
    if q >= w { MulMono(w, w, q); }
    assert q >= 0 by { if q < 0 { MulMono(w, q, -1); } }
    DivModUnique(q, w, 0, q);
    assert r * m + (w * m) * q == (q * w + r) * m;
    assert (c0 + b * a) * m == m * c0 + (a * m) * b;
    assert (v + a * m) * b == v * b + (a * m) * b;
  }

  method OverflowingMulU64(a: Uint, other: Limb) returns (r: Uint, overflow: bool)
    ensures |r| == |a|
    ensures Value(r) == Value(a) * other % Modulus(|a|)
    ensures overflow <==> Value(a) * other >= Modulus(|a|)
  {
    var carry: Limb;
    r, carry := CarryingMulU64(a, other);
    overflow := carry != 0;
    ValueBound(r);
    DivModUnique(Value(a) * other, Modulus(|a|), carry, Value(r));
    MulMono(Modulus(|a|), if carry == 0 then 0 else 1, carry);
  }

  /** `div_rem_u64`: short division from the most significant limb. */
  method DivRemU64(a: Uint, other: Limb) returns (q: Uint, rem: Limb)
    requires other != 0
    ensures |q| == |a|
    ensures Value(a) == Value(q) * other + rem && rem < other
  {
    hide Pow2, BitOr;
    var n := |a|;
    var buf := new Limb[n](i requires 0 <= i < n => a[i]);
    rem := 0;
    var i := n;
    while i > 0
      invariant 0 <= i <= n
      invariant forall k :: 0 <= k < i ==> buf[k] == a[k]
      invariant rem < other
      invariant Value(a[i..]) == Value(buf[i..]) * other + rem
    {
      i := i - 1;
      ghost var done := buf[i + 1..];
      var d: nat := BitOr(rem * W, buf[i]);
      DivChain(done, a, i, other, rem, d);
      buf[i] := d / other;
      rem := d % other;
      assert buf[i..] == [d / other] + done;
    }
    q := buf[..];
    assert buf[0..] == q && a[0..] == a;
  }

  lemma DivChain(done: seq<Limb>, a: seq<Limb>, i: nat, other: Limb, rem: Limb, d: nat)
    requires i < |a| == i + 1 + |done|
    requires rem < other && d == BitOr(rem * W, a[i])
    requires Value(a[i + 1..]) == Value(done) * other + rem
    ensures 0 <= d / other < W && 0 <= d % other < W
    ensures Value(a[i..]) == Value([d / other as Limb] + done) * other + d % other
  {
    hide Pow2, BitOr;
    JoinWords(rem, a[i]);
    DivFits(d, other, rem, a[i], W);
    DivModIdentity(d, other);
    var y: Limb := d / other;
    var t := [y] + done;
    assert t[0..] == t && t[1..] == done;
    ValueDrop(a, i);
    ValueDrop(t, 0);
    DivStep(W, Value(done), other, rem, a[i], y, d % other);
  }

  /** Putting one word above another is a sum. */
  lemma JoinWords(high: nat, low: Limb)
    ensures BitOr(high * W, low) == high * W + low
  {
    Pow64();
    DivModUnique(high * W, W, high, 0);
    BitOrDisjoint(high * W, low, 64);
  }

  lemma DivFits(d: nat, other: nat, rem: nat, x: nat, w: nat)
    requires rem < other && x < w && d == rem * w + x
    ensures 0 <= d / other < w
  {
    MulMono(w, rem + 1, other);
    assert w * (rem + 1) == rem * w + w;
    if d / other >= w {
      MulMono(other, w, d / other);
    }
  }

  lemma DivStep(w: int, q: int, d: int, rem0: int, x: int, y: int, rem: int)
    requires rem0 * w + x == y * d + rem
    ensures x + w * (q * d + rem0) == (y + w * q) * d + rem
  {
    assert w * (q * d) == (w * q) * d;
  }
}
