/** The two-pass limb-stitching shifts. */
module UintShift {
  import opened Powers
  import opened Limbs
  import opened Words

  /** The limb at i of a left shift by words whole limbs and bits more bits. */
  ghost function ShlLimb(a: Uint, words: nat, bits: nat, i: nat): Limb
    requires bits < 64 && i < |a|
  {
    if i < words then 0
    else OrWord(ShlWord(a[i - words], bits), Spill(a, words, bits, i))
  }

  /** The bits the limb below i pushes up into limb i. */
  ghost function Spill(a: Uint, words: nat, bits: nat, i: nat): (r: Limb)
    requires bits < 64 && words <= i <= |a|
  {
    if i == words || bits == 0 then 0 else ShrWord(a[i - 1 - words], 64 - bits)
  }

  method OverflowingShl(a: Uint, s: nat) returns (r: Uint, overflow: bool)
    ensures |r| == |a|
    ensures overflow <==> s >= 64 * |a|
    ensures Value(r) == Value(a) * Pow2(s % (64 * |a|)) % Modulus(|a|)
  {
    hide Pow2, Value, Modulus;
    var t := s % (64 * |a|);
    overflow := s >= 64 * |a|;
    r := StitchLeft(a, t / 64, t % 64);
    assert 64 * (t / 64) + t % 64 == t;
  }

  /** The two passes, for whole limbs and for the bits that cross limbs. */
  method StitchLeft(a: Uint, words: nat, bits: nat) returns (r: Uint)
    requires words < |a| && bits < 64
    ensures |r| == |a| && Value(r) == Value(a) * Pow2(64 * words + bits) % Modulus(|a|)
  {
    hide Pow2, Value, OrWord, ShrWord, ShlWord, BitOr, Modulus;
    var n := |a|;
    var ret := new Limb[n](_ => 0);
    for i := words to n
      invariant forall k :: 0 <= k < words || i <= k < n ==> ret[k] == 0
      invariant forall k :: words <= k < i ==> ret[k] == ShlWord(a[k - words], bits)
    {
      ret[i] := ShlWord(a[i - words], bits);
    }
    if bits > 0 {
      var leftOver := 64 - bits;
      for i := words + 1 to n
        invariant forall k :: 0 <= k < words ==> ret[k] == 0
        invariant forall k :: words < k < i ==> ret[k] == ShlLimb(a, words, bits, k)
        invariant forall k :: words <= k < n && (k == words || i <= k) ==> ret[k] == ShlWord(a[k - words], bits)
      {
        ret[i] := OrWord(ret[i], ShrWord(a[i - 1 - words], leftOver));
      }
    }
    r := ret[..];
    forall k | 0 <= k < n ensures r[k] == ShlLimb(a, words, bits, k) {
      if k >= words { BitOrZero(ShlWord(a[k - words], bits)); }
    }
    ShlValue(a, r, words, bits);
  }

  /** Kept part and spilled part of one word. */
  lemma KeptAndSpilled(a: Uint, words: nat, bits: nat, i: nat)
    requires bits < 64 && words <= i < |a|
    ensures ShlLimb(a, words, bits, i) == ShlWord(a[i - words], bits) + Spill(a, words, bits, i)
    ensures ShlWord(a[i - words], bits) + W * Spill(a, words, bits, i + 1) == a[i - words] * Pow2(bits)
  {
    var x := a[i - words];
    if bits == 0 {
      BitOrZero(ShlWord(x, bits));
    } else {
      ShlHalves(x, bits);
      if i == words {
        BitOrZero(ShlWord(x, bits));
      } else {
        ShlHalves(a[i - 1 - words], bits);
        BitOrDisjoint(ShlWord(x, bits), Spill(a, words, bits, i), bits);
      }
    }
  }

  lemma {:induction false} ShlPrefix(a: Uint, r: Uint, words: nat, bits: nat, i: nat)
    requires |r| == |a| && bits < 64 && words <= i <= |a|
    requires forall k :: 0 <= k < |a| ==> r[k] == ShlLimb(a, words, bits, k)
    ensures Value(r[..i]) + Modulus(i) * Spill(a, words, bits, i) == Pow2(64 * words + bits) * Value(a[..i - words])
    decreases i
  {
    if i == words {
      ValueZero(r[..i]);
      assert Value(a[..0]) == 0;
    } else {
      hide Pow2, ShlLimb, Spill, Value, Modulus;
      ShlPrefix(a, r, words, bits, i - 1);
      assert r[..i] == r[..i - 1] + [ShlLimb(a, words, bits, i - 1)];
      ShlPrefixStep(a, r[..i - 1], r[..i], words, bits, i);
    }
  }

  lemma ShlPrefixStep(a: Uint, done: seq<Limb>, done': seq<Limb>, words: nat, bits: nat, i: nat)
    requires bits < 64 && words < i == |done| + 1 <= |a|
    requires done' == done + [ShlLimb(a, words, bits, i - 1)]
    requires Value(done) + Modulus(i - 1) * Spill(a, words, bits, i - 1)
          == Pow2(64 * words + bits) * Value(a[..i - 1 - words])
    ensures Value(done') + Modulus(i) * Spill(a, words, bits, i) == Pow2(64 * words + bits) * Value(a[..i - words])
  {
    hide Pow2, ShlWord, ShlLimb, Spill, Value, Modulus;
    var j, p := i - 1, Pow2(64 * words + bits);
    var x := a[j - words];
    KeptAndSpilled(a, words, bits, j);
    ValueSnoc(done, ShlLimb(a, words, bits, j));
    ValueTake(a, j - words);
    ModulusStep(j);
    WeightMoves(words, bits, j);
    ShlStep(Value(done), Modulus(j), W, Spill(a, words, bits, j), Spill(a, words, bits, i),
            ShlWord(x, bits), x, Pow2(bits), p, Value(a[..j - words]), Modulus(j - words),
            Value(done'), Modulus(i), Value(a[..i - words]));
  }

  lemma WeightMoves(words: nat, bits: nat, j: nat)
    requires words <= j
    ensures Modulus(j) * Pow2(bits) == Pow2(64 * words + bits) * Modulus(j - words)
  {
    hide Pow2;
    Pow2Add(64 * j, bits);
    Pow2Add(64 * words + bits, 64 * (j - words));
    assert 64 * words + bits + 64 * (j - words) == 64 * j + bits;
  }

  lemma ShlStep(v: int, m: int, w: int, s: int, s': int, kept: int, x: int, b: int, p: int, va: int, ma: int,
                v': int, m': int, va': int)
    requires v + m * s == p * va
    requires kept + w * s' == x * b
    requires m * b == p * ma
    requires v' == v + (kept + s) * m && m' == w * m && va' == va + x * ma
    ensures v' + m' * s' == p * va'
  {
    assert (kept + w * s') * m == (x * b) * m;
    assert (w * s') * m == (w * m) * s';
    assert (x * b) * m == x * (m * b);
    assert x * (p * ma) == p * (x * ma);
  }

  lemma ShlValue(a: Uint, r: Uint, words: nat, bits: nat)
    requires |r| == |a| && bits < 64 && words < |a|
    requires forall k :: 0 <= k < |a| ==> r[k] == ShlLimb(a, words, bits, k)
    ensures Value(r) == Value(a) * Pow2(64 * words + bits) % Modulus(|a|)
  {
    hide Pow2, ShlLimb, Spill;
    var n := |a|;
    ShlPrefix(a, r, words, bits, n);
    assert r[..n] == r;
    ValueSplit(a, n - words);
    ValueBound(r);
    Pow2Add(64 * words + bits, 64 * (n - words));
    Pow2Add(64 * n, bits);
    LostAbove(Value(r), Modulus(n), Spill(a, words, bits, n), Pow2(64 * words + bits),
              Value(a[..n - words]), Modulus(n - words), Value(a[n - words..]), Pow2(bits));
  }

  lemma LostAbove(v: nat, m: nat, s: nat, p: nat, low: nat, k: nat, high: nat, b: nat)
    requires v < m && v + m * s == p * low && p * k == m * b
    ensures m > 0 && (low + k * high) * p % m == v
  {
    assert (low + k * high) * p == p * low + (p * k) * high;
    assert (m * b) * high == m * (b * high);
    DivModUnique((low + k * high) * p, m, s + b * high, v);
  }

  /** The limb at j of a right shift. */
  ghost function ShrLimb(a: Uint, words: nat, bits: nat, j: nat): Limb
    requires bits < 64
  {
    if j + words >= |a| then 0
    else if bits == 0 || j + words + 1 == |a| then ShrWord(a[j + words], bits)
    else OrWord(ShrWord(a[j + words], bits), ShlWord(a[j + words + 1], 64 - bits))
  }

  method OverflowingShr(a: Uint, s: nat) returns (r: Uint, overflow: bool)
    ensures |r| == |a|
    ensures overflow <==> s >= 64 * |a|
    ensures Value(r) == Value(a) / Pow2(s % (64 * |a|))
  {
    hide Pow2, Value;
    var t := s % (64 * |a|);
    overflow := s >= 64 * |a|;
    r := StitchRight(a, t / 64, t % 64);
    assert 64 * (t / 64) + t % 64 == t;
  }

  /** The two passes, for whole limbs and for the bits that cross limbs. */
  method StitchRight(a: Uint, words: nat, bits: nat) returns (r: Uint)
    requires words < |a| && bits < 64
    ensures |r| == |a| && Value(r) == Value(a) / Pow2(64 * words + bits)
  {
    hide Pow2, Value, OrWord, ShrWord, ShlWord, BitOr;
    var n := |a|;
    var ret := new Limb[n](_ => 0);
    for i := words to n
      invariant forall k :: i - words <= k < n ==> ret[k] == 0
      invariant forall k :: 0 <= k < i - words ==> ret[k] == ShrWord(a[k + words], bits)
    {
      ret[i - words] := ShrWord(a[i], bits);
    }
    if bits > 0 {
      var leftOver := 64 - bits;
      for i := words + 1 to n
        invariant forall k :: n - words <= k < n ==> ret[k] == 0
        invariant forall k :: 0 <= k < i - words - 1 ==> ret[k] == ShrLimb(a, words, bits, k)
        invariant forall k :: i - words - 1 <= k < n - words ==> ret[k] == ShrWord(a[k + words], bits)
      {
        ghost var j := i - words - 1;
        assert a[i] == a[j + words + 1];
        ret[i - words - 1] := OrWord(ret[i - words - 1], ShlWord(a[i], leftOver));
        assert ret[j] == ShrLimb(a, words, bits, j);
      }
    }
    r := ret[..];
    assert forall k :: 0 <= k < n ==> r[k] == ShrLimb(a, words, bits, k);
    ShrValue(a, r, words, bits);
  }

  lemma ShrLimbSum(a: Uint, words: nat, bits: nat, j: nat)
    requires 0 < bits < 64 && j + words + 1 < |a|
    ensures ShrLimb(a, words, bits, j) == a[j + words] / Pow2(bits) + Pow2(64 - bits) * (a[j + words + 1] % Pow2(bits))
  {
    var x, y := a[j + words], a[j + words + 1];
    var p, c := Pow2(bits), Pow2(64 - bits);
    Pow64();
    Pow2Add(64 - bits, bits);
    ShlHalves(y, 64 - bits);
    Halves(x, c, p);
    DivModIdentity(y, p);
    CarriedDown(y, p, c, y / p, y % p);
    BitOrComm(ShrWord(x, bits), ShlWord(y, 64 - bits));
    BitOrDisjoint(ShlWord(y, 64 - bits), ShrWord(x, bits), 64 - bits);
  }

  lemma CarriedDown(y: int, p: int, c: int, q: int, r: int)
    requires y == q * p + r
    ensures y * c - (c * p) * q == c * r
  {
    assert (q * p) * c == (c * p) * q;
  }

  lemma {:induction false} ShrSuffix(a: Uint, r: Uint, words: nat, bits: nat, j: nat)
    requires |r| == |a| && bits < 64 && j + words < |a|
    requires forall k :: 0 <= k < |a| ==> r[k] == ShrLimb(a, words, bits, k)
    ensures Value(a[j + words..]) == Pow2(bits) * Value(r[j..]) + a[j + words] % Pow2(bits)
    decreases |a| - j
  {
    ValueDrop(a, j + words);
    ValueDrop(r, j);
    if j + words + 1 == |a| {
      ValueZero(r[j + 1..]);
      assert Value(a[j + words..]) == a[j + words];
      ShrTop(a[j + words], bits, Value(r[j..]));
    } else {
      ShrSuffix(a, r, words, bits, j + 1);
      ShrSuffixStep(a, words, bits, j, Value(a[j + words + 1..]), Value(r[j + 1..]), Value(a[j + words..]),
                    Value(r[j..]));
    }
  }

  lemma ShrTop(x: Limb, bits: nat, R: nat)
    requires bits < 64 && R == ShrWord(x, bits)
    ensures x == Pow2(bits) * R + x % Pow2(bits)
  {
    DivModIdentity(x, Pow2(bits));
  }

  lemma ShrSuffixStep(a: Uint, words: nat, bits: nat, j: nat, A': nat, R': nat, A: nat, R: nat)
    requires bits < 64 && j + words + 1 < |a|
    requires A' == Pow2(bits) * R' + a[j + words + 1] % Pow2(bits)
    requires A == a[j + words] + W * A' && R == ShrLimb(a, words, bits, j) + W * R'
    ensures A == Pow2(bits) * R + a[j + words] % Pow2(bits)
  {
    var x, p, limb := a[j + words], Pow2(bits), ShrLimb(a, words, bits, j);
    DivModIdentity(x, p);
    var q, r, t := x / p, x % p, a[j + words + 1] % p;
    var c := if bits == 0 then W else Pow2(64 - bits);
    assert limb == q + c * t by {
      if bits > 0 { ShrLimbSum(a, words, bits, j); }
    }
    assert p * c == W by {
      if bits > 0 { Pow64(); Pow2Add(bits, 64 - bits); }
    }
    ShrStep(x, p, c, W, q, r, t, limb, A', R', A, R);
  }

  lemma ShrStep(x: int, p: int, c: int, w: int, q: int, r: int, t: int, limb: int, A': int, R': int, A: int, R: int)
    requires x == q * p + r && p * c == w && limb == q + c * t
    requires A' == p * R' + t && A == x + w * A' && R == limb + w * R'
    ensures A == p * R + r
  {
    assert p * (c * t) == w * t;
    assert w * (p * R') == p * (w * R');
    assert w * A' == w * (p * R') + w * t;
    assert p * R == p * limb + p * (w * R');
    assert p * limb == p * q + p * (c * t);
  }

  lemma ShrValue(a: Uint, r: Uint, words: nat, bits: nat)
    requires |r| == |a| && bits < 64 && words < |a|
    requires forall k :: 0 <= k < |a| ==> r[k] == ShrLimb(a, words, bits, k)
    ensures Value(r) == Value(a) / Pow2(64 * words + bits)
  {
    hide Pow2, ShrLimb;
    var p := Pow2(bits);
    ShrSuffix(a, r, words, bits, 0);
    assert r[0..] == r;
    ValueSplit(a, words);
    ValueBound(a[..words]);
    DivModIdentity(a[words], p);
    Pow2Add(64 * words, bits);
    DropBelow(Value(a), Modulus(words), Value(a[..words]), Value(a[words..]), p, Value(r), a[words] % p);
  }

  lemma DropBelow(v: nat, m: nat, low: nat, high: nat, p: nat, q: nat, r: nat)
    requires low < m && r < p && v == low + m * high && high == p * q + r
    ensures m * p > 0 && v / (m * p) == q
  {
    DivModUnique(v, m, high, low);
    DivModUnique(high, p, q, r);
    DivDiv(v, m, p);
  }
}
