/** The "compact bits" form of 256-bit difficulty targets: one size byte and a
    mantissa of 23 bits. */
module CompactTarget {
  import opened Powers
  import opened Limbs
  import opened Words
  import opened UintBasics
  import opened UintShift

  const P8: nat := 0x100
  const P23: nat := 0x80_0000
  const P24: nat := 0x100_0000
  const P32: nat := 0x1_0000_0000

  /** The target a compact form stands for. The shift wraps at 256 as `<<` does in
      release builds, and a mantissa with the sign bit set reads as zero. */
  ghost function Decode(c: nat): nat {
    var size, word := c / P24, c % P24;
    var mant := if size <= 3 then word / Pow2(8 * (3 - size)) else word;
    var expt := if size <= 3 then 0 else 8 * (size - 3);
    if mant >= P23 then 0 else mant * Pow2(expt % 256) % Pow2(256)
  }

  /** The decoder told from the size byte s, the sign bit and the word w: for s at least 3 a
      set sign bit reads as zero and the word counts 256^(s - 3), wrapping at 32 bytes; below
      3 the word loses its lowest 3 - s bytes. */
  lemma DecodeByBits(c: nat)
    ensures var s, w, sign := c / 0x100_0000, c % 0x100_0000, c / 0x80_0000 % 2 == 1;
            && (s >= 3 && sign ==> Decode(c) == 0)
            && (s >= 3 && !sign ==> Decode(c) == w * Pow2(8 * ((s - 3) % 32)) % Pow2(256))
            && (3 <= s <= 34 && !sign ==> Decode(c) == w * Pow2(8 * (s - 3)) % Pow2(256))
            && (s < 3 ==> Decode(c) == w / Pow2(8 * (3 - s)))
  {
    hide Pow2;
    var s, w := c / P24, c % P24;
    SignIsTop(c);
    if s >= 3 {
      Pow2Zero();
      WrapBytes(s - 3);
      if s == 3 { assert w / 1 == w; }
    } else {
      PowersHere();
      var q := Pow2(8 * (3 - s));
      Pow2Mono(8, 8 * (3 - s));
      DivShrinks(w, q);
      FewBytes(w, q);
      Pow2Zero();
      Pow2Mono(24, 256);
      SmallMod(w / q, Pow2(256));
    }
  }

  lemma SignIsTop(c: nat)
    ensures c / P23 % 2 == 1 <==> c % P24 >= P23
  {
    var s, w := c / P24, c % P24;
    var b := if w >= P23 then 1 else 0;
    DivModUnique(c, P23, 2 * s + b, w - b * P23);
  }

  lemma FewBytes(w: nat, q: nat)
    requires w < P24 && q >= P8
    ensures 0 <= w / q < P23
  {
    DivModIdentity(w, q);
    if w / q >= P23 { MulMono(w / q, P8, q); }
  }

  /** The number of bytes of t with room for a sign bit. */
  ghost function Size(t: nat): nat {
    if t == 0 then 0 else BitLength(t) / 8 + 1
  }

  /** t times 256^(3 - size), rounded down. */
  ghost function Scaled(t: nat, size: nat): nat {
    if size <= 3 then
      var p := Pow2(8 * (3 - size)); MulNonneg(t, p); t * p
    else
      var p := Pow2(8 * (size - 3)); DivShrinks(t, p); t / p
  }

  /** t scaled so that its topmost bytes fill the mantissa. */
  ghost function Mantissa(t: nat): nat {
    Scaled(t, Size(t))
  }

  /** What `compact_target_bits` returns, in closed form. */
  ghost function Encode(t: nat): nat {
    Size(t) * P24 + Mantissa(t)
  }

  /** The truncation step: the weight of the lowest mantissa bit. */
  ghost function Step(t: nat): (p: nat)
    ensures p > 0
  {
    if Size(t) <= 3 then 1 else Pow2(8 * (Size(t) - 3))
  }

  method FromCompactTargetBits(bits: nat) returns (r: Uint)
    requires bits < P32
    ensures |r| == 4 && Value(r) == Decode(bits)
    ensures bits / 0x100_0000 >= 3 && bits / 0x80_0000 % 2 == 1 ==> Value(r) == 0
    ensures bits / 0x80_0000 % 2 == 0 && 3 <= bits / 0x100_0000 <= 34 ==>
              Value(r) == bits % 0x100_0000 * Pow2(8 * (bits / 0x100_0000 - 3)) % Pow2(256)
    ensures bits / 0x80_0000 % 2 == 0 && bits / 0x100_0000 > 34 ==>
              Value(r) == bits % 0x100_0000 * Pow2(8 * ((bits / 0x100_0000 - 3) % 32)) % Pow2(256)
    ensures bits / 0x100_0000 < 3 ==> Value(r) == bits % 0x100_0000 / Pow2(8 * (3 - bits / 0x100_0000))
  {
    hide Value, Pow2;
    DecodeByBits(bits);
    var unshifted := bits / P24;
    var mant: nat, expt: nat;
    if unshifted <= 3 {
      DivShrinks(bits % P24, Pow2(8 * (3 - unshifted)));
      mant, expt := bits % P24 / Pow2(8 * (3 - unshifted)), 0;
    } else {
      mant, expt := bits % P24, 8 * (bits / P24 - 3);
    }
    if mant > 0x7F_FFFF {
      r := FromU64(4, 0);
    } else {
      var overflow: bool;
      r, overflow := OverflowingShl(FromU64(4, mant), expt);
    }
  }

  method CompactTargetBits(t: Uint) returns (c: nat)
    requires |t| == 4
    ensures c == Encode(Value(t)) && c < P32
  {
    hide Value, Pow2, BitOr, Size, Mantissa, BitLength, Scaled, ShlWord, Modulus;
    var bits := Bits(t);
    var size := (bits + 7) / 8;
    var compact: nat;
    if size <= 3 {
      SizeFits(Value(t), size);
      LowWord(t, 8 * size);
      SmallWord(t[0], size);
      compact := ShlWord(t[0], 8 * (3 - size)) % P32;
    } else {
      var bn, _ := OverflowingShr(t, 8 * (size - 3));
      TopBytes(Value(t), size, Value(bn));
      LowWord(bn, 24);
      compact := bn[0] % P32;
    }
    SignBit(Value(t), size, compact);
    if compact / P23 % 2 != 0 {
      compact := compact / P8;
      size := size + 1;
    }
    JoinSize(compact, size);
    c := BitOr(compact, size * P24);
  }

  lemma PowersHere()
    ensures Pow2(8) == P8 && Pow2(23) == P23 && Pow2(24) == P24 && Pow2(32) == P32
  {
    hide Pow2;
    SmallPowers();
    Pow2Add(8, 16);
    Pow2Add(8, 24);
    Pow2Next(23);
  }

  lemma LowWord(a: Uint, bits: nat)
    requires Value(a) < Pow2(bits) && bits <= 64
    ensures Value(a) == a[0]
  {
    Pow64();
    Pow2Mono(bits, 64);
    ValueDrop(a, 0);
    assert a[0..] == a;
    var high := Value(a[1..]);
    if high > 0 { MulMono(W, 1, high); }
  }

  lemma SizeFits(v: nat, size: nat)
    requires size == (BitLength(v) + 7) / 8
    ensures v < Pow2(8 * size)
  {
    Pow2Mono(BitLength(v), 8 * size);
  }

  lemma SmallWord(x: Limb, size: nat)
    requires size <= 3 && x < Pow2(8 * size)
    ensures ShlWord(x, 8 * (3 - size)) % P32 == Scaled(x, size)
  {
    hide Pow2;
    var p := Pow2(8 * (3 - size));
    PowersHere();
    Pow2Add(8 * size, 8 * (3 - size));
    assert 8 * size + 8 * (3 - size) == 24;
    MulNonneg(x, p);
    MulStrict(p, x, Pow2(8 * size));
    SmallMod(x * p, W);
    SmallMod(x * p, P32);
  }

  lemma {:induction false} ShiftUpLength(t: nat, k: nat)
    requires t > 0
    ensures t * Pow2(k) > 0 && BitLength(t * Pow2(k)) == BitLength(t) + k
  {
    hide Pow2, BitLength;
    var L, p := BitLength(t), Pow2(k);
    Pow2Add(L - 1, k);
    Pow2Add(L, k);
    ProductRange(t, p, Pow2(L - 1), Pow2(L));
    BitLengthUnique(t * p, L + k);
  }

  lemma ProductRange(t: nat, p: nat, lo: nat, hi: nat)
    requires 0 < p && 0 < t && lo <= t < hi
    ensures 0 < t * p && lo * p <= t * p < hi * p
  {
    MulMono(p, 1, t);
    MulMono(p, lo, t);
    MulStrict(p, t, hi);
  }

  lemma ShiftDownLength(t: nat, k: nat)
    requires k < BitLength(t)
    ensures BitLength(t / Pow2(k)) == BitLength(t) - k
  {
    hide Pow2, BitLength;
    var L, p := BitLength(t), Pow2(k);
    Pow2Add(L - 1 - k, k);
    Pow2Add(L - k, k);
    QuotientRange(t, p, Pow2(L - 1 - k), Pow2(L - k));
    BitLengthUnique(t / p, L - k);
  }

  lemma QuotientRange(t: nat, p: nat, lo: nat, hi: nat)
    requires p > 0 && lo * p <= t < hi * p
    ensures lo <= t / p < hi
  {
    DivModIdentity(t, p);
    if t / p < lo { MulStrict(p, t / p, lo); }
    if t / p >= hi { MulMono(p, hi, t / p); }
  }

  /** With room for all its bytes, t fills exactly the mantissa. */
  lemma ScaledLength(t: nat, size: nat)
    requires t > 0 && 8 * size <= BitLength(t) + 8 && BitLength(t) <= 8 * size
    ensures BitLength(Scaled(t, size)) == BitLength(t) + 24 - 8 * size
  {
    if size <= 3 {
      ShiftUpLength(t, 8 * (3 - size));
    } else {
      ShiftDownLength(t, 8 * (size - 3));
    }
  }

  lemma TopBytes(v: nat, size: nat, bn: nat)
    requires size == (BitLength(v) + 7) / 8 && 3 < size <= 32
    requires bn == v / Pow2(8 * (size - 3) % 256)
    ensures bn == Scaled(v, size) && bn < Pow2(24) && bn % P32 == bn
  {
    PowersHere();
    hide Pow2, BitLength;
    ScaledLength(v, size);
    Pow2Mono(BitLength(Scaled(v, size)), 24);
  }

  /** The bit tested before returning tells whether the top byte of t has its high
      bit set, and dropping one byte then gives the canonical size and mantissa. */
  lemma SignBit(v: nat, size: nat, compact: nat)
    requires size == (BitLength(v) + 7) / 8 <= 32 && compact == Scaled(v, size)
    ensures compact < P24
    ensures compact / P23 % 2 != 0 ==> Size(v) == size + 1 && Mantissa(v) == compact / P8
    ensures compact / P23 % 2 == 0 ==> Size(v) == size && Mantissa(v) == compact
  {
    hide Pow2, BitLength, Scaled;
    PowersHere();
    if v == 0 {
      ScaledZero(size);
    } else {
      var L, b := BitLength(v), BitLength(compact);
      ScaledLength(v, size);
      Pow2Mono(b, 24);
      if b < 24 {
        Pow2Mono(b, 23);
        assert compact / P23 == 0;
      } else {
        assert compact / P23 == 1;
        OneByteLess(v, size);
      }
    }
  }

  lemma ScaledZero(size: nat)
    ensures Scaled(0, size) == 0
  {
    hide Pow2;
  }

  lemma OneByteLess(v: nat, size: nat)
    requires v > 0 && size > 0
    ensures Scaled(v, size + 1) == Scaled(v, size) / P8
  {
    hide Pow2;
    PowersHere();
    if size < 3 {
      Pow2Add(8, 8 * (2 - size));
      var q := v * Pow2(8 * (2 - size));
      assert v * Pow2(8 * (3 - size)) == q * P8 by {
        MulSwap(v, P8, Pow2(8 * (2 - size)));
      }
      MulNonneg(v, Pow2(8 * (2 - size)));
      DivModUnique(q * P8, P8, q, 0);
    } else if size == 3 {
      assert v * Pow2(0) == v by { Pow2Zero(); }
    } else {
      Pow2Add(8 * (size - 3), 8);
      DivDiv(v, Pow2(8 * (size - 3)), P8);
    }
  }

  lemma Pow2Zero()
    ensures Pow2(0) == 1
  {
  }

  lemma JoinSize(compact: nat, size: nat)
    requires compact < P24
    ensures BitOr(compact, size * P24) == size * P24 + compact
  {
    hide Pow2;
    PowersHere();
    DivModUnique(size * P24, P24, size, 0);
    BitOrComm(compact, size * P24);
    BitOrDisjoint(size * P24, compact, 24);
  }

  /** The encoder's output is well formed: the size byte is at most 33, so that the
      decoder shifts by less than 256, and the mantissa never has the sign bit set. */
  lemma Canonical(t: nat)
    requires t < Pow2(256)
    ensures Encode(t) / P24 == Size(t) <= 33
    ensures Encode(t) % P24 == Mantissa(t) < P23
    ensures Size(t) > 3 ==> Mantissa(t) >= 0x8000
  {
    hide Pow2, BitLength;
    PowersHere();
    if t > 0 {
      var L, s := BitLength(t), Size(t);
      if L > 256 { Pow2Mono(256, L - 1); }
      ScaledLength(t, s);
      var m := Mantissa(t);
      Pow2Mono(BitLength(m), 23);
      if m > 0 { Pow2Mono(15, BitLength(m) - 1); }
      assert Pow2(15) == 0x8000 by { SmallPowers(); Pow2Next(15); }
    }
    DivModUnique(Encode(t), P24, Size(t), Mantissa(t));
  }

  /** Encoding and decoding truncates to a multiple of the step. */
  lemma RoundTrip(t: nat)
    requires t < Pow2(256)
    ensures Decode(Encode(t)) == t / Step(t) * Step(t)
    ensures Decode(Encode(t)) <= t < Decode(Encode(t)) + Step(t)
  {
    hide Pow2, BitLength, Size;
    Canonical(t);
    DivModIdentity(t, Step(t));
    var s := Size(t);
    if s <= 3 {
      var p := Pow2(8 * (3 - s));
      DivModUnique(t * p, p, t, 0);
      Pow2Zero();
      SmallMod(t, Pow2(256));
      assert t / 1 * 1 == t;
    } else {
      DivShrinks(t, Step(t));
      MulNonneg(t / Step(t), Step(t));
      SmallMod(t / Step(t) * Step(t), Pow2(256));
    }
  }

  /** Everything the decoder can produce is a mantissa of 23 bits times a power of 256,
      also when the shift wraps. */
  lemma DecodedForm(c: nat) returns (m: nat, k: nat)
    ensures m < P23 && Decode(c) == m * Pow2(8 * k)
  {
    hide Pow2;
    var size, word := c / P24, c % P24;
    if size <= 3 { DivShrinks(word, Pow2(8 * (3 - size))); }
    var mant: nat := if size <= 3 then word / Pow2(8 * (3 - size)) else word;
    var bytes := if size <= 3 then 0 else size - 3;
    if mant >= P23 {
      m, k := 0, 0;
    } else {
      k := bytes % 32;
      WrapBytes(bytes);
      m := ShiftedForm(mant, k);
      assert Decode(c) == mant * Pow2(8 * bytes % 256) % Pow2(256);
    }
  }

  lemma WrapBytes(b: nat)
    ensures 8 * b % 256 == 8 * (b % 32)
  {
    DivModIdentity(b, 32);
    DivModUnique(8 * b, 256, b / 32, 8 * (b % 32));
  }

  /** A shift that stays below 256 bits cuts the mantissa, it does not mix it. */
  lemma ShiftedForm(mant: nat, k: nat) returns (m: nat)
    requires k < 32
    ensures m <= mant && mant * Pow2(8 * k) % Pow2(256) == m * Pow2(8 * k)
  {
    hide Pow2;
    var p, q := Pow2(8 * k), Pow2(256 - 8 * k);
    Pow2Add(8 * k, 256 - 8 * k);
    m := mant % q;
    CutTop(mant, p, q);
  }

  lemma CutTop(x: nat, p: nat, q: nat)
    requires p > 0 && q > 0 && p * q > 0
    ensures x * p % (p * q) == x % q * p
    ensures x % q <= x
  {
    var h, r := x / q, x % q;
    DivModIdentity(x, q);
    MulNonneg(h, q);
    assert (h * q + r) * p == h * (p * q) + r * p;
    MulNonneg(r, p);
    MulStrict(p, r, q);
    DivModUnique(x * p, p * q, h, r * p);
  }

  /** Of all targets with a compact form, the one that `compact_target_bits` chooses
      is the greatest that does not exceed t. */
  lemma GreatestRepresentable(t: nat, c: nat)
    requires t < Pow2(256) && Decode(c) <= t
    ensures Decode(c) <= Decode(Encode(t))
  {
    hide Pow2, BitLength, Size, Decode, Encode, Scaled;
    RoundTrip(t);
    Canonical(t);
    var m, k := DecodedForm(c);
    var s := Size(t);
    if s > 3 {
      if k >= s - 3 {
        Pow2Add(8 * (k - (s - 3)), 8 * (s - 3));
        MultipleBelow(m, Pow2(8 * (k - (s - 3))), Step(t), Pow2(8 * k), t);
      } else {
        SmallerExponent(t, m, k);
      }
    } else {
      assert Step(t) == 1;
    }
  }

  lemma MultipleBelow(m: nat, x: nat, p: nat, xp: nat, t: nat)
    requires p > 0 && xp == x * p && m * xp <= t
    ensures m * xp <= t / p * p
  {
    assert m * xp == (m * x) * p;
    DivModIdentity(t, p);
    if t / p < m * x { MulStrict(p, t / p, m * x); }
    MulMono(p, m * x, t / p);
  }

  lemma SmallerExponent(t: nat, m: nat, k: nat)
    requires t < Pow2(256) && m < P23 && k + 4 <= Size(t)
    ensures m * Pow2(8 * k) <= t / Step(t) * Step(t)
  {
    hide Pow2, BitLength, Size, Encode;
    Canonical(t);
    PowersHere();
    var s := Size(t);
    var p := Step(t);
    Pow2Mono(8 * k, 8 * (s - 4));
    Pow2Add(8, 8 * (s - 4));
    MulMono(m, Pow2(8 * k), Pow2(8 * (s - 4)));
    MulMono(Pow2(8 * (s - 4)), m, P23);
    MulMono(p, 0x8000, t / p);
  }

  /** Lower targets never decode to higher ones. */
  lemma Monotone(t: nat, t': nat)
    requires t <= t' < Pow2(256)
    ensures Decode(Encode(t)) <= Decode(Encode(t'))
  {
    RoundTrip(t);
    GreatestRepresentable(t', Encode(t));
  }

  /** A target and its truncation have the same compact form. */
  lemma Idempotent(t: nat)
    requires t < Pow2(256)
    ensures Encode(Decode(Encode(t))) == Encode(t)
  {
    hide Pow2, BitLength, Decode;
    RoundTrip(t);
    var p, L := Step(t), BitLength(t);
    if Size(t) > 3 {
      var k := 8 * (Size(t) - 3);
      assert L - 1 >= k;
      Pow2Add(L - 1 - k, k);
      MultipleBelow(1, Pow2(L - 1 - k), p, Pow2(L - 1), t);
      BitLengthUnique(t / p * p, L);
      DivModUnique(t / p * p, p, t / p, 0);
    } else {
      assert t / 1 * 1 == t;
    }
  }
}
