/** Conversion to binary64 with manual rounding. */
module UintFloat {
  import opened Powers
  import opened Limbs
  import opened Words
  import opened UintBasics
  import opened UintShift
  import opened Binary64

  /** `as_f64`, as a bit pattern. With more than 48 limbs, the widest instance, the
      exponent would no longer fit into the word at all. */
  method AsF64(a: Uint) returns (bits: Limb)
    requires |a| <= 48
    ensures RoundsTiesToEven(Value(a), bits) <==> Value(a) <= Pow2(1024) + Pow2(971)
    ensures |a| <= 16 ==> RoundsTiesToEven(Value(a), bits)
  {
    hide Value, Pow2, Units, RoundsTiesToEven, RoundedFrom, ShlWord, ShrWord, BitOr;
    var n := |a|;
    var length := Bits(a);
    var leadingZeroes := 64 * n - length;
    var leftAligned, _ := OverflowingShl(a, leadingZeroes);
    var top := leftAligned[n - 1];
    var mantissa := ShrWord(top, 11);
    var highestDroppedBits := ShlWord(top, 53);
    var highestDroppedBit := ShrWord(highestDroppedBits, 63) != 0;
    var rest := ShlWord(highestDroppedBits, 1);
    TopWord(top);
    for i := 0 to n - 1
      invariant rest == 0 <==> top % 1024 == 0 && forall k :: 0 <= k < i ==> leftAligned[k] == 0
    {
      rest := OrWord(rest, leftAligned[i]);
    }
    var higherThanHalf := highestDroppedBit && rest != 0;
    var exactlyHalfButMantissaOdd := highestDroppedBit && rest == 0 && mantissa % 2 == 1;
    mantissa := mantissa + ToWord(higherThanHalf || exactlyHalfButMantissaOdd);
    var exponent: Limb := if IsZero(a) then 0 else 64 * n + 1021 - leadingZeroes;
    ExponentWord(exponent);
    bits := ShlWord(exponent, 52) + mantissa;
    RestDropped(leftAligned, rest);
    Lattice(a, leftAligned, bits);
    CorrectIff(Value(a), FloorPattern(Value(a), top), bits);
    if n <= 16 { NarrowIsBelow(a); }
  }

  /** 2^1025 in the widest instance: the pattern returned is not the correctly rounded one. */
  method WrongPattern() returns (a: Uint, bits: Limb)
    ensures |a| == 48 && Value(a) == Pow2(1025) && !RoundsTiesToEven(Value(a), bits)
  {
    hide Value, Pow2, RoundsTiesToEven;
    var zero: Uint := seq(48, _ => 0);
    ValueZero(zero);
    a := zero[16 := 2];
    ValueUpdate(zero, 16, 2);
    Pow2Next(1024);
    Pow2Mono(971, 1023);
    Pow2Next(1023);
    assert Value(a) == Pow2(1025);
    bits := AsF64(a);
  }

  /** The pattern of the 53 leading bits, the others dropped. */
  ghost function FloorPattern(v: nat, top: Limb): nat {
    (if v == 0 then 0 else BitLength(v) + 1021) * P52 + top / 2048
  }

  lemma WordPowers()
    ensures Pow2(11) == 2048 && Pow2(52) == P52 && Pow2(53) == 2 * P52 && Pow2(63) == 2048 * P52 && W == 4096 * P52
  {
    hide Pow2;
    SmallPowers();
    P52IsPow2();
    Pow2Next(52);
    Pow2Next(8); Pow2Next(9); Pow2Next(10);
    Pow2Add(11, 52);
  }

  /** The word operations of steps 3 and 4. */
  lemma TopWord(top: Limb)
    ensures ShrWord(top, 11) == top / 2048 && top / 2048 < W - 1
    ensures ShrWord(ShlWord(top, 53), 63) != 0 <==> top % 2048 >= 1024
    ensures ShlWord(ShlWord(top, 53), 1) == 0 <==> top % 1024 == 0
  {
    hide Pow2, BitOr;
    WordPowers();
    SmallPowers();
    var t := top % 2048;
    ShiftedTop(top, t);
    HighAndRest(t, 2 * P52);
    LowTen(top);
    assert 1024 * (2 * P52) == 2048 * P52 && 1024 * (2 * (2 * P52)) == W;
    assert ShrWord(ShlWord(top, 53), 63) == t * (2 * P52) / (1024 * (2 * P52));
    assert ShlWord(ShlWord(top, 53), 1) == t * (2 * P52) * 2 % W;
  }

  /** Of eleven bits moved up, the highest and the others. */
  lemma HighAndRest(t: nat, u: nat)
    requires t < 2048 && u > 0
    ensures t * u / (1024 * u) == t / 1024
    ensures t * u * 2 % (1024 * (2 * u)) == t % 1024 * (2 * u)
  {
    var h, r := t / 1024, t % 1024;
    MulStrict(u, r, 1024);
    assert t * u == h * (1024 * u) + r * u;
    DivModUnique(t * u, 1024 * u, h, r * u);
    assert t * u * 2 == h * (1024 * (2 * u)) + r * (2 * u);
    DivModUnique(t * u * 2, 1024 * (2 * u), h, r * (2 * u));
  }

  lemma LowTen(x: nat)
    ensures x % 2048 == 1024 * (x / 1024 % 2) + x % 1024
    ensures x % 2048 % 1024 == x % 1024 && x % 2048 / 1024 == x / 1024 % 2
  {
    var q, b := x / 2048, x / 1024 % 2;
    assert x / 1024 == 2 * q + b by { DivDiv(x, 1024, 2); }
    assert x == 2048 * q + (1024 * b + x % 1024);
  }

  lemma ShiftedTop(top: Limb, t: nat)
    requires t == top % 2048
    ensures ShlWord(top, 53) == t * (2 * P52)
  {
    hide Pow2;
    WordPowers();
    assert top * (2 * P52) == (top / 2048) * W + t * (2 * P52);
    DivModUnique(top * (2 * P52), W, top / 2048, t * (2 * P52));
  }

  lemma ExponentWord(e: Limb)
    requires e <= 4093
    ensures ShlWord(e, 52) == e * P52
  {
    hide Pow2;
    WordPowers();
  }

  /** `rest` sees every dropped bit below the highest. */
  lemma RestDropped(la: Uint, rest: Limb)
    requires rest == 0 <==> la[|la| - 1] % 1024 == 0 && forall k :: 0 <= k < |la| - 1 ==> la[k] == 0
    ensures rest == 0 <==> la[|la| - 1] % 1024 == 0 && Value(la[..|la| - 1]) == 0
  {
    ValueZeroIff(la[..|la| - 1]);
  }

  /** Round up: more than half is dropped, or exactly half and the mantissa is odd. */
  ghost predicate RoundUp(top: Limb, low: nat) {
    top % 2048 >= 1024 && (top % 1024 != 0 || low != 0 || top / 2048 % 2 == 1)
  }

  /** What the loop computes is the rounding of the value on the lattice of patterns. */
  lemma Lattice(a: Uint, la: Uint, bits: nat)
    requires |la| == |a|
    requires BitLength(Value(a)) <= 64 * |a|
    requires Value(la) == Value(a) * Pow2((64 * |a| - BitLength(Value(a))) % (64 * |a|)) % Modulus(|a|)
    requires var top := la[|a| - 1];
             bits == FloorPattern(Value(a), top) + ToWord(RoundUp(top, Value(la[..|a| - 1])))
    ensures RoundedFrom(InUnits(Value(a)), FloorPattern(Value(a), la[|a| - 1]), bits)
  {
    hide Pow2, Units, Gap, RoundUp, BitLength, InUnits, RoundedFrom, Value;
    var n, v, top, low := |a|, Value(a), la[|a| - 1], Value(la[..|a| - 1]);
    if v == 0 {
      SmallMod(0, Modulus(n));
      LatticeZero(la);
    } else {
      assert low < Modulus(n - 1) && Value(la) == low + top * Modulus(n - 1) by {
        ValueTake(la, n - 1);
        assert la[..n] == la;
        ValueBound(la[..n - 1]);
      }
      Aligned(v, n, Value(la));
      LatticePositive(v, n, Value(la), top, low);
    }
  }

  lemma LatticeZero(la: Uint)
    requires Value(la) == 0
    ensures var top := la[|la| - 1];
            FloorPattern(0, top) == 0 && !RoundUp(top, Value(la[..|la| - 1])) && RoundedFrom(InUnits(0), 0, 0)
  {
    ValueZeroIff(la);
    ValueZero(la[..|la| - 1]);
    assert Units(1) == 1;
  }

  lemma LatticePositive(v: nat, n: nat, A: nat, top: Limb, low: nat)
    requires v > 0 && n > 0 && BitLength(v) <= 64 * n
    requires A == v * Pow2(64 * n - BitLength(v)) && Pow2(64 * n - 1) <= A
    requires low < Modulus(n - 1) && A == low + top * Modulus(n - 1)
    ensures var f := FloorPattern(v, top);
            RoundedFrom(InUnits(v), f, f + ToWord(RoundUp(top, low)))
  {
    hide Pow2, Units, Gap, RoundUp, BitLength, DroppedPart, InUnits, RoundedFrom, FloorPattern, Modulus;
    var G, m, M := Pow2(BitLength(v) + 1021), top / 2048, Modulus(n - 1);
    var f := FloorPattern(v, top);
    TopBit(A, top, low, M, n);
    FloorUnits(v, top);
    UnitsGap(f);
    DroppedVersusHalf(v, n, A, top, low);
    Dropped(top, low, M);
    FloorParity(v, top);
    Nearer(InUnits(v), f, m * G, G, DroppedPart(top, low, M), 1024 * M, RoundUp(top, low));
  }

  lemma Nearer(V: nat, f: nat, lo: int, gap: int, D: int, half: int, up: bool)
    requires Units(f) == lo && Units(f + 1) == lo + gap && lo <= V < lo + gap
    requires 2 * V > 2 * lo + gap <==> D > half
    requires 2 * V == 2 * lo + gap <==> D == half
    requires up <==> D > half || (D == half && f % 2 == 1)
    ensures RoundedFrom(V, f, f + ToWord(up))
  {
    hide Units;
  }

  lemma FloorParity(v: nat, top: Limb)
    ensures FloorPattern(v, top) % 2 == top / 2048 % 2
  {
    hide BitLength;
  }

  /** Where v lies between its neighbours is where the dropped part lies in its unit. */
  lemma DroppedVersusHalf(v: nat, n: nat, A: nat, top: Limb, low: nat)
    requires v > 0 && n > 0 && BitLength(v) <= 64 * n
    requires A == v * Pow2(64 * n - BitLength(v))
    requires low < Modulus(n - 1) && A == low + top * Modulus(n - 1)
    ensures var V, G, m, D, M := InUnits(v), Pow2(BitLength(v) + 1021), top / 2048,
                                 DroppedPart(top, low, Modulus(n - 1)), Modulus(n - 1);
            && m * G <= V < m * G + G
            && (2 * V > 2 * (m * G) + G <==> D > 1024 * M)
            && (2 * V == 2 * (m * G) + G <==> D == 1024 * M)
  {
    hide Pow2, BitLength, DroppedPart;
    var L, M, u := BitLength(v), Modulus(n - 1), Pow2(1074);
    var K := Pow2(64 * n - L);
    Scale(L, n);
    MulSwap(v, u, K);
    DroppedPartIs(top, low, M);
    ScaledCompare(K, InUnits(v), top / 2048, Pow2(L + 1021), u, M, A, DroppedPart(top, low, M));
  }

  /** Shifting out the leading zeros loses nothing. */
  lemma Aligned(v: nat, n: nat, A: nat)
    requires v > 0 && n > 0 && BitLength(v) <= 64 * n
    requires A == v * Pow2((64 * n - BitLength(v)) % (64 * n)) % Modulus(n)
    ensures A == v * Pow2(64 * n - BitLength(v)) && Pow2(64 * n - 1) <= A
  {
    hide Pow2;
    var L := BitLength(v);
    var K := Pow2(64 * n - L);
    assert (64 * n - L) % (64 * n) == 64 * n - L by { SmallMod(64 * n - L, 64 * n); }
    Pow2Add(L, 64 * n - L);
    Pow2Add(L - 1, 64 * n - L);
    AlignedBounds(v, K, Pow2(L), Pow2(L - 1), Modulus(n));
  }

  lemma AlignedBounds(v: nat, K: nat, hi: nat, lo: nat, m: nat)
    requires lo <= v < hi && hi * K == m && K > 0
    ensures m > 0 && v * K % m == v * K && lo * K <= v * K
  {
    MulStrict(K, v, hi);
    MulNonneg(v, K);
    MulMono(K, lo, v);
    SmallMod(v * K, m);
  }

  lemma TopBit(A: nat, top: Limb, low: nat, M: nat, n: nat)
    requires n > 0 && M == Modulus(n - 1) && low < M && A == low + top * M && Pow2(64 * n - 1) <= A
    ensures P52 <= top / 2048 < 2 * P52
  {
    hide Pow2;
    WordPowers();
    Pow2Add(63, 64 * (n - 1));
    assert 63 + 64 * (n - 1) == 64 * n - 1;
    if top < 2048 * P52 {
      MulStrict(M, top, 2048 * P52);
    }
  }

  lemma FloorUnits(v: nat, top: Limb)
    requires v > 0 && P52 <= top / 2048 < 2 * P52
    ensures Units(FloorPattern(v, top)) == top / 2048 * Pow2(BitLength(v) + 1021)
    ensures Gap(FloorPattern(v, top)) == Pow2(BitLength(v) + 1021)
  {
    hide Pow2;
    var f, e, m := FloorPattern(v, top), BitLength(v) + 1021, top / 2048;
    DivModUnique(f, P52, e + 1, m - P52);
  }

  /** One unit in the last place of the left-aligned value, in two scalings. */
  lemma Scale(L: nat, n: nat)
    requires L <= 64 * n && n > 0
    ensures Pow2(64 * n - L) * Pow2(L + 1021) == 2048 * Modulus(n - 1) * Pow2(1074)
  {
    hide Pow2;
    WordPowers();
    Pow2Add(64 * n - L, L + 1021);
    Pow2Add(11, 64 * (n - 1));
    Pow2Add(11 + 64 * (n - 1), 1074);
    assert 64 * n - L + (L + 1021) == 11 + 64 * (n - 1) + 1074;
  }

  /** What the top 53 bits leave out. */
  ghost function DroppedPart(top: Limb, low: nat, M: nat): nat {
    MulNonneg(top % 2048, M);
    top % 2048 * M + low
  }

  lemma DroppedPartIs(top: Limb, low: nat, M: nat)
    requires low < M
    ensures low + top * M == top / 2048 * (2048 * M) + DroppedPart(top, low, M)
    ensures DroppedPart(top, low, M) < 2048 * M
  {
    var t, q := top % 2048, top / 2048;
    MulStrict(M, t, 2048);
    assert (2048 * q + t) * M == q * (2048 * M) + t * M;
  }

  /** The rounding decision compares the dropped part with half a unit. */
  lemma Dropped(top: Limb, low: nat, M: nat)
    requires low < M
    ensures var D := DroppedPart(top, low, M);
            RoundUp(top, low) <==> D > 1024 * M || (D == 1024 * M && top / 2048 % 2 == 1)
  {
    hide DroppedPart;
    var t, odd := top % 2048, top / 2048 % 2 == 1;
    assert DroppedPart(top, low, M) == t * M + low by { DroppedIs(top, low, M); }
    DroppedOrder(t, low, M);
    LowTen(top);
    if t < 1024 {
    } else if t == 1024 {
      assert top % 1024 == 0;
    } else {
      assert top % 1024 != 0;
    }
  }

  lemma DroppedIs(top: Limb, low: nat, M: nat)
    ensures DroppedPart(top, low, M) == top % 2048 * M + low
  {
  }

  lemma DroppedOrder(t: nat, low: nat, M: nat)
    requires low < M
    ensures t < 1024 ==> t * M + low < 1024 * M
    ensures t == 1024 ==> t * M + low == 1024 * M + low
    ensures t > 1024 ==> t * M + low > 1024 * M
  {
    if t < 1024 {
      MulStrict(M, t, 1024);
    } else if t > 1024 {
      MulStrict(M, 1024, t);
    }
  }

  lemma ScaledCompare(K: nat, V: nat, m: nat, G: nat, u: nat, M: nat, A: nat, D: nat)
    requires K > 0 && u > 0
    requires V * K == A * u && A == m * (2048 * M) + D && K * G == 2048 * M * u && D < 2048 * M
    ensures m * G <= V < m * G + G
    ensures 2 * V > 2 * (m * G) + G <==> D > 1024 * M
    ensures 2 * V == 2 * (m * G) + G <==> D == 1024 * M
  {
    var d := V - m * G;
    Remainder(K, V, m, G, u, 2048 * M, A, D);
    MulNonneg(D, u);
    ScaleOrder(0, d, K);
    ScaleOrder(d, G, K);
    ScaleOrder(D, 2048 * M, u);
    ScaleOrder(2 * d, G, K);
    ScaleOrder(2 * D, 2048 * M, u);
    assert 2 * d * K == 2 * D * u by { assert 2 * d * K == 2 * (d * K) && 2 * D * u == 2 * (D * u); }
  }

  lemma Remainder(K: int, V: int, m: int, G: int, u: int, N: int, A: int, D: int)
    requires V * K == A * u && A == m * N + D && K * G == N * u
    ensures (V - m * G) * K == D * u
  {
    assert (m * G) * K == m * (K * G);
    assert (m * N) * u == m * (N * u);
  }

  lemma NarrowIsBelow(a: Uint)
    requires |a| <= 16
    ensures Value(a) <= Pow2(1024) + Pow2(971)
  {
    hide Pow2, Value;
    ValueBound(a);
    Pow2Mono(64 * |a|, 1024);
  }
}
