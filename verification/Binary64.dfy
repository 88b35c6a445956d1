/** Non-negative IEEE 754 binary64 patterns as exact integers, and what rounding an
    integer to nearest, ties to even, means (sections 3.4 and 4.3.1 of IEEE 754-2008). */
module Binary64 {
  import opened Powers

  const P52: nat := 0x10_0000_0000_0000
  const P63: nat := 0x8000_0000_0000_0000
  const INFINITY: nat := 2047 * P52

  /** The value of a pattern without sign bit, in units of 2^-1074, the smallest
      positive number: exponent field 0 holds the subnormals. */
  ghost function Units(p: nat): nat {
    if p < P52 then p
    else MulNonneg(P52 + p % P52, Pow2(p / P52 - 1)); (P52 + p % P52) * Pow2(p / P52 - 1)
  }

  ghost function SignedUnits(p: nat): int {
    if p < P63 then Units(p) else 0 - Units(p - P63)
  }

  /** A 64-bit pattern whose exponent field is not all ones. */
  ghost predicate Finite(p: nat) {
    p < INFINITY || P63 <= p < P63 + INFINITY
  }

  /** An integer in units of 2^-1074. */
  ghost function InUnits(v: nat): nat {
    MulNonneg(v, Pow2(1074));
    v * Pow2(1074)
  }

  /** The distance between the integer v and the value of a pattern. */
  ghost function Distance(v: nat, p: nat): int {
    var d := InUnits(v) - SignedUnits(p);
    if d < 0 then -d else d
  }

  /** p is v rounded to nearest, ties to even. From 2^1024 - 2^970 on, the standard
      asks for infinity; below it no finite number is nearer than p, and one as near
      as p and different from it is passed over only for an even p. */
  ghost predicate RoundsTiesToEven(v: nat, p: nat) {
    if v >= Pow2(1024) - Pow2(970) then p == INFINITY
    else
      && p < INFINITY
      && forall q :: Finite(q) ==>
           && Distance(v, p) <= Distance(v, q)
           && (Distance(v, p) == Distance(v, q) && SignedUnits(p) != SignedUnits(q) ==> p % 2 == 0)
  }

  /** The spacing above a pattern. */
  ghost function Gap(p: nat): (g: nat)
    ensures g > 0
  {
    if p < P52 then 1 else Pow2(p / P52 - 1)
  }

  lemma UnitsGap(p: nat)
    ensures Units(p + 1) == Units(p) + Gap(p)
  {
    if p + 1 < P52 {
    } else if p + 1 == P52 {
      assert Units(p + 1) == P52 * Pow2(0);
    } else if p % P52 + 1 < P52 {
      assert (p + 1) / P52 == p / P52 && (p + 1) % P52 == p % P52 + 1;
      NextInBinade(P52 + p % P52, Pow2(p / P52 - 1));
    } else {
      assert (p + 1) / P52 == p / P52 + 1 && (p + 1) % P52 == 0;
      NextBinade(P52, Pow2(p / P52 - 1));
    }
  }

  lemma NextInBinade(m: int, u: int)
    ensures (m + 1) * u == m * u + u
  {
  }

  lemma NextBinade(m: int, u: int)
    ensures m * (2 * u) == (2 * m - 1) * u + u
  {
  }

  /** Patterns are ordered like the numbers they stand for. */
  lemma {:induction false} UnitsMono(p: nat, q: nat)
    requires p < q
    ensures Units(p) < Units(q)
    decreases q
  {
    UnitsGap(q - 1);
    if p < q - 1 {
      UnitsMono(p, q - 1);
    }
  }

  /** V, in units, lies between the patterns f and f + 1, and p is the nearer of
      the two, the even one when V is half way. */
  /** Rounding has one result. */
  lemma RoundsUnique(v: nat, p: nat, q: nat)
    requires RoundsTiesToEven(v, p) && RoundsTiesToEven(v, q)
    ensures p == q
  {
    hide Pow2, Units, InUnits;
    if p < q { NotBoth(v, p, q); }
    if q < p { NotBoth(v, q, p); }
  }

  lemma NotBoth(v: nat, p: nat, q: nat)
    requires p < q
    ensures !(RoundsTiesToEven(v, p) && RoundsTiesToEven(v, q))
  {
    hide Pow2, Units, InUnits;
    assert p + 1 < INFINITY ==> Finite(p + 1);
    UnitsMono(p, q);
    UnitsMono(p, p + 1);
    if p + 1 < q { UnitsMono(p + 1, q); }
    if RoundsTiesToEven(v, p) && v < Pow2(1024) - Pow2(970) && q < INFINITY {
      assert Distance(v, p) <= Distance(v, q) && Distance(v, p) <= Distance(v, p + 1);
    }
  }

  /** The pattern of 1.0. */
  lemma PatternOfOne()
    ensures Units(0x3FF0_0000_0000_0000) == InUnits(1)
  {
    hide Pow2;
    P52IsPow2();
    Pow2Add(52, 1022);
  }

  /** An integer that has a pattern is rounded to it. */
  lemma ExactIfPossible(v: nat, p: nat, q: nat)
    requires RoundsTiesToEven(v, p) && q < INFINITY && Units(q) == InUnits(v) && v < Pow2(1024) - Pow2(970)
    ensures p == q
  {
    hide Pow2, Units, InUnits;
    assert Finite(q) && Distance(v, q) == 0;
    if p < q { UnitsMono(p, q); }
    if q < p { UnitsMono(q, p); }
  }

  ghost predicate RoundedFrom(V: nat, f: nat, p: nat) {
    && Units(f) <= V < Units(f + 1)
    && p == f + (if 2 * V > Units(f) + Units(f + 1) || (2 * V == Units(f) + Units(f + 1) && f % 2 == 1) then 1 else 0)
  }

  /** No pattern lies strictly between two neighbours. */
  lemma NoneBetween(f: nat, q: nat)
    ensures SignedUnits(q) <= Units(f) || SignedUnits(q) >= Units(f + 1)
  {
    hide Units;
    if q < P63 {
      if q < f { UnitsMono(q, f); }
      if q > f + 1 { UnitsMono(f + 1, q); }
    }
  }

  lemma NearestBelowInfinity(v: nat, f: nat, p: nat)
    requires RoundedFrom(InUnits(v), f, p) && p < INFINITY
    requires v < Pow2(1024) - Pow2(970)
    ensures RoundsTiesToEven(v, p)
  {
    hide Units, Pow2, InUnits;
    forall q | Finite(q)
      ensures Distance(v, p) <= Distance(v, q)
      ensures Distance(v, p) == Distance(v, q) && SignedUnits(p) != SignedUnits(q) ==> p % 2 == 0
    {
      NoneBetween(f, q);
      assert SignedUnits(p) == Units(p);
    }
  }

  lemma P52IsPow2()
    ensures Pow2(52) == P52
  {
    hide Pow2;
    SmallPowers();
    Pow2Add(16, 16); Pow2Add(32, 16); Pow2Add(48, 4);
  }

  /** The first pattern past the finite ones stands for 2^1024, and the spacings
      below and above it are 2^971 and 2^972. */
  lemma InfinityUnits()
    ensures Units(INFINITY) == Pow2(1024) * Pow2(1074)
    ensures Gap(INFINITY) == 2 * (Pow2(971) * Pow2(1074))
    ensures Gap(INFINITY - 1) == 2 * (Pow2(970) * Pow2(1074))
  {
    hide Pow2;
    P52IsPow2();
    assert INFINITY / P52 == 2047 && INFINITY % P52 == 0 && (INFINITY - 1) / P52 == 2046;
    Pow2Add(52, 2046);
    Pow2Add(1024, 1074);
    Pow2Add(971, 1074);
    Pow2Add(970, 1074);
    Pow2Next(2045); Pow2Next(2044);
  }

  /** Rounding on the lattice of patterns is the standard's rounding exactly up to
      2^1024 + 2^971. Past that the pattern is not infinity any more. */
  lemma CorrectIff(v: nat, f: nat, p: nat)
    requires RoundedFrom(InUnits(v), f, p)
    ensures RoundsTiesToEven(v, p) <==> v <= Pow2(1024) + Pow2(971)
  {
    hide Pow2, Units, Gap, InUnits;
    Thresholds(v);
    UnitsGap(INFINITY - 1);
    UnitsGap(INFINITY);
    if f < INFINITY {
      if f + 1 < INFINITY { UnitsMono(f + 1, INFINITY); }
      if f + 1 < INFINITY - 1 { UnitsMono(f + 1, INFINITY - 1); }
      if v < Pow2(1024) - Pow2(970) {
        NearestBelowInfinity(v, f, p);
      }
    } else if f > INFINITY + 1 {
      UnitsMono(INFINITY + 1, f);
    }
  }

  /** The two bounds on v, seen from the lattice. */
  lemma Thresholds(v: nat)
    ensures v < Pow2(1024) - Pow2(970) <==> 2 * InUnits(v) < 2 * Units(INFINITY) - Gap(INFINITY - 1)
    ensures v <= Pow2(1024) + Pow2(971) <==> 2 * InUnits(v) <= 2 * Units(INFINITY) + Gap(INFINITY)
  {
    hide Pow2, Units, Gap;
    var top: int, half: int, quarter: int, u := Pow2(1024), Pow2(971), Pow2(970), Pow2(1074);
    InfinityUnits();
    ScaleOrder(v, top - quarter, u);
    ScaleOrder(v, top + half, u);
    assert (top + half) * u == top * u + half * u;
    assert (top - quarter) * u == top * u - quarter * u;
  }
}
