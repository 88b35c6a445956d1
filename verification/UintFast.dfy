/** The forms that take a 64-bit operand compute what the general forms compute on
    that operand widened by `from_u64`: same limbs, same flag. */
module UintFast {
  import opened Powers
  import opened Limbs
  import opened UintBasics
  import opened UintMul
  import opened UintDiv

  method AddBothWays(a: Uint, x: Limb) returns (fast: Uint, fastCarry: bool, full: Uint, fullCarry: bool)
    ensures fast == full && fastCarry == fullCarry
    ensures |full| == |a| && Value(full) + Carried(|a|, fullCarry) == Value(a) + Value(FromU64(|a|, x))
  {
    fast, fastCarry := OverflowingAddU64(a, x);
    full, fullCarry := OverflowingAdd(a, FromU64(|a|, x));
    ValueBound(fast); ValueBound(full);
    ValueInjective(fast, full);
  }

  method MulBothWays(a: Uint, x: Limb) returns (fast: Uint, fastOverflow: bool, full: Uint, fullOverflow: bool)
    ensures fast == full && fastOverflow == fullOverflow
    ensures |full| == |a| && Value(full) == Value(a) * Value(FromU64(|a|, x)) % Modulus(|a|)
    ensures fullOverflow <==> Value(a) * Value(FromU64(|a|, x)) >= Modulus(|a|)
  {
    var b := FromU64(|a|, x);
    fast, fastOverflow := OverflowingMulU64(a, x);
    full, fullOverflow := OverflowingMul(a, b);
    ValueInjective(fast, full);
    assert !SkipsPair(a, b);
    FlagIsExactIff(a, b);
  }

  method DivBothWays(a: Uint, x: Limb) returns (fast: Uint, fastRem: Limb, full: Uint, fullRem: Uint)
    requires x != 0
    ensures fast == full && FromU64(|a|, fastRem) == fullRem
    ensures |full| == |a| && Value(a) == Value(full) * Value(FromU64(|a|, x)) + Value(fullRem)
    ensures Value(fullRem) < Value(FromU64(|a|, x))
  {
    fast, fastRem := DivRemU64(a, x);
    full, fullRem := DivRem(a, FromU64(|a|, x));
    DivModUnique(Value(a), x, Value(fast), fastRem);
    DivModUnique(Value(a), x, Value(full), Value(fullRem));
    ValueInjective(fast, full);
    ValueInjective(FromU64(|a|, fastRem), fullRem);
  }
}
