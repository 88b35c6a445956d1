/** Bitwise long division. */
module UintDiv {
  import opened Powers
  import opened Limbs
  import opened Words
  import opened UintBasics
  import opened UintShift

  /** `div_rem`. The source asserts that the divisor is not zero. */
  method DivRem(a: Uint, b: Uint) returns (q: Uint, rem: Uint)
    requires |a| == |b| && Value(b) != 0
    ensures |q| == |a| && |rem| == |a|
    ensures Value(a) == Value(q) * Value(b) + Value(rem)
    ensures Value(rem) < Value(b)
  {
    hide Value, Pow2, Modulus, Long, BitLength;
    var n := |a|;
    var subCopy, shiftCopy := a, b;
    var ret := new Limb[n](_ => 0);
    ValueZero(ret[..]);
    var myBits := Bits(a);
    var yourBits := Bits(b);
    if myBits < yourBits {
      SmallDividend(Value(a), Value(b));
      return ret[..], subCopy;
    }
    var shift := myBits - yourBits;
    ghost var A, D := Value(a), Value(b);
    InitialShift(A, D, shift, n);
    var lost: bool;
    shiftCopy, lost := OverflowingShl(shiftCopy, shift);
    assert !lost;
    while true
      invariant |subCopy| == |shiftCopy| == n && 0 <= shift < 64 * n
      invariant Value(shiftCopy) == D * Pow2(shift)
      invariant Long(A, D, Value(ret[..]), Value(subCopy), shift + 1)
      decreases shift
    {
      subCopy := QuotientBit(ret, subCopy, shiftCopy, shift, A, D);
      shiftCopy, lost := OverflowingShr(shiftCopy, 1);
      if shift == 0 {
        break;
      }
      Half(D, shift, n);
      shift := shift - 1;
    }
    LongDone(A, D, Value(ret[..]), Value(subCopy));
    q, rem := ret[..], subCopy;
  }

  /** The body of the loop: decide and set one bit of the quotient. */
  method QuotientBit(ret: array<Limb>, sub: Uint, shifted: Uint, shift: nat, ghost A: nat, ghost D: nat)
    returns (sub': Uint)
    requires ret.Length == |sub| == |shifted| && shift < 64 * |sub|
    requires Value(shifted) == D * Pow2(shift)
    requires Long(A, D, Value(ret[..]), Value(sub), shift + 1)
    modifies ret
    ensures |sub'| == |sub|
    ensures Long(A, D, Value(ret[..]), Value(sub'), shift)
  {
    hide Value, Pow2, OrWord, ShlWord;
    ghost var before, Q, S := ret[..], Value(ret[..]), Value(sub);
    if !Compare(sub, shifted).Less? {
      var index, bit := shift / 64, shift % 64;
      SetBit(before, shift);
      ret[index] := OrWord(ret[index], ShlWord(1, bit));
      assert ret[..] == before[index := OrWord(before[index], ShlWord(1, bit))];
      var borrow: bool;
      sub', borrow := OverflowingSub(sub, shifted);
      assert !borrow;
      TakeStep(A, D, Q, S, shift);
    } else {
      sub' := sub;
      SkipStep(A, D, Q, S, shift);
    }
  }

  /** The state of the division: Q and S account for all of A, S is below the divisor
      shifted by k, and the low k bits of the quotient are still clear. */
  ghost predicate Long(A: nat, D: nat, Q: nat, S: nat, k: nat) {
    A == Q * D + S && S < D * Pow2(k) && Q % Pow2(k) == 0
  }

  /** Aligning the divisor with the dividend loses no bit. */
  lemma InitialShift(A: nat, D: nat, shift: nat, n: nat)
    requires D > 0 && shift + BitLength(D) == BitLength(A) <= 64 * n
    ensures shift < 64 * n
    ensures D * Pow2(shift % (64 * n)) % Modulus(n) == D * Pow2(shift)
    ensures Long(A, D, 0, A, shift + 1)
  {
    StartLong(A, D, shift);
    var d := BitLength(D);
    SmallMod(shift, 64 * n);
    Pow2Add(d, shift);
    Pow2Mono(d + shift, 64 * n);
    Scaled(D, Pow2(d), Pow2(shift), Modulus(n));
  }

  lemma StartLong(A: nat, D: nat, shift: nat)
    requires D > 0 && shift + BitLength(D) == BitLength(A)
    ensures Long(A, D, 0, A, shift + 1)
  {
    var d, p := BitLength(D), Pow2(shift + 1);
    Pow2Add(d - 1, shift + 1);
    assert A < Pow2(d - 1) * p;
    MulMono(p, Pow2(d - 1), D);
    SmallMod(0, p);
    assert A == 0 * D + A;
  }

  lemma SmallDividend(A: nat, D: nat)
    requires BitLength(A) < BitLength(D)
    ensures A == 0 * D + A && A < D
  {
    Pow2Mono(BitLength(A), BitLength(D) - 1);
  }

  lemma LongDone(A: nat, D: nat, Q: nat, S: nat)
    requires Long(A, D, Q, S, 0)
    ensures A == Q * D + S && S < D
  {
  }

  lemma Scaled(x: nat, bound: nat, p: nat, m: nat)
    requires x < bound && p > 0 && bound * p <= m
    ensures m > 0 && x * p % m == x * p
  {
    MulStrict(p, x, bound);
    MulNonneg(x, p);
    SmallMod(x * p, m);
  }

  /** The bit about to be set is clear, and setting it adds 2^shift. */
  lemma SetBit(ret: seq<Limb>, shift: nat)
    requires shift < 64 * |ret|
    requires Value(ret) % Pow2(shift + 1) == 0
    ensures var (i, bit) := (shift / 64, shift % 64);
            Value(ret[i := OrWord(ret[i], ShlWord(1, bit))]) == Value(ret) + Pow2(shift)
  {
    var i, bit := shift / 64, shift % 64;
    var x := OrWord(ret[i], ShlWord(1, bit));
    ClearBits(ret, i, bit);
    SetClearBit(ret[i], bit);
    ValueUpdate(ret, i, x);
    Pow2Add(bit, 64 * i);
  }

  lemma SetClearBit(x: Limb, bit: nat)
    requires bit < 64 && x % Pow2(bit + 1) == 0
    ensures OrWord(x, ShlWord(1, bit)) - x == Pow2(bit)
  {
    Pow64();
    Pow2Mono(bit, 64);
    SmallMod(Pow2(bit), W);
    BitOrDisjoint(x, Pow2(bit), bit + 1);
  }

  lemma ClearBits(ret: seq<Limb>, i: nat, bit: nat)
    requires i < |ret| && bit < 64
    requires Value(ret) % Pow2(64 * i + bit + 1) == 0
    ensures ret[i] % Pow2(bit + 1) == 0
  {
    LimbIsDigit(ret, i);
    Pow64();
    Pow2Add(64 * i, bit + 1);
    Pow2Add(bit + 1, 63 - bit);
    DigitOfMultiple(Value(ret), Modulus(i), Pow2(bit + 1), Pow2(63 - bit));
  }

  lemma DigitOfMultiple(v: nat, m: nat, p: nat, c: nat)
    requires m > 0 && p > 0 && c > 0 && m * p > 0 && p * c > 0 && v % (m * p) == 0
    ensures v / m % (p * c) % p == 0
  {
    var k := v / (m * p);
    DivModIdentity(v, m * p);
    assert v == (k * p) * m;
    DivModUnique(v, m, k * p, 0);
    DivModIdentity(k, c);
    MulNonneg(k % c, p);
    MulStrict(p, k % c, c);
    assert (k / c) * (p * c) == (k / c * c) * p;
    DivModUnique(k * p, p * c, k / c, k % c * p);
    DivModUnique(k % c * p, p, k % c, 0);
  }

  /** The quotient bit is one. */
  lemma TakeStep(A: nat, D: nat, Q: nat, S: nat, shift: nat)
    requires Long(A, D, Q, S, shift + 1)
    requires S >= D * Pow2(shift)
    ensures Long(A, D, Q + Pow2(shift), S - D * Pow2(shift), shift)
  {
    TakeArith(A, D, Q, S, Pow2(shift), 2 * Pow2(shift));
    HalfMultiple(Q, Pow2(shift));
  }

  lemma TakeArith(A: int, D: int, Q: int, S: int, p: int, pp: int)
    requires A == Q * D + S && S < D * pp && pp == 2 * p
    ensures A == (Q + p) * D + (S - D * p) && S - D * p < D * p
  {
    assert D * pp == D * p + D * p;
  }

  lemma HalfMultiple(Q: nat, p: nat)
    requires p > 0 && Q % (2 * p) == 0
    ensures Q % p == 0 && (Q + p) % p == 0
  {
    var k := Q / (2 * p);
    DivModIdentity(Q, 2 * p);
    assert k * (2 * p) == (2 * k) * p;
    DivModUnique(Q, p, 2 * k, 0);
    DivModUnique(Q + p, p, 2 * k + 1, 0);
  }

  /** The quotient bit is zero. */
  lemma SkipStep(A: nat, D: nat, Q: nat, S: nat, shift: nat)
    requires Long(A, D, Q, S, shift + 1)
    requires S < D * Pow2(shift)
    ensures Long(A, D, Q, S, shift)
  {
    HalfMultiple(Q, Pow2(shift));
  }

  lemma Half(D: nat, shift: nat, n: nat)
    requires 0 < shift && 0 < n
    ensures 1 % (64 * n) == 1 && Pow2(1) == 2
    ensures D * Pow2(shift) / 2 == D * Pow2(shift - 1)
  {
    SmallMod(1, 64 * n);
    HalfProduct(D, Pow2(shift - 1));
  }

  lemma HalfProduct(D: nat, p: nat)
    ensures D * (2 * p) / 2 == D * p
  {
    assert D * (2 * p) == 2 * (D * p);
  }
}
