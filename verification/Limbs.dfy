/** Little-endian sequences of 64-bit limbs and the number they stand for. */
module Limbs {
  import opened Powers

  const W: nat := 0x1_0000_0000_0000_0000

  type Limb = x: nat | x < W

  type Uint = s: seq<Limb> | |s| > 0 witness [0]

  /** The number of distinct values of n limbs, 2^(64 n). */
  ghost function Modulus(n: nat): (m: nat)
    ensures m > 0
  {
    Pow2(64 * n)
  }

  /** The number denoted by the limbs: the sum of s[i] * 2^(64 i). */
  ghost function Value(s: seq<Limb>): nat {
    if |s| == 0 then 0
    else
      var n := |s| - 1;
      MulNonneg(s[n], Modulus(n));
      Value(s[..n]) + s[n] * Modulus(n)
  }

  lemma Pow64()
    ensures Pow2(64) == W
  {
    hide Pow2;
    SmallPowers();
    Pow2Add(16, 16);
    Pow2Add(32, 32);
  }

  lemma ModulusStep(n: nat)
    ensures Modulus(n + 1) == W * Modulus(n)
  {
    Pow64();
    Pow2Add(64, 64 * n);
  }

  lemma ModulusAdd(i: nat, k: nat)
    ensures Modulus(i + k) == Modulus(i) * Modulus(k)
  {
    hide Pow2;
    Pow2Add(64 * i, 64 * k);
    assert 64 * i + 64 * k == 64 * (i + k);
  }

  lemma ValueSnoc(s: seq<Limb>, x: Limb)
    ensures Value(s + [x]) == Value(s) + x * Modulus(|s|)
  {
    assert (s + [x])[..|s|] == s;
  }

  /** Reading one more limb of a prefix. */
  lemma ValueTake(s: seq<Limb>, i: nat)
    requires i < |s|
    ensures Value(s[..i + 1]) == Value(s[..i]) + s[i] * Modulus(i)
  {
    assert s[..i + 1] == s[..i] + [s[i]];
    ValueSnoc(s[..i], s[i]);
  }

  lemma {:induction false} ValueBound(s: seq<Limb>)
    ensures Value(s) < Modulus(|s|)
  {
    if |s| > 0 {
      var n := |s| - 1;
      ValueBound(s[..n]);
      ModulusStep(n);
      DigitBound(Value(s[..n]), s[n], Modulus(n), W);
    }
  }

  /** A number splits at any limb boundary. */
  lemma {:induction false} ValueSplit(s: seq<Limb>, k: nat)
    requires k <= |s|
    ensures Value(s) == Value(s[..k]) + Modulus(k) * Value(s[k..])
    decreases |s|
  {
    hide Value, Modulus, Pow2;
    if k == |s| {
      assert s[..k] == s;
      ValueZero(s[k..]);
    } else {
      var n := |s| - 1;
      ValueSplit(s[..n], k);
      assert s[..n][..k] == s[..k] && s[..n][k..] == s[k..n];
      assert s == s[..n] + [s[n]] && s[k..] == s[k..n] + [s[n]];
      ValueSnoc(s[..n], s[n]);
      ValueSnoc(s[k..n], s[n]);
      ModulusAdd(k, n - k);
      DistributeTop(Modulus(k), Value(s[k..n]), s[n], Modulus(n - k));
    }
  }

  /** Reading one more limb of a suffix. */
  lemma ValueDrop(s: seq<Limb>, i: nat)
    requires i < |s|
    ensures Value(s[i..]) == s[i] + W * Value(s[i + 1..])
  {
    var t := s[i..];
    ValueSplit(t, 1);
    assert t[..1] == [s[i]] && t[1..] == s[i + 1..];
    assert Value([s[i]]) == s[i] by { assert [s[i]][..0] == []; }
    ModulusStep(0);
  }

  lemma {:induction false} ValueInjective(s: seq<Limb>, t: seq<Limb>)
    requires |s| == |t| && Value(s) == Value(t)
    ensures s == t
  {
    if |s| > 0 {
      ValueDrop(s, 0); ValueDrop(t, 0);
      assert s[0..] == s && t[0..] == t;
      DivModUnique(Value(s), W, Value(s[1..]), s[0]);
      DivModUnique(Value(t), W, Value(t[1..]), t[0]);
      ValueInjective(s[1..], t[1..]);
      assert s == [s[0]] + s[1..] && t == [t[0]] + t[1..];
    }
  }

  lemma {:induction false} ValueZero(s: seq<Limb>)
    requires forall i :: 0 <= i < |s| ==> s[i] == 0
    ensures Value(s) == 0
  {
    if |s| > 0 {
      ValueZero(s[..|s| - 1]);
    }
  }

  /** A number is zero exactly when every limb is. */
  lemma ValueZeroIff(s: seq<Limb>)
    ensures Value(s) == 0 <==> forall i :: 0 <= i < |s| ==> s[i] == 0
  {
    if Value(s) == 0 {
      forall i | 0 <= i < |s| ensures s[i] == 0 {
        ValueSplit(s, i);
        ValueDrop(s, i);
        if s[i] > 0 {
          MulMono(Modulus(i), 1, Value(s[i..]));
        }
      }
    } else if forall i :: 0 <= i < |s| ==> s[i] == 0 {
      ValueZero(s);
    }
  }

  /** Replacing one limb changes the number by the difference times the limb's weight. */
  lemma ValueUpdate(s: seq<Limb>, i: nat, x: Limb)
    requires i < |s|
    ensures Value(s[i := x]) == Value(s) + (x - s[i]) * Modulus(i)
  {
    var t := s[i := x];
    ValueSplit(s, i); ValueSplit(t, i);
    ValueDrop(s, i); ValueDrop(t, i);
    assert s[..i] == t[..i] && s[i + 1..] == t[i + 1..];
    var rest := W * Value(s[i + 1..]);
    assert Modulus(i) * (x + rest) == Modulus(i) * (s[i] + rest) + (x - s[i]) * Modulus(i);
  }

  /** A limb is the matching base-2^64 digit of the number. */
  lemma LimbIsDigit(s: seq<Limb>, i: nat)
    requires i < |s|
    ensures s[i] == Value(s) / Modulus(i) % W
  {
    ValueSplit(s, i);
    ValueBound(s[..i]);
    ValueDrop(s, i);
    DigitOf(Value(s), Modulus(i), Value(s[..i]), s[i], Value(s[i + 1..]), W);
  }
}
