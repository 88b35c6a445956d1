/** The primitive operations on one 64-bit word that the limb loops use. */
module Words {
  import opened Powers
  import opened Limbs

  /** The number of bits needed to write x. */
  function BitLength(x: nat): (b: nat)
    ensures x < Pow2(b)
    ensures x > 0 ==> b > 0 && Pow2(b - 1) <= x
    ensures x == 0 ==> b == 0
  {
    if x == 0 then 0 else 1 + BitLength(x / 2)
  }

  lemma BitLengthUnique(x: nat, b: nat)
    requires 0 < b && Pow2(b - 1) <= x < Pow2(b)
    ensures BitLength(x) == b
  {
    var c := BitLength(x);
    if c < b { Pow2Mono(c, b - 1); } else if b < c { Pow2Mono(b, c - 1); }
  }

  lemma BitLengthMono(x: nat, y: nat)
    requires x <= y
    ensures BitLength(x) <= BitLength(y)
  {
    if x > 0 && BitLength(y) < BitLength(x) {
      Pow2Mono(BitLength(y), BitLength(x) - 1);
    }
  }

  function LeadingZeros(x: Limb): (z: nat)
    ensures z <= 64
    ensures z + BitLength(x) == 64
  {
    Pow64();
    BitLengthMono(x, W - 1);
    Pow2Mono(63, 64);
    BitLengthUnique(W - 1, 64);
    64 - BitLength(x)
  }

  function AddWords(x: Limb, y: Limb): (r: (Limb, bool))
    ensures r.0 + W * ToWord(r.1) == x + y
  {
    ((x + y) % W, x + y >= W)
  }

  function SubWords(x: Limb, y: Limb): (r: (Limb, bool))
    ensures r.0 - W * ToWord(r.1) == x - y
  {
    ((x + W - y) % W, x < y)
  }

  function ToWord(b: bool): (x: Limb) {
    if b then 1 else 0
  }

  function CarryingAdd(x: Limb, y: Limb, carry: bool): (r: (Limb, bool))
    ensures r.0 + W * ToWord(r.1) == x + y + ToWord(carry)
  {
    var (a, b) := AddWords(x, y);
    var (c, d) := AddWords(a, ToWord(carry));
    (c, b != d)
  }

  function BorrowingSub(x: Limb, y: Limb, borrow: bool): (r: (Limb, bool))
    ensures r.0 - W * ToWord(r.1) == x - y - ToWord(borrow)
  {
    var (a, b) := SubWords(x, y);
    var (c, d) := SubWords(a, ToWord(borrow));
    (c, b != d)
  }

  /** Bitwise or of two non-negative numbers. */
  function BitOr(x: nat, y: nat): (r: nat)
    ensures r == 0 <==> x == 0 && y == 0
  {
    if x == 0 && y == 0 then 0
    else 2 * BitOr(x / 2, y / 2) + (if x % 2 == 1 || y % 2 == 1 then 1 else 0)
  }

  lemma {:induction false} BitOrBound(x: nat, y: nat, k: nat)
    requires x < Pow2(k) && y < Pow2(k)
    ensures BitOr(x, y) < Pow2(k)
  {
    if k > 0 {
      BitOrBound(x / 2, y / 2, k - 1);
    }
  }

  /** When the set bits of x all lie above those of y, or is addition. */
  lemma {:induction false} BitOrDisjoint(x: nat, y: nat, k: nat)
    requires x % Pow2(k) == 0 && y < Pow2(k)
    ensures BitOr(x, y) == x + y
  {
    if k == 0 {
      BitOrZero(x);
    } else {
      var q := x / Pow2(k);
      assert x == 2 * (q * Pow2(k - 1)) by {
        assert x == q * Pow2(k);
        assert q * (2 * Pow2(k - 1)) == 2 * (q * Pow2(k - 1));
      }
      DivModUnique(x / 2, Pow2(k - 1), q, 0);
      BitOrDisjoint(x / 2, y / 2, k - 1);
    }
  }

  lemma {:induction false} BitOrComm(x: nat, y: nat)
    ensures BitOr(x, y) == BitOr(y, x)
  {
    if x > 0 || y > 0 {
      BitOrComm(x / 2, y / 2);
    }
  }

  lemma {:induction false} BitOrZero(x: nat)
    ensures BitOr(x, 0) == x
  {
    if x > 0 {
      BitOrZero(x / 2);
    }
  }

  function OrWord(x: Limb, y: Limb): (r: Limb)
    ensures r == BitOr(x, y)
  {
    Pow64();
    BitOrBound(x, y, 64);
    BitOr(x, y)
  }

  /** `x << s` on a word: the bits shifted past bit 63 are lost. */
  function ShlWord(x: Limb, s: nat): (r: Limb)
    requires s < 64
  {
    x * Pow2(s) % W
  }

  /** `x >> s` on a word. */
  function ShrWord(x: Limb, s: nat): (r: Limb)
    requires s < 64
    ensures r <= x
  {
    var d := Pow2(s);
    DivShrinks(x, d);
    x / d
  }

  lemma DivShrinks(x: nat, d: nat)
    requires d > 0
    ensures 0 <= x / d <= x
  {
    MulMono(x / d, 1, d);
  }

  /** The two halves a shift produces, the part kept and the part carried into
      the next limb, together hold every bit of the shifted word. */
  lemma ShlHalves(x: Limb, s: nat)
    requires 0 < s < 64
    ensures ShlWord(x, s) + W * ShrWord(x, 64 - s) == x * Pow2(s)
    ensures ShlWord(x, s) % Pow2(s) == 0
    ensures ShrWord(x, 64 - s) < Pow2(s)
  {
    var p, c := Pow2(s), Pow2(64 - s);
    Pow64();
    Pow2Add(s, 64 - s);
    Halves(x, p, c);
  }

  lemma Halves(x: nat, p: nat, c: nat)
    requires p > 0 && c > 0 && x < p * c
    ensures x * p % (p * c) + (p * c) * (x / c) == x * p
    ensures x * p % (p * c) % p == 0
    ensures x / c < p
  {
    var q, r := x / c, x % c;
    assert x == q * c + r;
    assert (q * c) * p == q * (p * c);
    MulStrict(p, r, c);
    if q >= p {
      MulMono(c, p, q);
    }
    DivModUnique(x * p, p * c, q, r * p);
    DivModUnique(r * p, p, r, 0);
  }
}
