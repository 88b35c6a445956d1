/** Powers of two and of ten, and the few facts about products and Euclidean
    division that the limb proofs need. */
module Powers {

  function Pow2(n: nat): (p: nat)
    ensures p > 0
  {
    if n == 0 then 1 else 2 * Pow2(n - 1)
  }

  lemma {:induction false} Pow2Add(a: nat, b: nat)
    ensures Pow2(a + b) == Pow2(a) * Pow2(b)
  {
    if a > 0 {
      Pow2Add(a - 1, b);
      assert Pow2(a + b) == 2 * Pow2(a - 1 + b);
    }
  }

  lemma SmallPowers()
    ensures Pow2(1) == 2 && Pow2(4) == 16 && Pow2(8) == 256 && Pow2(16) == 65536
  {
    assert Pow2(4) == 16;
    hide Pow2;
    Pow2Add(4, 4);
    Pow2Add(8, 8);
  }

  lemma Pow2Next(n: nat)
    ensures Pow2(n + 1) == 2 * Pow2(n)
  {
  }

  lemma {:induction false} Pow2Mono(a: nat, b: nat)
    requires a <= b
    ensures Pow2(a) <= Pow2(b)
    ensures a < b ==> 2 * Pow2(a) <= Pow2(b)
    decreases b
  {
    if a < b {
      Pow2Mono(a, b - 1);
    }
  }

  function Pow10(n: nat): (p: nat)
    ensures p > 0
  {
    if n == 0 then 1 else 10 * Pow10(n - 1)
  }

  lemma {:induction false} Pow10Add(a: nat, b: nat)
    ensures Pow10(a + b) == Pow10(a) * Pow10(b)
  {
    if a > 0 {
      Pow10Add(a - 1, b);
      assert Pow10(a + b) == 10 * Pow10(a - 1 + b);
    }
  }

  lemma {:induction false} Pow10Mono(a: nat, b: nat)
    requires a <= b
    ensures Pow10(a) <= Pow10(b)
    decreases b
  {
    if a < b {
      Pow10Mono(a, b - 1);
    }
  }

  lemma MulSwap(x: int, y: int, z: int)
    ensures x * y * z == x * z * y && x * (y * z) == x * z * y
  {
  }

  lemma MulNonneg(x: nat, y: nat)
    ensures x * y >= 0
  {
  }

  /** Multiplying both sides of an inequality by a non-negative factor. */
  lemma MulMono(c: nat, x: int, y: int)
    requires x <= y
    ensures c * x <= c * y
  {
    MulNonneg(c, y - x);
    assert c * (y - x) == c * y - c * x;
  }

  lemma MulStrict(c: nat, x: int, y: int)
    requires x < y
    ensures c * x + c <= c * y
  {
    MulMono(c, x + 1, y);
    assert c * (x + 1) == c * x + c;
  }

  /** A positive factor keeps the order both ways. */
  lemma ScaleOrder(x: int, y: int, u: nat)
    requires u > 0
    ensures x < y <==> x * u < y * u
    ensures x <= y <==> x * u <= y * u
  {
    if x < y { MulStrict(u, x, y); } else { MulMono(u, y, x); }
    if x > y { MulStrict(u, y, x); }
  }

  /** A quotient and a remainder below the divisor are the quotient and the remainder. */
  lemma DivModUnique(x: int, d: int, q: int, r: int)
    requires 0 < d && 0 <= r < d && x == q * d + r
    ensures x / d == q && x % d == r
  {
    var q', r' := x / d, x % d;
    assert x == q' * d + r';
    assert (q - q') * d == r' - r;
    if q > q' {
      MulMono(d, 1, q - q');
    } else if q < q' {
      MulMono(d, q - q', -1);
    }
  }

  lemma SmallMod(x: nat, m: nat)
    requires x < m
    ensures x % m == x
  {
    DivModUnique(x, m, 0, x);
  }

  lemma DivModIdentity(x: int, d: int)
    requires 0 < d
    ensures x == x / d * d + x % d && 0 <= x % d < d
  {
  }

  /** Dividing by c and then by d is dividing by c * d. */
  lemma DivDiv(x: nat, c: nat, d: nat)
    requires 0 < c && 0 < d
    ensures c * d > 0
    ensures x / (c * d) == x / c / d
    ensures x % (c * d) == c * (x / c % d) + x % c
  {
    var y := x / c;
    var q, r := y / d, y % d;
    assert x == c * y + x % c;
    assert y == q * d + r;
    assert c * y == c * (q * d) + c * r;
    assert c * (q * d) == q * (c * d);
    MulMono(c, r, d - 1);
    assert c * (d - 1) == c * d - c;
    MulMono(c, 0, d); MulMono(c, 0, r);
    DivModUnique(x, c * d, q, c * r + x % c);
  }

  /** A digit on top of a number below m gives a number below w * m. */
  lemma DigitBound(v: nat, x: nat, m: nat, w: nat)
    requires v < m && x < w
    ensures v + x * m < w * m
  {
    MulMono(m, x + 1, w);
    assert m * (x + 1) == x * m + m;
  }

  lemma DistributeTop(m: int, low: int, top: int, k: int)
    ensures m * (low + top * k) == m * low + top * (m * k)
  {
    assert m * (top * k) == top * (m * k);
  }

  /** The digit x is found again by dividing by its weight m. */
  lemma DigitOf(v: nat, m: nat, low: nat, x: nat, high: nat, w: nat)
    requires low < m && x < w && v == low + m * (x + w * high)
    ensures m > 0 && w > 0 && v / m % w == x
  {
    DivModUnique(v, m, x + w * high, low);
    DivModUnique(x + w * high, w, high, x);
  }
}
