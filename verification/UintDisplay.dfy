/** Decimal printing, four digits at a time from the least significant end. */
module UintDisplay {
  import opened Powers
  import opened Limbs
  import opened UintBasics

  function Digit(d: nat): (c: char)
    requires d < 10
  {
    '0' + d as char
  }

  /** The lookup table "000102...99": the two decimal digits of every number below 100. */
  const DEC_DIGITS_LUT: string := 
    seq(200, i requires 0 <= i < 200 => if i % 2 == 0 then Digit(i / 20) else Digit(i / 2 % 10))

  lemma TableEntry(d: nat)
    requires d < 100
    ensures DEC_DIGITS_LUT[2 * d] == Digit(d / 10) && DEC_DIGITS_LUT[2 * d + 1] == Digit(d % 10)
  {
  }

  ghost predicate Digits(s: string) {
    forall i :: 0 <= i < |s| ==> '0' <= s[i] <= '9'
  }

  /** The number a digit string reads as in base ten. */
  ghost function Dec(s: string): nat
    requires Digits(s)
  {
    if |s| == 0 then 0
    else 10 * Dec(s[..|s| - 1]) + (s[|s| - 1] - '0') as nat
  }

  lemma {:induction false} DecConcat(s: string, t: string)
    requires Digits(s) && Digits(t)
    ensures Digits(s + t) && Dec(s + t) == Dec(s) * Pow10(|t|) + Dec(t)
  {
    if |t| == 0 {
      assert s + t == s;
    } else {
      var n := |t| - 1;
      DecConcat(s, t[..n]);
      assert (s + t)[..|s| + n] == s + t[..n];
      var c := (t[n] - '0') as nat;
      assert Dec(s + t) == 10 * Dec(s + t[..n]) + c;
      TenTimes(Dec(s), Pow10(n), Dec(t[..n]), c, Dec(s + t[..n]));
    }
  }

  lemma TenTimes(x: int, p: int, low: int, c: int, y: int)
    requires y == x * p + low
    ensures 10 * y + c == x * (10 * p) + (10 * low + c)
  {
  }

  lemma {:induction false} DecBound(s: string)
    requires Digits(s)
    ensures Dec(s) < Pow10(|s|)
    ensures |s| > 0 && s[0] != '0' ==> Dec(s) >= Pow10(|s| - 1)
  {
    if |s| > 0 {
      DecBound(s[..|s| - 1]);
    }
  }

  /** Digits, at least one of them, and no leading zero except in "0" itself. */
  ghost predicate Canonical(s: string) {
    |s| > 0 && Digits(s) && (s[0] == '0' ==> |s| == 1)
  }

  lemma CanonicalLength(s: string, t: string)
    requires Canonical(s) && Canonical(t) && Dec(s) == Dec(t)
    ensures |s| <= |t|
  {
    hide Dec, Pow10;
    DecBound(s);
    DecBound(t);
    if |t| < |s| { Pow10Mono(|t|, |s| - 1); }
  }

  lemma LastDigit(s: string)
    requires Digits(s) && |s| > 0
    ensures Digits(s[..|s| - 1])
    ensures Dec(s[..|s| - 1]) == Dec(s) / 10 && (s[|s| - 1] - '0') as nat == Dec(s) % 10
  {
  }

  /** A number has one canonical decimal string. */
  lemma {:induction false} CanonicalUnique(s: string, t: string)
    requires Canonical(s) && Canonical(t) && Dec(s) == Dec(t)
    ensures s == t
  {
    hide Dec;
    CanonicalLength(s, t);
    CanonicalLength(t, s);
    LastDigit(s);
    LastDigit(t);
    var n := |s| - 1;
    if n > 0 { CanonicalUnique(s[..n], t[..n]); }
    assert s == s[..n] + [s[n]] && t == t[..n] + [t[n]];
  }

  /** `PartialOrd<u64>`: compare with one word. */
  predicate AtLeast(a: Uint, x: Limb)
    ensures AtLeast(a, x) <==> Value(a) >= x
    ensures !AtLeast(a, x) ==> Value(a) == a[0]
  {
    ValueDrop(a, 0);
    assert a[0..] == a;
    ValueZeroIff(a[1..]);
    assert forall i :: 1 <= i < |a| ==> a[i] == a[1..][i - 1];
    (exists i | 1 <= i < |a| :: a[i] != 0) || a[0] >= x
  }

  /** What is left to print, n, and the digits already written, s, make up v; the
      room that is left can hold n, and n is not zero once something is written. */
  ghost predicate Printing(v: nat, n: nat, s: string, room: nat) {
    && Digits(s)
    && v == n * Pow10(|s|) + Dec(s)
    && n < Pow10(room)
    && room > 0
    && (|s| > 0 ==> n > 0)
  }

  /** Decimal digits, and no leading zero but that of "0". */
  ghost predicate Decimal(r: string) {
    |r| > 0 && (|r| > 1 ==> r[0] != '0') && forall i :: 0 <= i < |r| ==> '0' <= r[i] <= '9'
  }

  lemma CanonicalMeans(s: string)
    ensures Canonical(s) <==> Decimal(s)
  {
  }

  /** `Display::fmt` without the padding flags. */
  method Display(a: Uint) returns (r: string)
    ensures Canonical(r) && Dec(r) == Value(a)
    ensures |r| <= 20 * |a|
    ensures Decimal(r)
  {
    hide Printing, Value, Dec, Canonical, Decimal;
    var len := 20 * |a|;
    var buf := new char[len](_ => '0');
    var n := a;
    var curr := len;
    BufferFits(a);
    assert buf[curr..] == "";
    while AtLeast(n, 10_000)
      invariant |n| == |a| && 0 <= curr <= len
      invariant Printing(Value(a), Value(n), buf[curr..], curr)
      decreases Value(n)
    {
      ghost var done, before := buf[curr..], Value(n);
      var rem: Limb;
      n, rem := DivRemU64(n, 10_000);
      FourMore(Value(a), before, done, curr, Value(n), rem);
      curr := curr - 4;
      PutFour(buf, curr, rem);
    }
    curr := PutLast(buf, curr, n[0], Value(a));
    r := buf[curr..];
    CanonicalMeans(r);
  }

  /** The last four digits at most, without leading zeros. */
  method PutLast(buf: array<char>, start: nat, n: nat, ghost v: nat) returns (curr: nat)
    requires start <= buf.Length && n < 10_000
    requires Printing(v, n, buf[start..], start)
    modifies buf
    ensures curr <= start
    ensures Canonical(buf[curr..]) && Dec(buf[curr..]) == v
  {
    hide Printing, Dec, Canonical;
    var m := n;
    curr := start;
    if m >= 100 {
      TwoMore(v, n, buf[curr..], curr);
      var d := m % 100;
      m := m / 100;
      curr := curr - 2;
      PutPair(buf, curr, d);
    }
    ghost var done := buf[curr..];
    HasRoom(v, m, done, curr);
    if m < 10 {
      curr := curr - 1;
      buf[curr] := '0' + m as char;
      assert buf[curr..] == [Digit(m)] + done;
      OneDigit(m);
      Finish(v, m, done, curr + 1, [Digit(m)]);
    } else {
      curr := curr - 2;
      PutPair(buf, curr, m);
      Finish(v, m, done, curr + 2, Pair(m));
    }
  }

  method PutPair(buf: array<char>, at: nat, d: nat)
    requires at + 2 <= buf.Length && d < 100
    modifies buf
    ensures buf[..at] == old(buf[..at])
    ensures buf[at..] == Pair(d) + old(buf[at + 2..])
  {
    TableEntry(d);
    buf[at] := DEC_DIGITS_LUT[2 * d];
    buf[at + 1] := DEC_DIGITS_LUT[2 * d + 1];
  }

  method PutFour(buf: array<char>, at: nat, d: nat)
    requires at + 4 <= buf.Length && d < 10_000
    modifies buf
    ensures buf[at..] == Four(d) + old(buf[at + 4..])
  {
    ghost var after := buf[at + 4..];
    PutPair(buf, at, d / 100);
    ghost var first := buf[at..at + 2];
    assert first == buf[at..][..2] == Pair(d / 100);
    assert buf[at + 4..] == buf[at..][4..] == after;
    PutPair(buf, at + 2, d % 100);
    assert buf[at..at + 2] == buf[..at + 2][at..] == first;
    assert buf[at..] == buf[at..at + 2] + buf[at + 2..];
  }

  /** Twenty digits hold any 64-bit word. */
  lemma {:induction false} WidthFits(n: nat)
    ensures Modulus(n) <= Pow10(20 * n)
  {
    if n > 0 {
      WidthFits(n - 1);
      ModulusStep(n - 1);
      Pow10Add(20, 20 * (n - 1));
      Pow10Twenty();
      MulMono(W, Modulus(n - 1), Pow10(20 * (n - 1)));
      MulMono(Pow10(20 * (n - 1)), W, Pow10(20));
    }
  }

  lemma Pow10Twenty()
    ensures Pow10(20) == 100_000_000_000_000_000_000
  {
    assert Pow10(5) == 100_000;
    Pow10Add(5, 5);
    Pow10Add(10, 10);
  }

  lemma BufferFits(a: Uint)
    ensures Printing(Value(a), Value(a), "", 20 * |a|)
  {
    ValueBound(a);
    WidthFits(|a|);
  }

  /** A number of more than k digits needs more than k places. */
  lemma RoomFor(n: nat, room: nat, k: nat)
    requires Pow10(k) <= n < Pow10(room)
    ensures k < room
  {
    if room <= k { Pow10Mono(room, k); }
  }

  lemma HasRoom(v: nat, n: nat, done: string, room: nat)
    requires Printing(v, n, done, room)
    ensures room > 0 && (n >= 10 ==> room > 1)
  {
    assert Pow10(1) == 10;
    if n >= 10 { RoomFor(n, room, 1); }
  }

  lemma OneDigit(d: nat)
    requires d < 10
    ensures Canonical([Digit(d)]) && Dec([Digit(d)]) == d
  {
    assert [Digit(d)][..0] == [];
  }

  function Pair(d: nat): (s: string)
    requires d < 100
    ensures |s| == 2 && Digits(s) && Dec(s) == d
    ensures d >= 10 ==> Canonical(s)
  {
    var s := [Digit(d / 10), Digit(d % 10)];
    assert s[..1] == [Digit(d / 10)];
    OneDigit(d / 10);
    s
  }

  function Four(d: nat): (s: string)
    requires d < 10_000
    ensures |s| == 4 && Digits(s) && Dec(s) == d
  {
    DecConcat(Pair(d / 100), Pair(d % 100));
    assert Pow10(2) == 100;
    Pair(d / 100) + Pair(d % 100)
  }

  /** Moving |s| digits of n into the output. */
  lemma Prepend(v: nat, n: nat, done: string, room: nat, n': nat, rem: nat, s: string)
    requires Printing(v, n, done, room)
    requires Digits(s) && Dec(s) == rem && n == n' * Pow10(|s|) + rem && n' > 0 && |s| < room
    ensures Printing(v, n', s + done, room - |s|)
  {
    DecConcat(s, done);
    Pow10Add(|s|, |done|);
    Pow10Add(|s|, room - |s|);
    MoveDigits(v, n, n', Pow10(|s|), rem, Pow10(|done|), Dec(done));
    Shrinks(n, n', Pow10(|s|), Pow10(room - |s|));
  }

  lemma FourMore(v: nat, n: nat, done: string, room: nat, n': nat, rem: nat)
    requires Printing(v, n, done, room)
    requires n >= 10_000 && n == n' * 10_000 + rem && rem < 10_000
    ensures 4 < room && 0 < n' < n
    ensures Printing(v, n', Four(rem) + done, room - 4)
  {
    assert Pow10(4) == 10_000;
    RoomFor(n, room, 4);
    Prepend(v, n, done, room, n', rem, Four(rem));
  }

  lemma TwoMore(v: nat, n: nat, done: string, room: nat)
    requires Printing(v, n, done, room) && n >= 100
    ensures 2 < room && Printing(v, n / 100, Pair(n % 100) + done, room - 2)
  {
    assert Pow10(2) == 100;
    RoomFor(n, room, 2);
    Prepend(v, n, done, room, n / 100, n % 100, Pair(n % 100));
  }

  lemma MoveDigits(v: int, n: int, n': int, p: int, rem: int, q: int, low: int)
    requires n == n' * p + rem && v == n * q + low
    ensures v == n' * (p * q) + (rem * q + low)
  {
    assert (n' * p) * q == n' * (p * q);
  }

  lemma Shrinks(n: nat, n': nat, p: nat, room: nat)
    requires n >= n' * p && n < p * room
    ensures n' < room
  {
    if n' >= room { MulMono(p, room, n'); }
  }

  lemma Finish(v: nat, n: nat, done: string, room: nat, s: string)
    requires Printing(v, n, done, room)
    requires Canonical(s) && Dec(s) == n
    ensures Canonical(s + done) && Dec(s + done) == v
  {
    DecConcat(s, done);
  }
}
