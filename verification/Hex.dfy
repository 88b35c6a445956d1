/** Hexadecimal text of byte strings, as the `hex` crate writes and reads it. */
module Hex {
  import opened Options
  import opened ByteKeys
  import opened Texts

  /** A hash function on byte strings. */
  type Hash = Bytes -> Bytes

  function Digit(n: int): char
    requires 0 <= n < 16
  {
    if n < 10 then '0' + n as char else 'a' + (n - 10) as char
  }

  function DigitValue(c: char): (v: Option<int>)
    ensures v.Some? ==> 0 <= v.value < 16 && Digit(v.value) == LowerChar(c)
  {
    if '0' <= c <= '9' then Some(c as int - '0' as int)
    else if 'a' <= c <= 'f' then Some(c as int - 'a' as int + 10)
    else if 'A' <= c <= 'F' then Some(c as int - 'A' as int + 10)
    else None
  }

  lemma DigitTwice(n: int)
    requires 0 <= n < 16
    ensures DigitValue(Digit(n)) == Some(n) && LowerChar(Digit(n)) == Digit(n)
  {
  }

  function Encode(b: Bytes): (s: string)
    ensures |s| == 2 * |b|
  {
    if b == [] then "" else [Digit(b[0] as int / 16), Digit(b[0] as int % 16)] + Encode(b[1..])
  }

  /** Upper and lower case digits are read alike; odd lengths and other characters fail. */
  function Decode(s: string): (r: Option<Bytes>)
    ensures r.Some? ==> |s| == 2 * |r.value|
  {
    if s == "" then Some([])
    else if |s| == 1 || DigitValue(s[0]).None? || DigitValue(s[1]).None? then None
    else
      match Decode(s[2..])
      case None => None
      case Some(rest) => Some([(16 * DigitValue(s[0]).value + DigitValue(s[1]).value) as Byte] + rest)
  }

  /** The digits are 0 to 9 and a to f, in this order. */
  lemma DigitsInOrder(n: int)
    requires 0 <= n < 16
    ensures Digit(n) as int == if n < 10 then 48 + n else 87 + n
  {
  }

  /** Byte i of the decoded text is given by the digits 2i and 2i + 1, the higher one first. */
  lemma {:induction false} DecodeAt(s: string, i: nat)
    requires Decode(s).Some? && 2 * i < |s|
    ensures DigitValue(s[2 * i]).Some? && DigitValue(s[2 * i + 1]).Some?
    ensures Decode(s).value[i] as int == 16 * DigitValue(s[2 * i]).value + DigitValue(s[2 * i + 1]).value
  {
    hide DigitValue;
    if i > 0 { DecodeAt(s[2..], i - 1); }
  }

  lemma {:induction false} DecodeEncode(b: Bytes)
    ensures Decode(Encode(b)) == Some(b)
  {
    hide Digit, DigitValue;
    if b != [] {
      var x := b[0] as int;
      DecodeEncode(b[1..]);
      DigitTwice(x / 16);
      DigitTwice(x % 16);
      DecodePair(x, Encode(b[1..]));
      assert b == [b[0]] + b[1..];
    }
  }

  lemma DecodePair(x: int, rest: string)
    requires 0 <= x < 256 && Decode(rest).Some?
    ensures Decode([Digit(x / 16), Digit(x % 16)] + rest) == Some([x as Byte] + Decode(rest).value)
  {
    hide Digit, DigitValue;
    DigitTwice(x / 16);
    DigitTwice(x % 16);
    var s := [Digit(x / 16), Digit(x % 16)] + rest;
    assert s[0] == Digit(x / 16) && s[1] == Digit(x % 16) && s[2..] == rest;
    assert 16 * (x / 16) + x % 16 == x;
  }

  /** What decodes is the encoding of its bytes, up to letter case. */
  lemma {:induction false} EncodeDecode(s: string)
    requires Decode(s).Some?
    ensures Encode(Decode(s).value) == Lower(s)
  {
    if s != "" {
      EncodeDecode(s[2..]);
      var hi, lo := DigitValue(s[0]).value, DigitValue(s[1]).value;
      var b := Decode(s).value;
      assert b[1..] == Decode(s[2..]).value;
      assert (16 * hi + lo) / 16 == hi && (16 * hi + lo) % 16 == lo;
      assert b[0] as int == 16 * hi + lo;
      assert Encode(b) == [Digit(hi), Digit(lo)] + Encode(b[1..]);
      assert Lower(s) == [LowerChar(s[0]), LowerChar(s[1])] + Lower(s[2..]);
    }
  }

  /** Decoding succeeds exactly on an even number of hexadecimal digits. */
  lemma {:induction false} DecodesIff(s: string)
    ensures Decode(s).Some? <==> |s| % 2 == 0 && forall i :: 0 <= i < |s| ==> DigitValue(s[i]).Some?
  {
    if |s| >= 2 {
      DecodesIff(s[2..]);
      assert forall i :: 2 <= i < |s| ==> s[i] == s[2..][i - 2];
    }
  }

  lemma EncodeInjective(a: Bytes, b: Bytes)
    requires Encode(a) == Encode(b)
    ensures a == b
  {
    DecodeEncode(a);
    DecodeEncode(b);
  }
}
