/** Text in Rust's order, and ASCII lower case. */
module Texts {

  /** Strictly before in the lexicographic order of characters. */
  predicate Before(a: string, b: string) {
    |b| > 0 && (|a| == 0 || a[0] < b[0] || (a[0] == b[0] && Before(a[1..], b[1..])))
  }

  /** a and b agree up to k, where a ends or has the smaller character. */
  ghost predicate SmallerAt(a: string, b: string, k: nat) {
    k <= |a| && k < |b| && a[..k] == b[..k] && (k == |a| || a[k] < b[k])
  }

  /** The first difference decides: a proper prefix comes first, else the smaller character. */
  lemma {:induction false} BeforeIff(a: string, b: string)
    ensures Before(a, b) <==> exists k: nat :: SmallerAt(a, b, k)
  {
    hide SmallerAt;
    AtStart(a, b);
    if |a| > 0 && |b| > 0 && a[0] == b[0] {
      BeforeIff(a[1..], b[1..]);
      forall k: nat { OneFurther(a, b, k); }
      if k: nat :| SmallerAt(a, b, k) { assert k > 0 && SmallerAt(a[1..], b[1..], k - 1); }
    }
  }

  lemma AtStart(a: string, b: string)
    ensures SmallerAt(a, b, 0) <==> |b| > 0 && (|a| == 0 || a[0] < b[0])
    ensures |a| == 0 || |b| == 0 || a[0] != b[0] ==> forall k: nat :: SmallerAt(a, b, k) ==> k == 0
  {
    forall k: nat | 0 < k && SmallerAt(a, b, k) ensures a[0] == b[0] { assert a[..k][0] == b[..k][0]; }
  }

  lemma OneFurther(a: string, b: string, k: nat)
    requires |a| > 0 && |b| > 0 && a[0] == b[0]
    ensures SmallerAt(a, b, k + 1) <==> SmallerAt(a[1..], b[1..], k)
  {
    if k + 1 <= |a| && k + 1 <= |b| {
      assert a[..k + 1] == [a[0]] + a[1..][..k] && b[..k + 1] == [b[0]] + b[1..][..k];
      assert a[1..][..k] == a[..k + 1][1..] && b[1..][..k] == b[..k + 1][1..];
    }
  }

  lemma {:induction false} BeforeTotal(a: string, b: string)
    ensures a == b || Before(a, b) || Before(b, a)
    ensures !(Before(a, b) && Before(b, a))
    ensures a == b ==> !Before(a, b)
  {
    if |a| > 0 && |b| > 0 {
      BeforeTotal(a[1..], b[1..]);
      assert a == [a[0]] + a[1..] && b == [b[0]] + b[1..];
    }
  }

  lemma {:induction false} BeforeTransitive(a: string, b: string, c: string)
    requires Before(a, b) && Before(b, c)
    ensures Before(a, c)
  {
    if |a| > 0 && a[0] == b[0] && b[0] == c[0] {
      BeforeTransitive(a[1..], b[1..], c[1..]);
    }
  }

  function LowerChar(c: char): char {
    if 'A' <= c <= 'Z' then c - 'A' + 'a' else c
  }

  /** `to_ascii_lowercase`. */
  function Lower(s: string): (r: string)
    ensures |r| == |s|
  {
    seq(|s|, i requires 0 <= i < |s| => LowerChar(s[i]))
  }

  lemma LowerTwice(s: string)
    ensures Lower(Lower(s)) == Lower(s)
  {
  }

  /** A set of texts has a greatest one. */
  lemma {:induction false} HasLast(s: set<string>) returns (m: string)
    requires s != {}
    ensures m in s && forall x :: x in s ==> !Before(m, x)
  {
    hide Before;
    m :| m in s;
    BeforeTotal(m, m);
    if s != {m} {
      var n := HasLast(s - {m});
      BeforeTotal(m, n);
      if Before(m, n) {
        forall x | x in s ensures !Before(n, x) {
          if x == m { BeforeTotal(m, n); } else { assert x in s - {m}; }
        }
        m := n;
      } else {
        forall x | x in s ensures !Before(m, x) {
          if x != m {
            assert x in s - {m};
            BeforeTotal(n, x);
            BeforeTotal(m, x);
            if Before(m, x) && n != x { BeforeTransitive(m, x, n); }
          }
        }
      }
    }
  }

  ghost function Last(s: set<string>): (m: string)
    requires s != {}
    ensures m in s && forall x :: x in s ==> !Before(m, x)
  {
    assert exists m :: m in s && forall x :: x in s ==> !Before(m, x) by { var m := HasLast(s); }
    var m :| m in s && forall x :: x in s ==> !Before(m, x);
    m
  }

  ghost function Largest(s: set<nat>): (m: nat)
    requires s != {}
    ensures m in s && forall x :: x in s ==> x <= m
  {
    var x :| x in s;
    if s == {x} then x
    else
      var y := Largest(s - {x});
      assert forall z :: z in s ==> z == x || z in s - {x};
      if x < y then y else x
  }
}
