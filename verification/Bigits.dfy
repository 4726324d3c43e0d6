/** The value of a little-endian digit string in base 2^32, and how it splits and compares. */
module Bigits {
  import opened Arith

  const BASE: nat := 0x1_0000_0000

  type Bigit = d: nat | d < 0x1_0000_0000

  function Num(s: seq<Bigit>): nat
  {
    if s == [] then 0 else s[0] + BASE * Num(s[1..])
  }

  // The value of a digit string followed by e zero digits.
  function Value(s: seq<Bigit>, e: nat): nat
  {
    Num(s) * Pow(BASE, e)
  }

  function Zeros(n: nat): (s: seq<Bigit>)
    ensures |s| == n && forall k :: 0 <= k < n ==> s[k] == 0
  {
    seq(n, _ => 0)
  }

  // No leading zero digit, except that zero itself is written with one digit.
  predicate Canonical(s: seq<Bigit>)
  {
    s != [] && (|s| == 1 || s[|s| - 1] != 0)
  }

  lemma {:induction false} NumSplit(s: seq<Bigit>, k: nat)
    requires k <= |s|
    ensures Num(s) == Num(s[..k]) + Pow(BASE, k) * Num(s[k..])
  {
    if k > 0 {
      var t := s[1..];
      NumSplit(t, k - 1);
      assert s[..k][1..] == t[..k - 1] && s[k..] == t[k - 1..];
      MulAssoc(BASE, Pow(BASE, k - 1), Num(s[k..]));
    }
  }

  lemma {:induction false} NumSnoc(s: seq<Bigit>, d: Bigit)
    ensures Num(s + [d]) == Num(s) + d * Pow(BASE, |s|)
  {
    NumSplit(s + [d], |s|);
    assert (s + [d])[..|s|] == s && (s + [d])[|s|..] == [d];
    assert Num([d]) == d;
  }

  // The form in which a loop that fills digit k uses NumSnoc.
  lemma {:induction false} NumStep(s: seq<Bigit>, k: nat)
    requires k < |s|
    ensures Num(s[..k + 1]) == Num(s[..k]) + s[k] * Pow(BASE, k)
  {
    NumSnoc(s[..k], s[k]);
    assert s[..k] + [s[k]] == s[..k + 1];
  }

  lemma {:induction false} NumBound(s: seq<Bigit>)
    ensures Num(s) < Pow(BASE, |s|)
  {
    if s != [] {
      NumBound(s[1..]);
    }
  }

  lemma {:induction false} NumZeros(n: nat)
    ensures Num(Zeros(n)) == 0
  {
    if n > 0 {
      NumZeros(n - 1);
      assert Zeros(n)[1..] == Zeros(n - 1);
    }
  }

  lemma {:induction false} NumPrepend(n: nat, s: seq<Bigit>)
    ensures Num(Zeros(n) + s) == Pow(BASE, n) * Num(s)
  {
    NumSplit(Zeros(n) + s, n);
    NumZeros(n);
    assert (Zeros(n) + s)[..n] == Zeros(n) && (Zeros(n) + s)[n..] == s;
  }

  // The top digit is nonzero exactly when the value needs all the digits.
  lemma {:induction false} TopDigit(s: seq<Bigit>)
    requires s != []
    ensures s[|s| - 1] != 0 <==> Num(s) >= Pow(BASE, |s| - 1)
  {
    var k := |s| - 1;
    NumStep(s, k);
    assert s[..k + 1] == s;
    NumBound(s[..k]);
    if s[k] != 0 { MulMono(1, s[k], Pow(BASE, k)); }
  }

  lemma NumZeroDigit(s: seq<Bigit>)
    requires Canonical(s)
    ensures Num(s) == 0 <==> s == [0]
  {
    TopDigit(s);
    if |s| == 1 { assert s == [s[0]]; }
  }

  // Bounds on a canonical nonzero value in terms of the number of digit positions it reaches.
  lemma ValueBounds(s: seq<Bigit>, e: nat)
    requires s != []
    ensures Value(s, e) < Pow(BASE, |s| + e)
    ensures s[|s| - 1] != 0 ==> Pow(BASE, |s| + e - 1) <= Value(s, e)
    ensures Value(s, e) == 0 <==> Num(s) == 0
  {
    NumBound(s);
    TopDigit(s);
    PowAdd(BASE, |s|, e);
    PowAdd(BASE, |s| - 1, e);
    MulStrict(Num(s), Pow(BASE, |s|), Pow(BASE, e));
    if s[|s| - 1] != 0 { MulMono(Pow(BASE, |s| - 1), Num(s), Pow(BASE, e)); }
    if Num(s) > 0 { MulMono(1, Num(s), Pow(BASE, e)); }
  }

  lemma ValueBelow(s: seq<Bigit>, e: nat, n: nat)
    requires s != [] && |s| + e <= n
    ensures Value(s, e) < Pow(BASE, n)
  {
    ValueBounds(s, e);
    PowMono(BASE, |s| + e, n);
  }

  lemma ValueAtLeast(s: seq<Bigit>, e: nat, n: nat)
    requires Canonical(s) && Num(s) > 0 && n < |s| + e
    ensures Pow(BASE, n) <= Value(s, e)
  {
    NumZeroDigit(s);
    ValueBounds(s, e);
    PowMono(BASE, n, |s| + e - 1);
  }

  // Moving zero digits between the string and the exponent keeps the value.
  lemma ValueAligned(s: seq<Bigit>, e: nat, d: nat)
    requires d <= e
    ensures Value(Zeros(d) + s, e - d) == Value(s, e)
  {
    NumPrepend(d, s);
    PowAdd(BASE, d, e - d);
    MulAssoc(Pow(BASE, d), Num(s), Pow(BASE, e - d));
    MulAssoc(Num(s), Pow(BASE, d), Pow(BASE, e - d));
  }

  // The digits of a value from absolute position i upwards.
  function High(s: seq<Bigit>, e: nat, i: nat): nat
  {
    if i >= |s| + e then 0
    else if i >= e then Num(s[i - e..])
    else Num(s) * Pow(BASE, e - i)
  }

  // The digit of a value at absolute position i.
  function DigitAt(s: seq<Bigit>, e: nat, i: nat): Bigit
  {
    if e <= i < |s| + e then s[i - e] else 0
  }

  lemma HighStep(s: seq<Bigit>, e: nat, i: nat)
    requires s != []
    ensures High(s, e, i) == BASE * High(s, e, i + 1) + DigitAt(s, e, i)
  {
    if e <= i < |s| + e {
      var t := s[i - e..];
      assert t[1..] == s[i + 1 - e..] && t[0] == s[i - e];
      assert Num(t) == t[0] + BASE * Num(t[1..]);
    } else if i < e {
      assert s[0..] == s;
      if i + 1 < e { assert Num(s) * Pow(BASE, e - i) == BASE * (Num(s) * Pow(BASE, e - i - 1)) by {
        MulAssoc(Num(s), BASE, Pow(BASE, e - i - 1)); MulAssoc(BASE, Num(s), Pow(BASE, e - i - 1)); } }
    }
  }

  lemma ScaledBetween(n: nat, low: nat, h: nat, p: nat, q: nat)
    requires n == low + p * h && low < p && q > 0
    ensures h * (p * q) <= n * q < (h + 1) * (p * q)
  {
    assert (h + 1) * p == p * h + p;
    MulMono(h * p, n, q);
    MulStrict(n, (h + 1) * p, q);
    MulAssoc(h, p, q);
    MulAssoc(h + 1, p, q);
  }

  lemma HighBoundsInside(s: seq<Bigit>, e: nat, k: nat)
    requires k < |s|
    ensures Num(s[k..]) * Pow(BASE, k + e) <= Value(s, e) < (Num(s[k..]) + 1) * Pow(BASE, k + e)
  {
    NumSplit(s, k);
    NumBound(s[..k]);
    PowAdd(BASE, k, e);
    ScaledBetween(Num(s), Num(s[..k]), Num(s[k..]), Pow(BASE, k), Pow(BASE, e));
  }

  lemma HighBounds(s: seq<Bigit>, e: nat, i: nat)
    requires s != []
    ensures High(s, e, i) * Pow(BASE, i) <= Value(s, e) < (High(s, e, i) + 1) * Pow(BASE, i)
    ensures i <= e ==> High(s, e, i) * Pow(BASE, i) == Value(s, e)
  {
    if i >= |s| + e {
      ValueBounds(s, e);
      PowMono(BASE, |s| + e, i);
    } else if i > e {
      HighBoundsInside(s, e, i - e);
    } else {
      PowAdd(BASE, e - i, i);
      MulAssoc(Num(s), Pow(BASE, e - i), Pow(BASE, i));
      assert i == e ==> s[0..] == s;
      MulStrict(High(s, e, i), High(s, e, i) + 1, Pow(BASE, i));
    }
  }
}
