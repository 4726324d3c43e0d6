/** Decimal digit strings: what they spell, and carrying a rounded-up digit through them. */
module Decimal {
  import opened Arith

  // '0' + d; ten gives the character after '9', which marks a carry still to be made.
  function Glyph(d: nat): char
    requires d <= 10
  {
    (48 + d) as char
  }

  function Face(c: char): int
  {
    c as int - 48
  }

  predicate IsDigit(c: char)
  {
    '0' <= c <= '9'
  }

  predicate AllDigits(s: seq<char>)
  {
    forall k :: 0 <= k < |s| ==> IsDigit(s[k])
  }

  // The number a digit string spells, most significant digit first.
  function Spelled(s: seq<char>): int
  {
    if s == [] then 0 else 10 * Spelled(s[..|s| - 1]) + Face(s[|s| - 1])
  }

  // d is an integer nearest to p / q.
  predicate Closest(p: nat, q: nat, d: int)
  {
    2 * Abs(p - d * q) <= q
  }

  // d is p / q rounded to the nearest integer, a tie going to the even one.
  predicate RoundsTo(p: nat, q: nat, d: int)
  {
    Closest(p, q, d) && (2 * Abs(p - d * q) == q ==> d % 2 == 0)
  }

  // What Closest promises: no other integer is nearer.
  lemma NoneNearer(p: nat, q: nat, d: int, k: int)
    requires Closest(p, q, d)
    ensures Abs(p - d * q) <= Abs(p - k * q)
  {
    assert (d - k) * q == d * q - k * q;
    if d > k { MulMono(1, d - k, q); } else if d < k { MulMono(d - k, -1, q); }
  }

  // Rounding half to even leaves no choice.
  lemma RoundsToOne(p: nat, q: nat, d: int, k: int)
    requires 0 < q && RoundsTo(p, q, d) && RoundsTo(p, q, k)
    ensures d == k
  {
    if d < k { RoundsToOrdered(p, q, d, k); } else if k < d { RoundsToOrdered(p, q, k, d); }
  }

  lemma RoundsToOrdered(p: nat, q: nat, d: int, k: int)
    requires 0 < q && RoundsTo(p, q, d) && RoundsTo(p, q, k)
    ensures d >= k
  {
    assert (d + 1) * q == d * q + q && (d + 2) * q == d * q + 2 * q;
    if k >= d + 2 { MulMono(d + 2, k, q); }
  }

  // Roundings of a ratio do not depend on how the ratio is written.
  lemma RoundsToRatio(p: nat, q: nat, p': nat, q': nat, d: int)
    requires 0 < q && 0 < q' && p * q' == p' * q && RoundsTo(p, q, d)
    ensures RoundsTo(p', q', d)
  {
    RatioDistance(p, q, p', q', d);
    var x, x' := 2 * Abs(p - d * q), 2 * Abs(p' - d * q');
    MulAssoc(2, Abs(p - d * q), q');
    MulAssoc(2, Abs(p' - d * q'), q);
    MulMono(x, q, q');
    MulCancel(x', q', q);
    if x' == q' { MulCancelEq(x, q, q'); }
  }

  lemma RatioDistance(p: nat, q: nat, p': nat, q': nat, d: int)
    requires p * q' == p' * q
    ensures Abs(p - d * q) * q' == Abs(p' - d * q') * q
  {
    MulAssoc(d, q, q');
    MulAssoc(d, q', q);
    assert (p - d * q) * q' == p * q' - d * q * q' && (p' - d * q') * q == p' * q - d * q' * q;
    AbsProduct(p - d * q, q');
    AbsProduct(p' - d * q', q);
  }

  lemma AbsProduct(x: int, c: nat)
    ensures Abs(x * c) == Abs(x) * c
  {
    MulMono(0, Abs(x), c);
  }

  lemma SpelledSnoc(s: seq<char>, c: char)
    ensures Spelled(s + [c]) == 10 * Spelled(s) + Face(c)
  {
    assert (s + [c])[..|s|] == s;
  }

  lemma {:induction false} SpelledCons(c: char, s: seq<char>)
    ensures Spelled([c] + s) == Face(c) * Pow(10, |s|) + Spelled(s)
  {
    if s == [] {
      assert [c] + s == [c] && [c][..0] == [];
    } else {
      var t := s[..|s| - 1];
      SpelledCons(c, t);
      assert ([c] + s)[..|s|] == [c] + t;
      MulAssoc(10, Face(c), Pow(10, |t|));
    }
  }

  lemma {:induction false} SpelledBound(s: seq<char>)
    requires AllDigits(s)
    ensures 0 <= Spelled(s) < Pow(10, |s|)
  {
    if s != [] { SpelledBound(s[..|s| - 1]); }
  }

  lemma TenfoldStep(x: int, y: int, d: int, p: int, p': int)
    requires x == y + d * p && p' == 10 * p
    ensures 10 * x == 10 * y + d * p'
  {
    MulAssoc(10, d, p);
  }

  lemma {:induction false} SpelledUpdate(s: seq<char>, k: nat, c: char)
    requires k < |s|
    ensures Spelled(s[k := c]) == Spelled(s) + (Face(c) - Face(s[k])) * Pow(10, |s| - 1 - k)
  {
    var n := |s| - 1;
    var t := s[k := c];
    if k < n {
      SpelledUpdate(s[..n], k, c);
      assert t[..n] == s[..n][k := c];
      TenfoldStep(Spelled(t[..n]), Spelled(s[..n]), Face(c) - Face(s[k]), Pow(10, n - 1 - k), Pow(10, n - k));
    } else {
      assert t[..n] == s[..n];
      assert Pow(10, 0) == 1;
    }
  }

  lemma {:induction false} SpelledLead(s: seq<char>)
    requires s != [] && forall k :: 0 < k < |s| ==> s[k] == '0'
    ensures Spelled(s) == Face(s[0]) * Pow(10, |s| - 1)
  {
    if |s| > 1 {
      SpelledLead(s[..|s| - 1]);
      MulAssoc(10, Face(s[0]), Pow(10, |s| - 2));
    } else {
      assert s[..0] == [];
    }
  }

  // A carry out of position i has been made everywhere to its right.
  predicate Carrying(s: seq<char>, i: nat)
  {
    && i < |s|
    && (forall k :: 0 <= k < |s| && k != i ==> IsDigit(s[k]))
    && '0' <= s[i] <= ':'
    && (s[i] == ':' ==> forall k :: i < k < |s| ==> s[k] == '0')
  }

  lemma CarryStep(s: seq<char>, i: nat)
    requires Carrying(s, i) && i > 0 && s[i] == ':'
    ensures var t := s[i := '0'][i - 1 := Glyph(Face(s[i - 1]) + 1)];
      Carrying(t, i - 1) && Spelled(t) == Spelled(s)
  {
    var t := s[i := '0'];
    SpelledUpdate(s, i, '0');
    SpelledUpdate(t, i - 1, Glyph(Face(s[i - 1]) + 1));
    assert Pow(10, |s| - i) == 10 * Pow(10, |s| - 1 - i);
  }

  // The last digit increased, possibly past '9'.
  lemma RaiseLast(s: seq<char>)
    requires s != [] && AllDigits(s)
    ensures var i := |s| - 1; var t := s[i := Glyph(Face(s[i]) + 1)]; Carrying(t, i) && Spelled(t) == Spelled(s) + 1
  {
    var i := |s| - 1;
    SpelledUpdate(s, i, Glyph(Face(s[i]) + 1));
    assert Pow(10, 0) == 1;
  }

  // Only "999" rounds up to a carry out of the first digit, and then 10..0 is the right string.
  lemma CarryOut(s: seq<char>, i: nat)
    requires Carrying(s, i) && (i == 0 || s[i] != ':')
    ensures s[0] != ':' ==> AllDigits(s)
    ensures s[0] == ':' ==> var t := s[0 := '1'];
      AllDigits(t) && Spelled(t) * 10 == Spelled(s) && Spelled(t + ['0']) == Spelled(s) && t[0] == '1'
  {
    if s[0] == ':' {
      var t := s[0 := '1'];
      SpelledLead(s);
      SpelledLead(t);
      SpelledSnoc(t, '0');
    }
  }
}
