/**
 The shortest digit string inside a rounding interval, as a function of naturals: the value is
 num / den and the interval reaches lo / den below it and up / den above it.
 */
module ShortestSpec {
  import opened Arith
  import opened Decimal

  // No leading digit above nine can be needed: even the upper end of the interval is below ten.
  predicate Bounded(num: nat, den: nat, up: nat, even: bool)
  {
    0 < den && (if even then num + up < 10 * den else num + up <= 10 * den)
  }

  // Whether the digits so far are inside the interval. The equality with the lower end counts
  // for an even significand, provided that the comparison sees it.
  predicate LowEnough(r: nat, lo: nat, even: bool, sees: bool)
  {
    if even && sees then r <= lo else r < lo
  }

  // Whether the digits so far, with the last one increased, are inside the interval.
  predicate HighEnough(r: nat, den: nat, up: nat, even: bool)
  {
    if even then r + up >= den else r + up > den
  }

  function LastDigit(q: nat, r: nat, den: nat, low: bool, high: bool): nat
  {
    if !low then q + 1
    else if high && (2 * r > den || (2 * r == den && q % 2 == 1)) then q + 1
    else q
  }

  lemma FirstDigit(num: nat, den: nat, lo: nat, up: nat, even: bool, sees: bool)
    requires Bounded(num, den, up, even) && 0 < up
    ensures num == num / den * den + num % den && 0 <= num / den <= 9 && 0 <= num % den < den
    ensures num / den == 9 ==> !HighEnough(num % den, den, up, even)
    ensures !HighEnough(num % den, den, up, even) ==> Bounded(10 * (num % den), den, 10 * up, even)
  {
    NatQuotient(num, den);
    var q := num / den;
    if q >= 10 { MulMono(10, q, den); }
  }

  function Shortest(num: nat, den: nat, lo: nat, up: nat, even: bool, sees: bool): (s: seq<char>)
    requires Bounded(num, den, up, even) && 0 < lo && 0 < up
    decreases Max(den - lo, 0)
  {
    FirstDigit(num, den, lo, up, even, sees);
    var q, r := num / den, num % den;
    var low, high := LowEnough(r, lo, even, sees), HighEnough(r, den, up, even);
    if low || high then [Glyph(LastDigit(q, r, den, low, high))]
    else [Glyph(q)] + Shortest(10 * r, den, 10 * lo, 10 * up, even, sees)
  }

  // m, in units of 10^(1-n), is inside the interval, whose lower end may be closed or open; its
  // upper end is closed for an even significand.
  predicate Inside(num: nat, den: nat, lo: nat, up: nat, closed: bool, even: bool, n: nat, m: int)
    requires n > 0
  {
    var u := Pow(10, n - 1);
    && (if closed then (num - lo) * u <= m * den else (num - lo) * u < m * den)
    && (if even then m * den <= (num + up) * u else m * den < (num + up) * u)
  }

  // Taking the first digit off moves the interval with it.
  lemma InsideStep(num: nat, den: nat, lo: nat, up: nat, closed: bool, even: bool, n: nat, m: int, q: nat, r: nat)
    requires num == q * den + r && n > 0
    ensures Inside(num, den, lo, up, closed, even, n + 1, q * Pow(10, n) + m) <==>
            Inside(10 * r, den, 10 * lo, 10 * up, closed, even, n, m)
  {
    var u := Pow(10, n - 1);
    assert (num - lo) * (10 * u) == q * (10 * u) * den + (10 * r - 10 * lo) * u by { Expand(q, den, r, 0 - lo as int, u); }
    assert (num + up) * (10 * u) == q * (10 * u) * den + (10 * r + 10 * up) * u by { Expand(q, den, r, up, u); }
    assert (q * (10 * u) + m) * den == q * (10 * u) * den + m * den;
  }

  lemma Expand(q: nat, den: nat, r: nat, x: int, u: nat)
    ensures (q * den + r + x) * (10 * u) == q * (10 * u) * den + (10 * r + 10 * x) * u
  {
    MulAssoc(q, den, 10 * u);
    assert (q * den + r + x) * (10 * u) == q * den * (10 * u) + r * (10 * u) + x * (10 * u);
  }

  // More digits only pad with zeros.
  lemma InsidePad(num: nat, den: nat, lo: nat, up: nat, closed: bool, even: bool, n: nat, m: int, j: nat)
    requires n > 0 && Inside(num, den, lo, up, closed, even, n, m)
    ensures Inside(num, den, lo, up, closed, even, n + j, m * Pow(10, j))
  {
    var u, p := Pow(10, n - 1), Pow(10, j);
    PowAdd(10, n - 1, j);
    assert n + j - 1 == n - 1 + j;
    PadScalar(num - lo, m, den, u, p);
    PadScalar(num + up, m, den, u, p);
  }

  lemma PadScalar(x: int, m: int, den: nat, u: nat, p: nat)
    requires 0 < p
    ensures x * u <= m * den ==> x * (u * p) <= m * p * den
    ensures x * u < m * den ==> x * (u * p) < m * p * den
    ensures x * u >= m * den ==> x * (u * p) >= m * p * den
    ensures x * u > m * den ==> x * (u * p) > m * p * den
  {
    MulAssoc(x, u, p);
    MulAssoc(m, p, den);
    if x * u < m * den { MulStrict(x * u, m * den, p); } else if x * u > m * den { MulStrict(m * den, x * u, p); }
  }

  lemma InsideOne(num: nat, den: nat, lo: nat, up: nat, closed: bool, even: bool, m: int)
    ensures Inside(num, den, lo, up, closed, even, 1, m) <==>
            (if closed then num - lo <= m * den else num - lo < m * den) &&
            (if even then m * den <= num + up else m * den < num + up)
  {
    assert Pow(10, 0) == 1;
  }

  lemma LastDigitInside(num: nat, den: nat, lo: nat, up: nat, even: bool, sees: bool, q: nat, r: nat)
    requires num == q * den + r && r < den && q <= 9 && (q == 9 ==> !HighEnough(r, den, up, even)) && 0 < lo && 0 < up
    requires LowEnough(r, lo, even, sees) || HighEnough(r, den, up, even)
    ensures var d := LastDigit(q, r, den, LowEnough(r, lo, even, sees), HighEnough(r, den, up, even));
      d <= 9 && Inside(num, den, lo, up, even && sees, even, 1, d)
  {
    var d := LastDigit(q, r, den, LowEnough(r, lo, even, sees), HighEnough(r, den, up, even));
    InsideOne(num, den, lo, up, even && sees, even, d);
    assert (q + 1) * den == q * den + den;
  }

  // s is a digit string and its value is inside the interval.
  predicate Fits(num: nat, den: nat, lo: nat, up: nat, closed: bool, even: bool, s: seq<char>)
  {
    s != [] && AllDigits(s) && Inside(num, den, lo, up, closed, even, |s|, Spelled(s))
  }

  lemma FitsCons(num: nat, den: nat, lo: nat, up: nat, closed: bool, even: bool, q: nat, r: nat, t: seq<char>)
    requires num == q * den + r && q <= 9 && Fits(10 * r, den, 10 * lo, 10 * up, closed, even, t)
    ensures Fits(num, den, lo, up, closed, even, [Glyph(q)] + t)
  {
    SpelledCons(Glyph(q), t);
    InsideStep(num, den, lo, up, closed, even, |t|, Spelled(t), q, r);
  }

  lemma SpelledOne(d: nat)
    requires d <= 9
    ensures Spelled([Glyph(d)]) == d
  {
    SpelledSnoc([], Glyph(d));
    assert [] + [Glyph(d)] == [Glyph(d)];
  }

  lemma FitsOne(num: nat, den: nat, lo: nat, up: nat, closed: bool, even: bool, d: nat)
    requires d <= 9 && Inside(num, den, lo, up, closed, even, 1, d)
    ensures Fits(num, den, lo, up, closed, even, [Glyph(d)])
  {
    SpelledOne(d);
  }

  // The result is a digit string and its value is inside the rounding interval; it is not the
  // lower end unless the comparison sees equality.
  lemma {:induction false} ShortestInside(num: nat, den: nat, lo: nat, up: nat, even: bool, sees: bool)
    requires Bounded(num, den, up, even) && 0 < lo && 0 < up
    ensures Fits(num, den, lo, up, even && sees, even, Shortest(num, den, lo, up, even, sees))
    decreases Max(den - lo, 0)
  {
    FirstDigit(num, den, lo, up, even, sees);
    var q, r := num / den, num % den;
    var low, high := LowEnough(r, lo, even, sees), HighEnough(r, den, up, even);
    if low || high {
      LastDigitInside(num, den, lo, up, even, sees, q, r);
      FitsOne(num, den, lo, up, even && sees, even, LastDigit(q, r, den, low, high));
    } else {
      ShortestInside(10 * r, den, 10 * lo, 10 * up, even, sees);
      FitsCons(num, den, lo, up, even && sees, even, q, r, Shortest(10 * r, den, 10 * lo, 10 * up, even, sees));
    }
  }

  lemma NothingInside(num: nat, den: nat, lo: nat, up: nat, even: bool, sees: bool, m: int)
    requires 0 < den && !LowEnough(num % den, lo, even, sees) && !HighEnough(num % den, den, up, even)
    ensures !Inside(num, den, lo, up, even && sees, even, 1, m)
  {
    var q, r := num / den, num % den;
    assert num == q * den + r;
    InsideOne(num, den, lo, up, even && sees, even, m);
    assert (q + 1) * den == q * den + den;
    if m <= q { MulMono(m, q, den); } else { MulMono(q + 1, m, den); }
  }

  lemma Unfold(num: nat, den: nat, lo: nat, up: nat, even: bool, sees: bool)
    requires Bounded(num, den, up, even) && 0 < lo && 0 < up
    requires 1 < |Shortest(num, den, lo, up, even, sees)|
    ensures var r := num % den;
      && num == num / den * den + r
      && !LowEnough(r, lo, even, sees) && !HighEnough(r, den, up, even)
      && Bounded(10 * r, den, 10 * up, even) && lo < den
      && |Shortest(num, den, lo, up, even, sees)| == 1 + |Shortest(10 * r, den, 10 * lo, 10 * up, even, sees)|
  {
    FirstDigit(num, den, lo, up, even, sees);
  }

  lemma InsideTail(num: nat, den: nat, lo: nat, up: nat, closed: bool, even: bool, n: nat, m: int) returns (m': int)
    requires 0 < n && 0 < den
    ensures Inside(num, den, lo, up, closed, even, n + 1, m) <==>
            Inside(10 * (num % den), den, 10 * lo, 10 * up, closed, even, n, m')
    ensures m == num / den * Pow(10, n) + m'
  {
    m' := m - num / den * Pow(10, n);
    assert num == num / den * den + num % den;
    InsideStep(num, den, lo, up, closed, even, n, m', num / den, num % den);
    assert num / den * Pow(10, n) + m' == m;
  }

  // Nothing with fewer digits is inside the interval as the comparison sees it.
  lemma {:induction false} ShortestMinimal(num: nat, den: nat, lo: nat, up: nat, even: bool, sees: bool, n: nat, m: int)
    requires Bounded(num, den, up, even) && 0 < lo && 0 < up
    requires 0 < n < |Shortest(num, den, lo, up, even, sees)|
    ensures !Inside(num, den, lo, up, even && sees, even, n, m)
    decreases n
  {
    Unfold(num, den, lo, up, even, sees);
    var r := num % den;
    if n == 1 {
      NothingInside(num, den, lo, up, even, sees, m);
    } else {
      var m' := InsideTail(num, den, lo, up, even && sees, even, n - 1, m);
      ShortestMinimal(10 * r, den, 10 * lo, 10 * up, even, sees, n - 1, m');
    }
  }

  // m is no nearer to the value than d, and if it is as near, d is even.
  predicate NoNearer(num: nat, den: nat, n: nat, d: int, m: int)
    requires n > 0
  {
    Preferred(num * Pow(10, n - 1) - d * den, num * Pow(10, n - 1) - m * den, d, m)
  }

  // The candidate d at distance x is taken before m at distance y.
  predicate Preferred(x: int, y: int, d: int, m: int)
  {
    Abs(x) <= Abs(y) && (d != m && Abs(x) == Abs(y) ==> d % 2 == 0)
  }

  // Among the decimals of its length inside the interval, as the comparison sees it, the result is
  // the nearest to the value, and the even one of two.
  lemma {:induction false} ShortestNearest(num: nat, den: nat, lo: nat, up: nat, even: bool, sees: bool, m: int)
    requires Bounded(num, den, up, even) && 0 < lo && 0 < up
    requires Inside(num, den, lo, up, even && sees, even, |Shortest(num, den, lo, up, even, sees)|, m)
    ensures var s := Shortest(num, den, lo, up, even, sees); s != [] && NoNearer(num, den, |s|, Spelled(s), m)
    decreases Max(den - lo, 0)
  {
    FirstDigit(num, den, lo, up, even, sees);
    var q, r := num / den, num % den;
    var low, high := LowEnough(r, lo, even, sees), HighEnough(r, den, up, even);
    if low || high {
      var d := LastDigit(q, r, den, low, high);
      LastDigitInside(num, den, lo, up, even, sees, q, r);
      FitsOne(num, den, lo, up, even && sees, even, d);
      InsideOne(num, den, lo, up, even && sees, even, m);
      SpelledOne(d);
      LastDigitNearest(num, den, lo, up, even, sees, q, r, m);
    } else {
      var t := Shortest(10 * r, den, 10 * lo, 10 * up, even, sees);
      ShortestInside(10 * r, den, 10 * lo, 10 * up, even, sees);
      var m' := InsideTail(num, den, lo, up, even && sees, even, |t|, m);
      ShortestNearest(10 * r, den, 10 * lo, 10 * up, even, sees, m');
      SpelledCons(Glyph(q), t);
      NoNearerCons(num, den, q, r, |t|, Spelled(t), m');
    }
  }

  lemma LastDigitNearest(num: nat, den: nat, lo: nat, up: nat, even: bool, sees: bool, q: nat, r: nat, m: int)
    requires num == q * den + r && r < den
    requires if even && sees then num - lo <= m * den else num - lo < m * den
    requires if even then m * den <= num + up else m * den < num + up
    ensures var low, high := LowEnough(r, lo, even, sees), HighEnough(r, den, up, even);
      low || high ==> NoNearer(num, den, 1, LastDigit(q, r, den, low, high), m)
  {
    assert Pow(10, 0) == 1 && num * 1 == num;
    assert (q + 1) * den == q * den + den && (q - 1) * den == q * den - den && (q + 2) * den == q * den + 2 * den;
    if m < q { MulMono(m, q - 1, den); } else if m > q + 1 { MulMono(q + 2, m, den); }
  }

  // A first digit in common changes neither distances nor parity.
  lemma NoNearerCons(num: nat, den: nat, q: nat, r: nat, n: nat, d: int, m: int)
    requires num == q * den + r && n > 0 && NoNearer(10 * r, den, n, d, m)
    ensures NoNearer(num, den, n + 1, q * Pow(10, n) + d, q * Pow(10, n) + m)
  {
    var p, u := Pow(10, n), Pow(10, n - 1);
    DistanceKept(num, den, q, r, p, u, d);
    DistanceKept(num, den, q, r, p, u, m);
    TensPart(q, p, u, d);
    PreferredKept(10 * r * u - d * den, 10 * r * u - m * den, d, m, q * p);
  }

  lemma PreferredKept(x: int, y: int, d: int, m: int, front: int)
    requires Preferred(x, y, d, m) && (d % 2 == 0 ==> (front + d) % 2 == 0)
    ensures Preferred(x, y, front + d, front + m)
  {
  }

  lemma DistanceKept(num: nat, den: nat, q: nat, r: nat, p: nat, u: nat, d: int)
    requires num == q * den + r && p == 10 * u
    ensures num * p - (q * p + d) * den == 10 * r * u - d * den
  {
    Expand(q, den, r, 0, u);
    assert (q * p + d) * den == q * p * den + d * den;
  }

  lemma TensPart(q: nat, p: nat, u: nat, d: int)
    requires p == 10 * u
    ensures d % 2 == 0 ==> (q * p + d) % 2 == 0
  {
    MulAssoc(q, 5 * u, 2);
    if d % 2 == 0 { DivModUnique(q * p + d, 2, q * (5 * u) + d / 2, 0); }
  }

  // No decimal with fewer than length digits is inside the whole rounding interval.
  ghost predicate Minimal(num: nat, den: nat, lo: nat, up: nat, even: bool, length: nat)
  {
    forall n: nat, m: int :: 0 < n < length ==> !Inside(num, den, lo, up, even, even, n, m)
  }

  // The lower end of the interval has n digits, and nothing above it in the interval has as few.
  ghost predicate LowerEndAlone(num: nat, den: nat, lo: nat, up: nat, n: nat, m: int)
  {
    n > 0 && m * den == (num - lo) * Pow(10, n - 1) &&
    forall k: int :: !Inside(num, den, lo, up, false, true, n, k)
  }

  ghost predicate LowerEndShortest(num: nat, den: nat, lo: nat, up: nat)
  {
    exists n: nat, m: int :: LowerEndAlone(num, den, lo, up, n, m)
  }

  lemma LowerEndInside(num: nat, den: nat, lo: nat, up: nat, n: nat, m: int)
    requires n > 0 && m * den == (num - lo) * Pow(10, n - 1)
    ensures Inside(num, den, lo, up, true, true, n, m)
  {
    MulMono(num - lo, num + up, Pow(10, n - 1));
  }

  // The lower end alone is inside with fewer digits than the result.
  lemma AloneIsShorter(num: nat, den: nat, lo: nat, up: nat, s: seq<char>, n: nat, m: int)
    requires Fits(num, den, lo, up, false, true, s) && LowerEndAlone(num, den, lo, up, n, m)
    ensures n < |s| && !Minimal(num, den, lo, up, true, |s|)
  {
    if n >= |s| { InsidePad(num, den, lo, up, false, true, |s|, Spelled(s), n - |s|); }
    LowerEndInside(num, den, lo, up, n, m);
  }

  // What is inside with fewer digits than the result is the lower end, and alone.
  lemma ShorterIsAlone(num: nat, den: nat, lo: nat, up: nat, n: nat, m: int)
    requires Bounded(num, den, up, true) && 0 < lo && 0 < up
    requires 0 < n < |Shortest(num, den, lo, up, true, false)| && Inside(num, den, lo, up, true, true, n, m)
    ensures LowerEndAlone(num, den, lo, up, n, m)
  {
    forall k: int ensures !Inside(num, den, lo, up, false, true, n, k) {
      ShortestMinimal(num, den, lo, up, true, false, n, k);
    }
    OnlyLowerEnd(num, den, lo, up, n, m);
  }

  lemma OnlyLowerEnd(num: nat, den: nat, lo: nat, up: nat, n: nat, m: int)
    requires n > 0 && Inside(num, den, lo, up, true, true, n, m) && !Inside(num, den, lo, up, false, true, n, m)
    ensures m * den == (num - lo) * Pow(10, n - 1)
  {
  }

  // Exactly when the result is shortest: always, unless the comparison does not see that the lower
  // end belongs to the interval and the lower end alone is shortest.
  lemma ShortestExactly(num: nat, den: nat, lo: nat, up: nat, even: bool, sees: bool)
    requires Bounded(num, den, up, even) && 0 < lo && 0 < up
    ensures Minimal(num, den, lo, up, even, |Shortest(num, den, lo, up, even, sees)|) <==>
            !even || sees || !LowerEndShortest(num, den, lo, up)
  {
    var s := Shortest(num, den, lo, up, even, sees);
    ShortestInside(num, den, lo, up, even, sees);
    if !even || sees {
      forall n: nat, m: int | 0 < n < |s| ensures !Inside(num, den, lo, up, even, even, n, m) {
        ShortestMinimal(num, den, lo, up, even, sees, n, m);
      }
    } else if LowerEndShortest(num, den, lo, up) {
      var n: nat, m: int :| LowerEndAlone(num, den, lo, up, n, m);
      AloneIsShorter(num, den, lo, up, s, n, m);
    } else if !Minimal(num, den, lo, up, even, |s|) {
      var n: nat, m: int :| 0 < n < |s| && Inside(num, den, lo, up, true, true, n, m);
      ShorterIsAlone(num, den, lo, up, n, m);
      assert false;
    }
  }
}
