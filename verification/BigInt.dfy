/** The mutable big integer behind exact decimal output: a digit string plus an exponent counted in digits. */
module BigInt {
  import opened Arith
  import opened Bigits
  import opened Convolution

  const WORD: nat := 0x1_0000_0000_0000_0000

  // Whether compare() can be trusted: a zero must not reach as high as a nonzero
  // number, and equal numbers must be stored with equal exponents.
  predicate FaithfulOrder(a: seq<Bigit>, ea: nat, b: seq<Bigit>, eb: nat)
  {
    && (Value(a, ea) == Value(b, eb) ==> ea == eb)
    && (Num(a) == 0 < Num(b) ==> ea < |b| + eb)
    && (Num(b) == 0 < Num(a) ==> eb < |a| + ea)
  }

  // The final borrow loop of subtract_aligned keeps hitting the same digit: it goes
  // wrong when the digit just above the subtrahend is zero and a borrow reaches it.
  predicate StuckBorrow(t: seq<Bigit>, o: seq<Bigit>, shift: nat)
  {
    var k := shift + |o|;
    k < |t| && t[k] == 0 && Num(t[..k]) < Value(o, shift)
  }

  // What the stuck borrow adds to the difference.
  function StuckExcess(t: seq<Bigit>, et: nat, o: seq<Bigit>, eo: nat): nat
    requires et <= eo
  {
    if StuckBorrow(t, o, eo - et) then (BASE - 1) * Pow(BASE, |o| + eo) else 0
  }

  // What compare() answers: the order of the values, as long as the order is faithful,
  // and the order of the digit counts when equal values are stored with different exponents.
  predicate CompareAnswer(a: seq<Bigit>, ea: nat, b: seq<Bigit>, eb: nat, r: int)
  {
    && (r == Sign(Value(a, ea) - Value(b, eb)) <==> FaithfulOrder(a, ea, b, eb))
    && (0 < Value(a, ea) == Value(b, eb) ==> r == Sign(eb - ea))
  }

  lemma CompareFlip(a: seq<Bigit>, ea: nat, b: seq<Bigit>, eb: nat, r: int)
    requires CompareAnswer(a, ea, b, eb, r)
    ensures CompareAnswer(b, eb, a, ea, -r)
  {
  }

  // The same value stored with two exponents: compare takes them for different, and a division of
  // the one with the bigger exponent by the other answers 0.
  lemma UnequalExponents()
    ensures Canonical([0, 1]) && Canonical([1]) && Value([0, 1], 0) == Value([1], 1)
    ensures !FaithfulOrder([1], 1, [0, 1], 0) && CompareAnswer([1], 1, [0, 1], 0, -1)
  {
    assert [0, 1][1..] == [1] && [1][1..] == [];
    assert Pow(BASE, 0) == 1 && Pow(BASE, 1) == BASE;
    assert Num([1]) == 1 && Num([0, 1]) == BASE;
  }

  // 2^64 - 1: the borrow reaches a zero digit, and the difference comes out too big.
  lemma BorrowSticks()
    ensures Canonical([0, 0, 1]) && StuckBorrow([0, 0, 1], [1], 0) && StuckExcess([0, 0, 1], 0, [1], 0) > 0
  {
    assert [0, 0, 1][..1] == [0] && [0][1..] == [] && [1][1..] == [];
    assert Pow(BASE, 0) == 1 && Pow(BASE, 1) == BASE;
  }

  lemma CompareLonger(a: seq<Bigit>, ea: nat, b: seq<Bigit>, eb: nat)
    requires Canonical(a) && Canonical(b) && |a| + ea > |b| + eb
    ensures CompareAnswer(a, ea, b, eb, 1)
  {
    ValueBounds(a, ea);
    ValueBounds(b, eb);
    NumZeroDigit(a);
    NumZeroDigit(b);
    PowMono(BASE, |b| + eb, |a| + ea - 1);
  }

  lemma CompareAt(a: seq<Bigit>, ea: nat, b: seq<Bigit>, eb: nat, i: nat, j: nat)
    requires Canonical(a) && Canonical(b) && |a| + ea == |b| + eb
    requires i < |a| && j < |b| && i + ea == j + eb
    requires a[i + 1..] == b[j + 1..] && a[i] > b[j]
    ensures CompareAnswer(a, ea, b, eb, 1)
  {
    HighBoundsInside(a, ea, i);
    HighBoundsInside(b, eb, j);
    assert a[i..][1..] == a[i + 1..] && b[j..][1..] == b[j + 1..];
    MulMono(Num(b[j..]) + 1, Num(a[i..]), Pow(BASE, i + ea));
    assert Value(a, ea) > Value(b, eb);
    NumZeroDigit(a);
    NumZeroDigit(b);
    ValueBounds(a, ea);
    ValueBounds(b, eb);
  }

  lemma ComparePrefix(a: seq<Bigit>, ea: nat, b: seq<Bigit>, eb: nat, k: nat)
    requires Canonical(a) && Canonical(b) && |a| + ea == |b| + eb
    requires k <= |a| && k + ea == eb && a[k..] == b
    ensures CompareAnswer(a, ea, b, eb, Sign(k))
  {
    if k > 0 {
      HighBoundsInside(a, ea, k);
      NumZeroDigit(a);
      NumZeroDigit(b);
      ValueBounds(a, ea);
      ValueBounds(b, eb);
    } else {
      assert a[0..] == a;
    }
  }

  // Where the digits from the top differ first, or that one string is the end of the other.
  predicate DigitVerdict(r: int, a: seq<Bigit>, b: seq<Bigit>, i: int, j: int)
  {
    && i - j == |a| - |b| && -1 <= i < |a| && -1 <= j < |b| && a[i + 1..] == b[j + 1..]
    && if i == -1 || j == -1 then r == Sign(i - j) else a[i] != b[j] && r == if a[i] > b[j] then 1 else -1
  }

  lemma DigitsDecide(r: int, a: seq<Bigit>, ea: nat, b: seq<Bigit>, eb: nat, i: int, j: int)
    requires Canonical(a) && Canonical(b) && |a| + ea == |b| + eb && DigitVerdict(r, a, b, i, j)
    ensures CompareAnswer(a, ea, b, eb, r)
  {
    if i == -1 || j == -1 {
      assert a[0..] == a && b[0..] == b;
      if i >= j {
        ComparePrefix(a, ea, b, eb, i + 1);
      } else {
        ComparePrefix(b, eb, a, ea, j + 1);
        CompareFlip(b, eb, a, ea, 1);
      }
    } else if a[i] > b[j] {
      CompareAt(a, ea, b, eb, i, j);
    } else {
      CompareAt(b, eb, a, ea, j, i);
      CompareFlip(b, eb, a, ea, 1);
    }
  }

  lemma CountsDecide(a: seq<Bigit>, ea: nat, b: seq<Bigit>, eb: nat)
    requires Canonical(a) && Canonical(b) && |a| + ea != |b| + eb
    ensures CompareAnswer(a, ea, b, eb, if |a| + ea > |b| + eb then 1 else -1)
  {
    if |a| + ea > |b| + eb { CompareLonger(a, ea, b, eb); } else {
      CompareLonger(b, eb, a, ea);
      CompareFlip(b, eb, a, ea, 1);
    }
  }

  method Compare(lhs: Bigint, rhs: Bigint) returns (r: int)
    requires lhs.Valid() && rhs.Valid()
    ensures CompareAnswer(lhs.bigits, lhs.exp, rhs.bigits, rhs.exp, r)
  {
    var numLhs, numRhs := lhs.NumBigits(), rhs.NumBigits();
    if numLhs != numRhs {
      CountsDecide(lhs.bigits, lhs.exp, rhs.bigits, rhs.exp);
      return if numLhs > numRhs then 1 else -1;
    }
    ghost var i, j;
    r, i, j := CompareDigits(lhs.bigits, rhs.bigits);
    DigitsDecide(r, lhs.bigits, lhs.exp, rhs.bigits, rhs.exp, i, j);
  }

  lemma SameTail(a: seq<Bigit>, b: seq<Bigit>, i: nat, j: nat)
    requires i < |a| && j < |b| && a[i] == b[j] && a[i + 1..] == b[j + 1..]
    ensures a[i..] == b[j..]
  {
    assert a[i..] == [a[i]] + a[i + 1..] && b[j..] == [b[j]] + b[j + 1..];
  }

  // The loop over the digits from the top.
  method CompareDigits(a: seq<Bigit>, b: seq<Bigit>) returns (r: int, ghost at: int, ghost bt: int)
    ensures DigitVerdict(r, a, b, at, bt)
  {
    var i, j := |a| - 1, |b| - 1;
    var end := i - j;
    if end < 0 { end := 0; }
    while i >= end
      invariant i - j == |a| - |b| && -1 <= i < |a| && -1 <= j < |b| && end - 1 <= i
      invariant a[i + 1..] == b[j + 1..]
    {
      if a[i] != b[j] { return if a[i] > b[j] then 1 else -1, i, j; }
      SameTail(a, b, i, j);
      i, j := i - 1, j - 1;
    }
    if i != j { return if i > j then 1 else -1, i, j; }
    return 0, i, j;
  }

  // When add_compare, which trusts digit counts before it looks at digits, is right: a zero on
  // the right must not be much shorter than the others, and a zero on the left that reaches above
  // the right-hand side must happen not to matter.
  predicate FaithfulSum(a: seq<Bigit>, ea: nat, b: seq<Bigit>, eb: nat, c: seq<Bigit>, ec: nat)
  {
    && (Max(|a| + ea, |b| + eb) + 1 < |c| + ec ==> 0 < Num(c))
    && (Num(a) == 0 && |a| + ea > |c| + ec ==> Value(b, eb) > Value(c, ec))
    && (Num(b) == 0 && |b| + eb > |c| + ec ==> Value(a, ea) > Value(c, ec))
  }

  // 0 + 1 is not more than 1, but a zero with a big exponent makes it seem so.
  lemma ZeroMisleads()
    ensures Canonical([0]) && Canonical([1]) && !FaithfulSum([0], 1, [1], 0, [1], 0)
    ensures SumOrder([0], 1, [1], 0, [1], 0) == 0
  {
    assert [0][1..] == [] && [1][1..] == [];
    assert Num([0]) == 0 && Num([1]) == 1;
    ZeroValue([0], 1);
    assert Pow(BASE, 0) == 1;
  }

  lemma ZeroValue(s: seq<Bigit>, e: nat)
    requires Num(s) == 0
    ensures Value(s, e) == 0
  {
  }

  // No zero on the right, and none on the left that reaches above it.
  predicate Reach(a: seq<Bigit>, ea: nat, b: seq<Bigit>, eb: nat, c: seq<Bigit>, ec: nat)
  {
    && 0 < Num(c)
    && (Num(a) == 0 ==> ea < |c| + ec)
    && (Num(b) == 0 ==> eb < |c| + ec)
  }

  lemma ReachFaithful(a: seq<Bigit>, ea: nat, b: seq<Bigit>, eb: nat, c: seq<Bigit>, ec: nat)
    requires Canonical(a) && Canonical(b) && Reach(a, ea, b, eb, c, ec)
    ensures FaithfulSum(a, ea, b, eb, c, ec)
  {
    NumZeroDigit(a);
    NumZeroDigit(b);
  }

  // The sign of a + b - c.
  function SumOrder(a: seq<Bigit>, ea: nat, b: seq<Bigit>, eb: nat, c: seq<Bigit>, ec: nat): int
  {
    Sign(Value(a, ea) + Value(b, eb) - Value(c, ec))
  }

  // The part of c - (a + b) that the digits from position i upwards decide.
  function Deficit(a: seq<Bigit>, ea: nat, b: seq<Bigit>, eb: nat, c: seq<Bigit>, ec: nat, i: nat): int
  {
    High(c, ec, i) - High(a, ea, i) - High(b, eb, i)
  }

  lemma DeficitStep(a: seq<Bigit>, ea: nat, b: seq<Bigit>, eb: nat, c: seq<Bigit>, ec: nat, i: nat)
    requires a != [] && b != [] && c != []
    ensures Deficit(a, ea, b, eb, c, ec, i) == BASE * Deficit(a, ea, b, eb, c, ec, i + 1)
              + DigitAt(c, ec, i) - DigitAt(a, ea, i) - DigitAt(b, eb, i)
  {
    HighStep(a, ea, i);
    HighStep(b, eb, i);
    HighStep(c, ec, i);
  }

  lemma ProductSum(x: int, y: int, z: int, p: nat)
    ensures (x + y + z) * p == x * p + y * p + z * p
  {
  }

  lemma DeficitDecides(a: seq<Bigit>, ea: nat, b: seq<Bigit>, eb: nat, c: seq<Bigit>, ec: nat, i: nat)
    requires a != [] && b != [] && c != []
    ensures Deficit(a, ea, b, eb, c, ec, i) < 0 ==> SumOrder(a, ea, b, eb, c, ec) == 1
    ensures Deficit(a, ea, b, eb, c, ec, i) > 1 ==> SumOrder(a, ea, b, eb, c, ec) == -1
    ensures i <= ea && i <= eb && i <= ec ==>
      SumOrder(a, ea, b, eb, c, ec) == Sign(-Deficit(a, ea, b, eb, c, ec, i))
  {
    HighBounds(a, ea, i);
    HighBounds(b, eb, i);
    HighBounds(c, ec, i);
    var p, d := Pow(BASE, i), Deficit(a, ea, b, eb, c, ec, i);
    ProductSum(High(a, ea, i), High(b, eb, i), d, p);
    ProductSum(High(a, ea, i), 1, 0, p);
    ProductSum(High(b, eb, i), 1, 0, p);
    ProductSum(High(c, ec, i), 1, 0, p);
    if d < 0 { MulMono(d, -1, p); } else if d > 1 { MulMono(2, d, p); }
  }

  // The early answer -1.
  lemma ShorterSum(a: seq<Bigit>, ea: nat, b: seq<Bigit>, eb: nat, c: seq<Bigit>, ec: nat)
    requires Canonical(a) && Canonical(b) && Canonical(c) && Max(|a| + ea, |b| + eb) + 1 < |c| + ec
    ensures SumOrder(a, ea, b, eb, c, ec) == -1 <==> 0 < Num(c)
    ensures SumOrder(a, ea, b, eb, c, ec) == -1 <==> FaithfulSum(a, ea, b, eb, c, ec)
  {
    var m := Max(|a| + ea, |b| + eb);
    ValueBelow(a, ea, m);
    ValueBelow(b, eb, m);
    if 0 < Num(c) { ValueAtLeast(c, ec, m + 1); } else { MulMono(Num(c), 0, Pow(BASE, ec)); }
  }

  lemma LongerValue(a: seq<Bigit>, ea: nat, c: seq<Bigit>, ec: nat)
    requires Canonical(a) && Canonical(c) && |a| + ea > |c| + ec
    ensures if Num(a) == 0 then Value(a, ea) == 0 else Value(a, ea) > Value(c, ec)
  {
    if Num(a) > 0 {
      NumZeroDigit(a);
      ValueAtLeast(a, ea, |c| + ec);
      ValueBelow(c, ec, |c| + ec);
    }
  }

  // The early answer 1.
  lemma LongerSum(a: seq<Bigit>, ea: nat, b: seq<Bigit>, eb: nat, c: seq<Bigit>, ec: nat)
    requires Canonical(a) && Canonical(b) && Canonical(c) && Max(|a| + ea, |b| + eb) > |c| + ec
    ensures SumOrder(a, ea, b, eb, c, ec) == 1 <==> FaithfulSum(a, ea, b, eb, c, ec)
  {
    if |a| + ea > |c| + ec { LongerValue(a, ea, c, ec); }
    if |b| + eb > |c| + ec { LongerValue(b, eb, c, ec); }
  }

  // The deficit as add_compare builds it up, digit by digit from the top of c.
  function DigitDeficit(a: seq<Bigit>, ea: nat, b: seq<Bigit>, eb: nat, c: seq<Bigit>, ec: nat, i: nat): int
    decreases |c| + ec - i
  {
    if i >= |c| + ec then 0
    else BASE * DigitDeficit(a, ea, b, eb, c, ec, i + 1) + DigitAt(c, ec, i) - (DigitAt(a, ea, i) + DigitAt(b, eb, i))
  }

  lemma {:induction false} DigitDeficitExact(a: seq<Bigit>, ea: nat, b: seq<Bigit>, eb: nat, c: seq<Bigit>, ec: nat, i: nat)
    requires a != [] && b != [] && c != [] && Max(|a| + ea, |b| + eb) <= |c| + ec
    ensures DigitDeficit(a, ea, b, eb, c, ec, i) == Deficit(a, ea, b, eb, c, ec, i)
    decreases |c| + ec - i
  {
    if i < |c| + ec {
      DigitDeficitExact(a, ea, b, eb, c, ec, i + 1);
      DeficitStep(a, ea, b, eb, c, ec, i);
    }
  }

  // The loop ends at a position where the deficit so far decides, or at the lowest one.
  predicate Verdict(r: int, deficit: int, lowest: bool)
  {
    || (r == 1 && deficit < 0)
    || (r == -1 && deficit > 1)
    || (lowest && 0 <= deficit <= 1 && r == -deficit)
  }

  lemma VerdictRight(r: int, a: seq<Bigit>, ea: nat, b: seq<Bigit>, eb: nat, c: seq<Bigit>, ec: nat, i: nat)
    requires a != [] && b != [] && c != [] && Max(|a| + ea, |b| + eb) <= |c| + ec <= Max(|a| + ea, |b| + eb) + 1
    requires Verdict(r, DigitDeficit(a, ea, b, eb, c, ec, i), i <= ea && i <= eb && i <= ec)
    ensures r == SumOrder(a, ea, b, eb, c, ec)
    ensures FaithfulSum(a, ea, b, eb, c, ec)
  {
    DigitDeficitExact(a, ea, b, eb, c, ec, i);
    DeficitDecides(a, ea, b, eb, c, ec, i);
  }

  // The order of a sum and a number, without the sum.
  method AddCompare(lhs1: Bigint, lhs2: Bigint, rhs: Bigint) returns (r: int)
    requires lhs1.Valid() && lhs2.Valid() && rhs.Valid()
    ensures r == SumOrder(lhs1.bigits, lhs1.exp, lhs2.bigits, lhs2.exp, rhs.bigits, rhs.exp) <==>
            FaithfulSum(lhs1.bigits, lhs1.exp, lhs2.bigits, lhs2.exp, rhs.bigits, rhs.exp)
    ensures Max(lhs1.NumBigits(), lhs2.NumBigits()) + 1 < rhs.NumBigits() ==> r == -1
    ensures Max(lhs1.NumBigits(), lhs2.NumBigits()) > rhs.NumBigits() ==> r == 1
  {
    ghost var a, b, c := lhs1.bigits, lhs2.bigits, rhs.bigits;
    ghost var ea, eb, ec := lhs1.exp, lhs2.exp, rhs.exp;
    var maxLhs := Max(lhs1.NumBigits(), lhs2.NumBigits());
    var numRhs := rhs.NumBigits();
    if maxLhs + 1 < numRhs {
      ShorterSum(a, ea, b, eb, c, ec);
      return -1;
    }
    if maxLhs > numRhs {
      LongerSum(a, ea, b, eb, c, ec);
      return 1;
    }
    ghost var at;
    r, at := AddCompareDigits(lhs1, lhs2, rhs);
    VerdictRight(r, a, ea, b, eb, c, ec, at);
  }

  // The loop over the digits.
  method AddCompareDigits(lhs1: Bigint, lhs2: Bigint, rhs: Bigint) returns (r: int, ghost at: nat)
    requires lhs1.Valid() && lhs2.Valid() && rhs.Valid()
    ensures Verdict(r, DigitDeficit(lhs1.bigits, lhs1.exp, lhs2.bigits, lhs2.exp, rhs.bigits, rhs.exp, at),
                    at <= lhs1.exp && at <= lhs2.exp && at <= rhs.exp)
  {
    ghost var a, b, c := lhs1.bigits, lhs2.bigits, rhs.bigits;
    ghost var ea, eb, ec := lhs1.exp, lhs2.exp, rhs.exp;
    var borrow: int := 0;
    var minExp := Min(Min(lhs1.exp, lhs2.exp), rhs.exp);
    var i := rhs.NumBigits() - 1;
    while i >= minExp
      invariant minExp - 1 <= i < |c| + ec && 0 <= borrow <= BASE
      invariant borrow == BASE * DigitDeficit(a, ea, b, eb, c, ec, i + 1)
    {
      var sum := lhs1.At(i) + lhs2.At(i);
      var rhsBigit := rhs.At(i);
      assert sum < WORD && rhsBigit + borrow < WORD;
      if sum > rhsBigit + borrow { return 1, i; }
      borrow := rhsBigit + borrow - sum;
      if borrow > 1 { return -1, i; }
      borrow := borrow * BASE;
      i := i - 1;
    }
    at := i + 1;
    return if borrow != 0 then -1 else 0, at;
  }

  // One digit of an in-place product: low digits done, one more digit and the new carry.
  lemma ProductStep(low: nat, low0: nat, v: nat, p: nat, carry: nat, d0: nat, d: nat, carry': nat)
    requires low + p * carry == v * low0 && d + BASE * carry' == d0 * v + carry
    ensures low + d * p + BASE * p * carry' == v * (low0 + d0 * p)
  {
    MulAssoc(BASE, p, carry');
    MulAssoc(v, d0, p);
    assert v * (low0 + d0 * p) == v * low0 + v * (d0 * p);
    assert (d + BASE * carry') * p == d * p + BASE * carry' * p;
    assert (d0 * v + carry) * p == d0 * v * p + carry * p;
  }

  lemma ProductDigit(s: seq<Bigit>, s0: seq<Bigit>, v: nat, carry: nat, i: nat, carry': nat)
    requires i < |s| == |s0|
    requires Num(s[..i]) + Pow(BASE, i) * carry == v * Num(s0[..i])
    requires s[i] + BASE * carry' == s0[i] * v + carry
    ensures Num(s[..i + 1]) + Pow(BASE, i + 1) * carry' == v * Num(s0[..i + 1])
  {
    NumStep(s, i);
    NumStep(s0, i);
    ProductStep(Num(s[..i]), Num(s0[..i]), v, Pow(BASE, i), carry, s0[i], s[i], carry');
  }

  lemma CanonicalProduct(s: seq<Bigit>, s0: seq<Bigit>, v: nat)
    requires Canonical(s0) && |s| == |s0| && v > 0 && Num(s) == v * Num(s0)
    ensures Canonical(s)
  {
    TopDigit(s0);
    TopDigit(s);
    MulMono(1, v, Num(s0));
  }

  // Pushes one digit of a carry that does not fit in the digits.
  lemma PushCarry(s: seq<Bigit>, low: Bigit, high: nat)
    ensures Num(s + [low]) + Pow(BASE, |s| + 1) * high == Num(s) + Pow(BASE, |s|) * (low + BASE * high)
  {
    NumSnoc(s, low);
    SplitProduct(Pow(BASE, |s|), low, high, low + BASE * high);
  }

  // One digit of the 64-bit product: neither the result nor the new carry overflows.
  lemma WideDigit(d: Bigit, value: nat, carry: nat)
    requires value < WORD && carry < WORD
    ensures var result := d * (value % BASE) + carry % BASE;
      var carry' := d * (value / BASE) + result / BASE + carry / BASE;
      0 <= result < WORD && 0 <= carry' < WORD && result % BASE + BASE * carry' == d * value + carry
  {
    NatQuotient(value, BASE);
    NatQuotient(carry, BASE);
    WideParts(d, value % BASE, value / BASE, value, d * (value % BASE), d * (value / BASE));
    MulMono(d, BASE - 1, value % BASE);
    MulMono(d, BASE - 1, value / BASE);
  }

  lemma WideParts(d: nat, low: nat, high: nat, value: nat, x: nat, y: nat)
    requires value == high * BASE + low && x == d * low && y == d * high
    ensures d * value == x + BASE * y
  {
    MulAssoc(d, high, BASE);
  }

  lemma SplitProduct(p: nat, low: nat, high: nat, n: nat)
    requires n == low + BASE * high
    ensures low * p + BASE * p * high == p * n
  {
    MulAssoc(p, BASE, high);
  }

  lemma ScaledProduct(n: nat, n0: nat, v: nat, p: nat)
    requires n == v * n0
    ensures n * p == n0 * p * v
  {
    MulAssoc(v, n0, p);
  }

  lemma ValueProduct(s: seq<Bigit>, s0: seq<Bigit>, v: nat, e: nat)
    requires Num(s) == v * Num(s0)
    ensures Value(s, e) == Value(s0, e) * v
  {
    ScaledProduct(Num(s), Num(s0), v, Pow(BASE, e));
  }

  // A left shift of one digit within 32 bits, given the split 2^shift * 2^(32-shift).
  lemma ShiftDigit(d: Bigit, carry: nat, p: nat, q: nat)
    requires p * q == BASE && carry < p && q > 0
    ensures d * p % BASE + carry < BASE && d / q < p
    ensures d * p % BASE + carry + BASE * (d / q) == d * p + carry
  {
    var c, r := d / q, d % q;
    assert d == c * q + r;
    assert d * p == (c * q) * p + r * p;
    MulAssoc(c, q, p);
    MulMono(r + 1, q, p);
    DivModUnique(d * p, BASE, c, r * p);
    if c >= p { MulMono(p, c, q); }
  }

  lemma ShiftFactors(bits: nat)
    requires 0 < bits < 32
    ensures 1 < Pow(2, bits) < BASE && Pow(2, bits) * Pow(2, 32 - bits) == BASE
  {
    PowTwo32();
    PowAdd(2, bits, 32 - bits);
    PowStrict(2, 0, bits);
    PowStrict(2, bits, 32);
  }

  // A shift by whole digits goes to the exponent and the rest to the digits.
  lemma ShiftSplit(n: nat, e: nat, shift: nat)
    ensures n * Pow(BASE, e + shift / 32) * Pow(2, shift % 32) == n * Pow(BASE, e) * Pow(2, shift)
  {
    var k, bits := shift / 32, shift % 32;
    PowTwo32();
    PowMul(2, 32, k);
    PowAdd(2, 32 * k, bits);
    PowAdd(BASE, e, k);
    var x, y, z := Pow(BASE, e), Pow(BASE, k), Pow(2, bits);
    MulAssoc(n, x, y);
    MulAssoc(n * x, y, z);
  }

  lemma ShiftValue(s: seq<Bigit>, s0: seq<Bigit>, p: nat, e: nat)
    requires Num(s) == p * Num(s0)
    ensures Value(s, e) == Num(s0) * Pow(BASE, e) * p
  {
    ValueProduct(s, s0, p, e);
  }

  // The final loop takes the borrow from digit i, over and over, until there is none left.
  predicate Borrowing(mid: seq<Bigit>, s: seq<Bigit>, i: nat, borrow0: nat, borrow: nat)
  {
    borrow <= borrow0 <= 1 &&
    if borrow0 == 0 then s == mid else
      i < |mid| == |s| && s == mid[i := s[i]] &&
      if borrow == 1 then s[i] == mid[i] || (mid[i] == 0 && s[i] == BASE - 1)
      else s[i] == if mid[i] > 0 then mid[i] - 1 else BASE - 2
  }

  lemma BorrowTaken(nt: nat, ns: nat, ns0: nat, v: nat, x: nat, y: nat, p: nat)
    requires ns + v == ns0 + p && nt + x * p == ns + y * p
    requires y == if x > 0 then x - 1 else BASE - 2
    ensures nt == ns0 - v + if x == 0 then (BASE - 1) * p else 0
  {
    if x == 0 { assert (BASE - 2) * p + p == (BASE - 1) * p; } else { assert x * p == y * p + p; }
  }

  lemma MulNegate(x: int, p: nat)
    ensures -x * p == -(x * p)
  {
  }

  lemma NumUpdate(s: seq<Bigit>, k: nat, d: Bigit)
    requires k < |s|
    ensures Num(s[k := d]) + s[k] * Pow(BASE, k) == Num(s) + d * Pow(BASE, k)
  {
    var t := s[k := d];
    NumSplit(s, k + 1);
    NumSplit(t, k + 1);
    NumStep(s, k);
    NumStep(t, k);
    assert s[..k] == t[..k] && s[k + 1..] == t[k + 1..];
  }

  // What subtracting the digits of o from position d of s0 has done, with a pending borrow.
  predicate Subtracted(s: seq<Bigit>, s0: seq<Bigit>, o: seq<Bigit>, d: nat, borrow: nat)
  {
    && |s| == |s0| && d + |o| <= |s| && borrow <= 1
    && s[d + |o|..] == s0[d + |o|..]
    && Num(s[..d + |o|]) + Value(o, d) == Num(s0[..d + |o|]) + borrow * Pow(BASE, d + |o|)
  }

  lemma DifferenceScalar(x: nat, y: nat, z: nat, b: nat, p: nat, c: nat, c0: nat, o: nat, b': nat)
    requires x + z == y + b * p && c - BASE * b' == c0 - o - b
    ensures x + c * p + (z + o * p) == y + c0 * p + b' * (BASE * p)
  {
    MulAssoc(BASE, b', p);
    assert (c + o + b) * p == (c0 + BASE * b') * p;
    assert (c + o + b) * p == c * p + o * p + b * p;
    assert (c0 + BASE * b') * p == c0 * p + BASE * b' * p;
  }

  lemma ValueSnoc(o: seq<Bigit>, digit: Bigit, d: nat)
    ensures Value(o + [digit], d) == Value(o, d) + digit * Pow(BASE, d + |o|)
  {
    NumSnoc(o, digit);
    PowAdd(BASE, |o|, d);
    MulAssoc(digit, Pow(BASE, |o|), Pow(BASE, d));
    ProductSum(Num(o), digit * Pow(BASE, |o|), 0, Pow(BASE, d));
  }

  lemma DifferenceDigit(s: seq<Bigit>, t: seq<Bigit>, s0: seq<Bigit>, o: seq<Bigit>, digit: Bigit, d: nat,
                        borrow: nat, borrow': nat)
    requires Subtracted(s, s0, o, d, borrow) && d + |o| < |s| && borrow' <= 1
    requires var i := d + |o|; |t| == |s| && t == s[i := t[i]] && t[i] - BASE * borrow' == s[i] - digit - borrow
    ensures Subtracted(t, s0, o + [digit], d, borrow')
  {
    var i := d + |o|;
    NumStep(t, i);
    NumStep(s0, i);
    ValueSnoc(o, digit, d);
    assert t[..i] == s[..i] && t[i + 1..] == s0[i + 1..];
    DifferenceScalar(Num(s[..i]), Num(s0[..i]), Value(o, d), borrow, Pow(BASE, i), t[i], s0[i], digit, borrow');
  }

  lemma DifferenceStep(s: seq<Bigit>, t: seq<Bigit>, s0: seq<Bigit>, o: seq<Bigit>, j: nat, d: nat,
                       borrow: nat, borrow': nat)
    requires j < |o| && Subtracted(s, s0, o[..j], d, borrow) && d + j < |s| && borrow' <= 1
    requires |t| == |s| && t == s[d + j := t[d + j]] && t[d + j] - BASE * borrow' == s[d + j] - o[j] - borrow
    ensures Subtracted(t, s0, o[..j + 1], d, borrow')
  {
    DifferenceDigit(s, t, s0, o[..j], o[j], d, borrow, borrow');
    assert o[..j] + [o[j]] == o[..j + 1];
  }

  lemma SubtrahendFits(s: seq<Bigit>, e: nat, o: seq<Bigit>, d: nat)
    requires Canonical(s) && Canonical(o) && 0 < Value(o, e + d) <= Value(s, e)
    ensures |o| + d <= |s|
  {
    ValueBounds(o, e + d);
    NumZeroDigit(o);
    if |s| + e < |o| + e + d {
      ValueBelow(s, e, |s| + e);
      ValueAtLeast(o, e + d, |s| + e);
    }
  }

  // Aligned values compare as their digit strings do.
  lemma ValueSplit(o: seq<Bigit>, d: nat, e: nat)
    ensures Value(o, e + d) == Value(o, d) * Pow(BASE, e)
  {
    PowAdd(BASE, d, e);
    MulAssoc(Num(o), Pow(BASE, d), Pow(BASE, e));
  }

  lemma BorrowHasDigit(s: seq<Bigit>, s0: seq<Bigit>, o: seq<Bigit>, e: nat, d: nat)
    requires Subtracted(s, s0, o, d, 1) && Value(o, e + d) <= Value(s0, e)
    ensures d + |o| < |s|
  {
    ValueSplit(o, d, e);
    MulCancel(Value(o, d), Num(s0), Pow(BASE, e));
    if d + |o| == |s| {
      assert s[..d + |o|] == s && s0[..d + |o|] == s0;
      NumBound(s);
    }
  }

  lemma StuckIsPending(s: seq<Bigit>, s0: seq<Bigit>, o: seq<Bigit>, d: nat, borrow: nat)
    requires Subtracted(s, s0, o, d, borrow)
    ensures borrow == 1 <==> Num(s0[..d + |o|]) < Value(o, d)
    ensures Num(s) + Value(o, d) == Num(s0) + if borrow == 1 then Pow(BASE, d + |o|) else 0
  {
    var i := d + |o|;
    NumSplit(s, i);
    NumSplit(s0, i);
    NumBound(s[..i]);
  }

  lemma DifferenceNum(t: seq<Bigit>, s: seq<Bigit>, s0: seq<Bigit>, o: seq<Bigit>, d: nat, borrow: nat)
    requires Subtracted(s, s0, o, d, borrow) && (borrow == 1 ==> d + |o| < |s|)
    requires if borrow == 0 then t == s else
      t == s[d + |o| := if s[d + |o|] > 0 then s[d + |o|] - 1 else BASE - 2]
    ensures Num(t) == Num(s0) - Value(o, d)
              + if StuckBorrow(s0, o, d) then (BASE - 1) * Pow(BASE, d + |o|) else 0
  {
    var i := d + |o|;
    StuckIsPending(s, s0, o, d, borrow);
    if borrow == 1 {
      assert s[i] == s[i..][0] == s0[i..][0] == s0[i];
      NumUpdate(s, i, t[i]);
      BorrowTaken(Num(t), Num(s), Num(s0), Value(o, d), s[i], t[i], Pow(BASE, i));
    }
  }

  lemma DifferenceValue(t: seq<Bigit>, s: seq<Bigit>, s0: seq<Bigit>, o: seq<Bigit>, e: nat, d: nat, borrow: nat)
    requires Subtracted(s, s0, o, d, borrow) && (borrow == 1 ==> d + |o| < |s|)
    requires if borrow == 0 then t == s else
      t == s[d + |o| := if s[d + |o|] > 0 then s[d + |o|] - 1 else BASE - 2]
    ensures Value(t, e) == Value(s0, e) - Value(o, e + d)
              + StuckExcess(s0, e, o, e + d)
  {
    DifferenceNum(t, s, s0, o, d, borrow);
    ValueSplit(o, d, e);
    PowAdd(BASE, d + |o|, e);
    assert |o| + (e + d) == d + |o| + e;
    var extra := if StuckBorrow(s0, o, d) then (BASE - 1) * Pow(BASE, d + |o|) else 0;
    MulAssoc(BASE - 1, Pow(BASE, d + |o|), Pow(BASE, e));
    var n, v: int, x: int := Num(s0), Value(o, d), extra;
    ProductSum(n, -v, x, Pow(BASE, e));
    MulNegate(v, Pow(BASE, e));
  }

  lemma DivisorNonzero(s: seq<Bigit>, e: nat, o: seq<Bigit>, eo: nat)
    requires Canonical(s) && Canonical(o) && 0 < Value(o, eo)
    requires Num(s) == 0 ==> e < |o| + eo
    ensures forall r :: CompareAnswer(s, e, o, eo, r) ==>
      (r >= 0 <==> Value(s, e) > Value(o, eo) || (Value(s, e) == Value(o, eo) && e <= eo))
    ensures 0 < Num(o)
  {
    ValueBounds(s, e);
    ValueBounds(o, eo);
  }

  lemma QuotientBound(v: nat, d: nat)
    requires 0 < d && v / d < BASE
    ensures v < BASE * d
  {
    assert v == v / d * d + v % d;
    MulMono(v / d + 1, BASE, d);
  }

  lemma AlignKeepsCanonical(s: seq<Bigit>, e: nat, d: nat)
    requires Canonical(s) && 0 < Value(s, e)
    ensures Canonical(Zeros(d) + s)
  {
    ValueBounds(s, e);
    NumZeroDigit(s);
    if |s| == 1 { assert s == [s[0]]; }
  }

  // A quotient below 2^32 means at most one more digit, and then no borrow gets stuck.
  lemma QuotientDigits(s: seq<Bigit>, e: nat, o: seq<Bigit>, eo: nat)
    requires Canonical(s) && Canonical(o) && e <= eo && 0 < Value(o, eo) <= Value(s, e)
    requires Value(s, e) < BASE * Value(o, eo)
    ensures !StuckBorrow(s, o, eo - e)
  {
    ValueBounds(s, e);
    ValueBounds(o, eo);
    if |s| + e > |o| + eo + 1 { ValueAtLeast(s, e, |o| + eo + 1); }
  }

  // x >> k
  function Shifted(x: nat, k: nat): (r: nat)
    ensures r <= x
  {
    if k == 0 then x else Shifted(x, k - 1) / 2
  }

  // (x & mask) != 0 for a mask with a single bit
  predicate HasBit(x: nat, mask: nat)
    requires 0 < mask
  {
    x / mask % 2 != 0
  }

  lemma HalfQuotient(x: nat, b: nat)
    requires 0 < b
    ensures x / b / 2 == x / (2 * b)
  {
    var q, r := x / b, x % b;
    assert x == q * b + r;
    var h, l := q / 2, q % 2;
    assert q * b == h * (2 * b) + l * b;
    assert l * b + r < 2 * b;
    DivModUnique(x, 2 * b, h, l * b + r);
  }

  lemma {:induction false} ShiftedIsQuotient(x: nat, k: nat)
    ensures Shifted(x, k) == x / Pow(2, k)
  {
    if k > 0 {
      ShiftedIsQuotient(x, k - 1);
      HalfQuotient(x, Pow(2, k - 1));
    }
  }

  // A power of five with a small exponent has few digits.
  lemma FewDigits(s: seq<Bigit>, k: nat)
    requires Canonical(s) && Value(s, 0) == Pow(5, k)
    ensures |s| <= k + 1
  {
    PowBaseMono(5, BASE, k);
    NumZeroDigit(s);
    if |s| > k + 1 {
      ValueAtLeast(s, 0, k + 1);
      PowStrict(BASE, k, k + 1);
    }
  }

  lemma SmallPower(s: seq<Bigit>, power: nat, k: nat)
    requires Canonical(s) && k > 0 && power < 0x4000_0000 && Value(s, 0) == Pow(5, Shifted(power, k))
    ensures |s| < 0x4000_0000
  {
    FewDigits(s, Shifted(power, k));
    assert Shifted(power, k) <= Shifted(power, k - 1) / 2 <= power / 2;
  }

  // One step of repeated squaring: the next bit of the exponent.
  lemma PowerStep(x: nat, k: nat, p: nat, p': nat)
    requires p == Pow(5, Shifted(x, k + 1)) && p' == if HasBit(x, Pow(2, k)) then p * p * 5 else p * p
    ensures p' == Pow(5, Shifted(x, k))
  {
    ShiftedIsQuotient(x, k);
    PowAdd(5, Shifted(x, k + 1), Shifted(x, k + 1));
  }

  // The loop that finds the top bit, and halves the mask that has passed it.
  method FindTopBit(power: nat) returns (bitmask: nat, ghost k: nat)
    requires 0 < power
    ensures bitmask == Pow(2, k) <= power < Pow(2, k + 1)
  {
    bitmask, k := 1, 0;
    while power >= bitmask
      invariant bitmask == Pow(2, k) && (k > 0 ==> Pow(2, k - 1) <= power)
      decreases 2 * power - bitmask
    {
      bitmask, k := bitmask * 2, k + 1;
    }
    bitmask, k := bitmask / 2, k - 1;
  }

  lemma TopBit(x: nat, k: nat)
    requires Pow(2, k) <= x < Pow(2, k + 1)
    ensures Shifted(x, k) == 1 && Pow(5, 1) == 5
  {
    ShiftedIsQuotient(x, k);
    DivModUnique(x, Pow(2, k), 1, x - Pow(2, k));
  }

  lemma SquareValue(r: seq<Bigit>, s: seq<Bigit>, e: nat)
    requires Num(r) == Num(s) * Num(s)
    ensures Value(r, e * 2) == Value(s, e) * Value(s, e)
  {
    PowAdd(BASE, e, e);
    MulSwap(Num(s), Num(s), Pow(BASE, e), Pow(BASE, e));
  }

  lemma ShiftedWords(lower: nat, upper: nat, high: nat, low: nat)
    requires lower < WORD && upper < WORD && upper == high * BASE + low && low < BASE
    ensures upper * BASE % WORD == low * BASE
    ensures (lower + WORD * upper) / BASE == low * BASE + lower / BASE + WORD * high
  {
    DivModUnique(upper * BASE, WORD, high, low * BASE);
    DivModUnique(lower + WORD * upper, BASE, low * BASE + lower / BASE + WORD * high, lower % BASE);
  }

  /** Holds the sums of terms in square() where there is no 128-bit integer. */
  class Accumulator {
    var lower: nat
    var upper: nat

    ghost predicate Valid()
      reads this
    {
      lower < WORD && upper < WORD
    }

    ghost function Sum(): nat
      reads this
    {
      lower + WORD * upper
    }

    constructor ()
      ensures Valid() && Sum() == 0
    {
      lower, upper := 0, 0;
    }

    // The conversion to a 32-bit digit.
    method Low() returns (d: Bigit)
      requires Valid()
      ensures d == Sum() % BASE
    {
      d := lower % BASE;
      DivModUnique(Sum(), BASE, BASE * upper + lower / BASE, d);
    }

    method Add(n: nat)
      requires Valid() && n < WORD && Sum() + n < WORD * WORD
      modifies this
      ensures Valid() && Sum() == old(Sum()) + n
    {
      lower := (lower + n) % WORD;
      if lower < n { upper := (upper + 1) % WORD; }
    }

    // >>= 32; the halves being combined have no bit in common.
    method ShiftRight()
      requires Valid()
      modifies this
      ensures Valid() && Sum() == old(Sum()) / BASE
    {
      ShiftedWords(lower, upper, upper / BASE, upper % BASE);
      lower := upper * BASE % WORD + lower / BASE;
      upper := upper / BASE;
    }
  }

  // The cross products of a column of the lower half.
  method AddLowColumn(sum: Accumulator, n: seq<Bigit>, t: nat)
    requires sum.Valid() && t < |n| < 0x4000_0000 && sum.Sum() <= |n| * BASE
    modifies sum
    ensures sum.Valid() && sum.Sum() == old(sum.Sum()) + Column(n, t, |n|)
  {
    var i, j := 0, t;
    while j >= 0
      invariant i + j == t && 0 <= i <= t + 1
      invariant sum.Valid() && sum.Sum() == old(sum.Sum()) + Column(n, t, i)
      decreases j
    {
      CrossRoom(n, t, i, old(sum.Sum()));
      sum.Add((n[i] as nat) * n[j]);
      i, j := i + 1, j - 1;
    }
    ColumnTail(n, t, i, |n|);
  }

  // The cross products of a column of the upper half.
  method AddHighColumn(sum: Accumulator, n: seq<Bigit>, t: nat)
    requires sum.Valid() && |n| <= t < 2 * |n| && |n| < 0x4000_0000 && sum.Sum() <= |n| * BASE
    modifies sum
    ensures sum.Valid() && sum.Sum() == old(sum.Sum()) + Column(n, t, |n|)
  {
    var j := |n| - 1;
    var i := t - j;
    ColumnHead(n, t, i);
    while i < |n|
      invariant i + j == t && 0 <= i <= |n|
      invariant sum.Valid() && sum.Sum() == old(sum.Sum()) + Column(n, t, i)
    {
      CrossRoom(n, t, i, old(sum.Sum()));
      sum.Add((n[i] as nat) * n[j]);
      i, j := i + 1, j - 1;
    }
  }

  class Bigint {
    var bigits: seq<Bigit>
    var exp: nat

    ghost predicate Valid()
      reads this
    {
      Canonical(bigits)
    }

    ghost function Val(): nat
      reads this
    {
      Value(bigits, exp)
    }

    constructor ()
      ensures bigits == [] && exp == 0
    {
      bigits, exp := [], 0;
    }

    function NumBigits(): nat
      reads this
    {
      |bigits| + exp
    }

    // The digit at absolute position i (get_bigit in add_compare).
    function At(i: nat): Bigit
      reads this
    {
      DigitAt(bigits, exp, i)
    }

    method Assign(other: Bigint)
      modifies this
      ensures bigits == other.bigits && exp == other.exp
    {
      bigits := other.bigits;
      exp := other.exp;
    }

    method AssignWord(n: nat)
      requires n < WORD
      modifies this
      ensures Valid() && Val() == n && exp == 0
      ensures n < BASE ==> bigits == [n]
    {
      var digits: seq<Bigit>, rest: nat := [n % BASE], n / BASE;
      NumSnoc([], digits[0]);
      while rest != 0
        invariant Num(digits) + Pow(BASE, |digits|) * rest == n
        invariant digits != [] && (rest == 0 ==> Canonical(digits))
        invariant n < BASE ==> rest == 0 && digits == [n]
        decreases rest
      {
        PushCarry(digits, rest % BASE, rest / BASE);
        digits := digits + [rest % BASE];
        rest := rest / BASE;
      }
      bigits, exp := digits, 0;
    }

    method Multiply32(value: Bigit)
      requires Valid() && value > 0
      modifies this
      ensures Valid() && Val() == old(Val()) * value && exp == old(exp)
    {
      ghost var s0 := bigits;
      var carry: nat, n := 0, |bigits|;
      for i := 0 to n
        invariant |bigits| == n && bigits[i..] == s0[i..] && exp == old(exp) && carry < BASE
        invariant Num(bigits[..i]) + Pow(BASE, i) * carry == value * Num(s0[..i])
      {
        var result := bigits[i] * value + carry;
        assert result < WORD by { MulMono(bigits[i], BASE - 1, value); }
        ghost var before, carry0 := bigits, carry;
        bigits := bigits[i := result % BASE];
        carry := result / BASE;
        assert bigits[..i] == before[..i];
        ProductDigit(bigits, s0, value, carry0, i, carry);
      }
      assert bigits[..n] == bigits && s0[..n] == s0;
      if carry != 0 {
        PushCarry(bigits, carry, 0);
        bigits := bigits + [carry];
      } else {
        CanonicalProduct(bigits, s0, value);
      }
      ValueProduct(bigits, s0, value, exp);
    }

    method Multiply64(value: nat)
      requires Valid() && 0 < value < WORD
      modifies this
      ensures Valid() && Val() == old(Val()) * value && exp == old(exp)
    {
      ghost var s0 := bigits;
      var lower, upper := value % BASE, value / BASE;
      var carry: nat, n := 0, |bigits|;
      for i := 0 to n
        invariant |bigits| == n && bigits[i..] == s0[i..] && exp == old(exp) && carry < WORD
        invariant Num(bigits[..i]) + Pow(BASE, i) * carry == value * Num(s0[..i])
      {
        var d, carry0 := bigits[i], carry;
        WideDigit(d, value, carry);
        var result := d * lower + carry % BASE;
        assert result < WORD;
        carry := d * upper + result / BASE + carry / BASE;
        assert carry < WORD;
        ghost var before := bigits;
        bigits := bigits[i := result % BASE];
        assert bigits[..i] == before[..i];
        ProductDigit(bigits, s0, value, carry0, i, carry);
      }
      assert bigits[..n] == bigits && s0[..n] == s0;
      if carry == 0 { CanonicalProduct(bigits, s0, value); }
      while carry != 0
        invariant Num(bigits) + Pow(BASE, |bigits|) * carry == value * Num(s0)
        invariant carry == 0 ==> Canonical(bigits)
        invariant exp == old(exp)
        decreases carry
      {
        PushCarry(bigits, carry % BASE, carry / BASE);
        bigits := bigits + [carry % BASE];
        carry := carry / BASE;
      }
      ValueProduct(bigits, s0, value, exp);
    }

    // The digit loop of operator<<=, with p = 2^shift and q = 2^(32-shift).
    method ShiftDigits(p: nat, q: nat)
      requires Valid() && 1 < p < BASE && 0 < q && p * q == BASE
      modifies `bigits
      ensures Valid() && Num(bigits) == p * Num(old(bigits))
    {
      ghost var s0 := bigits;
      var carry: nat, n := 0, |bigits|;
      for i := 0 to n
        invariant |bigits| == n && bigits[i..] == s0[i..] && carry < p
        invariant Num(bigits[..i]) + Pow(BASE, i) * carry == p * Num(s0[..i])
      {
        var d, carry0 := bigits[i], carry;
        ShiftDigit(d, carry, p, q);
        var shifted := d * p % BASE;
        carry := d / q;
        ghost var before := bigits;
        bigits := bigits[i := shifted + carry0];
        assert bigits[..i] == before[..i];
        ProductDigit(bigits, s0, p, carry0, i, carry);
      }
      assert bigits[..n] == bigits && s0[..n] == s0;
      if carry != 0 {
        PushCarry(bigits, carry, 0);
        bigits := bigits + [carry];
      } else {
        CanonicalProduct(bigits, s0, p);
      }
    }

    // operator<<=
    method ShiftLeft(shift: nat)
      requires Valid()
      modifies this
      ensures Valid() && Val() == old(Val()) * Pow(2, shift) && exp == old(exp) + shift / 32
    {
      ghost var s0, e0 := bigits, exp;
      exp := exp + shift / 32;
      var bits := shift % 32;
      ShiftSplit(Num(s0), e0, shift);
      if bits == 0 { return; }
      ShiftFactors(bits);
      ShiftDigits(Pow(2, bits), Pow(2, 32 - bits));
      ShiftValue(bigits, s0, Pow(2, bits), exp);
    }

    method RemoveLeadingZeros()
      requires bigits != []
      modifies `bigits
      ensures Valid() && Num(bigits) == Num(old(bigits)) && |bigits| <= |old(bigits)|
    {
      var numBigits := |bigits| - 1;
      assert bigits[..|bigits|] == bigits;
      while numBigits > 0 && bigits[numBigits] == 0
        invariant 0 <= numBigits < |bigits| && bigits == old(bigits)
        invariant Num(bigits[..numBigits + 1]) == Num(bigits)
      {
        NumStep(bigits, numBigits);
        numBigits := numBigits - 1;
      }
      bigits := bigits[..numBigits + 1];
    }

    method SubtractBigits(index: nat, other: Bigit, borrow: nat) returns (borrow': nat)
      requires index < |bigits| && borrow <= 1
      modifies `bigits
      ensures |bigits| == |old(bigits)| && borrow' <= 1
      ensures bigits == old(bigits)[index := bigits[index]]
      ensures bigits[index] - BASE * borrow' == old(bigits[index]) - other - borrow
    {
      var result := (bigits[index] - other - borrow) % WORD;
      bigits := bigits[index := result % BASE];
      borrow' := result / (WORD / 2);
    }

    // Computes this -= other for aligned numbers with this >= other.
    method SubtractAligned(other: Bigint)
      requires this != other && Valid() && other.Valid()
      requires exp <= other.exp && 0 < other.Val() <= Val()
      modifies `bigits
      ensures Valid()
      ensures Val() == old(Val()) - other.Val()
                + StuckExcess(old(bigits), exp, other.bigits, other.exp)
      ensures exp == old(exp)
    {
      ghost var s0, d, o := bigits, other.exp - exp, other.bigits;
      SubtrahendFits(bigits, exp, o, d);
      var borrow: nat, i, j, n := 0, other.exp - exp, 0, |other.bigits|;
      while j != n
        invariant 0 <= j <= n && i == d + j
        invariant Subtracted(bigits, s0, o[..j], d, borrow)
        decreases n - j
      {
        ghost var before, borrow0 := bigits, borrow;
        borrow := SubtractBigits(i, other.bigits[j], borrow);
        DifferenceStep(before, bigits, s0, o, j, d, borrow0, borrow);
        i, j := i + 1, j + 1;
      }
      assert o[..n] == o;
      ghost var mid, borrow0 := bigits, borrow;
      if borrow == 1 { BorrowHasDigit(mid, s0, other.bigits, exp, d); }
      while borrow > 0
        invariant Borrowing(mid, bigits, i, borrow0, borrow)
        decreases borrow, i < |bigits| && bigits[i] == 0
      {
        borrow := SubtractBigits(i, 0, borrow);
      }
      DifferenceValue(bigits, mid, s0, other.bigits, exp, d, borrow0);
      RemoveLeadingZeros();
    }

    // If this number has a bigger exponent than other, adds trailing zeros to make exponents equal.
    method Align(other: Bigint)
      requires this != other
      modifies this
      ensures Val() == old(Val()) && exp == Min(old(exp), other.exp)
      ensures bigits == Zeros(old(exp) - exp) + old(bigits)
    {
      var difference := exp - other.exp;
      if difference <= 0 { return; }
      ghost var s0 := bigits;
      var numBigits := |bigits|;
      bigits := bigits + Zeros(difference);
      var i, j := numBigits - 1, numBigits - 1 + difference;
      while i >= 0
        invariant -1 <= i < numBigits && j == i + difference && exp == old(exp)
        invariant |bigits| == numBigits + difference
        invariant forall k :: 0 <= k <= i ==> bigits[k] == s0[k]
        invariant forall k :: j < k < |bigits| ==> bigits[k] == s0[k - difference]
      {
        bigits := bigits[j := bigits[i]];
        i, j := i - 1, j - 1;
      }
      assert bigits[difference..] == s0;
      bigits := Zeros(difference) + bigits[difference..];
      exp := exp - difference;
      ValueAligned(s0, old(exp), difference);
    }

    // Divides this number by divisor, leaving the remainder here and returning the quotient,
    // which is an int. The first comparison says "less" for a divisor that is equal but
    // stored with a smaller exponent; that is the one case in which nothing is divided.
    method DivModAssign(divisor: Bigint) returns (quotient: int)
      requires this != divisor && Valid() && divisor.Valid() && divisor.Val() > 0
      requires Num(bigits) == 0 ==> exp < |divisor.bigits| + divisor.exp
      requires Val() / divisor.Val() < 0x8000_0000
      modifies this
      ensures Valid() && exp == if quotient > 0 then Min(old(exp), divisor.exp) else old(exp)
      ensures if old(Val()) == divisor.Val() && old(exp) > divisor.exp
              then quotient == 0 && Val() == old(Val())
              else quotient == old(Val()) / divisor.Val() && Val() == old(Val()) % divisor.Val()
    {
      ghost var v, d := Val(), divisor.Val();
      var order := Compare(this, divisor);
      DivisorNonzero(bigits, exp, divisor.bigits, divisor.exp);
      if order < 0 {
        if v < d { DivModUnique(v, d, 0, v); }
        return 0;
      }
      QuotientBound(v, d);
      AlignKeepsCanonical(bigits, exp, exp - Min(exp, divisor.exp));
      Align(divisor);
      quotient := 0;
      while true
        invariant Valid() && 0 <= quotient && v == quotient * d + Val() && d <= Val() < BASE * d
        invariant exp == Min(old(exp), divisor.exp) && divisor.Val() == d
        decreases Val()
      {
        QuotientDigits(bigits, exp, divisor.bigits, divisor.exp);
        SubtractAligned(divisor);
        assert (quotient + 1) * d == quotient * d + d;
        quotient := quotient + 1;
        order := Compare(this, divisor);
        DivisorNonzero(bigits, exp, divisor.bigits, divisor.exp);
        if !(order >= 0) { break; }
      }
      DivModUnique(v, d, quotient, Val());
    }

    method Square()
      requires Valid() && |bigits| < 0x4000_0000
      modifies this
      ensures Valid() && Val() == old(Val()) * old(Val()) && exp == 2 * old(exp)
    {
      var n := bigits;
      var numBigits := |n|;
      var numResultBigits := 2 * numBigits;
      bigits := bigits + Zeros(numResultBigits - numBigits);
      var sum := new Accumulator();
      SquaringStart(bigits, n);
      for bigitIndex := 0 to numBigits
        invariant sum.Valid() && fresh(sum) && |bigits| == numResultBigits && exp == old(exp)
        invariant Squaring(bigits, n, bigitIndex, sum.Sum())
      {
        ghost var before, sum0 := bigits, sum.Sum();
        AddLowColumn(sum, n, bigitIndex);
        ghost var total := sum.Sum();
        var d := sum.Low();
        bigits := bigits[bigitIndex := d];
        sum.ShiftRight();
        SquaringStep(before, bigits, n, bigitIndex, sum0, total);
      }
      // Then the columns that only the high digits reach.
      for bigitIndex := numBigits to numResultBigits
        invariant sum.Valid() && fresh(sum) && |bigits| == numResultBigits && exp == old(exp)
        invariant Squaring(bigits, n, bigitIndex, sum.Sum())
      {
        ghost var before, sum0 := bigits, sum.Sum();
        AddHighColumn(sum, n, bigitIndex);
        ghost var total := sum.Sum();
        var d := sum.Low();
        bigits := bigits[bigitIndex := d];
        sum.ShiftRight();
        SquaringStep(before, bigits, n, bigitIndex, sum0, total);
      }
      SquaringDone(bigits, n, sum.Sum());
      RemoveLeadingZeros();
      SquareValue(bigits, n, exp);
      exp := exp * 2;
    }

    // Assigns pow(10, power) to this number; the bit mask below must fit in an int.
    method AssignPow10(power: nat)
      requires power < 0x4000_0000
      modifies this
      ensures Valid() && Val() == Pow(10, power) && exp == power / 32
    {
      if power == 0 {
        AssignWord(1);
        return;
      }
      ghost var k: nat;
      var bitmask: nat;
      bitmask, k := FindTopBit(power);
      TopBit(power, k);
      // Compute pow(5, power) by repeated squaring and multiplication.
      AssignWord(5);
      bitmask := bitmask / 2;
      while bitmask != 0
        invariant bitmask == Pow(2, k) / 2
        invariant Valid() && Val() == Pow(5, Shifted(power, k)) && exp == 0
        decreases bitmask
      {
        k := k - 1;
        ghost var p := Val();
        SmallPower(bigits, power, k + 1);
        Square();
        if HasBit(power, bitmask) { Multiply32(5); }
        PowerStep(power, k, p, Val());
        bitmask := bitmask / 2;
      }
      assert k == 0;
      PowProduct(5, 2, power);
      ShiftLeft(power);
    }
  }
}
