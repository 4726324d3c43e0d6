/** Powers and the few facts about products that the other modules lean on. */
module Arith {

  function Pow(b: nat, e: nat): (r: nat)
    ensures b > 0 ==> r > 0
  {
    if e == 0 then 1 else b * Pow(b, e - 1)
  }

  function Max(a: int, b: int): int { if a > b then a else b }

  function Min(a: int, b: int): int { if a < b then a else b }

  function Abs(a: int): nat { if a < 0 then -a else a }

  function Sign(a: int): int { if a > 0 then 1 else if a < 0 then -1 else 0 }

  // Z3 is slow to see that a product or quotient of naturals is one.
  lemma NatProduct(x: nat, y: nat)
    ensures 0 <= x * y
  {
  }

  lemma NatQuotient(x: nat, y: nat)
    requires 0 < y
    ensures 0 <= x / y && 0 <= x % y < y && x == x / y * y + x % y
  {
  }

  lemma MulMono(a: int, b: int, c: nat)
    requires a <= b
    ensures a * c <= b * c && c * a <= c * b
  {
  }

  lemma MulStrict(a: int, b: int, c: nat)
    requires a < b && 0 < c
    ensures a * c < b * c && c * a < c * b
  {
  }

  lemma MulCancel(a: int, b: int, c: nat)
    requires 0 < c && a * c <= b * c
    ensures a <= b
  {
    if a > b { MulStrict(b, a, c); }
  }

  lemma MulCancelEq(a: int, b: int, c: nat)
    requires 0 < c && a * c == b * c
    ensures a == b
  {
    MulCancel(a, b, c);
    MulCancel(b, a, c);
  }

  lemma MulAssoc(a: int, b: int, c: int)
    ensures (a * b) * c == a * (b * c) == (a * c) * b
  {
  }

  lemma MulSwap(a: int, b: int, p: int, q: int)
    ensures (a * b) * (p * q) == (a * p) * (b * q)
  {
    MulAssoc(a, b, p * q);
    MulAssoc(b, p, q);
    MulAssoc(p, b, q);
    MulAssoc(a, p, b * q);
  }

  lemma {:induction false} PowAdd(b: nat, x: nat, y: nat)
    ensures Pow(b, x + y) == Pow(b, x) * Pow(b, y)
  {
    if x > 0 {
      PowAdd(b, x - 1, y);
      MulAssoc(b, Pow(b, x - 1), Pow(b, y));
      assert x + y - 1 == x - 1 + y;
    }
  }

  lemma {:induction false} PowMul(b: nat, x: nat, y: nat)
    ensures Pow(b, x * y) == Pow(Pow(b, x), y)
  {
    if y == 0 {
      assert x * y == 0;
    } else {
      PowMul(b, x, y - 1);
      assert x * y == x + x * (y - 1);
      PowAdd(b, x, x * (y - 1));
    }
  }

  lemma {:induction false} PowProduct(a: nat, b: nat, e: nat)
    ensures Pow(a * b, e) == Pow(a, e) * Pow(b, e)
  {
    if e > 0 {
      PowProduct(a, b, e - 1);
      MulSwap(a, b, Pow(a, e - 1), Pow(b, e - 1));
    }
  }

  lemma {:induction false} PowMono(b: nat, x: nat, y: nat)
    requires b > 0 && x <= y
    ensures Pow(b, x) <= Pow(b, y)
  {
    PowAdd(b, x, y - x);
    MulMono(1, Pow(b, y - x), Pow(b, x));
  }

  lemma {:induction false} PowStrict(b: nat, x: nat, y: nat)
    requires b > 1 && x < y
    ensures Pow(b, x) < Pow(b, y) && b * Pow(b, x) <= Pow(b, y)
  {
    PowMono(b, x + 1, y);
    MulStrict(1, b, Pow(b, x));
  }

  lemma {:induction false} PowBaseMono(a: nat, b: nat, e: nat)
    requires 0 < a <= b
    ensures Pow(a, e) <= Pow(b, e)
  {
    if e > 0 {
      PowBaseMono(a, b, e - 1);
      MulMono(Pow(a, e - 1), Pow(b, e - 1), a);
      MulMono(a, b, Pow(b, e - 1));
    }
  }

  // A quotient and remainder are determined by their defining equation.
  lemma DivModUnique(n: int, d: nat, q: int, r: int)
    requires 0 < d && n == q * d + r && 0 <= r < d
    ensures n / d == q && n % d == r
  {
    var q', r' := n / d, n % d;
    assert n == q' * d + r';
    if q < q' { MulMono(q + 1, q', d); } else if q > q' { MulMono(q' + 1, q, d); }
  }

  lemma PowTwo32()
    ensures Pow(2, 16) == 0x1_0000 && Pow(2, 32) == 0x1_0000_0000
  {
    assert Pow(2, 4) == 16 by { assert Pow(2, 2) == 4; }
    PowAdd(2, 4, 4);
    PowAdd(2, 8, 8);
    PowAdd(2, 16, 16);
  }

  lemma PowTwo64()
    ensures Pow(2, 60) == 0x1000_0000_0000_0000 && Pow(2, 64) == 0x1_0000_0000_0000_0000
  {
    PowTwo32();
    PowAdd(2, 32, 32);
    PowAdd(2, 60, 4);
    assert Pow(2, 4) == 16 by { assert Pow(2, 2) == 4; }
  }

  lemma OddTimesOdd(a: nat, b: nat)
    requires a % 2 == 1 && b % 2 == 1
    ensures a * b % 2 == 1
  {
    var x, y := a / 2, b / 2;
    assert a * b == (2 * x + 1) * (2 * y + 1) == 2 * (2 * x * y + x + y) + 1;
  }

  lemma {:induction false} PowFiveOdd(k: nat)
    ensures Pow(5, k) % 2 == 1
  {
    if k > 0 { PowFiveOdd(k - 1); }
  }
}
