/** Removing the decimal zeros of a significand by multiplying with modular inverses (Dragonbox). */
module TrailingZeros {
  import opened Arith
  import opened Words

  // x times the inverse of an odd m modulo M is small exactly for the multiples of m, and
  // then it is the quotient.
  lemma InverseDivides(x: nat, m: nat, inv: nat, t: nat, M: nat)
    requires x < M && 0 < m && m * inv == t * M + 1
    ensures var y := x * inv % M;
      && (y <= (M - 1) / m <==> x % m == 0)
      && (x % m == 0 ==> y == x / m)
  {
    if x % m == 0 { MultipleGivesQuotient(x, m, inv, t, M); } else { SmallGivesMultiple(x, m, inv, t, M); }
  }

  lemma SmallGivesMultiple(x: nat, m: nat, inv: nat, t: nat, M: nat)
    requires x < M && 0 < m && m * inv == t * M + 1 && x % m != 0
    ensures x * inv % M > (M - 1) / m
  {
    NatProduct(x, inv);
    NatQuotient(x * inv, M);
    var y, q := x * inv % M, x * inv / M;
    InverseProduct(x, m, inv, t, M, y, q);
    if y <= (M - 1) / m {
      QuotientBelow(y, m, M);
      SmallMultiple(m * y, x, x * t - m * q, M);
      DivModUnique(x, m, y, 0);
    }
  }

  lemma MultipleGivesQuotient(x: nat, m: nat, inv: nat, t: nat, M: nat)
    requires x < M && 0 < m && m * inv == t * M + 1 && x % m == 0
    ensures x * inv % M == x / m <= (M - 1) / m
  {
    NatQuotient(x, m);
    QuotientAtMost(x / m, m, M);
    MultipleTimesInverse(x / m, m, inv, t, M);
  }

  lemma InverseProduct(x: nat, m: nat, inv: nat, t: nat, M: nat, y: nat, q: nat)
    requires 0 < M && m * inv == t * M + 1 && y == x * inv % M && q == x * inv / M
    ensures m * y == x + (x * t - m * q) * M
  {
    NatProduct(x, inv);
    NatQuotient(x * inv, M);
    assert m * (x * inv) == m * (q * M) + m * y;
    MulAssoc(m, inv, x);
    MulAssoc(m, q, M);
    MulAssoc(x, t, M);
    assert x * (t * M + 1) == x * (t * M) + x;
    assert (x * t - m * q) * M == x * t * M - m * q * M;
  }

  lemma QuotientBelow(y: nat, m: nat, M: nat)
    requires 0 < m && 0 < M && y <= (M - 1) / m
    ensures m * y < M
  {
    assert M - 1 == (M - 1) / m * m + (M - 1) % m;
    MulMono(y, (M - 1) / m, m);
  }

  lemma QuotientAtMost(z: nat, m: nat, M: nat)
    requires 0 < m && z * m < M
    ensures z <= (M - 1) / m && z < M
  {
    var q := (M - 1) / m;
    assert M - 1 == q * m + (M - 1) % m;
    if z > q { MulMono(q + 1, z, m); }
    MulMono(1, m, z);
  }

  lemma SmallMultiple(a: nat, x: nat, k: int, M: nat)
    requires a < M && x < M && a == x + k * M
    ensures a == x
  {
    if k >= 1 { MulMono(1, k, M); } else if k <= -1 { MulMono(k, -1, M); }
  }

  lemma MultipleTimesInverse(z: nat, m: nat, inv: nat, t: nat, M: nat)
    requires z < M && m * inv == t * M + 1
    ensures z * m * inv % M == z
  {
    MulAssoc(z, m, inv);
    MulAssoc(z, t, M);
    assert z * (t * M + 1) == z * (t * M) + z;
    MulMono(0, z, t);
    DivModUnique(z * m * inv, M, z * t, z);
  }

  // The number of trailing zero bits.
  function Ctz(n: nat): nat
    requires n > 0
  {
    if n % 2 == 1 then 0 else 1 + Ctz(n / 2)
  }

  lemma DoubleFactor(h: nat, p: nat, odd: nat)
    requires 0 < p && h == odd * p
    ensures 2 * h / (2 * p) == odd && 2 * h % (2 * p) == 0 && 2 * h == odd * (2 * p)
  {
    MulAssoc(2, p, odd);
    DivModUnique(2 * h, 2 * p, odd, 0);
  }

  lemma {:induction false} CtzFactor(n: nat)
    requires n > 0
    ensures n % Pow(2, Ctz(n)) == 0 && n == n / Pow(2, Ctz(n)) * Pow(2, Ctz(n)) && n / Pow(2, Ctz(n)) % 2 == 1
  {
    if n % 2 == 0 {
      CtzFactor(n / 2);
      var p := Pow(2, Ctz(n / 2));
      NatQuotient(n / 2, p);
      DoubleFactor(n / 2, p, n / 2 / p);
    }
  }

  lemma {:induction false} TwosCancel(a: nat, b: nat, k: nat, c: nat)
    requires b % 2 == 1 && a * b == c * Pow(2, k)
    ensures a == a / Pow(2, k) * Pow(2, k)
  {
    if k > 0 {
      var p := Pow(2, k - 1);
      MulAssoc(2, p, c);
      OddProduct(a, b, c * p);
      MulAssoc(2, a / 2, b);
      TwosCancel(a / 2, b, k - 1, c);
      var q := a / 2 / p;
      MulAssoc(2, p, q);
      DivModUnique(a, 2 * p, q, 0);
    }
  }

  lemma OddProduct(a: nat, b: nat, c: nat)
    requires b % 2 == 1 && a * b == 2 * c
    ensures a % 2 == 0
  {
    if a % 2 == 1 { OddTimesOdd(a, b); }
  }

  const E8: nat := 100_000_000
  const FIVE8: nat := 390_625

  // After k divisions of the low eight digits by five.
  predicate Rung(n: nat, quotient: nat, rem: nat, k: nat)
  {
    n > 0 && k <= Ctz(n) && k < 8 && n == quotient * E8 + rem * Pow(5, k)
  }

  lemma TenParts(k: nat)
    requires k < 8
    ensures Pow(10, k) == Pow(2, k) * Pow(5, k) && Pow(10, 8 - k) * Pow(10, k) == E8
    ensures Pow(10, 8 - k) % 5 == 0 && Pow(10, 8 - k) * Pow(10, k) == Pow(10, 8 - k) * Pow(5, k) * Pow(2, k)
  {
    PowProduct(2, 5, k);
    PowAdd(10, 8 - k, k);
    assert Pow(10, 4) == 10_000 by { assert Pow(10, 2) == 100; }
    PowAdd(10, 4, 4);
    assert Pow(10, 8 - k) == 5 * (2 * Pow(10, 7 - k));
    MulAssoc(Pow(10, 8 - k), Pow(5, k), Pow(2, k));
  }

  // The remainder is divisible by 2^k because n is.
  lemma RungEven(n: nat, quotient: nat, rem: nat, k: nat)
    requires Rung(n, quotient, rem, k)
    ensures rem == rem / Pow(2, k) * Pow(2, k)
  {
    CtzFactor(n);
    TenParts(k);
    PowFiveOdd(k);
    PowAdd(2, Ctz(n) - k, k);
    NatQuotient(n, Pow(2, Ctz(n)));
    NatProduct(Pow(10, 8 - k), Pow(5, k));
    NatProduct(n / Pow(2, Ctz(n)), Pow(2, Ctz(n) - k));
    NatProduct(rem, Pow(5, k));
    var odd, high, p := n / Pow(2, Ctz(n)), Pow(2, Ctz(n) - k), Pow(2, k);
    var ten := Pow(10, 8 - k) * Pow(5, k);
    NatProduct(quotient, ten);
    MulAssoc(odd, high, p);
    MulAssoc(quotient, ten, p);
    RungCofactor(odd * high, quotient * ten, rem * Pow(5, k), p);
    TwosCancel(rem, Pow(5, k), k, odd * high - quotient * ten);
  }

  lemma RungCofactor(x: nat, y: nat, z: nat, p: nat)
    requires 0 < p && x * p == y * p + z
    ensures x >= y && (x - y) * p == z
  {
    MulCancel(y, x, p);
  }

  lemma RungScalar(n: nat, quotient: nat, rem: nat, p2: nat, p5: nat, high: nat, half: nat)
    requires n == quotient * (high * (p2 * p5)) + rem * p5 && rem == half * p2
    ensures n == (half + quotient * high) * (p2 * p5)
  {
    MulAssoc(half, p2, p5);
    MulAssoc(quotient, high, p2 * p5);
  }

  // n' is n without its s trailing zeros.
  predicate Stripped(n: nat, n': nat, s: nat)
  {
    n == n' * Pow(10, s) && n' % 10 != 0
  }

  // What the ladder returns when it stops after k divisions.
  function Shortened(quotient: nat, rem: nat, k: nat): nat
    requires k < 8
  {
    NatQuotient(rem, Pow(2, k));
    NatProduct(quotient, Pow(10, 8 - k));
    rem / Pow(2, k) + quotient * Pow(10, 8 - k)
  }

  // It is n without zeros.
  lemma RungDone(n: nat, quotient: nat, rem: nat, k: nat)
    requires Rung(n, quotient, rem, k)
    requires k == Ctz(n) || rem % 5 != 0 || (k == 7 && n % FIVE8 != 0)
    ensures Stripped(n, Shortened(quotient, rem, k), k)
  {
    NatQuotient(rem, Pow(2, k));
    var half, high := rem / Pow(2, k), Pow(10, 8 - k);
    NatProduct(quotient, high);
    RungEven(n, quotient, rem, k);
    TenParts(k);
    RungScalar(n, quotient, rem, Pow(2, k), Pow(5, k), high, half);
    RungNotTen(n, quotient, rem, k, half, half + quotient * high);
  }

  lemma NotTen(n: nat)
    requires n % 2 != 0 || n % 5 != 0
    ensures n % 10 != 0
  {
    if n % 10 == 0 {
      DivModUnique(n, 2, 5 * (n / 10), 0);
      DivModUnique(n, 5, 2 * (n / 10), 0);
    }
  }

  lemma RungNotTen(n: nat, quotient: nat, rem: nat, k: nat, half: nat, n': nat)
    requires 0 < n && k < 8 && (k == Ctz(n) || rem % 5 != 0 || (k == 7 && n % FIVE8 != 0))
    requires n' == half + quotient * Pow(10, 8 - k) && n == n' * Pow(10, k) && rem == half * Pow(2, k)
    ensures n' % 10 != 0
  {
    if k == Ctz(n) {
      OddAfterTwos(n, n');
      NotTen(n');
    } else if rem % 5 != 0 {
      TenParts(k);
      FiveDivides(n', half, quotient, Pow(10, 8 - k), Pow(2, k), rem);
      NotTen(n');
    } else {
      EightTens(n, n');
    }
  }

  // Dividing by 10^t takes all factors two out.
  lemma OddAfterTwos(n: nat, n': nat)
    requires n > 0 && n == n' * Pow(10, Ctz(n))
    ensures n' % 2 == 1
  {
    var t := Ctz(n);
    CtzFactor(n);
    PowProduct(2, 5, t);
    CancelTwos(n', Pow(5, t), Pow(2, t), n / Pow(2, t));
  }

  lemma CancelTwos(a: nat, b: nat, p: nat, odd: nat)
    requires 0 < p && a * (p * b) == odd * p && odd % 2 == 1
    ensures a % 2 == 1
  {
    MulAssoc(a, p, b);
    MulCancelEq(a * b, odd, p);
    if a % 2 == 0 { MulAssoc(2, a / 2, b); }
  }

  lemma FiveDivides(n': nat, half: nat, quotient: nat, high: nat, p: nat, rem: nat)
    requires high % 5 == 0 && n' == half + quotient * high && rem == half * p
    ensures n' % 5 == 0 ==> rem % 5 == 0
  {
    if n' % 5 == 0 {
      var h := high / 5;
      MulAssoc(quotient, 5, h);
      MulAssoc(5, n' / 5 - quotient * h, p);
      assert rem == 5 * ((n' / 5 - quotient * h) * p);
    }
  }

  lemma EightTens(n: nat, n': nat)
    requires n == n' * Pow(10, 7) && n % FIVE8 != 0
    ensures n' % 10 != 0
  {
    assert Pow(10, 7) == 10_000_000 by { assert Pow(10, 3) == 1000; PowAdd(10, 3, 4); assert Pow(10, 4) == 10_000; }
  }

  lemma RungStep(n: nat, quotient: nat, rem: nat, k: nat)
    requires Rung(n, quotient, rem, k) && rem % 5 == 0 && k < Ctz(n) && k < 7
    ensures Rung(n, quotient, rem / 5, k + 1)
  {
    MulAssoc(rem / 5, 5, Pow(5, k));
  }

  // After the division by 10^8 and s - 8 divisions by five.
  predicate HighRung(n: nat, quotient: nat, s: nat)
  {
    n > 0 && 8 <= s <= Ctz(n) && n == quotient * Pow(5, s) * 256
  }

  lemma HighRungStep(n: nat, quotient: nat, s: nat)
    requires HighRung(n, quotient, s) && quotient % 5 == 0 && s < Ctz(n)
    ensures HighRung(n, quotient / 5, s + 1)
  {
    MulAssoc(quotient / 5, 5, Pow(5, s));
  }

  lemma HighScalar(n: nat, quotient: nat, p5: nat, x: nat, p: nat, half: nat)
    requires n == quotient * p5 * 256 && n == x * (256 * p)
    ensures quotient * p5 == x * p
    ensures quotient == half * p ==> n == half * (256 * p * p5)
  {
    MulAssoc(256, x, p);
    MulAssoc(half, p, p5);
    MulAssoc(256, p, p5);
    MulAssoc(256, half, p * p5);
  }

  lemma HighRungEven(n: nat, quotient: nat, s: nat)
    requires HighRung(n, quotient, s)
    ensures quotient == quotient / Pow(2, s - 8) * Pow(2, s - 8)
    ensures n == quotient / Pow(2, s - 8) * Pow(10, s)
  {
    var p, p5, half := Pow(2, s - 8), Pow(5, s), quotient / Pow(2, s - 8);
    var odd, rest := n / Pow(2, Ctz(n)), Pow(2, Ctz(n) - s);
    CtzFactor(n);
    PowAdd(2, Ctz(n) - s, s);
    PowAdd(2, 8, s - 8);
    EighthPowers();
    MulAssoc(odd, rest, Pow(2, s));
    HighScalar(n, quotient, p5, odd * rest, p, half);
    PowFiveOdd(s);
    TwosCancel(quotient, p5, s - 8, odd * rest);
    PowProduct(2, 5, s);
  }

  lemma HighRungDone(n: nat, quotient: nat, s: nat)
    requires HighRung(n, quotient, s) && n <= 18_446_744_073_709_551
    requires s == Ctz(n) || quotient % 5 != 0 || s == 16
    ensures Stripped(n, quotient / Pow(2, s - 8), s)
  {
    NatQuotient(quotient, Pow(2, s - 8));
    var n' := quotient / Pow(2, s - 8);
    HighRungEven(n, quotient, s);
    HighNotTen(n, quotient, s, n', Pow(2, s - 8));
  }

  lemma HighNotTen(n: nat, quotient: nat, s: nat, n': nat, p: nat)
    requires 0 < n <= 18_446_744_073_709_551 && (s == Ctz(n) || quotient % 5 != 0 || s == 16)
    requires quotient == n' * p && n == n' * Pow(10, s)
    ensures n' % 10 != 0
  {
    if s == Ctz(n) {
      OddAfterTwos(n, n');
      NotTen(n');
    } else if quotient % 5 != 0 {
      FiveFactor(n', p);
      NotTen(n');
    } else {
      SixteenTens(n, n');
    }
  }

  lemma FiveFactor(a: nat, p: nat)
    ensures a % 5 == 0 ==> a * p % 5 == 0
  {
    if a % 5 == 0 { MulAssoc(5, a / 5, p); }
  }

  lemma SixteenTens(n: nat, n': nat)
    requires 0 < n <= 18_446_744_073_709_551 && n == n' * Pow(10, 16)
    ensures n' == 1
  {
    assert Pow(10, 4) == 10_000 by { assert Pow(10, 2) == 100; }
    PowAdd(10, 4, 4);
    PowAdd(10, 8, 8);
  }

  lemma EighthPowers()
    ensures Pow(2, 8) == 256 && Pow(5, 8) == FIVE8
  {
    assert Pow(2, 4) == 16 && Pow(5, 4) == 625 by { assert Pow(2, 2) == 4 && Pow(5, 2) == 25; }
    PowAdd(2, 4, 4);
    PowAdd(5, 4, 4);
  }

  const INV5: nat := 0xcccc_cccd
  const MAX5: nat := 0x3333_3333
  const INV5_8: nat := 0xc767_074b_22e9_0e21
  const MAX5_8: nat := 0x0000_2af3_1dc4_6118

  lemma DivisibleByFive(x: U32)
    ensures x * INV5 % W32 <= MAX5 <==> x % 5 == 0
    ensures x % 5 == 0 ==> x * INV5 % W32 == x / 5
  {
    InverseDivides(x, 5, INV5, 4, W32);
  }

  lemma DivisibleByFive8(x: U64)
    ensures x * INV5_8 % W64 <= MAX5_8 <==> x % FIVE8 == 0
    ensures x % FIVE8 == 0 ==> x * INV5_8 % W64 == x / FIVE8
  {
    InverseDivides(x, FIVE8, INV5_8, 304264, W64);
  }

  // The quotient by 5^8 is divisible by 2^8 when n is.
  lemma HighStart(n: nat)
    requires n > 0 && 8 <= Ctz(n) && n % FIVE8 == 0
    ensures HighRung(n, n / FIVE8 / 256, 8)
  {
    CtzFactor(n);
    PowAdd(2, Ctz(n) - 8, 8);
    EighthPowers();
    var c := n / Pow(2, Ctz(n)) * Pow(2, Ctz(n) - 8);
    MulAssoc(n / Pow(2, Ctz(n)), Pow(2, Ctz(n) - 8), 256);
    TwosCancel(n / FIVE8, FIVE8, 8, c);
  }

  // The 32-bit subtraction gives the remainder although the product in it wraps around.
  lemma LadderStart(n: U64, quotient: U32, remainder: U32)
    requires 0 < n <= 18_446_744_073_709_551
    requires quotient == n / E8 % W32 && remainder == (n - E8 * quotient % W32) % W32
    ensures Rung(n, quotient, remainder, 0) && quotient == n / E8
  {
    assert Pow(5, 0) == 1;
    var low := n % E8;
    DivModUnique(n - E8 * quotient % W32, W32, E8 * quotient / W32, low);
  }

  // n without its zeros at the end, and how many there were.
  method RemoveTrailingZeros(n: U64) returns (n': nat, s: nat)
    requires 0 < n <= 18_446_744_073_709_551
    ensures Stripped(n, n', s)
  {
    var t := Ctz(n);
    if t > 16 { t := 16; }
    // A multiple of 10^8 leaves only its quotient to strip.
    if t >= 8 {
      var candidate := n * INV5_8 % W64;
      DivisibleByFive8(n);
      if candidate <= MAX5_8 {
        n', s := HighZeros(n, t, candidate / 256);
        return;
      }
    }
    n', s := LowZeros(n, t);
  }

  method HighZeros(n: U64, t: nat, start: U32) returns (n': nat, s: nat)
    requires 0 < n <= 18_446_744_073_709_551 && 8 <= t == Min(Ctz(n), 16)
    requires n % FIVE8 == 0 && start == n / FIVE8 / 256
    ensures Stripped(n, n', s)
  {
    HighStart(n);
    var quotient: U32 := start;
    s := 8;
    while s < t
      invariant s <= t && HighRung(n, quotient, s)
    {
      DivisibleByFive(quotient);
      if quotient * INV5 % W32 > MAX5 { break; }
      HighRungStep(n, quotient, s);
      quotient := quotient * INV5 % W32;
      s := s + 1;
    }
    HighRungDone(n, quotient, s);
    NatQuotient(quotient, Pow(2, s - 8));
    n' := quotient / Pow(2, s - 8);
  }

  // 2^k and 10^(8-k) for the steps of the ladder.
  function Two(k: nat): nat
    requires k < 8
  {
    [1, 2, 4, 8, 16, 32, 64, 128][k]
  }

  function Ten(k: nat): nat
    requires k < 8
  {
    [100000000, 10000000, 1000000, 100000, 10000, 1000, 100, 10][k]
  }

  lemma {:induction false} StepPowers(k: nat)
    requires k < 8
    ensures Two(k) == Pow(2, k) && Ten(k) == Pow(10, 8 - k)
  {
    if k == 0 {
      assert Pow(10, 4) == 10_000 by { assert Pow(10, 2) == 100; }
      PowAdd(10, 4, 4);
    } else {
      StepPowers(k - 1);
      assert Pow(10, 8 - (k - 1)) == 10 * Pow(10, 8 - k);
    }
  }

  // One block of the ladder: stops after k divisions or divides once more.
  method Ladder(n: U64, t: nat, quotient: U32, remainder: U32, k: nat)
    returns (stop: bool, remainder': U32, n': nat)
    requires k < 7 && Rung(n, quotient, remainder, k) && t == Min(Ctz(n), 16)
    ensures if stop then Stripped(n, n', k) else Rung(n, quotient, remainder', k + 1)
  {
    DivisibleByFive(remainder);
    var product := remainder * INV5 % W32;
    if t == k || product > MAX5 {
      RungDone(n, quotient, remainder, k);
      StepPowers(k);
      NatQuotient(remainder, Two(k));
      NatProduct(quotient, Ten(k));
      return true, remainder, remainder / Two(k) + quotient * Ten(k);
    }
    RungStep(n, quotient, remainder, k);
    return false, product, 0;
  }

  lemma LastRung(n: nat, quotient: nat, rem: nat)
    requires Rung(n, quotient, rem, 7) && (Ctz(n) < 8 || n % FIVE8 != 0)
    ensures Stripped(n, rem / 128 + quotient * 10, 7)
  {
    RungDone(n, quotient, rem, 7);
    StepPowers(7);
  }

  method LowZeros(n: U64, t: nat) returns (n': nat, s: nat)
    requires 0 < n <= 18_446_744_073_709_551 && t == Min(Ctz(n), 16)
    requires t < 8 || n % FIVE8 != 0
    ensures Stripped(n, n', s)
  {
    // Any other number leaves its low eight digits to strip.
    var quotient: U32 := n / E8 % W32;
    var remainder: U32 := (n - E8 * quotient % W32) % W32;
    LadderStart(n, quotient, remainder);
    var stop;
    stop, remainder, n' := Ladder(n, t, quotient, remainder, 0);
    if stop { return n', 0; }
    stop, remainder, n' := Ladder(n, t, quotient, remainder, 1);
    if stop { return n', 1; }
    stop, remainder, n' := Ladder(n, t, quotient, remainder, 2);
    if stop { return n', 2; }
    stop, remainder, n' := Ladder(n, t, quotient, remainder, 3);
    if stop { return n', 3; }
    stop, remainder, n' := Ladder(n, t, quotient, remainder, 4);
    if stop { return n', 4; }
    stop, remainder, n' := Ladder(n, t, quotient, remainder, 5);
    if stop { return n', 5; }
    stop, remainder, n' := Ladder(n, t, quotient, remainder, 6);
    if stop { return n', 6; }
    LastRung(n, quotient, remainder);
    return remainder / 128 + quotient * 10, 7;
  }
}
