/** Counting decimal digits, by table and by loop (format.h). */
module CountDigits {
  import opened Arith

  // The number of decimal digits of n; 0 has one.
  function NumDigits(n: nat): (d: nat)
    ensures d > 0
  {
    if n < 10 then 1 else 1 + NumDigits(n / 10)
  }

  lemma {:induction false} NumDigitsBounds(n: nat)
    ensures n < Pow(10, NumDigits(n))
    ensures n > 0 ==> Pow(10, NumDigits(n) - 1) <= n
  {
    if n < 10 {
      assert Pow(10, 1) == 10 && Pow(10, 0) == 1;
    } else {
      NumDigitsBounds(n / 10);
      assert Pow(10, NumDigits(n) - 1) == 10 * Pow(10, NumDigits(n / 10) - 1);
    }
  }

  lemma {:induction false} NumDigitsUnique(n: nat, d: nat)
    requires d > 0 && n < Pow(10, d) && (d == 1 || Pow(10, d - 1) <= n)
    ensures NumDigits(n) == d
  {
    NumDigitsBounds(n);
    var c := NumDigits(n);
    if d < c { PowMono(10, d, c - 1); } else if c < d { PowMono(10, c, d - 1); }
  }

  // The fallback that divides by groups of four digits.
  method CountDigitsLoop(value: nat) returns (count: nat)
    ensures count == NumDigits(value)
  {
    var n := value;
    count := 1;
    while true
      invariant NumDigits(value) == count - 1 + NumDigits(n)
      decreases n
    {
      FourDigits(n);
      if n < 10 { return; }
      if n < 100 { return count + 1; }
      if n < 1000 { return count + 2; }
      if n < 10000 { return count + 3; }
      n := n / 10000;
      count := count + 4;
    }
  }

  lemma FourDigits(n: nat)
    ensures n >= 10 ==> NumDigits(n) == 1 + NumDigits(n / 10)
    ensures n >= 100 ==> NumDigits(n) == 2 + NumDigits(n / 100)
    ensures n >= 1000 ==> NumDigits(n) == 3 + NumDigits(n / 1000)
    ensures n >= 10000 ==> NumDigits(n) == 4 + NumDigits(n / 10000)
  {
    assert n / 10 / 10 == n / 100 && n / 100 / 10 == n / 1000 && n / 1000 / 10 == n / 10000;
  }

  // bsr2log10: a table of 64 entries, written run by run.
  function Bsr2Log10(bsr: nat): (t: nat)
    ensures 1 <= t <= 20
  {
    if bsr < 3 then 1 else if bsr < 6 then 2 else if bsr < 9 then 3 else if bsr < 13 then 4 else if bsr < 16 then 5 else
    if bsr < 19 then 6 else if bsr < 23 then 7 else if bsr < 26 then 8 else if bsr < 29 then 9 else if bsr < 33 then 10 else
    if bsr < 36 then 11 else if bsr < 39 then 12 else if bsr < 43 then 13 else if bsr < 46 then 14 else if bsr < 49 then 15 else
    if bsr < 53 then 16 else if bsr < 56 then 17 else if bsr < 59 then 18 else if bsr < 63 then 19 else 20
  }

  // The entry of zero_or_powers_of_10_64_new.
  function ZeroOrPower(t: nat): nat
  {
    if t < 2 then 0 else Pow(10, t - 1)
  }

  // The position of the highest bit.
  function HighestBit(n: nat): nat
    requires n > 0
  {
    if n == 1 then 0 else 1 + HighestBit(n / 2)
  }

  lemma {:induction false} HighestBitBounds(n: nat)
    requires n > 0
    ensures Pow(2, HighestBit(n)) <= n < Pow(2, HighestBit(n) + 1)
  {
    if n > 1 { HighestBitBounds(n / 2); }
  }

  // The numbers with highest bit b have at most t digits, and at least t - 1.
  predicate FitsDigits(b: nat, t: nat)
  {
    Pow(2, b + 1) <= Pow(10, t) && (t >= 2 ==> Pow(10, t - 2) <= Pow(2, b))
  }

  // The numbers whose highest bit is in a run of the table, from the powers at its ends; the
  // next run starts with known powers again.
  lemma Run(t: nat, first: nat, next: nat, b: nat, low: nat, high: nat, ten: nat)
    requires Pow(2, first) == low && Pow(10, t) == ten && t > 0 && first < next <= first + 4
    requires high == low * [1, 2, 4, 8, 16][next - first] && high <= ten <= 100 * low
    ensures Pow(2, next) == high && Pow(10, t + 1) == 10 * ten
    ensures first <= b < next ==> FitsDigits(b, t)
  {
    assert Pow(2, 1) == 2 && Pow(2, 2) == 4 && Pow(2, 3) == 8 && Pow(2, 4) == 16;
    PowAdd(2, first, next - first);
    if first <= b < next {
      PowMono(2, first, b);
      PowMono(2, b + 1, next);
      if t >= 2 { assert Pow(10, t) == 10 * Pow(10, t - 1) == 100 * Pow(10, t - 2); }
    }
  }

  lemma TableFits(b: nat)
    requires b < 64
    ensures FitsDigits(b, Bsr2Log10(b))
  {
    Run(1, 0, 3, b, 0x1, 0x8, 0xa);
    Run(2, 3, 6, b, 0x8, 0x40, 0x64);
    Run(3, 6, 9, b, 0x40, 0x200, 0x3e8);
    Run(4, 9, 13, b, 0x200, 0x2000, 0x2710);
    Run(5, 13, 16, b, 0x2000, 0x10000, 0x186a0);
    Run(6, 16, 19, b, 0x10000, 0x80000, 0xf4240);
    Run(7, 19, 23, b, 0x80000, 0x800000, 0x989680);
    Run(8, 23, 26, b, 0x800000, 0x4000000, 0x5f5e100);
    Run(9, 26, 29, b, 0x4000000, 0x20000000, 0x3b9aca00);
    Run(10, 29, 33, b, 0x20000000, 0x200000000, 0x2540be400);
    Run(11, 33, 36, b, 0x200000000, 0x1000000000, 0x174876e800);
    Run(12, 36, 39, b, 0x1000000000, 0x8000000000, 0xe8d4a51000);
    Run(13, 39, 43, b, 0x8000000000, 0x80000000000, 0x9184e72a000);
    Run(14, 43, 46, b, 0x80000000000, 0x400000000000, 0x5af3107a4000);
    Run(15, 46, 49, b, 0x400000000000, 0x2000000000000, 0x38d7ea4c68000);
    Run(16, 49, 53, b, 0x2000000000000, 0x20000000000000, 0x2386f26fc10000);
    Run(17, 53, 56, b, 0x20000000000000, 0x100000000000000, 0x16345785d8a0000);
    Run(18, 56, 59, b, 0x100000000000000, 0x800000000000000, 0xde0b6b3a7640000);
    Run(19, 59, 63, b, 0x800000000000000, 0x8000000000000000, 0x8ac7230489e80000);
    Run(20, 63, 64, b, 0x8000000000000000, 0x10000000000000000, 0x56bc75e2d63100000);
  }

  // count_digits with the count-leading-zeros builtin: n | 1 has the same highest bit as n > 0.
  method CountDigitsTable(n: nat) returns (count: nat)
    requires n < 0x1_0000_0000_0000_0000
    ensures count == NumDigits(n)
  {
    var t := Bsr2Log10(HighestBit(n - n % 2 + 1));
    TableDigits(n, t);
    count := t - if n < ZeroOrPower(t) then 1 else 0;
  }

  lemma TableDigits(n: nat, t: nat)
    requires n < 0x1_0000_0000_0000_0000 && t == Bsr2Log10(HighestBit(n - n % 2 + 1))
    ensures NumDigits(n) == t - if n < ZeroOrPower(t) then 1 else 0
  {
    var m := n - n % 2 + 1;
    var b := HighestBit(m);
    HighestBitBounds(m);
    BelowWord(m, b);
    TableFits(b);
    OddBound(n, m, b);
    DigitsFrom(n, t);
  }

  lemma BelowWord(m: nat, b: nat)
    requires Pow(2, b) <= m < 0x1_0000_0000_0000_0000
    ensures b < 64
  {
    PowTwo64();
    if b >= 64 { PowMono(2, 64, b); }
  }

  // Setting the lowest bit passes no power of two but 1.
  lemma OddBound(n: nat, m: nat, b: nat)
    requires m == n - n % 2 + 1 && Pow(2, b) <= m
    ensures b > 0 ==> Pow(2, b) <= n
  {
    if b > 0 { EvenBelow(n / 2, n % 2, Pow(2, b - 1)); }
  }

  lemma EvenBelow(k: nat, r: nat, h: nat)
    requires r < 2 && 2 * h <= 2 * k + 1
    ensures 2 * h <= 2 * k + r
  {
  }

  lemma DigitsFrom(n: nat, t: nat)
    requires t > 0 && n < Pow(10, t) && (t >= 2 ==> Pow(10, t - 2) <= n || (t == 2 && n == 0))
    ensures NumDigits(n) == t - if n < ZeroOrPower(t) then 1 else 0
  {
    assert Pow(10, 0) == 1 && Pow(10, 1) == 10;
    NumDigitsUnique(n, t - if n < ZeroOrPower(t) then 1 else 0);
  }
}
