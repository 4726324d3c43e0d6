/** The square of a digit string, summed column by column as bigint::square does. */
module Convolution {
  import opened Arith
  import opened Bigits

  // The product s[i] * s[t - i], where both digits exist.
  function Cross(s: seq<Bigit>, t: nat, i: nat): nat
    requires i < |s|
  {
    if 0 <= t - i < |s| then (s[i] as nat) * s[t - i] else 0
  }

  // The products s[i] * s[t - i] with i < m.
  function Column(s: seq<Bigit>, t: nat, m: nat): nat
    requires m <= |s|
  {
    if m == 0 then 0 else Column(s, t, m - 1) + Cross(s, t, m - 1)
  }

  // Digit i with its weight, times the digits j with i + j < t.
  function Row(s: seq<Bigit>, t: nat, i: nat): nat
    requires i < |s|
  {
    var top := if t < i then 0 else if t - i > |s| then |s| else t - i;
    s[i] * Pow(BASE, i) * Num(s[..top])
  }

  // The products of digits i < m and j with i + j < t, each with its weight.
  function Rows(s: seq<Bigit>, t: nat, m: nat): nat
    requires m <= |s|
  {
    if m == 0 then 0 else Rows(s, t, m - 1) + Row(s, t, m - 1)
  }

  lemma RowTerm(a: nat, p: nat, x: nat, c: nat, q: nat, pq: nat)
    requires pq == p * q
    ensures a * p * (x + c * q) == a * p * x + pq * (a * c)
  {
    assert a * p * (x + c * q) == a * p * x + a * p * (c * q);
    MulSwap(a, p, c, q);
  }

  lemma RowStep(s: seq<Bigit>, t: nat, i: nat)
    requires i < |s|
    ensures Row(s, t + 1, i) == Row(s, t, i) + Pow(BASE, t) * Cross(s, t, i)
  {
    var j := t - i;
    if 0 <= j < |s| {
      NumStep(s, j);
      PowAdd(BASE, i, j);
      RowTerm(s[i], Pow(BASE, i), Num(s[..j]), s[j], Pow(BASE, j), Pow(BASE, t));
    }
  }

  lemma Distribute(p: nat, x: nat, y: nat)
    ensures p * (x + y) == p * x + p * y && (x + y) * p == x * p + y * p
  {
  }

  lemma {:induction false} RowsStep(s: seq<Bigit>, t: nat, m: nat)
    requires m <= |s|
    ensures Rows(s, t + 1, m) == Rows(s, t, m) + Pow(BASE, t) * Column(s, t, m)
  {
    if m > 0 {
      RowsStep(s, t, m - 1);
      RowStep(s, t, m - 1);
      Distribute(Pow(BASE, t), Column(s, t, m - 1), Cross(s, t, m - 1));
    }
  }

  lemma {:induction false} RowsZero(s: seq<Bigit>, m: nat)
    requires m <= |s|
    ensures Rows(s, 0, m) == 0
  {
    if m > 0 { RowsZero(s, m - 1); }
  }

  lemma RowAll(s: seq<Bigit>, t: nat, i: nat)
    requires i < |s| && t + 1 >= 2 * |s|
    ensures Row(s, t, i) == s[i] * Pow(BASE, i) * Num(s)
  {
    assert s[..|s|] == s;
  }

  lemma {:induction false} RowsAll(s: seq<Bigit>, t: nat, m: nat)
    requires m <= |s| && t + 1 >= 2 * |s|
    ensures Rows(s, t, m) == Num(s[..m]) * Num(s)
  {
    if m > 0 {
      RowsAll(s, t, m - 1);
      RowAll(s, t, m - 1);
      NumStep(s, m - 1);
      NatProduct(s[m - 1], Pow(BASE, m - 1));
      SumOfProducts(Rows(s, t, m - 1), Row(s, t, m - 1), Num(s[..m - 1]), s[m - 1] * Pow(BASE, m - 1), Num(s), Num(s[..m]));
    }
  }

  lemma SumOfProducts(x: nat, y: nat, a: nat, b: nat, n: nat, sum: nat)
    requires x == a * n && y == b * n && sum == a + b
    ensures x + y == sum * n
  {
  }

  lemma {:induction false} ColumnTail(s: seq<Bigit>, t: nat, m: nat, n: nat)
    requires m <= n <= |s| && t < m
    ensures Column(s, t, n) == Column(s, t, m)
  {
    if m < n { ColumnTail(s, t, m, n - 1); }
  }

  lemma {:induction false} ColumnHead(s: seq<Bigit>, t: nat, m: nat)
    requires m <= |s| && m + |s| <= t + 1
    ensures Column(s, t, m) == 0
  {
    if m > 0 { ColumnHead(s, t, m - 1); }
  }

  lemma {:induction false} ColumnBound(s: seq<Bigit>, t: nat, m: nat)
    requires m <= |s|
    ensures Column(s, t, m) <= m * ((BASE - 1) * (BASE - 1))
  {
    if m > 0 {
      ColumnBound(s, t, m - 1);
      var i := m - 1;
      if 0 <= t - i < |s| {
        MulMono(s[i], BASE - 1, s[t - i]);
        MulMono(s[t - i], BASE - 1, BASE - 1);
      }
    }
  }

  // The digits already produced and the running sum together are the rows summed so far.
  predicate Squaring(r: seq<Bigit>, s: seq<Bigit>, t: nat, sum: nat)
  {
    && t <= |r| == 2 * |s|
    && Num(r[..t]) + Pow(BASE, t) * sum == Rows(s, t, |s|)
    && sum <= |s| * BASE
  }

  lemma SquaringStart(r: seq<Bigit>, s: seq<Bigit>)
    requires |r| == 2 * |s|
    ensures Squaring(r, s, 0, 0)
  {
    RowsZero(s, |s|);
  }

  lemma SquaringStep(r: seq<Bigit>, r': seq<Bigit>, s: seq<Bigit>, t: nat, sum: nat, total: nat)
    requires Squaring(r, s, t, sum) && t < |r| && total == sum + Column(s, t, |s|)
    requires |r'| == |r| && r'[..t] == r[..t] && r'[t] == total % BASE
    ensures Squaring(r', s, t + 1, total / BASE)
  {
    RowsStep(s, t, |s|);
    NumStep(r', t);
    SquareScalar(Num(r[..t]), Pow(BASE, t), sum, Column(s, t, |s|), total % BASE, total / BASE);
    ColumnBound(s, t, |s|);
    CarryBound(|s|, sum, Column(s, t, |s|));
  }

  lemma SquareScalar(x: nat, p: nat, sum: nat, column: nat, low: nat, high: nat)
    requires sum + column == low + BASE * high
    ensures x + low * p + BASE * p * high == x + p * sum + p * column
  {
    MulAssoc(BASE, p, high);
    assert p * (sum + column) == p * sum + p * column;
    assert (low + BASE * high) * p == low * p + BASE * high * p;
    MulAssoc(BASE, high, p);
  }

  lemma CarryBound(n: nat, sum: nat, column: nat)
    requires sum <= n * BASE && column <= n * ((BASE - 1) * (BASE - 1))
    ensures sum + column <= n * (BASE * BASE) && (sum + column) / BASE <= n * BASE
  {
    assert sum + column <= n * (BASE * BASE);
    MulAssoc(n, BASE, BASE);
  }

  lemma NoCarryLeft(n: nat, p: nat, p2: nat, r: nat, sum: nat)
    requires n < p && p2 == p * p && r + p2 * sum == n * n
    ensures sum == 0 && r == n * n
  {
    MulMono(n, p, n);
    MulStrict(n, p, p);
    if sum > 0 { MulMono(1, sum, p2); }
  }

  lemma SquaringTotal(r: seq<Bigit>, s: seq<Bigit>, sum: nat)
    requires Squaring(r, s, |r|, sum)
    ensures Num(r) + Pow(BASE, |r|) * sum == Num(s) * Num(s)
  {
    assert r[..|r|] == r && s[..|s|] == s;
    RowsAll(s, |r|, |s|);
  }

  // No carry is left when the last digit has been produced.
  lemma SquaringDone(r: seq<Bigit>, s: seq<Bigit>, sum: nat)
    requires s != [] && Squaring(r, s, |r|, sum)
    ensures sum == 0 && Num(r) == Num(s) * Num(s)
  {
    SquaringTotal(r, s, sum);
    NumBound(s);
    PowAdd(BASE, |s|, |s|);
    NoCarryLeft(Num(s), Pow(BASE, |s|), Pow(BASE, |r|), Num(r), sum);
  }

  // A 128-bit sum has room for one more product of a column.
  lemma CrossRoom(s: seq<Bigit>, t: nat, i: nat, sum: nat)
    requires i < |s| < 0x4000_0000 && 0 <= t - i < |s| && sum <= |s| * BASE
    ensures (s[i] as nat) * s[t - i] < 0x1_0000_0000_0000_0000
    ensures sum + Column(s, t, i) + (s[i] as nat) * s[t - i] < 0x1_0000_0000_0000_0000 * 0x1_0000_0000_0000_0000
    ensures Column(s, t, i + 1) == Column(s, t, i) + (s[i] as nat) * s[t - i]
  {
    MulMono(s[i], BASE - 1, s[t - i]);
    MulMono(s[t - i], BASE - 1, BASE - 1);
    ColumnBound(s, t, i);
  }
}
