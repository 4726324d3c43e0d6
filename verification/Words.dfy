/** Word-level arithmetic of the floating-point printer, with every 64-bit truncation written out. */
module Words {
  import opened Arith

  const W32: nat := 0x1_0000_0000
  const W64: nat := 0x1_0000_0000_0000_0000

  type U64 = x: nat | x < 0x1_0000_0000_0000_0000
  type U32 = x: nat | x < 0x1_0000_0000

  // The product of two words from the four products of their halves.
  lemma HalvesProduct(a: nat, b: nat, c: nat, d: nat)
    ensures (a * W32 + b) * (c * W32 + d) == a * c * W64 + (a * d + b * c) * W32 + b * d
  {
    MulAssoc(a, W32, c);
    MulAssoc(a * c, W32, W32);
    MulAssoc(a, W32, d);
    MulAssoc(b, c, W32);
    assert (a * W32 + b) * (c * W32 + d) == a * W32 * (c * W32) + a * W32 * d + b * (c * W32) + b * d;
    MulSwap(a, W32, c, W32);
  }

  lemma HalfProductBound(a: U32, b: U32)
    ensures 0 <= a * b <= 0xffff_fffe_0000_0001
  {
    MulMono(0, a, b);
    MulMono(a, 0xffff_ffff, b);
    MulMono(b, 0xffff_ffff, 0xffff_ffff);
  }

  // Computes lhs * rhs / 2^64 rounded to nearest with half-up tie breaking, from 32-bit halves.
  function Multiply(lhs: U64, rhs: U64): (r: U64)
    ensures r == (lhs * rhs + W64 / 2) / W64
  {
    var a, b := lhs / W32, lhs % W32;
    var c, d := rhs / W32, rhs % W32;
    HalfProductBound(a, c); HalfProductBound(b, c); HalfProductBound(a, d); HalfProductBound(b, d);
    var ac: U64, bc: U64, ad: U64, bd: U64 := a * c, b * c, a * d, b * d;
    var mid: U64 := bd / W32 + ad % W32 + bc % W32 + W32 / 2;
    HalvesProduct(a, b, c, d);
    MultiplyRounds(lhs * rhs, ac, bc, ad, bd, mid);
    ac + ad / W32 + bc / W32 + mid / W32
  }

  lemma MultiplyRounds(p: nat, ac: nat, bc: nat, ad: nat, bd: nat, mid: nat)
    requires p == ac * W64 + (ad + bc) * W32 + bd && mid == bd / W32 + ad % W32 + bc % W32 + W32 / 2
    ensures (p + W64 / 2) / W64 == ac + ad / W32 + bc / W32 + mid / W32
  {
    var high := ac + ad / W32 + bc / W32 + mid / W32;
    DivModUnique(p + W64 / 2, W64, high, mid % W32 * W32 + bd % W32);
  }

  // The same with a 128-bit product: add one if the bit below the result is set.
  function MultiplyWide(lhs: U64, rhs: U64): nat
  {
    var product := lhs * rhs;
    var f := product / W64;
    if product % W64 / (W64 / 2) % 2 != 0 then f + 1 else f
  }

  lemma MultiplyAgrees(lhs: U64, rhs: U64)
    ensures MultiplyWide(lhs, rhs) == Multiply(lhs, rhs)
  {
    MulMono(0, lhs, rhs);
    RoundingAgrees(lhs * rhs);
  }

  lemma RoundingAgrees(p: nat)
    ensures (p + W64 / 2) / W64 == p / W64 + if p % W64 / (W64 / 2) % 2 != 0 then 1 else 0
  {
    var low := p % W64;
    DivModUnique(p + W64 / 2, W64, p / W64 + (if low >= W64 / 2 then 1 else 0),
                 if low >= W64 / 2 then low - W64 / 2 else low + W64 / 2);
  }

  // Computes the 128-bit product of two 64-bit words from 32-bit halves.
  function Umul128(x: U64, y: U64): (r: (U64, U64))
    ensures r.0 * W64 + r.1 == x * y
  {
    var a, b := x / W32, x % W32;
    var c, d := y / W32, y % W32;
    HalfProductBound(a, c); HalfProductBound(b, c); HalfProductBound(a, d); HalfProductBound(b, d);
    var ac: U64, bc: U64, ad: U64, bd: U64 := a * c, b * c, a * d, b * d;
    var intermediate: U64 := bd / W32 + ad % W32 + bc % W32;
    HalvesProduct(a, b, c, d);
    var high := ac + intermediate / W32 + ad / W32 + bc / W32;
    var low := intermediate * W32 % W64 + bd % W32;
    UmulSplits(x * y, ac, bc, ad, bd);
    ProductBelow(x, y, high, low);
    (high, low)
  }

  lemma UmulSplits(p: nat, ac: nat, bc: nat, ad: nat, bd: nat)
    requires p == ac * W64 + (ad + bc) * W32 + bd
    ensures var intermediate := bd / W32 + ad % W32 + bc % W32;
      p == (ac + intermediate / W32 + ad / W32 + bc / W32) * W64 + (intermediate * W32 % W64 + bd % W32)
  {
    var i := bd / W32 + ad % W32 + bc % W32;
    DivModUnique(i * W32, W64, i / W32, i % W32 * W32);
  }

  lemma ProductBelow(x: U64, y: U64, high: nat, low: nat)
    requires x * y == high * W64 + low
    ensures high < W64
  {
    MulMono(x, W64 - 1, y);
    MulMono(y, W64 - 1, W64 - 1);
  }

  // Division by 1000 with a 73-bit reciprocal.
  function DivideBy1000(n: U64): nat
  {
    Umul128(n, 0x8312_6e97_8d4f_df3c).0 / 512
  }

  // The reciprocal is too big by 608 / (1000 * 2^73), so the quotient is right exactly as
  // long as that excess does not lift the fraction to the next integer.
  lemma DivideBy1000Exact(n: U64)
    ensures DivideBy1000(n) == n / 1000 <==> n % 1000 * 0x200_0000_0000_0000_0000 + 608 * n < 1000 * 0x200_0000_0000_0000_0000
    ensures 608 * n < 0x200_0000_0000_0000_0000 ==> DivideBy1000(n) == n / 1000
  {
    var p := Umul128(n, 0x8312_6e97_8d4f_df3c);
    var q := DivideBy1000(n);
    assert q * 0x200_0000_0000_0000_0000 <= n * 0x8312_6e97_8d4f_df3c < (q + 1) * 0x200_0000_0000_0000_0000;
    assert 1000 * 0x8312_6e97_8d4f_df3c == 0x200_0000_0000_0000_0000 + 608;
  }

  // The wide words above that fail: the largest one does.
  lemma DivideBy1000Fails()
    ensures DivideBy1000(0xffff_ffff_ffff_fd97) != 0xffff_ffff_ffff_fd97 / 1000
  {
    DivideBy1000Exact(0xffff_ffff_ffff_fd97);
  }
}
