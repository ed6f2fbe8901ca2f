/** Single-precision floats as bit patterns: the number each stands for, IEEE comparison,
    and the total order of section 5.10 of IEEE 754-2008. */
module Floats {
  import opened Bytes

  const SIGN := 0x8000_0000
  const HIDDEN_BIT := 0x80_0000

  predicate IsNaN(bits: u32) { bits % SIGN > 0x7F80_0000 }

  function Pow2(n: nat): (p: nat)
    ensures p > 0
  {
    if n == 0 then 1 else 2 * Pow2(n - 1)
  }

  /** The number without its sign, in units of the smallest subnormal. Infinity comes out
      above every finite number. */
  function Magnitude(bits: nat): nat {
    var e, m := bits / HIDDEN_BIT, bits % HIDDEN_BIT;
    if e == 0 then m else (HIDDEN_BIT + m) * Pow2(e - 1)
  }

  function Number(bits: u32): int {
    var m: int := Magnitude(bits % SIGN);
    if bits < SIGN then m else -m
  }

  /** IEEE comparison: false whenever a NaN takes part. */
  ghost predicate Equal(a: u32, b: u32) { !IsNaN(a) && !IsNaN(b) && Number(a) == Number(b) }

  ghost predicate Smaller(a: u32, b: u32) { !IsNaN(a) && !IsNaN(b) && Number(a) < Number(b) }

  lemma {:induction false} Pow2Grows(m: nat, n: nat)
    requires m <= n
    ensures Pow2(m) <= Pow2(n)
  {
    if m < n { Pow2Grows(m, n - 1); }
  }

  /** Larger patterns are larger numbers. */
  lemma MagnitudeGrows(a: nat, b: nat)
    requires a < b
    ensures Magnitude(a) < Magnitude(b)
  {
    var e, m, f, n := a / HIDDEN_BIT, a % HIDDEN_BIT, b / HIDDEN_BIT, b % HIDDEN_BIT;
    if e == f {
      if e > 0 { Scales(HIDDEN_BIT + m, HIDDEN_BIT + n, Pow2(e - 1)); }
    } else {
      if e > 0 {
        Scales(HIDDEN_BIT + m, 2 * HIDDEN_BIT, Pow2(e - 1));
        assert 2 * HIDDEN_BIT * Pow2(e - 1) == HIDDEN_BIT * Pow2(e);
        Pow2Grows(e, f - 1);
        Scaled(HIDDEN_BIT, Pow2(e), Pow2(f - 1));
      } else {
        Pow2Grows(0, f - 1);
        Scaled(HIDDEN_BIT, 1, Pow2(f - 1));
      }
      Scaled2(HIDDEN_BIT, HIDDEN_BIT + n, Pow2(f - 1));
    }
  }

  lemma Scales(x: nat, y: nat, k: nat)
    requires x < y && k > 0
    ensures x * k < y * k
  {}

  lemma Scaled(x: nat, j: nat, k: nat)
    requires j <= k
    ensures x * j <= x * k
  {}

  lemma Scaled2(x: nat, y: nat, k: nat)
    requires x <= y
    ensures x * k <= y * k
  {}

  /** The position on the number line that bits alone give; both zeros sit at 0. */
  function Rank(bits: u32): int {
    if bits >= SIGN then -(bits - SIGN) else bits
  }

  lemma RankIsNumber(a: u32, b: u32)
    ensures Rank(a) < Rank(b) <==> Number(a) < Number(b)
    ensures Rank(a) == Rank(b) <==> Number(a) == Number(b)
  {
    hide Magnitude;
    var x, y := a % SIGN, b % SIGN;
    if x < y { MagnitudeGrows(x, y); }
    if y < x { MagnitudeGrows(y, x); }
    if x > 0 { MagnitudeGrows(0, x); }
    if y > 0 { MagnitudeGrows(0, y); }
    assert Magnitude(0) == 0 by { Zero(); }
  }

  lemma Zero()
    ensures Magnitude(0) == 0
  {}

  /** Comparison of bit patterns as the hardware does it. */
  predicate FloatEq(a: u32, b: u32) { !IsNaN(a) && !IsNaN(b) && Rank(a) == Rank(b) }

  predicate FloatLess(a: u32, b: u32) { !IsNaN(a) && !IsNaN(b) && Rank(a) < Rank(b) }

  lemma HardwareCompares(a: u32, b: u32)
    ensures FloatEq(a, b) <==> Equal(a, b)
    ensures FloatLess(a, b) <==> Smaller(a, b)
  {
    hide Number, Rank;
    RankIsNumber(a, b);
  }

  /** Sign-magnitude total order: -0 below +0, NaNs at the ends. */
  function TotalRank(bits: u32): int {
    if bits >= SIGN then -(bits - SIGN) - 1 else bits
  }

  /** On numbers the total order is the order of the numbers, with -0 just below +0. */
  lemma TotalIsNumber(a: u32, b: u32)
    ensures Number(a) < Number(b) ==> TotalRank(a) < TotalRank(b)
    ensures Number(a) == Number(b) && a != b ==> (TotalRank(a) < TotalRank(b) <==> a == SIGN && b == 0)
  {
    hide Number;
    RankIsNumber(a, b);
  }

  /** The numbers themselves, on some patterns: 1, the smallest subnormal, -2.5 and the
      largest finite number. */
  lemma SomeNumbers()
    ensures Number(0x3F80_0000) == Pow2(149) && Number(1) == 1
    ensures 2 * Number(0xC020_0000) == -5 * Pow2(149)
    ensures Number(0x7F7F_FFFF) == 0xFF_FFFF * Pow2(253) && IsNaN(0x7F80_0001) && !IsNaN(0x7F80_0000) && IsNaN(0xFFC0_0000)
  {
    hide Magnitude, Pow2;
    Parts(0x3F80_0000, 127, 0);
    Parts(1, 0, 1);
    Parts(0x4020_0000, 128, 0x20_0000);
    Parts(0x7F7F_FFFF, 254, 0x7F_FFFF);
    Pow2Of23();
    Pow2Sum(23, 126);
    Pow2Sum(1, 126);
    Pow2Sum(1, 0);
  }

  /** Exponent and mantissa of a pattern. */
  lemma Parts(bits: nat, e: nat, m: nat)
    requires bits == e * HIDDEN_BIT + m && m < HIDDEN_BIT
    ensures Magnitude(bits) == if e == 0 then m else (HIDDEN_BIT + m) * Pow2(e - 1)
    ensures Pow2(0) == 1 && Pow2(1) == 2
  {
    Divide(bits, m, e, HIDDEN_BIT);
  }

  lemma Pow2Of23()
    ensures Pow2(23) == HIDDEN_BIT
  {
    assert Pow2(8) == 256;
    assert Pow2(16) == 0x1_0000;
  }

  lemma {:induction false} Pow2Sum(m: nat, n: nat)
    ensures Pow2(m + n) == Pow2(m) * Pow2(n)
  {
    if m > 0 { Pow2Sum(m - 1, n); }
  }
}
