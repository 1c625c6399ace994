/** 64-bit division built on one 64-by-32-bit divide instruction (lib/arithmetic.c).
    Machine words are integers with explicit ranges; every wrap-around of the C types is
    written out with the reductions below. */
module Arithmetic {
  import opened NonLinear

  const B32: int := 0x1_0000_0000
  const B63: int := 0x8000_0000_0000_0000
  const B64: int := 0x1_0000_0000_0000_0000

  type U32 = x: int | 0 <= x < B32 witness 0
  type U64 = x: int | 0 <= x < B64 witness 0
  type S32 = x: int | -0x8000_0000 <= x < 0x8000_0000 witness 0
  type S64 = x: int | -B63 <= x < B63 witness 0

  // ----- conversions between C integer types -----

  function ToU32(x: int): (r: U32)
    ensures 0 <= x < B32 ==> r == x
  {
    x % B32
  }

  function ToU64(x: int): (r: U64)
    ensures 0 <= x < B64 ==> r == x
    ensures -B64 <= x < 0 ==> r == x + B64
  {
    x % B64
  }

  function ToS32(x: int): (r: S32)
    ensures -0x8000_0000 <= x < 0x8000_0000 <==> r == x
  {
    var m := x % B32; if m < 0x8000_0000 then m else m - B32
  }

  function ToS64(x: int): (r: S64)
    ensures -B63 <= x < B63 <==> r == x
    ensures B63 <= x < B64 ==> r == x - B64
  {
    var m := x % B64; if m < B63 then m else m - B64
  }

  // ----- powers of two -----

  function Pow2(k: nat): (p: nat)
    ensures p >= 1
  {
    if k == 0 then 1 else 2 * Pow2(k - 1)
  }

  lemma {:induction false} Pow2Add(a: nat, b: nat)
    ensures Pow2(a + b) == Pow2(a) * Pow2(b)
    decreases b
  {
    if b == 0 {
    } else {
      Pow2Add(a, b - 1);
      MulAssoc(2, Pow2(a), Pow2(b - 1));
      MulAssoc(Pow2(a), 2, Pow2(b - 1));
    }
  }

  // ----- leading zeros -----

  /** How often x can be doubled before its top bit is set. */
  function LeadingZeros(x: U32): (n: nat)
    requires x != 0
    decreases B32 - x
  {
    if x >= 0x8000_0000 then 0 else 1 + LeadingZeros(2 * x)
  }

  lemma {:induction false} LeadingZerosBounds(x: U32)
    requires x != 0
    ensures LeadingZeros(x) <= 31
    ensures Pow2(31 - LeadingZeros(x)) <= x < Pow2(32 - LeadingZeros(x))
    decreases B32 - x
  {
    Pow2Thirties();
    if x < 0x8000_0000 {
      LeadingZerosBounds(2 * x);
      // x >= 1, so 2 * x is at least 2 and cannot have 31 leading zeros
      assert LeadingZeros(2 * x) == 31 ==> Pow2(1) == 2;
    }
  }

  lemma Pow2Thirties()
    ensures Pow2(31) == 0x8000_0000 && Pow2(32) == B32
  {
    assert Pow2(8) == 256 by { assert Pow2(4) == 16; }
    Pow2Add(8, 8);
    Pow2Add(16, 16);
  }

  // Shifting by a whole group of leading zeros.

  lemma ShiftBy1(x: U32)
    requires 0 < x <= 0x7FFF_FFFF
    ensures LeadingZeros(x) == 1 + LeadingZeros(2 * x)
  {
  }

  lemma ShiftBy2(x: U32)
    requires 0 < x <= 0x3FFF_FFFF
    ensures LeadingZeros(x) == 2 + LeadingZeros(4 * x)
  {
    ShiftBy1(2 * x);
  }

  lemma ShiftBy4(x: U32)
    requires 0 < x <= 0x0FFF_FFFF
    ensures LeadingZeros(x) == 4 + LeadingZeros(0x10 * x)
  {
    ShiftBy2(x);
    ShiftBy2(4 * x);
  }

  lemma ShiftBy8(x: U32)
    requires 0 < x <= 0x00FF_FFFF
    ensures LeadingZeros(x) == 8 + LeadingZeros(0x100 * x)
  {
    ShiftBy4(x);
    ShiftBy4(0x10 * x);
  }

  lemma ShiftBy16(x: U32)
    requires 0 < x <= 0x0000_FFFF
    ensures LeadingZeros(x) == 16 + LeadingZeros(0x1_0000 * x)
  {
    ShiftBy8(x);
    ShiftBy8(0x100 * x);
  }

  lemma TopBits(x: U32)
    requires x >= 0x4000_0000
    ensures LeadingZeros(x) == if x <= 0x7FFF_FFFF then 1 else 0
  {
  }

  /** nlz(): shifts x up by 16, 8, 4 and 2 as long as its upper part is clear.  That x stays
      a U32 shows that no shift loses a bit. */
  method Nlz(x0: U32) returns (n: nat)
    requires x0 != 0
    ensures n == LeadingZeros(x0)
    ensures n <= 31 && Pow2(31 - n) <= x0 < Pow2(32 - n)
  {
    hide LeadingZeros, Pow2;
    LeadingZerosBounds(x0);
    var x: U32 := x0;
    n := 0;
    if x <= 0x0000_FFFF {
      ShiftBy16(x);
      n := n + 16;
      x := 0x1_0000 * x;
    }
    assert n + LeadingZeros(x) == LeadingZeros(x0);
    if x <= 0x00FF_FFFF {
      ShiftBy8(x);
      n := n + 8;
      x := 0x100 * x;
    }
    assert n + LeadingZeros(x) == LeadingZeros(x0);
    if x <= 0x0FFF_FFFF {
      ShiftBy4(x);
      n := n + 4;
      x := 0x10 * x;
    }
    assert n + LeadingZeros(x) == LeadingZeros(x0);
    if x <= 0x3FFF_FFFF {
      ShiftBy2(x);
      n := n + 2;
      x := 4 * x;
    }
    TopBits(x);
    if x <= 0x7FFF_FFFF {
      n := n + 1;
    }
  }

  // ----- unsigned division -----

  /** The divl instruction.  It traps unless the quotient fits in 32 bits, so that is its
      precondition; every caller below has to discharge it. */
  function Divl(n: U64, d: U32): (q: U32)
    requires d != 0 && n / d < B32
    ensures q * d <= n < q * d + d
  {
    n / d
  }

  /** d < 2^32: the two-step schoolbook division is exact and its divl cannot trap. */
  lemma SmallDivisor(n: U64, d: U32, n1: U32, n0: U32)
    requires d != 0 && n == B32 * n1 + n0
    ensures 0 <= B32 * (n1 % d) + n0 < B64
    ensures (B32 * (n1 % d) + n0) / d < B32
    ensures (B32 * (n1 % d) + n0) / d + B32 * (n1 / d) == n / d
  {
    var q1, r1 := n1 / d, n1 % d;
    var m := B32 * r1 + n0;
    assert n1 == q1 * d + r1;
    QuotientBelow(m, d, B32);
    DivBounds(m, d);
    MulDistrib(m / d, B32 * q1, d);
    MulAssoc(B32, q1, d);
    QuotientUnique(n, d, m / d + B32 * q1);
  }

  /** Scaling dividend and divisor by the same factor. */
  lemma ScaledQuotient(d: nat, p: nat, T: nat)
    requires p >= 1 && T >= 1
    ensures p * T >= 1 && d * p / (p * T) == d / T
  {
    MulComm(d, p);
    assert p * d / p == d by { QuotientUnique(p * d, p, d); }
    DivDiv(d * p, p, T);
  }

  /** The divisor of the shifted estimate: the top 32 bits of d, normalised. */
  lemma NormalisedDivisor(d: U64, s: nat)
    requires d >= B32 && s == LeadingZeros(d / B32)
    ensures s <= 31 && d * Pow2(s) < B64
    ensures 0x8000_0000 <= d * Pow2(s) / B32 < B32
    ensures d * Pow2(s) / B32 == d / Pow2(32 - s)
  {
    LeadingZerosBounds(d / B32);
    Pow2Thirties();
    var p, T, H := Pow2(s), Pow2(32 - s), Pow2(31 - s);
    Pow2Add(s, 32 - s);
    assert p * T == B32;
    ScaledQuotient(d, p, T);
    assert T == 2 * H && H * B32 <= d < T * B32;
    QuotientAtLeast(d, T, 0x8000_0000);
    QuotientBelow(d, T, B32);
    DivBounds(d * p, B32);
  }

  /** Truncating d to v * T loses so little that the estimate is at most one too large. */
  lemma EstimateWithinOne(n: U64, d: U64, v: nat, T: nat, q: nat)
    requires n >= d && T >= 2 && (T == 2 || T >= 4) && v >= 0x8000_0000
    requires v * T <= d < v * T + T
    requires q * (v * T) <= n < q * (v * T) + v * T
    ensures q >= 1 && (q - 1) * d <= n < (q + 1) * d
  {
    var D, r := v * T, d - v * T;
    MulLe(q, 0, D);
    assert 0 * D == 0;
    assert q >= 1;
    EstimateLoss(n, v, T, q, r);
    MulDistrib(D, r, q - 1);
    MulDistrib(q, 1, D);
    MulLe(D, d, q + 1);
    MulComm(q + 1, D);
    MulComm(q - 1, D);
    MulComm(q + 1, d);
    MulComm(q - 1, d);
  }

  lemma EstimateLoss(n: U64, v: nat, T: nat, q: nat, r: nat)
    requires (T == 2 || T >= 4) && v >= 0x8000_0000 && r < T && q >= 1
    requires q * (v * T) <= n
    ensures (q - 1) * r <= v * T
  {
    MulComm(v, T);
    MulAssoc(q, T, v);
    MulLe(0x8000_0000, v, q * T);
    MulComm(q * T, v);
    assert q * T < 0x2_0000_0000;
    MulComm(q - 1, r);
    MulLe(r, T - 1, q - 1);
    MulLe(0x8000_0000, v, T);
    if T != 2 {
      MulDistrib(q, 1, T - 1);
      MulDistrib(T, 1, q);
      MulComm(q, T);
      MulComm(T - 1, q);
      MulComm(T - 1, q - 1);
    }
  }

  lemma Pow2Gap(t: nat)
    requires t >= 1
    ensures Pow2(t) == 2 || Pow2(t) >= 4
  {
  }

  lemma EstimateDivisorFits(n: U64, v: U32)
    requires v >= 0x8000_0000
    ensures 0 <= n / 2 / v < B32
  {
    QuotientAtLeast(n / 2, v, 0);
    QuotientBelow(n / 2, v, B32);
  }

  /** The three flooring steps of the estimate amount to one division by v * T. */
  lemma EstimateIsOneDivision(n: U64, v: U32, H: nat, T: nat)
    requires v >= 0x8000_0000 && H >= 1 && T == 2 * H
    ensures v * T > 0 && n / 2 / v / H == n / (v * T)
    ensures 0 <= n / 2 / v / H < B32
  {
    EstimateDivisorFits(n, v);
    var m := n / 2 / v;
    QuotientAtMost(m, H);
    DivDiv(n, 2, v);
    DivDiv(n, 2 * v, H);
    TwiceProduct(v, H);
  }

  lemma TwiceProduct(v: int, H: int)
    ensures 2 * v * H == v * (2 * H)
  {
  }

  /** The shifted estimate of Hacker's Delight is the floor or one above it. */
  lemma ShiftedEstimate(n: U64, d: U64, s: nat)
    requires B32 <= d <= n && s == LeadingZeros(d / B32)
    ensures s <= 31
    ensures var v := d / Pow2(32 - s);
            && 0x8000_0000 <= v < B32 && n / 2 / v < B32
            && var q := n / 2 / v / Pow2(31 - s);
               1 <= q < B32 && (q == n / d || q == n / d + 1)
  {
    NormalisedDivisor(d, s);
    var H, T := Pow2(31 - s), Pow2(32 - s);
    var v: U32 := d / T;
    EstimateDivisorFits(n, v);
    EstimateIsOneDivision(n, v, H, T);
    Pow2Gap(32 - s);
    DivBounds(d, T);
    DivBounds(n, v * T);
    var q: nat := n / (v * T);
    EstimateWithinOne(n, d, v, T, q);
    PickCandidate(n, d, q);
  }

  lemma PickCandidate(n: int, d: int, q: int)
    requires d > 0 && (q - 1) * d <= n < (q + 1) * d
    ensures q == n / d || q == n / d + 1
  {
    QuotientAtLeast(n, d, q - 1);
    QuotientBelow(n, d, q + 1);
  }

  /** udiv64().  The precondition of Divl is discharged in both branches: no trap. */
  function Udiv64(n: U64, d: U64): (r: U64)
    requires d != 0
    ensures r == n / d
  {
    if d / B32 == 0 then
      UdivSmall(n, ToU32(d))
    else if n < d then
      QuotientUnique(n, d, 0);
      0
    else
      UdivLarge(n, d)
  }

  /** The branch for a divisor that fits in 32 bits. */
  function UdivSmall(n: U64, d0: U32): (r: U64)
    requires d0 != 0
    ensures r == n / d0
  {
    var n1: U32 := n / B32;
    var n0: U32 := ToU32(n);
    SmallDivisor(n, d0, n1, n0);
    QuotientAtMost(n, d0);
    var m: U64 := B32 * (n1 % d0) + n0;
    Divl(m, d0) + B32 * (n1 / d0)
  }

  lemma QuotientAtMost(n: nat, d: nat)
    requires d != 0
    ensures 0 <= n / d <= n
  {
    DivBounds(n, d);
    MulLe(1, d, n / d);
    MulComm(d, n / d);
  }

  /** The branch for a divisor of more than 32 bits that is no larger than n. */
  function UdivLarge(n: U64, d: U64): (r: U64)
    requires B32 <= d <= n
    ensures r == n / d
  {
    var d1: U32 := d / B32;
    var s := LeadingZeros(d1);
    NormalisedDivisor(d, s);
    ShiftedEstimate(n, d, s);
    var v: U32 := ToU64(d * Pow2(s)) / B32;
    assert v == d / Pow2(32 - s);
    var q: U64 := Divl(n / 2, v) / Pow2(31 - s);
    FinalTest(n, d, q);
    var below: U64 := q - 1;
    if ToU64(n - ToU64(below * d)) < d then below else q
  }

  /** The last comparison picks the right one of the two candidates, without wrap-around. */
  lemma FinalTest(n: U64, d: U64, q: U64)
    requires d != 0 && q >= 1 && (q == n / d || q == n / d + 1)
    ensures 0 <= (q - 1) * d <= n
    ensures ToU64((q - 1) * d) == (q - 1) * d
    ensures (ToU64(n - ToU64((q - 1) * d)) < d) <==> q == n / d + 1
  {
    var p := n / d;
    DivBounds(n, d);
    MulDistrib(p, 1, d);
    MulLe(0, q - 1, d);
    MulLe(q - 1, p, d);
  }

  // ----- the remaining entry points -----

  /** umod64() returns its result as a 32-bit value. */
  function Umod64(n: U64, d: U64): (r: U32)
    requires d != 0
    ensures r == n % d <==> n % d < B32
  {
    RemainderByProduct(n, d);
    ToU32(ToU64(n - ToU64(d * Udiv64(n, d))))
  }

  lemma RemainderByProduct(n: U64, d: U64)
    requires d != 0
    ensures 0 <= d * (n / d) < B64 && n - d * (n / d) == n % d
  {
    DivBounds(n, d);
    MulComm(d, n / d);
    MulLe(0, n / d, d);
  }

  function Abs(x: int): nat { if x < 0 then -x else x }

  /** q is the quotient of n by d truncated toward zero: the remainder is smaller than d in
      magnitude and never has the sign opposite to n. */
  predicate IsTruncatedQuotient(n: int, d: int, q: int)
    requires d != 0
  {
    && Abs(n - d * q) < Abs(d)
    && (n >= 0 ==> n - d * q >= 0)
    && (n <= 0 ==> n - d * q <= 0)
  }

  /** There is only one such q, so the predicate pins the quotient down. */
  lemma TruncatedQuotientUnique(n: int, d: int, p: int, q: int)
    requires d != 0 && IsTruncatedQuotient(n, d, p) && IsTruncatedQuotient(n, d, q)
    ensures p == q
  {
    MulDistrib(q, p, d);
    MulLe(1, q - p, Abs(d));
    MulLe(1, p - q, Abs(d));
    MulSigns(d, p);
    MulSigns(d, q);
    MulSigns(d, q - p);
  }

  /** Products with a signed factor, in terms of its magnitude. */
  lemma MulSigns(d: int, x: int)
    ensures d * x == if d < 0 then -(x * Abs(d)) else x * Abs(d)
    ensures (-x) * Abs(d) == -(x * Abs(d))
  {
  }

  lemma QuotientOfAbs(n: int, d: int, q: nat)
    requires d != 0 && q * Abs(d) <= Abs(n) < q * Abs(d) + Abs(d)
    ensures IsTruncatedQuotient(n, d, Signed((n < 0) == (d < 0), q))
  {
    MulSigns(d, q);
    MulSigns(d, -(q as int));
  }

  function Signed(positive: bool, q: int): int { if positive then q else -q }

  /** sdiv64().  The single failing input is the one whose true quotient, 2^63, is not an
      int64_t; there the result wraps to INT64_MIN. */
  function Sdiv64(n: S64, d: S64): (r: S64)
    requires d != 0
    ensures IsTruncatedQuotient(n, d, r) <==> !(n == -B63 && d == -1)
    ensures n == -B63 && d == -1 ==> r == -B63
  {
    var nAbs: U64 := if n >= 0 then ToU64(n) else ToU64(-(ToU64(n) as int));
    var dAbs: U64 := if d >= 0 then ToU64(d) else ToU64(-(ToU64(d) as int));
    NegatedWord(n);
    NegatedWord(d);
    var qAbs: U64 := Udiv64(nAbs, dAbs);
    DivBounds(nAbs, dAbs);
    SignedRange(n, d, qAbs);
    SignedResult(n, d, qAbs);
    if (n < 0) == (d < 0) then ToS64(qAbs) else ToS64(-(ToS64(qAbs) as int))
  }

  /** Negating the 64-bit pattern of a negative number gives its magnitude. */
  lemma NegatedWord(n: S64)
    ensures n >= 0 ==> ToU64(n) == Abs(n)
    ensures n < 0 ==> ToU64(-(ToU64(n) as int)) == Abs(n)
  {
    if n < 0 {
      var x: int := ToU64(n);
      assert x == n + B64;
      assert ToU64(-x) == -x + B64;
    }
  }

  lemma SignedResult(n: S64, d: S64, q: U64)
    requires d != 0 && q * Abs(d) <= Abs(n) < q * Abs(d) + Abs(d)
    requires q <= B63 && (q == B63 <==> n == -B63 && Abs(d) == 1)
    ensures var r: S64 := if (n < 0) == (d < 0) then ToS64(q) else ToS64(-(ToS64(q) as int));
            && (IsTruncatedQuotient(n, d, r) <==> !(n == -B63 && d == -1))
            && (n == -B63 && d == -1 ==> r == -B63)
  {
    QuotientOfAbs(n, d, q);
    if q == B63 {
      assert ToS64(q) == -B63;
      assert ToS64(B63) == -B63;
    } else {
      assert ToS64(q) == q;
      var minus: int := -(q as int);
      assert ToS64(minus) == minus;
    }
  }

  /** The magnitude of a quotient exceeds the positive range only for INT64_MIN / +-1. */
  lemma SignedRange(n: S64, d: S64, q: U64)
    requires d != 0 && q * Abs(d) <= Abs(n) < q * Abs(d) + Abs(d)
    ensures q <= B63 && (q == B63 <==> n == -B63 && Abs(d) == 1)
  {
    MulLe(1, Abs(d), q);
    MulLe(2, Abs(d), q);
    MulComm(q, Abs(d));
  }

  /** The quotient and remainder of truncating division on unbounded integers. */
  function TrueQuotient(n: int, d: int): (q: int)
    requires d != 0
    ensures IsTruncatedQuotient(n, d, q)
  {
    DivBounds(Abs(n), Abs(d));
    QuotientOfAbs(n, d, Abs(n) / Abs(d));
    Signed((n < 0) == (d < 0), Abs(n) / Abs(d))
  }

  function TrueRemainder(n: int, d: int): (r: int)
    requires d != 0
    ensures Abs(r) < Abs(d)
    ensures (n >= 0 ==> r >= 0) && (n <= 0 ==> r <= 0)
  {
    n - d * TrueQuotient(n, d)
  }

  /** smod64() is exact exactly when the true remainder fits its 32-bit result; the wrapped
      quotient of INT64_MIN / -1 does no harm. */
  function Smod64(n: S64, d: S64): (r: S32)
    requires d != 0
    ensures r == TrueRemainder(n, d) <==> -0x8000_0000 <= TrueRemainder(n, d) < 0x8000_0000
  {
    var q := Sdiv64(n, d);
    SmodExact(n, d);
    ToS32(ToS64(n - ToS64(d * q)))
  }

  lemma SmodExact(n: S64, d: S64)
    requires d != 0
    ensures ToS64(n - ToS64(d * Sdiv64(n, d))) == TrueRemainder(n, d)
  {
    var q, p := Sdiv64(n, d), TrueQuotient(n, d);
    if n == -B63 && d == -1 {
      assert p == B63 by { TruncatedQuotientUnique(n, d, p, B63); }
      assert ToS64(B63) == -B63;
    } else {
      TruncatedQuotientUnique(n, d, p, q);
      var prod: int := d * q;
      assert ToS64(prod) == prod;
      assert ToS64(n - prod) == n - prod;
    }
  }

  /** The quotient that wraps. */
  lemma QuotientWraps()
    ensures Sdiv64(-B63, -1) == -B63 && IsTruncatedQuotient(-B63, -1, B63) && !IsTruncatedQuotient(-B63, -1, Sdiv64(-B63, -1))
  {
  }

  /** Inputs on which the 32-bit results lose the high half of the remainder. */
  lemma RemaindersTruncate()
    ensures 0x1_0000_0000 % 0x2_0000_0000 == 0x1_0000_0000
    ensures Umod64(0x1_0000_0000, 0x2_0000_0000) != 0x1_0000_0000
    ensures TrueRemainder(0x8000_0000, 0x1_0000_0000) == 0x8000_0000
    ensures Smod64(0x8000_0000, 0x1_0000_0000) != 0x8000_0000
  {
    var n, d: int := 0x8000_0000, 0x1_0000_0000;
    assert IsTruncatedQuotient(n, d, 0);
    TruncatedQuotientUnique(n, d, 0, TrueQuotient(n, d));
  }
}
