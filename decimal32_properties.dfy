/**
 * Properties of the decimal32 model in module Decimal32, as the source
 * computes it: the arithmetic behind the significand and exponent fields,
 * what the totalOrder arms decide, the sign operations and quantum.
 */
module Decimal32Properties {
  import opened Decimal32

  /* ---------------- arithmetic on powers of ten ---------------- */

  /** The magnitude of a finite value, scaled by 10^101 so that it is an integer. */
  function Magnitude(x: D32): int {
    Significand(x) * Pow(10, Exponent(x))
  }

  /** A finite pattern that is not a zero. */
  predicate NonZeroFinite(x: D32) {
    IsFinite(x) && !IsZero(x)
  }

  lemma MulSwap(a: int, b: int, c: int)
    ensures a * (b * c) == b * (a * c)
  {
  }

  lemma MulAssoc(a: int, b: int, c: int)
    ensures a * (b * c) == (a * b) * c
  {
  }

  /** Powers add their exponents. */
  lemma {:induction false} PowAdd(b: nat, m: nat, n: nat)
    ensures Pow(b, m + n) == Pow(b, m) * Pow(b, n)
  {
    if n > 0 {
      PowAdd(b, m, n - 1);
      var p, q := Pow(b, m), Pow(b, n - 1);
      calc {
        Pow(b, m + n);
        { assert m + n - 1 == m + (n - 1); }
        b * Pow(b, m + (n - 1));
        b * (p * q);
        { MulSwap(b, p, q); }
        p * (b * q);
      }
    }
  }

  lemma PowSix()
    ensures Pow(10, 6) == 1000000 && Pow(10, 7) == 10000000
  {
    assert Pow(10, 3) == 1000;
    assert Pow(10, 6) == 10 * (10 * (10 * Pow(10, 3)));
  }

  /** Multiplying by a positive factor keeps the order of two numbers. */
  lemma ScaleKeepsOrder(a: int, b: int, p: int)
    requires p > 0
    ensures a * p <= b * p <==> a <= b
    ensures a * p < b * p <==> a < b
  {
    if a <= b {
      assert (b - a) * p >= 0;
    } else {
      assert (a - b) * p > 0;
    }
  }

  /** A significand moved by more than six places is larger than any canonical one. */
  lemma LargeGap(s: nat, t: nat, d: nat)
    requires 1 <= s && t <= 9999999 && d > 6
    ensures s * Pow(10, d) > t
  {
    PowMonotone(10, 7, d);
    PowSix();
    assert s * Pow(10, d) >= Pow(10, d);
  }

  /** Shifting a positive significand left by zero or more places never makes it smaller. */
  lemma ShiftGrows(s: nat, d: nat)
    ensures s * Pow(10, d) >= s
  {
    assert Pow(10, d) >= 1;
  }

  /**
   * Comparing s * 10^e with t * 10^f, where e is the larger exponent, comes
   * down to comparing s shifted left by the gap with t.
   */
  lemma ShiftCompare(s: nat, t: nat, e: nat, f: nat)
    requires e >= f
    ensures s * Pow(10, e) <= t * Pow(10, f) <==> s * Pow(10, e - f) <= t
    ensures s * Pow(10, e) < t * Pow(10, f) <==> s * Pow(10, e - f) < t
  {
    var p := Pow(10, f);
    var g := Pow(10, e - f);
    PowAdd(10, e - f, f);
    MulAssoc(s, g, p);
    ScaleKeepsOrder(s * g, t, p);
  }

  /** A non-zero finite pattern has a significand between 1 and 9999999. */
  lemma NonZeroFiniteSignificand(x: D32)
    requires NonZeroFinite(x)
    ensures 1 <= Significand(x) <= 9999999
  {
  }

  /**
   * The arm for two negative normal numbers puts x first when its magnitude
   * is not smaller, and also whenever its exponent is the smaller one: the
   * wrapped difference `ex - ey` is then far above 6.
   */
  lemma NegativeNormalLeMeaning(sx: nat, sy: nat, ex: U32, ey: U32)
    requires 1 <= sx <= 9999999 && 1 <= sy <= 9999999
    requires ex <= 191 && ey <= 191
    ensures NegativeNormalLe(sx, sy, ex, ey) <==> ex < ey || sx * Pow(10, ex) >= sy * Pow(10, ey)
  {
    if ex >= ey {
      var d := ex - ey;
      assert WrappingSub(ex, ey) == d;
      ShiftCompare(sx, sy, ex, ey);
      if d > 6 {
        LargeGap(sx, sy, d);
      }
      ShiftGrows(sx, d);
      if ex == ey {
        assert Pow(10, WrappingSub(ey, ex)) == 1;
      }
    } else {
      assert WrappingSub(ex, ey) > 6;
    }
  }

  /**
   * The two negative arms differ only in the test before the last product
   * (`<=` against `<`); with equal exponents that product is sy itself and
   * the first disjunct already decides, so the arms always agree.
   */
  lemma NegativeArmsAgree(sx: nat, sy: nat, ex: U32, ey: U32)
    ensures NegativeSubnormalLe(sx, sy, ex, ey) == NegativeNormalLe(sx, sy, ex, ey)
  {
    if ex == ey {
      assert WrappingSub(ey, ex) == 0;
    }
  }

  /** The arm for two negative subnormal numbers decides as the normal one does. */
  lemma NegativeSubnormalLeMeaning(sx: nat, sy: nat, ex: U32, ey: U32)
    requires 1 <= sx <= 9999999 && 1 <= sy <= 9999999
    requires ex <= 191 && ey <= 191
    ensures NegativeSubnormalLe(sx, sy, ex, ey) <==> ex < ey || sx * Pow(10, ex) >= sy * Pow(10, ey)
  {
    NegativeArmsAgree(sx, sy, ex, ey);
    NegativeNormalLeMeaning(sx, sy, ex, ey);
  }

  /**
   * The arm for two positive subnormal, or two positive normal, numbers puts
   * x first when its magnitude is not larger, and also whenever its exponent
   * is the larger one.
   */
  lemma PositiveFiniteLeMeaning(sx: nat, sy: nat, ex: U32, ey: U32)
    requires 1 <= sx <= 9999999 && 1 <= sy <= 9999999
    requires ex <= 191 && ey <= 191
    ensures PositiveFiniteLe(sx, sy, ex, ey) <==> ex > ey || sx * Pow(10, ex) <= sy * Pow(10, ey)
  {
    if ey >= ex {
      var d := ey - ex;
      assert WrappingSub(ey, ex) == d;
      ShiftCompare(sy, sx, ey, ex);
      if d > 6 {
        LargeGap(sy, sx, d);
      }
      ShiftGrows(sy, d);
    } else {
      assert WrappingSub(ey, ex) > 6;
    }
  }

  /* ---------------- u64 arithmetic never overflows ---------------- */

  /** A significand field shifted by at most six places fits in a `u64`. */
  lemma ProductFits(s: nat, d: nat)
    requires s <= 0x9f_ffff && d <= 6
    ensures Pow(10, d) <= 1000000
    ensures s * Pow(10, d) < 0x1_0000_0000_0000_0000
  {
    PowMonotone(10, d, 6);
    PowSix();
    ScaleKeepsOrder(Pow(10, d), 1000000, s + 1);
  }

  /**
   * In the negative arms (src/lib.rs:229-252) each power is evaluated only
   * when every disjunct before it is false and its own guard holds.  At the
   * first power the difference is a true one of at most 6; the second power
   * is reached only with equal exponents.  Either way nothing wraps and the
   * product fits in a `u64`.
   */
  lemma NegativeArmPowersFit(sx: nat, sy: nat, ex: U32, ey: U32)
    requires sx <= 0x9f_ffff && sy <= 0x9f_ffff && ex <= 191 && ey <= 191
    ensures !(sx > sy && ex >= ey) && !(WrappingSub(ex, ey) > 6) && ex >= ey ==>
      WrappingSub(ex, ey) == ex - ey <= 6
      && sx * Pow(10, WrappingSub(ex, ey)) < 0x1_0000_0000_0000_0000
    ensures (!(sx > sy && ex >= ey) && !(WrappingSub(ex, ey) > 6)
             && !(ex >= ey && sx * Pow(10, WrappingSub(ex, ey)) >= sy) && ex <= ey) ==>
      WrappingSub(ey, ex) == 0 && sy * Pow(10, WrappingSub(ey, ex)) < 0x1_0000_0000_0000_0000
  {
    if ex >= ey && ex - ey <= 6 {
      ProductFits(sx, ex - ey);
      ProductFits(sy, 0);
    }
  }

  /**
   * In the positive arms (src/lib.rs:259-280) the first power is evaluated
   * with a true difference of at most 6, and the second is never reached:
   * with ex > ey the wrapped gap test `ey - ex > 6` has already held.
   */
  lemma PositiveArmPowersFit(sx: nat, sy: nat, ex: U32, ey: U32)
    requires sx <= 0x9f_ffff && sy <= 0x9f_ffff && ex <= 191 && ey <= 191
    ensures !(sx < sy && ex <= ey) && !(WrappingSub(ey, ex) > 6) && ex <= ey ==>
      WrappingSub(ey, ex) == ey - ex <= 6
      && sy * Pow(10, WrappingSub(ey, ex)) < 0x1_0000_0000_0000_0000
    ensures !(WrappingSub(ey, ex) > 6) ==> ex <= ey
  {
    if ex <= ey && ey - ex <= 6 {
      ProductFits(sy, ey - ex);
    }
  }

  /** The power and product in the subnormal test fit in a `u64`. */
  lemma SubnormalTestFits(x: D32)
    requires Exponent(x) < 6
    ensures Significand(x) * Pow(10, Exponent(x)) < 0x1_0000_0000_0000_0000
  {
    ProductFits(Significand(x), Exponent(x));
  }

  /* ---------------- classification ---------------- */

  /**
   * The subnormal test compares the raw exponent field with 6.  A finite
   * value is Significand * 10^(Exponent - 101) and the smallest normal
   * magnitude is 10^-95, so the test is the right one: a non-zero finite
   * value is subnormal exactly when Significand * 10^Exponent is below 10^6.
   */
  lemma SubnormalMeaning(x: D32)
    requires NonZeroFinite(x)
    ensures IsSubnormal(x) <==> Magnitude(x) < 1000000
    ensures IsNormal(x) <==> Magnitude(x) >= 1000000
  {
    NonZeroFiniteSignificand(x);
    if Exponent(x) >= 6 {
      PowMonotone(10, 6, Exponent(x));
      PowSix();
      ShiftGrows(Significand(x), Exponent(x));
      assert Magnitude(x) >= Pow(10, Exponent(x)) by {
        ScaleKeepsOrder(1, Significand(x), Pow(10, Exponent(x)));
      }
    }
  }

  /**
   * Every pattern is exactly one of NaN, infinite and finite, and every
   * finite one exactly one of zero, subnormal and normal.  A non-canonical
   * finite pattern can only use the second exponent form, and is a zero.
   */
  lemma ClassesPartition(x: D32)
    ensures IsNan(x) || IsInfinite(x) || IsFinite(x)
    ensures !(IsNan(x) && IsInfinite(x)) && !(IsFinite(x) && (IsNan(x) || IsInfinite(x)))
    ensures IsSignaling(x) ==> IsNan(x)
    ensures IsFinite(x) ==> (IsZero(x) || IsSubnormal(x) || IsNormal(x))
    ensures !(IsZero(x) && IsSubnormal(x)) && !(IsZero(x) && IsNormal(x)) && !(IsSubnormal(x) && IsNormal(x))
    ensures IsFinite(x) && !IsCanonical(x) ==> !ExponentFormOne(x) && IsZero(x)
  {
  }

  /** Decoding and classifying a few fixed patterns. */
  lemma KnownPatterns()
    ensures ClassOf(D32(0x7c00_0000)) == QuietNaN && !IsSignaling(D32(0x7c00_0000))
    ensures ClassOf(D32(0x7e00_0000)) == SignalingNaN
    ensures ClassOf(D32(0x7800_0000)) == PositiveInf
    ensures ClassOf(D32(0)) == PositiveZero && !IsSignMinus(D32(0))
    ensures ExponentFormOne(D32(0x0080_0003))
    ensures Significand(D32(0x0080_0003)) == 3 && Exponent(D32(0x0080_0003)) == 1
  {
    assert G(D32(0x7c00_0000)) == 0x7c0;
    assert G(D32(0x7e00_0000)) == 0x7e0;
    assert G(D32(0x7800_0000)) == 0x780;
    assert G(D32(0)) == 0 && T(D32(0)) == 0;
    assert G(D32(0x0080_0003)) == 8 && T(D32(0x0080_0003)) == 3;
  }

  /* ---------------- sign operations ---------------- */

  lemma NegateInvolution(x: D32)
    ensures Negate(Negate(x)) == x
  {
    FieldsDetermine(Negate(Negate(x)), x);
  }

  lemma AbsIgnoresSign(x: D32)
    ensures Abs(Abs(x)) == Abs(x)
    ensures Abs(Negate(x)) == Abs(x)
    ensures IsSignMinus(x) ==> Negate(Abs(x)) == x
    ensures !IsSignMinus(x) ==> Abs(x) == x
  {
    FieldsDetermine(Abs(Abs(x)), Abs(x));
    FieldsDetermine(Abs(Negate(x)), Abs(x));
    if IsSignMinus(x) {
      FieldsDetermine(Negate(Abs(x)), x);
    } else {
      FieldsDetermine(Abs(x), x);
    }
  }

  /** copySign(x, y) is x itself when the signs agree, and its negation otherwise. */
  lemma CopySignIsXOrNegation(x: D32, y: D32)
    ensures IsSignMinus(x) == IsSignMinus(y) ==> CopySign(x, y) == x
    ensures IsSignMinus(x) != IsSignMinus(y) ==> CopySign(x, y) == Negate(x)
  {
    if IsSignMinus(x) == IsSignMinus(y) {
      FieldsDetermine(CopySign(x, y), x);
    } else {
      FieldsDetermine(CopySign(x, y), Negate(x));
    }
  }

  /**
   * Negation keeps a NaN's class and mirrors every other class: negative
   * infinity and positive infinity trade places, and so on inward.
   */
  lemma NegateMirrorsClass(x: D32)
    ensures IsNan(x) ==> ClassOf(Negate(x)) == ClassOf(x)
    ensures !IsNan(x) ==> !IsNan(Negate(x)) && ClassOf(Negate(x)).Rank() == 7 - ClassOf(x).Rank()
  {
    SignFreeAgree(x, Negate(x));
  }

  /* ---------------- quantum ---------------- */

  lemma PositiveInfinityPattern()
    ensures IsInfinite(D32(0x7800_0000)) && !IsSignMinus(D32(0x7800_0000))
  {
    assert G(D32(0x7800_0000)) == 0x780;
  }

  /** quantum(x) has the same quantum as x, whatever x is. */
  lemma QuantumSameQuantum(x: D32)
    ensures SameQuantum(x, Quantum(x))
  {
    PositiveInfinityPattern();
  }

  /** quantum is idempotent. */
  lemma QuantumIdempotent(x: D32)
    ensures Quantum(Quantum(x)) == Quantum(x)
  {
    if IsNan(x) {
      QuantumIdempotentNaN(x);
    } else if IsInfinite(x) {
      PositiveInfinityPattern();
    } else {
      QuantumIdempotentFinite(x);
    }
  }

  lemma QuantumIdempotentNaN(x: D32)
    requires IsNan(x)
    ensures Quantum(Quantum(x)) == Quantum(x)
  {
    var r := Quantum(x);
    if IsSignaling(x) {
      assert IsSignaling(r) && G(r) / 0x20 * 0x20 == G(r) && T(r) % 0x8_0000 == T(r);
    } else {
      assert IsQuiet(r) && G(r) / 0x40 * 0x40 == G(r) && T(r) % 0x8_0000 == T(r);
    }
    FieldsDetermine(Quantum(r), r);
  }

  lemma QuantumIdempotentFinite(x: D32)
    requires IsFinite(x)
    ensures Quantum(Quantum(x)) == Quantum(x)
  {
    if ExponentFormOne(x) {
      QuantumIdempotentFormOne(x);
    } else {
      QuantumIdempotentFormTwo(x);
    }
  }

  lemma QuantumIdempotentFormOne(x: D32)
    requires ExponentFormOne(x)
    ensures Quantum(Quantum(x)) == Quantum(x)
  {
    var r := Quantum(x);
    TruncatedCombination8(G(x));
    assert G(r) == G(x) / 8 * 8 && T(r) == T(x) % 2;
    assert ExponentFormOne(r);
    FieldsDetermine(Quantum(r), r);
  }

  lemma QuantumIdempotentFormTwo(x: D32)
    requires IsFinite(x) && !ExponentFormOne(x)
    ensures Quantum(Quantum(x)) == Quantum(x)
  {
    var r := Quantum(x);
    TruncatedCombination2(G(x));
    assert G(r) == G(x) / 2 * 2 && T(r) == T(x) % 2;
    assert IsFinite(r) && !ExponentFormOne(r);
    FieldsDetermine(Quantum(r), r);
  }

  /** Clearing G8..G10 keeps every test on the top bits of G. */
  lemma TruncatedCombination8(g: int)
    requires 0 <= g < 0x800
    ensures var h := g / 8 * 8;
            h / 0x20 == g / 0x20 && h / 0x40 == g / 0x40 && h / 0x80 == g / 0x80
            && h / 0x200 == g / 0x200 && h / 8 == g / 8 && h % 8 == 0 && 0 <= h < 0x800
  {
    var q := g / 8;
    assert g == q * 8 + g % 8;
    assert q / 4 == g / 0x20 && q / 8 == g / 0x40 && q / 16 == g / 0x80 && q / 64 == g / 0x200;
  }

  /** Clearing G10 keeps every test on the top bits of G. */
  lemma TruncatedCombination2(g: int)
    requires 0 <= g < 0x800
    ensures var h := g / 2 * 2;
            h / 0x20 == g / 0x20 && h / 0x40 == g / 0x40 && h / 0x80 == g / 0x80
            && h / 0x200 == g / 0x200 && h / 2 == g / 2 && h % 2 == 0 && 0 <= h < 0x800
  {
    var q := g / 2;
    assert g == q * 2 + g % 2;
    assert q / 16 == g / 0x20 && q / 32 == g / 0x40 && q / 64 == g / 0x80 && q / 256 == g / 0x200;
  }

  /* ---------------- totalOrder ---------------- */

  /** totalOrder relates every pattern to itself. */
  lemma TotalOrderReflexive(x: D32)
    ensures TotalOrder(x, x)
  {
  }

  /**
   * Across classes: a negative NaN comes before every number and a positive
   * NaN after every number; two numbers of different classes follow the
   * chain -inf, negative normal, negative subnormal, -0, +0, positive
   * subnormal, positive normal, +inf.
   */
  lemma TotalOrderAcrossClasses(x: D32, y: D32)
    ensures IsNan(x) && !IsNan(y) ==> (TotalOrder(x, y) <==> IsSignMinus(x))
    ensures !IsNan(x) && IsNan(y) ==> (TotalOrder(x, y) <==> !IsSignMinus(y))
    ensures !IsNan(x) && !IsNan(y) && ClassOf(x) != ClassOf(y) ==>
              (TotalOrder(x, y) <==> ClassOf(x).Rank() < ClassOf(y).Rank())
  {
  }

  /**
   * Two numbers of the same non-zero finite class: a negative x comes first
   * when its magnitude is not smaller, a positive x when its magnitude is not
   * larger; and, through the wrapped exponent difference, x also comes first
   * whenever its exponent lies on the far side of y's.
   */
  lemma TotalOrderSameFiniteClass(x: D32, y: D32)
    requires ClassOf(x) == ClassOf(y) && ClassOf(x).IsNonZeroFinite()
    ensures ClassOf(x).IsNegative() ==>
              (TotalOrder(x, y) <==> Exponent(x) < Exponent(y) || Magnitude(x) >= Magnitude(y))
    ensures !ClassOf(x).IsNegative() ==>
              (TotalOrder(x, y) <==> Exponent(x) > Exponent(y) || Magnitude(x) <= Magnitude(y))
  {
    var sx, sy, ex, ey := Significand(x), Significand(y), Exponent(x), Exponent(y);
    NonZeroFiniteSignificand(x);
    NonZeroFiniteSignificand(y);
    match ClassOf(x)
    case NegativeNormal => NegativeNormalLeMeaning(sx, sy, ex, ey);
    case NegativeSubnormal => NegativeSubnormalLeMeaning(sx, sy, ex, ey);
    case PositiveSubnormal => PositiveFiniteLeMeaning(sx, sy, ex, ey);
    case PositiveNormal => PositiveFiniteLeMeaning(sx, sy, ex, ey);
  }

  /**
   * Negating both operands reverses totalOrder: x' <= y' exactly when
   * y <= x.  The wrapped exponent difference does not break this, as the
   * negative and positive arms err in mirrored ways.
   */
  lemma TotalOrderNegate(x: D32, y: D32)
    ensures TotalOrder(Negate(x), Negate(y)) == TotalOrder(y, x)
  {
    var nx, ny := Negate(x), Negate(y);
    SignFreeAgree(x, nx);
    SignFreeAgree(y, ny);
    NegateMirrorsClass(x);
    NegateMirrorsClass(y);
    TotalOrderAcrossClasses(nx, ny);
    TotalOrderAcrossClasses(y, x);
    if !IsNan(x) && !IsNan(y) && ClassOf(x) == ClassOf(y) && ClassOf(x).IsNonZeroFinite() {
      assert ClassOf(nx) == ClassOf(ny) && ClassOf(nx).IsNonZeroFinite();
      assert ClassOf(nx).IsNegative() != ClassOf(x).IsNegative();
      TotalOrderSameFiniteClass(nx, ny);
      TotalOrderSameFiniteClass(y, x);
    }
  }

  /**
   * Negative zero comes before positive zero and not after it, and the
   * positive zero with exponent field 0 comes strictly before the one with
   * exponent field 1 (pattern 0x00800000).
   */
  lemma ZerosInOrder()
    ensures TotalOrder(D32(0x8000_0000), D32(0)) && !TotalOrder(D32(0), D32(0x8000_0000))
    ensures ClassOf(D32(0x0080_0000)) == PositiveZero && Exponent(D32(0x0080_0000)) == 1
    ensures TotalOrder(D32(0), D32(0x0080_0000)) && !TotalOrder(D32(0x0080_0000), D32(0))
  {
    ZerosDecoded();
    TotalOrderAcrossClasses(D32(0x8000_0000), D32(0));
    TotalOrderAcrossClasses(D32(0), D32(0x8000_0000));
  }

  /**
   * Two zeros of the same sign are ordered by their exponent fields: the
   * negative ones by descending exponent, the positive ones by ascending
   * exponent (src/lib.rs:253-258).
   */
  lemma ZerosOrderedByExponent(x: D32, y: D32)
    requires IsZero(x) && IsZero(y) && IsSignMinus(x) == IsSignMinus(y)
    ensures IsSignMinus(x) ==> (TotalOrder(x, y) <==> Exponent(x) >= Exponent(y))
    ensures !IsSignMinus(x) ==> (TotalOrder(x, y) <==> Exponent(x) <= Exponent(y))
  {
  }

  lemma ZerosDecoded()
    ensures ClassOf(D32(0)) == PositiveZero && Exponent(D32(0)) == 0
    ensures ClassOf(D32(0x8000_0000)) == NegativeZero
    ensures ClassOf(D32(0x0080_0000)) == PositiveZero && Exponent(D32(0x0080_0000)) == 1
  {
    assert G(D32(0)) == 0 && T(D32(0)) == 0;
    assert S(D32(0x8000_0000)) == 1 && G(D32(0x8000_0000)) == 0 && T(D32(0x8000_0000)) == 0;
    assert G(D32(0x0080_0000)) == 8 && T(D32(0x0080_0000)) == 0;
  }

  /** On numbers (everything but NaNs) totalOrder relates every pair one way or the other. */
  lemma TotalOrderTotalOnNumbers(x: D32, y: D32)
    requires !IsNan(x) && !IsNan(y)
    ensures TotalOrder(x, y) || TotalOrder(y, x)
  {
    TotalOrderAcrossClasses(x, y);
    TotalOrderAcrossClasses(y, x);
    if ClassOf(x) == ClassOf(y) && ClassOf(x).IsNonZeroFinite() {
      TotalOrderSameFiniteClass(x, y);
      TotalOrderSameFiniteClass(y, x);
    }
  }

  /** totalOrderMag does not look at either sign. */
  lemma TotalOrderMagIgnoresSign(x: D32, y: D32)
    ensures TotalOrderMag(Negate(x), y) == TotalOrderMag(x, y)
    ensures TotalOrderMag(x, Negate(y)) == TotalOrderMag(x, y)
    ensures TotalOrderMag(x, y) == TotalOrder(Abs(x), Abs(y))
  {
    AbsIgnoresSign(x);
    AbsIgnoresSign(y);
  }
}
