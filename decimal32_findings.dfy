/**
 * Where src/lib.rs does not do what its comments and IEEE 754-2008 say:
 * for each discrepancy, a concrete input that exhibits it on the model of
 * the code as written (module Decimal32), and a corrected definition with
 * the intended property proved.
 *
 *   1. quantum of a finite value keeps bit 0 of the significand field
 *      instead of setting the significand to 1;
 *   2. quantum of a NaN clears bit 19 of the trailing field, which is part
 *      of the payload;
 *   3. totalOrder on two numbers of the same non-zero finite class takes the
 *      exponent difference on `u32`, which wraps around;
 *   4. totalOrder on two NaNs of the same class ignores the payload order
 *      and, for equal payloads, the signs.
 */
module Decimal32Findings {
  import opened Decimal32
  import opened Decimal32Properties

  /* ================= 1 and 2: quantum ================= */

  /**
   * As written, the quantum of a finite value has the significand bit 0 of
   * x in the first form, and 0x800000 plus that bit in the second: it is 1
   * only for a first-form x with an odd significand.
   */
  lemma QuantumFiniteAsWritten(x: D32)
    requires IsFinite(x)
    ensures ExponentFormOne(x) ==> Significand(Quantum(x)) == Significand(x) % 2
    ensures !ExponentFormOne(x) ==> Significand(Quantum(x)) == 0x80_0000 + Significand(x) % 2
  {
    if ExponentFormOne(x) {
      QuantumFormOne(x);
    } else {
      QuantumFormTwo(x);
    }
  }

  lemma QuantumFormOne(x: D32)
    requires ExponentFormOne(x)
    ensures Significand(Quantum(x)) == Significand(x) % 2
  {
    var r := Quantum(x);
    TruncatedCombination8(G(x));
    assert G(r) == G(x) / 8 * 8 && T(r) == T(x) % 2;
    assert Significand(x) % 2 == T(x) % 2;
  }

  lemma QuantumFormTwo(x: D32)
    requires IsFinite(x) && !ExponentFormOne(x)
    ensures Significand(Quantum(x)) == 0x80_0000 + Significand(x) % 2
  {
    var r := Quantum(x);
    TruncatedCombination2(G(x));
    assert G(r) == G(x) / 2 * 2 && T(r) == T(x) % 2;
    assert Significand(x) % 2 == T(x) % 2;
  }

  /** The quantum of 2 (pattern 0x00000002, significand 2, exponent field 0) is a zero. */
  lemma QuantumOfTwoIsZero()
    ensures IsZero(Quantum(D32(2)))
  {
    OneAndTwoDecoded();
    QuantumOfEvenIsZero(D32(2));
  }

  /**
   * 1 and 2 share their class and their exponent field (OneAndTwoDecoded)
   * and still get different quanta.
   */
  lemma QuantumOfOneAndTwoDiffer()
    ensures Quantum(D32(1)) != Quantum(D32(2))
  {
    OneAndTwoDecoded();
    QuantumOfOddDiffers(D32(1), D32(2));
  }

  /**
   * In the second form the mask keeps the implicit prefix as well:
   * 8388608E-101 (significand 0x800000) is its own quantum.
   */
  lemma QuantumOfSecondFormKeepsPrefix()
    ensures IsFinite(D32(0x6000_0000)) && !ExponentFormOne(D32(0x6000_0000))
    ensures Significand(D32(0x6000_0000)) == 0x80_0000 && Exponent(D32(0x6000_0000)) == 0
    ensures Quantum(D32(0x6000_0000)) == D32(0x6000_0000)
  {
    assert G(D32(0x6000_0000)) == 0x600 && T(D32(0x6000_0000)) == 0;
  }

  lemma QuantumOfEvenIsZero(x: D32)
    requires ExponentFormOne(x) && Significand(x) % 2 == 0
    ensures IsZero(Quantum(x))
  {
    QuantumFormOne(x);
  }

  lemma QuantumOfOddDiffers(x: D32, y: D32)
    requires ExponentFormOne(x) && ExponentFormOne(y)
    requires Significand(x) % 2 == 1 && Significand(y) % 2 == 0
    ensures Quantum(x) != Quantum(y)
  {
    QuantumFormOne(x);
    QuantumFormOne(y);
  }

  /** The patterns 1 and 2: first form, exponent field 0, positive subnormal. */
  lemma OneAndTwoDecoded()
    ensures ExponentFormOne(D32(1)) && ExponentFormOne(D32(2))
    ensures Significand(D32(1)) == 1 && Significand(D32(2)) == 2
    ensures Exponent(D32(1)) == 0 && Exponent(D32(2)) == 0
    ensures ClassOf(D32(1)) == PositiveSubnormal && ClassOf(D32(2)) == PositiveSubnormal
  {
    assert S(D32(2)) == 0 && G(D32(2)) == 0 && T(D32(2)) == 2;
    assert S(D32(1)) == 0 && G(D32(1)) == 0 && T(D32(1)) == 1;
    assert IsSubnormal(D32(1)) && IsSubnormal(D32(2));
  }

  /**
   * As written, the quantum of a NaN keeps only bits 18..0 of its trailing
   * field.  The canonical quiet NaN 0x7c080000 has payload 0x80000 and its
   * quantum has payload 0.
   */
  lemma QuantumDropsPayloadBit()
    ensures IsQuiet(D32(0x7c08_0000)) && IsCanonical(D32(0x7c08_0000))
    ensures T(D32(0x7c08_0000)) == 0x8_0000 && T(Quantum(D32(0x7c08_0000))) == 0
    ensures Quantum(D32(0x7c08_0000)) != Abs(D32(0x7c08_0000))
  {
    assert G(D32(0x7c08_0000)) == 0x7c0 && T(D32(0x7c08_0000)) == 0x8_0000;
  }

  /**
   * quantum as intended: a NaN keeps its class and its whole payload
   * (masks 0x7e0fffff and 0x7c0fffff), an infinity gives +infinity, and a
   * finite value gives 1 times ten to its own exponent, encoded in the first
   * form, which every exponent up to 191 fits.
   */
  function QuantumFixed(x: D32): (r: D32)
    ensures !IsSignMinus(r) && IsCanonical(r) && SameQuantum(x, r)
    ensures IsFinite(x) ==> Significand(r) == 1 && Exponent(r) == Exponent(x)
    ensures IsFinite(x) ==> Magnitude(r) == Pow(10, Exponent(x))
    ensures IsNan(x) ==> IsSignaling(r) == IsSignaling(x) && T(r) == T(x)
    ensures IsInfinite(x) ==> r.bits == 0x7800_0000
  {
    if IsSignaling(x) then
      Pack(0, G(x) / 0x20 * 0x20, T(x))
    else if IsNan(x) then
      Pack(0, G(x) / 0x40 * 0x40, T(x))
    else if IsInfinite(x) then
      PositiveInfinityPattern();
      assert IsCanonical(D32(0x7800_0000)) by {
        assert G(D32(0x7800_0000)) == 0x780 && T(D32(0x7800_0000)) == 0;
      }
      D32(0x7800_0000)
    else
      var r := Pack(0, Exponent(x) * 8, 1);
      assert G(r) / 8 == Exponent(x) && G(r) % 8 == 0 && G(r) / 0x200 != 3;
      r
  }

  /** Two finite values with the same exponent field have the same corrected quantum. */
  lemma QuantumFixedDependsOnExponent(x: D32, y: D32)
    requires IsFinite(x) && IsFinite(y) && Exponent(x) == Exponent(y)
    ensures QuantumFixed(x) == QuantumFixed(y)
  {
  }

  /** A canonical NaN is its own quantum, up to its sign. */
  lemma QuantumFixedKeepsCanonicalNaN(x: D32)
    requires IsNan(x) && IsCanonical(x)
    ensures QuantumFixed(x) == Abs(x)
  {
    FieldsDetermine(QuantumFixed(x), Abs(x));
  }

  /**
   * On finite values the source's quantum and the corrected one agree
   * exactly when x uses the first form and has an odd significand.
   */
  lemma QuantumAgreesWithFixed(x: D32)
    requires IsFinite(x)
    ensures Quantum(x) == QuantumFixed(x) <==> ExponentFormOne(x) && Significand(x) % 2 == 1
  {
    QuantumFiniteAsWritten(x);
    if ExponentFormOne(x) && Significand(x) % 2 == 1 {
      TruncatedCombination8(G(x));
      FieldsDetermine(Quantum(x), QuantumFixed(x));
    }
  }

  /* ================= 3: the wrapped exponent difference ================= */

  /**
   * Two positive normal numbers, 1E-81 (pattern 0x0a000001, exponent field
   * 20) and 1E-91 (0x05000001, exponent field 10): the larger is ordered
   * before the smaller, and both ways round.
   */
  lemma WrappedGapOrdersBothWays()
    ensures ClassOf(D32(0x0a00_0001)) == PositiveNormal && ClassOf(D32(0x0500_0001)) == PositiveNormal
    ensures IsCanonical(D32(0x0a00_0001)) && IsCanonical(D32(0x0500_0001))
    ensures Magnitude(D32(0x0a00_0001)) > Magnitude(D32(0x0500_0001))
    ensures TotalOrder(D32(0x0a00_0001), D32(0x0500_0001))
    ensures TotalOrder(D32(0x0500_0001), D32(0x0a00_0001))
  {
    var a, b := D32(0x0a00_0001), D32(0x0500_0001);
    OnesDecoded();
    SubnormalMeaning(a);
    SubnormalMeaning(b);
    TotalOrderSameFiniteClass(a, b);
    TotalOrderSameFiniteClass(b, a);
  }

  /** The fields of 0x0a000001 (1E-81) and 0x05000001 (1E-91). */
  lemma OnesDecoded()
    ensures NonZeroFinite(D32(0x0a00_0001)) && NonZeroFinite(D32(0x0500_0001))
    ensures !IsSignMinus(D32(0x0a00_0001)) && !IsSignMinus(D32(0x0500_0001))
    ensures Exponent(D32(0x0a00_0001)) == 20 && Exponent(D32(0x0500_0001)) == 10
    ensures Magnitude(D32(0x0a00_0001)) > Magnitude(D32(0x0500_0001)) >= 1000000
  {
    var a, b := D32(0x0a00_0001), D32(0x0500_0001);
    assert G(a) == 0xa0 && T(a) == 1 && S(a) == 0;
    assert G(b) == 0x50 && T(b) == 1 && S(b) == 0;
    assert Significand(a) == 1 && Significand(b) == 1;
    PowAdd(10, 10, 10);
    PowMonotone(10, 6, 10);
    PowSix();
    assert Magnitude(a) == Pow(10, 10) * Pow(10, 10);
    assert Magnitude(b) == Pow(10, 10);
  }

  /**
   * The arm for two negative numbers of the same class, as intended: x comes
   * first when its magnitude is larger, or equal with an exponent not
   * smaller.  The gap test and each power are guarded so that every
   * difference is a true one and every power is at most 10^6.
   */
  predicate NegativeFiniteLeFixed(sx: nat, sy: nat, ex: nat, ey: nat) {
    if ex >= ey then
      ex - ey > 6 || sx * Pow(10, ex - ey) >= sy
    else
      ey - ex <= 6 && sx > sy * Pow(10, ey - ex)
  }

  /**
   * The arm for two positive numbers of the same class, as intended: x comes
   * first when its magnitude is smaller, or equal with an exponent not
   * larger.
   */
  predicate PositiveFiniteLeFixed(sx: nat, sy: nat, ex: nat, ey: nat) {
    if ex <= ey then
      ey - ex > 6 || sx <= sy * Pow(10, ey - ex)
    else
      ex - ey <= 6 && sx * Pow(10, ex - ey) < sy
  }

  lemma NegativeFiniteLeFixedMeaning(sx: nat, sy: nat, ex: nat, ey: nat)
    requires 1 <= sx <= 9999999 && 1 <= sy <= 9999999
    ensures NegativeFiniteLeFixed(sx, sy, ex, ey) <==>
              sx * Pow(10, ex) > sy * Pow(10, ey) || (sx * Pow(10, ex) == sy * Pow(10, ey) && ex >= ey)
  {
    if ex >= ey {
      ShiftCompare(sx, sy, ex, ey);
      if ex - ey > 6 {
        LargeGap(sx, sy, ex - ey);
      }
    } else {
      ShiftCompare(sy, sx, ey, ex);
      if ey - ex > 6 {
        LargeGap(sy, sx, ey - ex);
      }
    }
  }

  lemma PositiveFiniteLeFixedMeaning(sx: nat, sy: nat, ex: nat, ey: nat)
    requires 1 <= sx <= 9999999 && 1 <= sy <= 9999999
    ensures PositiveFiniteLeFixed(sx, sy, ex, ey) <==>
              sx * Pow(10, ex) < sy * Pow(10, ey) || (sx * Pow(10, ex) == sy * Pow(10, ey) && ex <= ey)
  {
    if ex <= ey {
      ShiftCompare(sy, sx, ey, ex);
      if ey - ex > 6 {
        LargeGap(sy, sx, ey - ex);
      }
    } else {
      ShiftCompare(sx, sy, ex, ey);
      if ex - ey > 6 {
        LargeGap(sx, sy, ex - ey);
      }
    }
  }

  /** Every power the corrected arms raise 10 to is at most 10^6, and every product fits in a `u64`. */
  lemma FixedArmProductsFit(sx: nat, sy: nat, ex: nat, ey: nat)
    requires sx <= 0x9f_ffff && sy <= 0x9f_ffff
    ensures ex >= ey && ex - ey <= 6 ==> sx * Pow(10, ex - ey) < 0x1_0000_0000_0000_0000
    ensures ey >= ex && ey - ex <= 6 ==> sy * Pow(10, ey - ex) < 0x1_0000_0000_0000_0000
  {
    if ex >= ey && ex - ey <= 6 {
      ProductFits(sx, ex - ey);
    }
    if ey >= ex && ey - ex <= 6 {
      ProductFits(sy, ey - ex);
    }
  }

  /* ================= 4: two NaNs of the same class ================= */

  /**
   * Two positive quiet NaNs with payloads 1 and 2 are ordered neither way,
   * and a positive quiet NaN is ordered before the negative one with the
   * same payload.
   */
  lemma NaNArmsNotTotal()
    ensures ClassOf(D32(0x7c00_0001)) == QuietNaN && ClassOf(D32(0x7c00_0002)) == QuietNaN
    ensures !TotalOrder(D32(0x7c00_0001), D32(0x7c00_0002))
    ensures !TotalOrder(D32(0x7c00_0002), D32(0x7c00_0001))
    ensures ClassOf(D32(0xfc00_0001)) == QuietNaN && IsSignMinus(D32(0xfc00_0001))
    ensures TotalOrder(D32(0x7c00_0001), D32(0xfc00_0001))
  {
    assert G(D32(0x7c00_0001)) == 0x7c0 && T(D32(0x7c00_0001)) == 1;
    assert G(D32(0x7c00_0002)) == 0x7c0 && T(D32(0x7c00_0002)) == 2;
    assert S(D32(0xfc00_0001)) == 1 && G(D32(0xfc00_0001)) == 0x7c0 && T(D32(0xfc00_0001)) == 1;
  }

  /**
   * Two NaNs of the same class, as intended: the negative one first; two
   * positive ones by increasing payload, two negative ones by decreasing
   * payload.
   */
  predicate NaNLeFixed(x: D32, y: D32) {
    if IsSignMinus(x) != IsSignMinus(y) then
      IsSignMinus(x)
    else if IsSignMinus(x) then
      Significand(x) >= Significand(y)
    else
      Significand(x) <= Significand(y)
  }

  /* ================= the corrected totalOrder ================= */

  /** totalOrder with the arms of findings 3 and 4 corrected; every other arm is the source's. */
  function TotalOrderFixed(x: D32, y: D32): bool {
    var sx, sy, ex, ey := Significand(x), Significand(y), Exponent(x), Exponent(y);
    match (ClassOf(x), ClassOf(y))
    case (QuietNaN, QuietNaN) => NaNLeFixed(x, y)
    case (SignalingNaN, SignalingNaN) => NaNLeFixed(x, y)
    case (NegativeNormal, NegativeNormal) => NegativeFiniteLeFixed(sx, sy, ex, ey)
    case (NegativeSubnormal, NegativeSubnormal) => NegativeFiniteLeFixed(sx, sy, ex, ey)
    case (PositiveSubnormal, PositiveSubnormal) => PositiveFiniteLeFixed(sx, sy, ex, ey)
    case (PositiveNormal, PositiveNormal) => PositiveFiniteLeFixed(sx, sy, ex, ey)
    case _ => TotalOrder(x, y)
  }

  /** A sort key: first the class in totalOrder's sequence, then the value, then the exponent. */
  datatype OrderKey = OrderKey(rank: int, value: int, tie: int)

  predicate KeyLe(a: OrderKey, b: OrderKey) {
    a.rank < b.rank
    || (a.rank == b.rank && (a.value < b.value || (a.value == b.value && a.tie <= b.tie)))
  }

  /** The number x stands for, scaled by 10^101; 0 for a zero, whatever its significand field. */
  function ScaledValue(x: D32): int
    requires IsFinite(x)
  {
    if IsZero(x) then 0
    else if IsSignMinus(x) then 0 - Magnitude(x)
    else Magnitude(x)
  }

  /**
   * The key of x.  NaNs rank outermost (quiet outside signaling) and go by
   * payload, away from zero on either side; numbers rank by class, then go
   * by value, then by exponent, larger exponents outward.
   */
  function SortKey(x: D32): OrderKey {
    if IsNan(x) then
      if IsSignMinus(x) then
        OrderKey(if IsSignaling(x) then -1 else -2, 0 - Significand(x), 0)
      else
        OrderKey(if IsSignaling(x) then 8 else 9, Significand(x), 0)
    else
      OrderKey(ClassOf(x).Rank(),
               if IsFinite(x) then ScaledValue(x) else 0,
               if IsSignMinus(x) then 0 - Exponent(x) else Exponent(x))
  }

  /** The corrected totalOrder is exactly the lexicographic order on sort keys. */
  lemma TotalOrderFixedIsKeyOrder(x: D32, y: D32)
    ensures TotalOrderFixed(x, y) <==> KeyLe(SortKey(x), SortKey(y))
  {
    if IsNan(x) || IsNan(y) {
      NaNKeyOrder(x, y);
    } else if ClassOf(x) == ClassOf(y) && ClassOf(x).IsNonZeroFinite() {
      SameFiniteClassKeyOrder(x, y);
    } else {
      OtherNumbersKeyOrder(x, y);
    }
  }

  lemma NaNKeyOrder(x: D32, y: D32)
    requires IsNan(x) || IsNan(y)
    ensures TotalOrderFixed(x, y) <==> KeyLe(SortKey(x), SortKey(y))
  {
    TotalOrderAcrossClasses(x, y);
  }

  lemma SameFiniteClassKeyOrder(x: D32, y: D32)
    requires !IsNan(x) && !IsNan(y)
    requires ClassOf(x) == ClassOf(y) && ClassOf(x).IsNonZeroFinite()
    ensures TotalOrderFixed(x, y) <==> KeyLe(SortKey(x), SortKey(y))
  {
    var sx, sy, ex, ey := Significand(x), Significand(y), Exponent(x), Exponent(y);
    NonZeroFiniteSignificand(x);
    NonZeroFiniteSignificand(y);
    if ClassOf(x).IsNegative() {
      NegativeFiniteLeFixedMeaning(sx, sy, ex, ey);
    } else {
      PositiveFiniteLeFixedMeaning(sx, sy, ex, ey);
    }
  }

  lemma OtherNumbersKeyOrder(x: D32, y: D32)
    requires !IsNan(x) && !IsNan(y)
    requires !(ClassOf(x) == ClassOf(y) && ClassOf(x).IsNonZeroFinite())
    ensures TotalOrderFixed(x, y) <==> KeyLe(SortKey(x), SortKey(y))
  {
    TotalOrderAcrossClasses(x, y);
  }

  /** The corrected totalOrder is reflexive, transitive and total. */
  lemma TotalOrderFixedIsTotalPreorder(x: D32, y: D32, z: D32)
    ensures TotalOrderFixed(x, x)
    ensures TotalOrderFixed(x, y) || TotalOrderFixed(y, x)
    ensures TotalOrderFixed(x, y) && TotalOrderFixed(y, z) ==> TotalOrderFixed(x, z)
  {
    TotalOrderFixedIsKeyOrder(x, x);
    TotalOrderFixedIsKeyOrder(x, y);
    TotalOrderFixedIsKeyOrder(y, x);
    TotalOrderFixedIsKeyOrder(y, z);
    TotalOrderFixedIsKeyOrder(x, z);
  }

  /* ---------------- antisymmetry on canonical encodings ---------------- */

  /** A finite pattern is determined by its sign, significand and exponent. */
  lemma FiniteFieldsDetermine(x: D32, y: D32)
    requires IsFinite(x) && IsFinite(y)
    requires S(x) == S(y) && Significand(x) == Significand(y) && Exponent(x) == Exponent(y)
    ensures x == y
  {
    if ExponentFormOne(x) {
      FormOneFields(x);
      FormOneFields(y);
    } else {
      FormTwoFields(x);
      FormTwoFields(y);
    }
    FieldsDetermine(x, y);
  }

  lemma FormOneFields(x: D32)
    requires ExponentFormOne(x)
    ensures G(x) == Exponent(x) * 8 + Significand(x) / 0x10_0000
    ensures T(x) == Significand(x) % 0x10_0000
  {
  }

  lemma FormTwoFields(x: D32)
    requires IsFinite(x) && !ExponentFormOne(x)
    ensures G(x) == 0x600 + Exponent(x) * 2 + (Significand(x) - 0x80_0000) / 0x10_0000
    ensures T(x) == Significand(x) % 0x10_0000
  {
  }

  /** A canonical NaN is determined by its sign, its class and its payload. */
  lemma CanonicalNaNDetermine(x: D32, y: D32)
    requires IsNan(x) && IsNan(y) && IsCanonical(x) && IsCanonical(y)
    requires S(x) == S(y) && IsSignaling(x) == IsSignaling(y) && Significand(x) == Significand(y)
    ensures x == y
  {
    assert G(x) == (if IsSignaling(x) then 0x7e0 else 0x7c0);
    assert G(y) == (if IsSignaling(y) then 0x7e0 else 0x7c0);
    FieldsDetermine(x, y);
  }

  /** Two canonical encodings with the same sort key are the same encoding. */
  lemma SortKeyDeterminesCanonical(x: D32, y: D32)
    requires IsCanonical(x) && IsCanonical(y) && SortKey(x) == SortKey(y)
    ensures x == y
  {
    if IsNan(x) || IsNan(y) {
      assert IsNan(x) && IsNan(y);
      CanonicalNaNDetermine(x, y);
    } else {
      assert ClassOf(x) == ClassOf(y);
      if IsInfinite(x) {
        FieldsDetermine(x, y);
      } else {
        assert Exponent(x) == Exponent(y);
        if !IsZero(x) {
          assert Magnitude(x) == Magnitude(y);
          ScaleKeepsOrder(Significand(x), Significand(y), Pow(10, Exponent(x)));
        }
        FiniteFieldsDetermine(x, y);
      }
    }
  }

  /**
   * On canonical encodings the corrected totalOrder is antisymmetric, so it
   * is a total order.  The source's is not: see WrappedGapOrdersBothWays.
   */
  lemma TotalOrderFixedAntisymmetric(x: D32, y: D32)
    requires IsCanonical(x) && IsCanonical(y)
    ensures TotalOrderFixed(x, y) && TotalOrderFixed(y, x) ==> x == y
  {
    TotalOrderFixedIsKeyOrder(x, y);
    TotalOrderFixedIsKeyOrder(y, x);
    if TotalOrderFixed(x, y) && TotalOrderFixed(y, x) {
      SortKeyDeterminesCanonical(x, y);
    }
  }

  /* ---------------- agreement with the numeric order ---------------- */

  /** Where each finite class lies on the number line. */
  lemma ValueWithinClass(x: D32)
    requires IsFinite(x)
    ensures ClassOf(x) == NegativeNormal ==> ScaledValue(x) <= -1000000
    ensures ClassOf(x) == NegativeSubnormal ==> -1000000 < ScaledValue(x) < 0
    ensures IsZero(x) ==> ScaledValue(x) == 0
    ensures ClassOf(x) == PositiveSubnormal ==> 0 < ScaledValue(x) < 1000000
    ensures ClassOf(x) == PositiveNormal ==> ScaledValue(x) >= 1000000
  {
    if !IsZero(x) {
      NonZeroFiniteSignificand(x);
      SubnormalMeaning(x);
      ShiftGrows(Significand(x), Exponent(x));
    }
  }

  /**
   * The corrected totalOrder extends the numeric order of finite values: a
   * smaller number comes first, and x comes first only if it is not larger.
   */
  lemma TotalOrderFixedRespectsValue(x: D32, y: D32)
    requires IsFinite(x) && IsFinite(y)
    ensures ScaledValue(x) < ScaledValue(y) ==> TotalOrderFixed(x, y)
    ensures TotalOrderFixed(x, y) ==> ScaledValue(x) <= ScaledValue(y)
  {
    ValueWithinClass(x);
    ValueWithinClass(y);
    TotalOrderFixedIsKeyOrder(x, y);
  }

  /* ---------------- the source's totalOrder against the corrected one ---------------- */

  /**
   * Two numbers of the same non-zero finite class whose exponents lie the
   * wrong way round for the source's wrapped difference: the smaller
   * exponent for negatives, the larger for positives.
   */
  predicate WrongWayExponents(x: D32, y: D32) {
    !IsNan(x) && ClassOf(x) == ClassOf(y) && ClassOf(x).IsNonZeroFinite()
    && (if ClassOf(x).IsNegative() then Exponent(x) < Exponent(y) else Exponent(x) > Exponent(y))
  }

  /**
   * Outside pairs of NaNs of one class, the source's totalOrder says "x comes
   * first" exactly when the corrected one does, or when the exponents lie the
   * wrong way round.
   */
  lemma TotalOrderAsWrittenVersusFixed(x: D32, y: D32)
    requires !(ClassOf(x) == ClassOf(y) && ClassOf(x).IsNaNClass())
    ensures TotalOrder(x, y) <==> TotalOrderFixed(x, y) || WrongWayExponents(x, y)
  {
    TotalOrderAcrossClasses(x, y);
    if !IsNan(x) && ClassOf(x) == ClassOf(y) && ClassOf(x).IsNonZeroFinite() {
      var sx, sy, ex, ey := Significand(x), Significand(y), Exponent(x), Exponent(y);
      NonZeroFiniteSignificand(x);
      NonZeroFiniteSignificand(y);
      TotalOrderSameFiniteClass(x, y);
      if ClassOf(x).IsNegative() {
        NegativeFiniteLeFixedMeaning(sx, sy, ex, ey);
      } else {
        PositiveFiniteLeFixedMeaning(sx, sy, ex, ey);
      }
    }
  }

  /* ---------------- negation ---------------- */

  /** Negation mirrors the sort key. */
  lemma NegateMirrorsKey(x: D32)
    ensures SortKey(Negate(x)) ==
            OrderKey(7 - SortKey(x).rank, 0 - SortKey(x).value, 0 - SortKey(x).tie)
  {
    SignFreeAgree(x, Negate(x));
    NegateMirrorsClass(x);
  }

  /** Negating both operands reverses the corrected totalOrder. */
  lemma TotalOrderFixedNegate(x: D32, y: D32)
    ensures TotalOrderFixed(Negate(x), Negate(y)) == TotalOrderFixed(y, x)
  {
    NegateMirrorsKey(x);
    NegateMirrorsKey(y);
    TotalOrderFixedIsKeyOrder(Negate(x), Negate(y));
    TotalOrderFixedIsKeyOrder(y, x);
  }
}
