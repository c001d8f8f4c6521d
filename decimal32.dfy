/**
 * IEEE 754-2008 decimal32 in the binary-integer-decimal (BID) encoding:
 * decoding of the combination field, classification, the sign and quantum
 * operations, and totalOrder, as src/lib.rs computes them.
 *
 * A pattern is read as three fields (section 3.5.2 of IEEE 754-2008):
 *
 *     bit 31       sign S
 *     bits 30..20  combination field G, with G0 at bit 30 and G10 at bit 20
 *     bits 19..0   trailing significand field T
 *
 * The source tests and builds patterns with 32-bit masks; each mask is
 * written here as the equivalent test on S, G and T, and the mask itself is
 * quoted in the comment above it.
 */
module Decimal32 {

  /** Rust's `u32`, as a bounded integer. */
  type U32 = n: int | 0 <= n < 0x1_0000_0000

  /** A decimal32 value: nothing but its 32-bit interchange pattern. */
  datatype D32 = D32(bits: U32)

  /** The ten classes of section 5.7.2 of IEEE 754-2008. */
  datatype Class =
    | QuietNaN
    | SignalingNaN
    | NegativeInf
    | NegativeNormal
    | NegativeSubnormal
    | NegativeZero
    | PositiveZero
    | PositiveSubnormal
    | PositiveNormal
    | PositiveInf
  {
    predicate IsNaNClass() {
      this == QuietNaN || this == SignalingNaN
    }

    /** Classes whose members totalOrder compares by significand and exponent. */
    predicate IsNonZeroFinite() {
      this == NegativeNormal || this == NegativeSubnormal
      || this == PositiveSubnormal || this == PositiveNormal
    }

    predicate IsNegative() {
      this == NegativeInf || this == NegativeNormal
      || this == NegativeSubnormal || this == NegativeZero
    }

    /**
     * Position of a non-NaN class in the chain that totalOrder follows, which
     * is the order of declaration: the four negative classes come first.
     */
    function Rank(): (r: nat)
      requires !IsNaNClass()
      ensures r <= 7
      ensures r < 4 <==> IsNegative()
    {
      match this
      case NegativeInf => 0
      case NegativeNormal => 1
      case NegativeSubnormal => 2
      case NegativeZero => 3
      case PositiveZero => 4
      case PositiveSubnormal => 5
      case PositiveNormal => 6
      case PositiveInf => 7
    }
  }

  /* ---------------- the three fields of a pattern ---------------- */

  /** Bits 31..20: the sign bit followed by G. */
  function High(x: D32): int { x.bits / 0x10_0000 }

  /** The sign bit S (bit 31). */
  function S(x: D32): (s: int)
    ensures s == 0 || s == 1
  {
    High(x) / 0x800
  }

  /** The combination field G (bits 30..20). */
  function G(x: D32): (g: int)
    ensures 0 <= g < 0x800
  {
    High(x) % 0x800
  }

  /** The trailing significand field T (bits 19..0). */
  function T(x: D32): (t: int)
    ensures 0 <= t < 0x10_0000
  {
    x.bits % 0x10_0000
  }

  /** The pattern with sign s, combination field g and trailing field t. */
  function Pack(s: int, g: int, t: int): (r: D32)
    requires s == 0 || s == 1
    requires 0 <= g < 0x800 && 0 <= t < 0x10_0000
    ensures S(r) == s && G(r) == g && T(r) == t
  {
    D32(s * 0x8000_0000 + g * 0x10_0000 + t)
  }

  /** A pattern is determined by its three fields. */
  lemma FieldsDetermine(x: D32, y: D32)
    requires S(x) == S(y) && G(x) == G(y) && T(x) == T(y)
    ensures x == y
  {
    assert x.bits == High(x) * 0x10_0000 + T(x);
    assert y.bits == High(y) * 0x10_0000 + T(y);
  }

  /* ---------------- Rust integer operations ---------------- */

  /** `b` to the power `n`. */
  function Pow(b: nat, n: nat): (r: nat)
    ensures b >= 1 ==> r >= 1
  {
    if n == 0 then 1 else b * Pow(b, n - 1)
  }

  lemma {:induction false} PowMonotone(b: nat, m: nat, n: nat)
    requires b >= 1 && m <= n
    ensures Pow(b, m) <= Pow(b, n)
  {
    if m < n {
      PowMonotone(b, m, n - 1);
    }
  }

  /** `a - b` on `u32`, wrapping around as a release build does. */
  function WrappingSub(a: U32, b: U32): (r: U32)
    ensures (r + b) % 0x1_0000_0000 == a
    ensures a >= b ==> r == a - b
  {
    if a >= b then a - b else a - b + 0x1_0000_0000
  }

  /* ---------------- field decoding ---------------- */

  /**
   * The first exponent form: `self.0 & 0x60000000 != 0x60000000`, that is
   * G0 G1 is 00, 01 or 10.
   */
  predicate ExponentFormOne(x: D32) {
    IsFinite(x) && G(x) / 0x200 != 3
  }

  /**
   * The declared significand.  First form: the low 23 bits
   * (`self.0 & 0x007fffff`, G8..G10 then T).  Otherwise: the low 21 bits
   * behind an implicit leading 100 (`(self.0 & 0x001fffff) | 0x00800000`,
   * G10 then T).  For a NaN this is the payload under the implicit prefix.
   */
  function Significand(x: D32): (s: nat)
    ensures s <= 0x9f_ffff
    ensures ExponentFormOne(x) ==> s <= 0x7f_ffff
    ensures !ExponentFormOne(x) ==> s >= 0x80_0000
  {
    if ExponentFormOne(x) then
      G(x) % 8 * 0x10_0000 + T(x)
    else
      0x80_0000 + G(x) % 2 * 0x10_0000 + T(x)
  }

  /**
   * The raw exponent field: 0 for infinities and NaNs; G0..G7
   * (`(self.0 & 0x7f800000) >> 23`) in the first form; G2..G9
   * (`(self.0 & 0x1fe00000) >> 21`) otherwise.
   */
  function Exponent(x: D32): (e: U32)
    ensures !IsFinite(x) ==> e == 0
    ensures IsFinite(x) ==> e <= 191
  {
    if !IsFinite(x) then
      0
    else if ExponentFormOne(x) then
      G(x) / 8
    else
      G(x) / 2 % 0x100
  }

  predicate IsQuiet(x: D32) {
    IsNan(x) && !IsSignaling(x)
  }

  /* ---------------- general-computational operations ---------------- */

  /**
   * quantum.  A signaling NaN keeps G0..G5 and T bits 18..0
   * (`& 0x7e07ffff`); a quiet NaN keeps G0..G4 and T bits 18..0
   * (`& 0x7c07ffff`); every infinity becomes 0x78000000; a finite value keeps
   * G0..G7 (`& 0x7f800001`, first form) or G0..G9 (`& 0x7fe00001`) and bit 0.
   * The sign is always cleared.
   */
  function Quantum(x: D32): (r: D32)
    ensures !IsSignMinus(r)
    ensures IsFinite(x) ==> IsFinite(r) && Exponent(r) == Exponent(x)
    ensures IsFinite(x) ==> ExponentFormOne(r) == ExponentFormOne(x)
    ensures IsInfinite(x) ==> r.bits == 0x7800_0000
    ensures IsSignaling(x) ==> IsSignaling(r)
    ensures IsQuiet(x) ==> IsQuiet(r)
    ensures IsNan(x) ==> IsCanonical(r)
  {
    if IsSignaling(x) then
      Pack(0, G(x) / 0x20 * 0x20, T(x) % 0x8_0000)
    else if IsNan(x) then
      Pack(0, G(x) / 0x40 * 0x40, T(x) % 0x8_0000)
    else if IsInfinite(x) then
      D32(0x7800_0000)
    else if ExponentFormOne(x) then
      Pack(0, G(x) / 8 * 8, T(x) % 2)
    else
      Pack(0, G(x) / 2 * 2, T(x) % 2)
  }

  /* ---------------- quiet-computational operations ---------------- */

  /** negate: `self.0 ^ 0x80000000`, the sign bit flipped. */
  function Negate(x: D32): (r: D32)
    ensures IsSignMinus(r) != IsSignMinus(x)
    ensures G(r) == G(x) && T(r) == T(x)
  {
    Pack(1 - S(x), G(x), T(x))
  }

  /** abs: `self.0 & 0x7fffffff`, the sign bit cleared. */
  function Abs(x: D32): (r: D32)
    ensures !IsSignMinus(r)
    ensures G(r) == G(x) && T(r) == T(x)
  {
    Pack(0, G(x), T(x))
  }

  /** copySign: `self.abs().0 | (y.0 & 0x80000000)`. */
  function CopySign(x: D32, y: D32): (r: D32)
    ensures IsSignMinus(r) == IsSignMinus(y)
    ensures G(r) == G(x) && T(r) == T(x)
  {
    Pack(S(y), G(Abs(x)), T(Abs(x)))
  }

  /** encodeBinary: the value already is its interchange encoding. */
  function EncodeBinary(x: D32): (r: D32)
    ensures r == x
  {
    D32(x.bits)
  }

  /** decodeBinary: the interchange encoding already is the value. */
  function DecodeBinary(x: D32): (r: D32)
    ensures EncodeBinary(r) == x
  {
    D32(x.bits)
  }

  /* ---------------- non-computational operations ---------------- */

  /** class: the first test that holds wins. */
  function ClassOf(x: D32): (c: Class)
    ensures c == SignalingNaN <==> IsSignaling(x)
    ensures c == QuietNaN <==> IsQuiet(x)
    ensures c.IsNaNClass() <==> IsNan(x)
    ensures (c == NegativeInf || c == PositiveInf) <==> IsInfinite(x)
    ensures (c == NegativeNormal || c == PositiveNormal) <==> IsNormal(x)
    ensures (c == NegativeSubnormal || c == PositiveSubnormal) <==> IsSubnormal(x)
    ensures (c == NegativeZero || c == PositiveZero) <==> IsZero(x)
    ensures !c.IsNaNClass() ==> (c.IsNegative() <==> IsSignMinus(x))
  {
    if IsSignaling(x) then
      SignalingNaN
    else if IsQuiet(x) then
      QuietNaN
    else if IsSignMinus(x) then
      if IsInfinite(x) then NegativeInf
      else if IsNormal(x) then NegativeNormal
      else if IsSubnormal(x) then NegativeSubnormal
      else NegativeZero
    else if IsInfinite(x) then PositiveInf
    else if IsNormal(x) then PositiveNormal
    else if IsSubnormal(x) then PositiveSubnormal
    else PositiveZero
  }

  /** `self.0 & 0x80000000 == 0x80000000` */
  predicate IsSignMinus(x: D32) {
    S(x) == 1
  }

  predicate IsNormal(x: D32) {
    IsFinite(x) && !IsZero(x) && !IsSubnormal(x)
  }

  predicate IsFinite(x: D32) {
    !(IsInfinite(x) || IsNan(x))
  }

  /** A finite pattern is a zero when its significand is 0 or it is non-canonical. */
  predicate IsZero(x: D32) {
    IsFinite(x) && (Significand(x) == 0 || !IsCanonical(x))
  }

  /** Tested on the raw exponent field; the guard `e < 6` keeps the power small. */
  predicate IsSubnormal(x: D32) {
    IsFinite(x)
    && !IsZero(x)
    && Exponent(x) < 6
    && Significand(x) * Pow(10, Exponent(x)) < 1000000
  }

  /** `!is_nan && self.0 & 0x78000000 == 0x78000000`: G0..G3 all set. */
  predicate IsInfinite(x: D32) {
    !IsNan(x) && G(x) / 0x80 == 0xf
  }

  /** `self.0 & 0x7c000000 == 0x7c000000`: G0..G4 all set. */
  predicate IsNan(x: D32) {
    G(x) / 0x40 == 0x1f
  }

  /** `self.0 & 0x7e000000 == 0x7e000000`: G0..G5 all set. */
  predicate IsSignaling(x: D32) {
    G(x) / 0x20 == 0x3f
  }

  /**
   * A NaN with `self.0 & 0x7df00000 == 0x7c000000` (G6..G10 clear), an
   * infinity with `self.0 & 0x7fffffff == 0x78000000` (G is 11110000000 and T
   * is 0), or a finite pattern whose significand is at most 9999999.
   */
  predicate IsCanonical(x: D32) {
    (IsNan(x) && G(x) / 0x40 == 0x1f && G(x) % 0x20 == 0)
    || (IsInfinite(x) && G(x) == 0x780 && T(x) == 0)
    || (IsFinite(x) && Significand(x) <= 9999999)
  }

  /** radix: decimal32 is a decimal format. */
  function Radix(x: D32): (r: nat)
    ensures r == 10
  {
    10
  }

  /* ---------------- totalOrder ---------------- */

  /**
   * The arm for two negative normal numbers, given by their significands
   * sx, sy and exponent fields ex, ey; it is meant to put x first when its
   * magnitude is not smaller.  The difference in the gap test is taken on
   * `u32` and wraps around when ex < ey; the differences under the powers
   * are guarded and never wrap.
   */
  predicate NegativeNormalLe(sx: nat, sy: nat, ex: U32, ey: U32) {
    (sx > sy && ex >= ey)
    || WrappingSub(ex, ey) > 6
    || (ex >= ey && sx * Pow(10, WrappingSub(ex, ey)) >= sy)
    || (ex <= ey && sx > sy * Pow(10, WrappingSub(ey, ex)))
  }

  /** The arm for two negative subnormal numbers: as for normals, with a strict exponent test last. */
  predicate NegativeSubnormalLe(sx: nat, sy: nat, ex: U32, ey: U32) {
    (sx > sy && ex >= ey)
    || WrappingSub(ex, ey) > 6
    || (ex >= ey && sx * Pow(10, WrappingSub(ex, ey)) >= sy)
    || (ex < ey && sx > sy * Pow(10, WrappingSub(ey, ex)))
  }

  /**
   * The arm for two positive subnormal, or two positive normal, numbers; it
   * is meant to put x first when its magnitude is not larger.  Here the gap
   * test wraps when ex > ey.
   */
  predicate PositiveFiniteLe(sx: nat, sy: nat, ex: U32, ey: U32) {
    (sx < sy && ex <= ey)
    || WrappingSub(ey, ex) > 6
    || (ex <= ey && sx <= sy * Pow(10, WrappingSub(ey, ex)))
    || (ex > ey && sx * Pow(10, WrappingSub(ex, ey)) < sy)
  }

  /** totalOrder(x, y): a match over the pair of classes, first arm wins. */
  function TotalOrder(x: D32, y: D32): bool
  {
    var sx, sy, ex, ey := Significand(x), Significand(y), Exponent(x), Exponent(y);
    match (ClassOf(x), ClassOf(y))
    case (QuietNaN, QuietNaN) =>
      (IsSignMinus(x) && !IsSignMinus(y)) || sx == sy
    case (SignalingNaN, SignalingNaN) =>
      (IsSignMinus(x) && !IsSignMinus(y)) || sx == sy
    case (QuietNaN, SignalingNaN) => IsSignMinus(x)
    case (SignalingNaN, QuietNaN) => !IsSignMinus(y)
    case (QuietNaN, _) => IsSignMinus(x)
    case (SignalingNaN, _) => IsSignMinus(x)
    case (_, QuietNaN) => !IsSignMinus(y)
    case (_, SignalingNaN) => !IsSignMinus(y)
    case (NegativeInf, NegativeInf) => true
    case (NegativeInf, _) => true
    case (_, NegativeInf) => false
    case (PositiveInf, PositiveInf) => true
    case (PositiveInf, _) => false
    case (_, PositiveInf) => true
    case (NegativeNormal, NegativeNormal) => NegativeNormalLe(sx, sy, ex, ey)
    case (NegativeNormal, _) => true
    case (_, NegativeNormal) => false
    case (NegativeSubnormal, NegativeSubnormal) => NegativeSubnormalLe(sx, sy, ex, ey)
    case (NegativeSubnormal, _) => true
    case (_, NegativeSubnormal) => false
    case (NegativeZero, NegativeZero) => ex >= ey
    case (NegativeZero, _) => true
    case (_, NegativeZero) => false
    case (PositiveZero, PositiveZero) => ex <= ey
    case (PositiveZero, _) => true
    case (_, PositiveZero) => false
    case (PositiveSubnormal, PositiveSubnormal) => PositiveFiniteLe(sx, sy, ex, ey)
    case (PositiveSubnormal, _) => true
    case (_, PositiveSubnormal) => false
    case (PositiveNormal, PositiveNormal) => PositiveFiniteLe(sx, sy, ex, ey)
  }

  /** totalOrderMag(x, y): totalOrder on the absolute values. */
  function TotalOrderMag(x: D32, y: D32): (r: bool)
    ensures IsNan(x) && !IsNan(y) ==> !r
    ensures !IsNan(x) && IsNan(y) ==> r
    ensures IsZero(x) && !IsNan(y) && !IsZero(y) ==> r
    ensures !IsNan(x) && !IsZero(x) && IsZero(y) ==> !r
  {
    SignFreeAgree(x, Abs(x));
    SignFreeAgree(y, Abs(y));
    TotalOrder(Abs(x), Abs(y))
  }

  /** sameQuantum: both NaN, both infinite, or both finite with equal exponent fields. */
  function SameQuantum(x: D32, y: D32): (r: bool)
    ensures r <==> IsNan(x) == IsNan(y) && IsInfinite(x) == IsInfinite(y) && Exponent(x) == Exponent(y)
  {
    (IsNan(x) && IsNan(y))
    || (IsInfinite(x) && IsInfinite(y))
    || (IsFinite(x) && IsFinite(y) && Exponent(x) == Exponent(y))
  }

  /**
   * Two patterns with the same G and T have the same fields and the same
   * classification up to sign.
   */
  lemma SignFreeAgree(x: D32, y: D32)
    requires G(x) == G(y) && T(x) == T(y)
    ensures IsNan(x) == IsNan(y) && IsSignaling(x) == IsSignaling(y)
    ensures IsInfinite(x) == IsInfinite(y) && IsFinite(x) == IsFinite(y)
    ensures Significand(x) == Significand(y) && Exponent(x) == Exponent(y)
    ensures IsCanonical(x) == IsCanonical(y) && IsZero(x) == IsZero(y)
    ensures IsSubnormal(x) == IsSubnormal(y) && IsNormal(x) == IsNormal(y)
  {
  }
}
