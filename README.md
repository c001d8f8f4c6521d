# dec754 decimal32 in Dafny

This is a model of the `d32` type from the Rust crate dec754 (`src/lib.rs`). A `d32` is an IEEE 754-2008
decimal32 value held as a raw `u32` in the binary integer decimal (BID) encoding. The fields are:

- sign bit S (bit 31);
- 11-bit combination field G (bits 30..20);
- 20-bit trailing significand T (bits 19..0).

The crate only decodes, classifies and compares. It has no arithmetic. It does the following:

- reads the significand and the biased exponent in either of the two finite encodings: the first
  form, where G does not start with `11`, and the second form, with the implicit `100` prefix;
- tells apart the ten classes of IEEE 754 section 5.7.2: signaling and quiet NaN, negative and
  positive infinity, normal, subnormal and zero;
- implements the sign-bit operations `negate`, `abs` and `copy_sign`, the identity
  `encode_binary`/`decode_binary`, `quantum` and `same_quantum`;
- implements the IEEE 754 `totalOrder` predicate and its magnitude variant `totalOrderMag`.

The model has three modules, one per file.

- `Decimal32` (`decimal32.dfy`) mirrors `src/lib.rs` member by member.
  - The bit pattern is `D32(bits)`, where `bits` is an integer in [0, 2^32).
  - Fields are read by division and remainder, and each source mask is written as the matching
    field arithmetic.
  - Every function keeps the branches, constants and branch order of the Rust code.
  - `total_order` keeps its `match` on the pair of classes, arm for arm.
- `Decimal32Properties` (`decimal32_properties.dfy`) holds the lemmas about the code as written:
  - what each comparison arm of `total_order` means in terms of the represented magnitude;
  - that the classes partition the encodings, and what `is_subnormal` means;
  - the sign operations, and `quantum` with its relation to `same_quantum`;
  - the properties that `total_order` does have.
- `Decimal32Findings` (`decimal32_findings.dfy`) holds the places where the code does not do what
  its comments and the standard say. Each one has a lemma on a concrete input. Each one also has a
  corrected definition, `QuantumFixed` or `TotalOrderFixed`, with the intended property proved.
  - `TotalOrderFixed` is proved to be the lexicographic order on a sort key (class rank, signed
    value, tie-break). From that follow:
    - it is a total preorder;
    - it is antisymmetric on canonical encodings;
    - it agrees with numeric order on finite values;
    - it is reversed by negation.
  - Outside same-class NaN pairs, the code as written is exactly `TotalOrderFixed` plus the pairs
    whose exponents lie on the wrong side (`TotalOrderAsWrittenVersusFixed`).

Rust integer arithmetic is handled as follows:

- `u32` subtraction of two exponents (src/lib.rs:231, 243, 261, 273) uses release-build wrapping
  semantics (`WrappingSub`).
- `u64` products and `10u64.pow` are exact integers (`Pow`). Lemmas show that every product the code
  evaluates stays below 2^64, so the exact value is the `u64` value. `NegativeArmPowersFit` and
  `PositiveArmPowersFit` follow the short-circuit order of each comparison arm: a power is reached
  only when the disjuncts before it are false, and its exponent is then at most 6.
  `SubnormalTestFits` and `FixedArmProductsFit` do the same for `is_subnormal` and the corrected arms.

The model follows the code where it departs from its own comments or from IEEE 754-2008. Each
departure is a row under "## Findings":

- `quantum` (src/lib.rs:73-91). Section 5.3.2 of IEEE 754-2008 defines the quantum of a finite x
  as 1 × 10^q, and the comment at src/lib.rs:83-85 says the significand is wiped "leaving 1". The
  masks keep significand bit 0, and in the second form also the implicit `100` prefix. So a
  first-form input gets significand 0 or 1, and a second-form input gets 0x800000 or 0x800001
  (`QuantumFiniteAsWritten`). 2E-101 has a zero quantum (`QuantumOfTwoIsZero`), and 8388608E-101 is
  its own quantum (`QuantumOfSecondFormKeepsPrefix`). Two values with the same class and exponent
  can therefore have different quanta (`QuantumOfOneAndTwoDiffer`); under the corrected definition
  they never do (`QuantumFixedDependsOnExponent`).
- `quantum` of a NaN. The comment at src/lib.rs:74-75 promises to propagate the payload. The masks
  at src/lib.rs:77 and 79 clear bit 19 of it (`QuantumDropsPayloadBit`).
- `total_order` (src/lib.rs:207-282). Section 5.10 of IEEE 754-2008 defines totalOrder as a total
  ordering of canonical encodings. The code's relation is not antisymmetric on canonical numbers
  (`WrappedGapOrdersBothWays`), and it is not total on NaNs (`NaNArmsNotTotal`).

## Model

| member | source | states |
|---|---|---|
| Decimal32.Pack | src/lib.rs:9-15 | a pattern built from sign, combination field and trailing significand reads back exactly those three fields |
| Decimal32.FieldsDetermine | src/lib.rs:9-15 | sign, combination field and trailing significand together determine the 32-bit pattern |
| Decimal32.Significand | src/lib.rs:41-50 | the significand is at most 0x9fffff; in the first form it is at most 0x7fffff (23 bits), in the second form it carries the implicit 100 prefix (at least 0x800000) |
| Decimal32.Exponent | src/lib.rs:52-63 | infinities and NaNs read exponent 0; a finite encoding has biased exponent at most 191 |
| Decimal32.WrappingSub | src/lib.rs:231 | `u32` subtraction in a release build: result plus subtrahend is the minuend modulo 2^32, and it is the true difference when no underflow happens |
| Decimal32.Pow | src/lib.rs:182 | `10u64.pow`: a power of a positive base is positive |
| Decimal32.PowMonotone | src/lib.rs:182 | powers of a base of at least 1 grow with the exponent |
| Decimal32.Quantum | src/lib.rs:73-91 | the result's sign is clear; a finite input gives a finite result with the same exponent and the same encoding form; an infinity gives +inf (0x78000000); a signaling NaN stays signaling, a quiet NaN stays quiet, and a NaN result is canonical |
| Decimal32.Negate | src/lib.rs:97-99 | the sign bit is flipped and the combination field and trailing significand are unchanged |
| Decimal32.Abs | src/lib.rs:101-103 | the sign bit is cleared and the other fields are unchanged |
| Decimal32.CopySign | src/lib.rs:105-107 | the result has y's sign and x's combination field and trailing significand |
| Decimal32.EncodeBinary | src/lib.rs:109-111 | the BID encoding is the stored pattern itself (identity) |
| Decimal32.DecodeBinary | src/lib.rs:113-115 | decoding BID inverts `EncodeBinary`: encoding the decoded value gives back the input pattern |
| Decimal32.Class.Rank | src/lib.rs:17-28 | numbers the eight non-NaN classes 0..7 in the order they are declared, which is the chain totalOrder follows; exactly the negative classes rank below 4 |
| Decimal32.ExponentFormOne | src/lib.rs:35-39 | no contract of its own; `Significand` states the bounds of each form, and `ClassesPartition` states that non-canonical finite values use the second form |
| Decimal32.IsQuiet | src/lib.rs:65-67 | no contract of its own; `ClassOf` states it holds exactly for the class QuietNaN, and `Quantum` that it is kept |
| Decimal32.IsSignMinus | src/lib.rs:159-161 | no contract of its own; `Negate`, `Abs` and `CopySign` state how each sets it, and `ClassOf` that it is the class sign of a non-NaN |
| Decimal32.IsNormal | src/lib.rs:163-165 | no contract of its own; `SubnormalMeaning` states that a non-zero finite value is normal exactly when its magnitude is at least 10^emin, and `ClassesPartition` that it excludes zero and subnormal |
| Decimal32.IsFinite | src/lib.rs:167-169 | no contract of its own; `ClassesPartition` states that every pattern is exactly one of NaN, infinite and finite |
| Decimal32.IsZero | src/lib.rs:171-176 | no contract of its own; `ClassesPartition` and `ValueWithinClass` state that zeros are finite with value 0, and that a non-canonical finite value is a zero |
| Decimal32.IsSubnormal | src/lib.rs:178-183 | no contract of its own; `SubnormalMeaning` states that the raw-exponent test is exactly "magnitude below 10^emin", and `SubnormalTestFits` that its product fits in a `u64` |
| Decimal32.IsInfinite | src/lib.rs:185-187 | no contract of its own; `ClassesPartition` states that infinities are neither NaN nor finite, and `KnownPatterns` decodes 0x78000000 as +inf |
| Decimal32.IsNan | src/lib.rs:189-191 | no contract of its own; `ClassOf` states it holds exactly for the two NaN classes, and `SignFreeAgree` that it ignores the sign |
| Decimal32.IsSignaling | src/lib.rs:193-195 | no contract of its own; `ClassesPartition` states that signaling implies NaN, and `ClassOf` that it holds exactly for the class SignalingNaN |
| Decimal32.IsCanonical | src/lib.rs:197-201 | no contract of its own; `ClassesPartition` states that a non-canonical finite value is a second-form zero, and `SortKeyDeterminesCanonical` that canonical patterns are told apart by sign, class, value and payload |
| Decimal32.ClassOf | src/lib.rs:133-157 | the class is signaling/quiet NaN, infinite, normal, subnormal or zero exactly when the matching `is_*` predicate holds (both directions); for a non-NaN the class sign is `is_sign_minus` |
| Decimal32.Radix | src/lib.rs:203-205 | the radix is 10 |
| Decimal32.NegativeNormalLe | src/lib.rs:229-240 | no contract of its own; `NegativeNormalLeMeaning` states what it decides, and `NegativeArmPowersFit` that its arithmetic stays within `u64` |
| Decimal32.NegativeSubnormalLe | src/lib.rs:241-252 | no contract of its own; `NegativeArmsAgree` and `NegativeSubnormalLeMeaning` state what it decides |
| Decimal32.PositiveFiniteLe | src/lib.rs:259-280 | no contract of its own; `PositiveFiniteLeMeaning` states what it decides, and `PositiveArmPowersFit` that its arithmetic stays within `u64` |
| Decimal32.TotalOrder | src/lib.rs:207-282 | no contract of its own. `TotalOrderAcrossClasses`, `TotalOrderSameFiniteClass` and `ZerosOrderedByExponent` state what it decides for each pair of classes. `TotalOrderReflexive`, `TotalOrderTotalOnNumbers` and `TotalOrderNegate` state its properties. `TotalOrderAsWrittenVersusFixed` compares it with the corrected order |
| Decimal32.TotalOrderMag | src/lib.rs:284-286 | by magnitude, every number comes before every NaN and every zero comes before every non-zero number |
| Decimal32.SameQuantum | src/lib.rs:288-292 | true exactly when both are NaN, or both are infinite, or both are finite with equal exponents |
| Decimal32.SignFreeAgree | src/lib.rs:35-201 | two patterns that differ only in the sign bit agree on every decoding and classification predicate |
| Decimal32Properties.NegativeNormalLeMeaning | src/lib.rs:229-240 | for exponents in range, the negative-normal arm holds exactly when x's exponent is smaller or x's magnitude is at least y's (so it is wrong only when the exponent is smaller) |
| Decimal32Properties.NegativeArmsAgree | src/lib.rs:229-249 | the negative-subnormal arm's strict `<` before its last product (src/lib.rs:247) makes no difference: the two negative arms agree on every input |
| Decimal32Properties.NegativeSubnormalLeMeaning | src/lib.rs:241-252 | the negative-subnormal arm holds exactly when x's exponent is smaller or x's magnitude is at least y's |
| Decimal32Properties.PositiveFiniteLeMeaning | src/lib.rs:259-280 | the positive subnormal and normal arms hold exactly when x's exponent is larger or x's magnitude is at most y's |
| Decimal32Properties.ProductFits | src/lib.rs:233-278 | a significand times 10 to a power of at most 6 fits in a `u64` |
| Decimal32Properties.NegativeArmPowersFit | src/lib.rs:229-252 | in the negative arms, the first power is reached only with a true exponent difference of at most 6, and the second only with equal exponents; both products fit in a `u64` |
| Decimal32Properties.PositiveArmPowersFit | src/lib.rs:259-280 | in the positive arms, the first power is reached only with a true difference of at most 6 and its product fits in a `u64`; the second power is never reached, because a failed gap test implies ex <= ey |
| Decimal32Properties.SubnormalTestFits | src/lib.rs:178-183 | the product in `is_subnormal`, evaluated only for exponents below 6, fits in a `u64` |
| Decimal32Properties.SubnormalMeaning | src/lib.rs:163-183 | a non-zero finite value is subnormal exactly when significand times 10^exponent (biased) is below 10^6, that is when its absolute value is below 10^emin = 10^-95; it is normal exactly otherwise |
| Decimal32Properties.ClassesPartition | src/lib.rs:163-201 | every pattern is exactly one of NaN, infinite, finite; a finite value is exactly one of zero, subnormal, normal; signaling implies NaN; a non-canonical finite value is a second-form zero |
| Decimal32Properties.KnownPatterns | src/lib.rs:133-157 | 0x7c000000 is a quiet NaN, 0x7e000000 signaling, 0x78000000 +inf, 0 is +0, and 0x00800003 is first form with exponent 1 and significand 3 |
| Decimal32Properties.NegateInvolution | src/lib.rs:97-99 | negating twice gives back the original pattern |
| Decimal32Properties.AbsIgnoresSign | src/lib.rs:101-103 | abs is idempotent, ignores a negation, is the identity on sign-clear patterns and the negation on sign-set ones |
| Decimal32Properties.CopySignIsXOrNegation | src/lib.rs:105-107 | copy_sign gives x when the signs agree and the negation of x otherwise |
| Decimal32Properties.NegateMirrorsClass | src/lib.rs:133-157 | negation keeps a NaN's class and maps every other class to its mirror (rank r to 7 - r) |
| Decimal32Properties.QuantumSameQuantum | src/lib.rs:73-91 | a value and its quantum always have the same quantum |
| Decimal32Properties.QuantumIdempotent | src/lib.rs:73-91 | applying quantum twice is the same as once |
| Decimal32Properties.TotalOrderReflexive | src/lib.rs:305-310 | every pattern is ordered before or equal to itself |
| Decimal32Properties.TotalOrderAcrossClasses | src/lib.rs:209-258 | a NaN against a number is ordered by the NaN's sign; two numbers of different classes are ordered by class, from -inf to +inf, in both directions |
| Decimal32Properties.TotalOrderSameFiniteClass | src/lib.rs:229-280 | within one non-zero finite class the relation holds exactly when the exponents lie on the wrong side or the values are in numeric order |
| Decimal32Properties.TotalOrderNegate | src/lib.rs:207-282 | negating both arguments swaps them: totalOrder(-x, -y) = totalOrder(y, x) |
| Decimal32Properties.ZerosInOrder | src/lib.rs:253-258 | -0 comes strictly before +0, and +0 with exponent 0 strictly before +0 with exponent 1 |
| Decimal32Properties.ZerosOrderedByExponent | src/lib.rs:253-258 | two negative zeros are ordered exactly when x's exponent is at least y's, and two positive zeros exactly when it is at most y's |
| Decimal32Properties.TotalOrderTotalOnNumbers | src/lib.rs:223-280 | any two non-NaN patterns are comparable in at least one direction |
| Decimal32Properties.TotalOrderMagIgnoresSign | src/lib.rs:284-286 | totalOrderMag ignores both signs and is totalOrder on the absolute values |
| Decimal32Findings.QuantumFiniteAsWritten | src/lib.rs:84-90 | for a finite input the quantum's significand is the input's significand modulo 2 (first form) or 0x800000 plus it (second form), not 1 |
| Decimal32Findings.QuantumOfTwoIsZero | src/lib.rs:86-87 | the quantum of 2E-101 is a zero |
| Decimal32Findings.QuantumOfOneAndTwoDiffer | src/lib.rs:86-87 | 1E-101 and 2E-101 have the same class and exponent but different quanta |
| Decimal32Findings.QuantumOfSecondFormKeepsPrefix | src/lib.rs:88-89 | 0x60000000 is a second-form finite value with significand 0x800000 and exponent 0, and it is its own quantum |
| Decimal32Findings.QuantumOfEvenIsZero | src/lib.rs:86-87 | every first-form value with an even significand has a zero quantum |
| Decimal32Findings.QuantumOfOddDiffers | src/lib.rs:86-87 | first-form values with odd and even significands never share a quantum |
| Decimal32Findings.QuantumDropsPayloadBit | src/lib.rs:76-79 | the canonical quiet NaN 0x7c080000 has payload bit 19 set and its quantum loses it |
| Decimal32Findings.QuantumFixed | src/lib.rs:73-91 | the corrected quantum is sign-clear and canonical, has the same quantum as the input, keeps a NaN's kind and whole payload, and for a finite input has significand 1 and the input's exponent, so its value is 10^exponent |
| Decimal32Findings.QuantumFixedDependsOnExponent | src/lib.rs:84-90 | two finite values with equal exponents have the same corrected quantum |
| Decimal32Findings.QuantumFixedKeepsCanonicalNaN | src/lib.rs:74-79 | the corrected quantum of a canonical NaN is its absolute value |
| Decimal32Findings.QuantumAgreesWithFixed | src/lib.rs:84-90 | on a finite input the code as written agrees with the corrected quantum exactly when the input is first form with an odd significand |
| Decimal32Findings.WrappedGapOrdersBothWays | src/lib.rs:271-280 | the canonical positive normals 1E-81 and 1E-91 are each ordered before the other, although the first is larger |
| Decimal32Findings.NegativeFiniteLeFixedMeaning | src/lib.rs:229-252 | the corrected negative arms hold exactly when x's magnitude is at least y's |
| Decimal32Findings.PositiveFiniteLeFixedMeaning | src/lib.rs:259-280 | the corrected positive arms hold exactly when x's magnitude is at most y's |
| Decimal32Findings.FixedArmProductsFit | src/lib.rs:229-280 | every product the corrected arms evaluate fits in a `u64` |
| Decimal32Findings.NaNArmsNotTotal | src/lib.rs:209-216 | quiet NaNs with payloads 1 and 2 are ordered in neither direction, and +NaN(1) is ordered before -NaN(1) |
| Decimal32Findings.TotalOrderFixedIsKeyOrder | src/lib.rs:207-282 | the corrected totalOrder is exactly the lexicographic order on (class rank, signed value, tie-break) |
| Decimal32Findings.TotalOrderFixedIsTotalPreorder | src/lib.rs:207-282 | the corrected totalOrder is reflexive, total and transitive |
| Decimal32Findings.FiniteFieldsDetermine | src/lib.rs:35-63 | sign, significand and exponent determine a finite pattern |
| Decimal32Findings.CanonicalNaNDetermine | src/lib.rs:193-201 | sign, kind and payload determine a canonical NaN pattern |
| Decimal32Findings.SortKeyDeterminesCanonical | src/lib.rs:197-201 | two canonical patterns with the same sort key are the same pattern |
| Decimal32Findings.TotalOrderFixedAntisymmetric | src/lib.rs:207-282 | on canonical patterns, the corrected order in both directions means equality |
| Decimal32Findings.ValueWithinClass | src/lib.rs:163-183 | the scaled signed value places each finite class in its band: negative normals at most -10^6, negative subnormals in (-10^6, 0), zeros at 0, positive subnormals in (0, 10^6), positive normals at least 10^6 |
| Decimal32Findings.TotalOrderFixedRespectsValue | src/lib.rs:223-280 | on finite values the corrected order follows numeric order: smaller value implies ordered before, and ordered before implies not larger |
| Decimal32Findings.TotalOrderAsWrittenVersusFixed | src/lib.rs:223-280 | outside same-class NaN pairs, the code as written holds exactly when the corrected order holds or the pair's exponents lie on the wrong side of each other |
| Decimal32Findings.TotalOrderFixedNegate | src/lib.rs:207-282 | negating both arguments swaps them in the corrected order |

## Left out

- `is_754_version_1985`, `is_754_version_2008` and `is_754_version_2019` (src/lib.rs:121-131): their bodies are `todo!()`, which only panics.
- The `tests` module (src/lib.rs:295-318): it holds no compiled test. Its one test, an exhaustive timed loop, sits inside a block comment (src/lib.rs:299-317). That loop's assertion, that every pattern is ordered before or equal to itself, is `TotalOrderReflexive`.
- The derived `Clone`, `Copy` and `Debug` (src/lib.rs:13): a Dafny datatype value is copied by value, and formatting is I/O.
- WrappingSub: a debug build panics on the `u32` underflow at src/lib.rs:231, 243, 261 and 273. The model uses the release-build wrap-around and does not model the panic.
- Pow: `u64` overflow is not modelled. The fit lemmas show that no evaluated product reaches 2^64.
- Decimal32.TotalOrder: has no `ensures` of its own. Its properties are stated by the lemmas its row names. The same holds for Decimal32Findings.TotalOrderFixed, which `TotalOrderFixedIsKeyOrder` characterises.

## Findings

| source | as written | input that shows it | evidently intended | confidence | as-written member | corrected member |
|---|---|---|---|---|---|---|
| src/lib.rs:84-90 | the finite masks 0x7f800001 and 0x7fe00001 keep significand bit 0, and the second-form mask also keeps the implicit prefix: the quantum's significand is 0 or 1 in the first form and 0x800000 or 0x800001 in the second | 0x00000002 (2E-101) has a zero quantum; 1E-101 and 2E-101 get different quanta; 0x60000000 (8388608E-101) is its own quantum | significand 1 with the input's exponent, as the comment at src/lib.rs:83-85 says | high, not executed | Decimal32Findings.QuantumOfTwoIsZero | Decimal32Findings.QuantumFixed |
| src/lib.rs:76-79 | the NaN masks 0x7e07ffff and 0x7c07ffff clear bit 19, which is part of the payload | 0x7c080000, a canonical quiet NaN, has quantum 0x7c000000 | keep the whole 20-bit payload (masks 0x7e0fffff and 0x7c0fffff) | medium, not executed | Decimal32Findings.QuantumDropsPayloadBit | Decimal32Findings.QuantumFixed |
| src/lib.rs:271-280 | the gap test subtracts exponents as `u32` in both orders; when the exponent on the wrong side is larger, the subtraction wraps and the test passes (in debug builds it panics) | 0x0a000001 (1E-81) and 0x05000001 (1E-91) are each ordered before the other | apply the gap test only when the subtraction cannot underflow | high, not executed | Decimal32Findings.WrappedGapOrdersBothWays | Decimal32Findings.TotalOrderFixedAntisymmetric |
| src/lib.rs:209-216 | two NaNs of the same kind compare only by the sign pair or by equal payloads | quiet NaNs 0x7c000001 and 0x7c000002 are ordered in neither direction; 0x7c000001 is ordered before 0xfc000001 | order by sign first, then by payload (IEEE 754 section 5.10) | high, not executed | Decimal32Findings.NaNArmsNotTotal | Decimal32Findings.TotalOrderFixedIsTotalPreorder |
