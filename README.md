# decimal-java conversion core, modelled in Dafny

This project models the conversion core of FirebirdSQL's decimal-java. The
core turns a sign, a coefficient and an exponent into the bytes of the
decimal32, decimal64 and decimal128 interchange formats of IEEE 754-2008
(section 3.5, densely packed decimal variant), and turns those bytes back
into a value. It has three parts:

- `DecimalFormat` (decimal_format.dfy, module `DecimalFormats`). The format
  constants derived from the bit length and the digit count, and the range
  validators.
- `SimpleDecimal` (decimal_types.dfy and simple_decimal.dfy, modules
  `DecimalTypes` and `SimpleDecimals`). The immutable value: a finite value
  with sign, coefficient and exponent, or an infinity, NaN or signalling
  NaN with only a sign. Its constructors, `negate`, `equals` and
  `toBigDecimal`, exact rescaling into a format's exponent range, rounding
  to a format (half-even to the precision, then rescaling, then overflow to
  infinity), and the validation that follows rescaling.
- `DecimalCodec` (decimal_codec.dfy, module `DecimalCodecs`). A class over
  a format and a coefficient coder. `ParseBytes` reads an `array<bv8>`.
  `EncodeDecimal` and `EncodeNormal` fill a fresh array in place.
  `EncodeExponentContinuation` and `DecodeExponent` keep the source's
  loops. Each method is proved against the specification functions `Decode`
  and `EncodesAs`, and `RoundTrip` proves that decoding an encoding gives
  the value back.

Support modules: decimal_math.dfy (`DecimalMath`: powers, digit counts,
half-even division) and bit_fields.dfy (`BitFields`: the value of a run of
bits in a big-endian byte sequence, and the facts about Java's shifts, masks
and OR on bytes that the codec needs).

Modelling choices:
- Coefficients and exponents are unbounded `int`s. `BigDecimal` is the pair
  (unscaled value, scale), and `MathContext` rounding is
  `RoundToPrecision`, half-even to `coefficientDigits` digits.
- The densely packed decimal coder (`DenselyPackedDecimalCodec`) is not
  part of this model. It is a parameter, `CoefficientCoder`, holding two
  function values. `ValidCoder` states what the codec relies on:
  - encoding writes only the coefficient continuation bits and returns the
    leading digit;
  - decoding reads only those bits, inverts encoding, and yields an in-range
    coefficient of the given sign.
- binary_coder.dfy (module `BinaryCoders`) shows that `ValidCoder` can be
  met for every format. Its coder stores the digits after the leading one
  as one binary number in the coefficient continuation instead of declets.
  `BinaryCoderIsValid` proves it valid, and `BinaryRoundTrip` applies
  `RoundTrip` to it. It stands in for no source file.
- `DecimalType.fromFirstByte` and the special-value bits are not part of
  this model as source. They are specified from the first-byte test table
  and the canonical special encodings of the decimal32 conversion tests.
- `DecimalFormat.isCoefficientInRange`, `getMathContext` and `biasedExponent`
  are called but not defined in DecimalFormat.java. `biasedExponent` is
  taken as exponent + exponentBias, the sum `encodeNormal` computes
  (DecimalCodec.java:121). The model follows the code: the range test is the one `validateCoefficient0` performs, and
  the math context is precision `coefficientDigits` with HALF_EVEN.
- `getExponent` and `getCoefficient` are `-scale` and the unscaled value, as
  `validateExponent` and `validateCoefficient` return them.

## Model

| member | source | states |
|---|---|---|
| DecimalTypes.TypeOf | src/main/java/org/firebirdsql/decimal/SimpleDecimal.java:82-84 | the type is NORMAL exactly for a finite value |
| DecimalFormats.TruncatingDiv | src/main/java/org/firebirdsql/decimal/DecimalFormat.java:64 | Java's int division: the magnitude is the magnitude's quotient, and the sign follows the dividend |
| DecimalFormats.NinesIsPow10Minus1 | src/main/java/org/firebirdsql/decimal/DecimalFormat.java:67-69 | the string of `coefficientDigits` nines is 10^digits - 1 |
| DecimalFormats.FormatConstants | src/main/java/org/firebirdsql/decimal/DecimalFormat.java:56-66 | byte length, continuation bits, eLimit, eMin, eMax and bias are 4/20/6/191/-95/96/101, 8/50/8/767/-383/384/398 and 16/110/12/12287/-6143/6144/6176 |
| DecimalFormats.FormatLayout | src/main/java/org/firebirdsql/decimal/DecimalFormat.java:144-154 | sign, combination, exponent and coefficient continuation fill the bytes exactly; the coefficient continuation is whole declets of three digits plus the leading digit; eLimit + 1 = 3 * 2^ecb; eLimit = 2*eMax - 1; bias = eMax + digits - 2 |
| DecimalFormats.CalculateCoefficientContinuationBits | src/main/java/org/firebirdsql/decimal/DecimalFormat.java:144-146 | never negative; when the digits after the leading one are whole groups of three, ten bits per group |
| DecimalFormats.CalculateExponentContinuationBits | src/main/java/org/firebirdsql/decimal/DecimalFormat.java:148-150 | sign bit, combination field, exponent continuation and coefficient continuation add up to the format's bit length |
| DecimalFormats.CalculateExponentLimit | src/main/java/org/firebirdsql/decimal/DecimalFormat.java:152-154 | the largest biased exponent: the leading exponent bits 10 followed by `exponentContinuationBits` ones |
| DecimalFormats.BiasedExponent | src/main/java/org/firebirdsql/decimal/DecimalCodec.java:121 | exponent + exponentBias counts up from the smallest exponent emin - p + 1, which is biased exponent 0 |
| DecimalFormats.ExponentRangeIsIeeeRange | src/main/java/org/firebirdsql/decimal/DecimalFormat.java:113-118 | 0 <= exponent + bias <= eLimit is the IEEE range emin - p + 1 <= q <= emax - p + 1 |
| DecimalFormats.CoefficientRangeIsDigitCount | src/main/java/org/firebirdsql/decimal/DecimalFormat.java:138-142 | minCoefficient <= c <= maxCoefficient holds exactly when c has at most `coefficientDigits` digits |
| DecimalFormats.ValidateByteLength | src/main/java/org/firebirdsql/decimal/DecimalFormat.java:81-85 | fails exactly when the length differs from `formatByteLength`, with that length in the error |
| DecimalFormats.ValidateExponent | src/main/java/org/firebirdsql/decimal/DecimalFormat.java:108-118 | succeeds exactly inside the IEEE exponent range and returns the exponent unchanged; otherwise the illegal-exponent error |
| DecimalFormats.ValidateCoefficient | src/main/java/org/firebirdsql/decimal/DecimalFormat.java:133-142 | succeeds exactly for at most `coefficientDigits` digits and returns the coefficient unchanged; otherwise the illegal-coefficient error |
| DecimalFormats.Validate | src/main/java/org/firebirdsql/decimal/DecimalFormat.java:87-93 | a special passes; a finite value passes exactly when exponent and coefficient are in range; the value comes back unchanged; the exponent error takes precedence |
| SimpleDecimals.GetSpecialConstant | src/main/java/org/firebirdsql/decimal/SimpleDecimal.java:315-335 | a special of the requested type, negative exactly for signum -1 |
| SimpleDecimals.FromBigDecimal | src/main/java/org/firebirdsql/decimal/SimpleDecimal.java:63-68 | a finite value that gives back the same BigDecimal; negative exactly for signum -1, so signum 0 becomes positive |
| SimpleDecimals.FromSignumAndCoefficient | src/main/java/org/firebirdsql/decimal/SimpleDecimal.java:74-80 | a well-formed finite value with the given signum, whose BigDecimal is (coefficient, -exponent) |
| SimpleDecimals.FromCoefficient | src/main/java/org/firebirdsql/decimal/SimpleDecimal.java:70-72 | keeps coefficient and exponent; negative exactly for a negative coefficient, so zero is positive |
| SimpleDecimals.ValueOf | src/main/java/org/firebirdsql/decimal/SimpleDecimal.java:337-339 | a well-formed finite value whose `toBigDecimal` is the argument |
| SimpleDecimals.ToBigDecimal | src/main/java/org/firebirdsql/decimal/SimpleDecimal.java:300-305 | succeeds exactly for NORMAL; a special raises the not-convertible error |
| SimpleDecimals.ValueOfToBigDecimal | src/main/java/org/firebirdsql/decimal/SimpleDecimal.java:300-305 | `valueOf(toBigDecimal(d))` is `d` exactly when `d` is not a negative zero |
| SimpleDecimals.Negate | src/main/java/org/firebirdsql/decimal/SimpleDecimal.java:307-313 | flips the sign of every kind and keeps the kind; a finite value keeps its exponent and gets the negated coefficient; well-formedness is kept |
| SimpleDecimals.NegateInvolutive | src/test/java/org/firebirdsql/decimal/SimpleDecimalTest.java:39-48 | negating twice gives the value back, so +0 and -0 swap |
| SimpleDecimals.Equals | src/main/java/org/firebirdsql/decimal/SimpleDecimal.java:357-366 | equal exactly when sign, kind, coefficient and exponent all agree |
| SimpleDecimals.EqualsComparesExponent | src/main/java/org/firebirdsql/decimal/SimpleDecimal.java:365 | 10E+0 and 1E+1 are the same number but are not equal |
| SimpleDecimals.DecreaseExponent | src/main/java/org/firebirdsql/decimal/SimpleDecimal.java:187-195 | for a zero, or when the shift leaves at most `coefficientDigits` digits: the exponent is lowered by k, the value is the same, and the coefficient is in range; otherwise the value comes back unchanged; the sign is kept |
| SimpleDecimals.IncreaseExponent | src/main/java/org/firebirdsql/decimal/SimpleDecimal.java:215-224 | UNNECESSARY: an exact division raises the exponent by k with the same value, and an inexact one returns the value unchanged; HALF_EVEN: the coefficient is the half-even quotient; the sign is kept and the magnitude never grows |
| SimpleDecimals.RescaleWith | src/main/java/org/firebirdsql/decimal/SimpleDecimal.java:157-168 | specials and in-range finite values come back unchanged; the sign is kept; well-formedness is kept |
| SimpleDecimals.RescaleBelowRange | src/main/java/org/firebirdsql/decimal/SimpleDecimal.java:161-163 | below the range, exact mode reaches biased exponent 0 with the same value when the dropped digits are zero and otherwise changes nothing; half-even always reaches 0 with the rounded quotient |
| SimpleDecimals.RescaleAboveRange | src/main/java/org/firebirdsql/decimal/SimpleDecimal.java:164-165 | above the range, both modes agree: eLimit is reached with the same value and an in-range coefficient when the digits fit, and otherwise the value is unchanged |
| SimpleDecimals.Rescale | src/main/java/org/firebirdsql/decimal/SimpleDecimal.java:153-155 | keeps the value and the sign, leaves in-range values alone, and either reaches the range or returns its input |
| SimpleDecimals.RescaleFindsRepresentation | src/main/java/org/firebirdsql/decimal/SimpleDecimal.java:136-168 | when some in-range coefficient and exponent denote the value, rescaling lands inside the exponent range |
| SimpleDecimals.ValidateExponent | src/main/java/org/firebirdsql/decimal/SimpleDecimal.java:256-266 | succeeds exactly for an in-range biased exponent and returns the exponent; otherwise the exponent overflow |
| SimpleDecimals.ValidateCoefficientAsWritten | src/main/java/org/firebirdsql/decimal/SimpleDecimal.java:281-291 | as written, succeeds exactly when the coefficient has MORE than `coefficientDigits` digits |
| SimpleDecimals.ValidateCoefficient | src/main/java/org/firebirdsql/decimal/SimpleDecimal.java:268-280 | as documented, succeeds exactly for at most `coefficientDigits` digits and returns the coefficient; otherwise the coefficient overflow |
| SimpleDecimals.ValidateAsWritten | src/main/java/org/firebirdsql/decimal/SimpleDecimal.java:235-241 | with the inverted check, a finite value passes exactly when its exponent is in range and its coefficient is not; a failure is the exponent overflow when the exponent is out of range, and otherwise the coefficient overflow |
| SimpleDecimals.Validate | src/main/java/org/firebirdsql/decimal/SimpleDecimal.java:235-241 | corrected: a finite value passes exactly when exponent and coefficient are in range; the value comes back unchanged; the exponent overflow takes precedence |
| SimpleDecimals.RescaleAndValidateAsWritten | src/main/java/org/firebirdsql/decimal/SimpleDecimal.java:131-134 | succeeds exactly for a special, or when the rescaled exponent is in range and the rescaled coefficient is NOT (the inverted check); a success is the rescaled value; a failure is the exponent overflow of the rescaled exponent when that is out of range, and otherwise the coefficient overflow of the rescaled coefficient |
| SimpleDecimals.RescaleAndValidateAsWrittenRefusesFittingValues | src/main/java/org/firebirdsql/decimal/SimpleDecimal.java:286-291 | every finite value that fits the format is refused with "coefficient out of range", for example 1234567E+0 in decimal32 |
| SimpleDecimals.RescaleAndValidate | src/main/java/org/firebirdsql/decimal/SimpleDecimal.java:118-134 | succeeds exactly for a special, or when the rescaled exponent and coefficient are in range; a success is the rescaled value, with the same value; specials pass unchanged; a failure is the exponent overflow of the rescaled exponent when that is out of range, and otherwise the coefficient overflow of the rescaled coefficient |
| SimpleDecimals.RescaleAndValidateIsExact | src/main/java/org/firebirdsql/decimal/SimpleDecimal.java:118-134 | for an in-range coefficient, succeeds exactly when some in-range coefficient and exponent denote the value |
| SimpleDecimals.RoundToPrecision | src/main/java/org/firebirdsql/decimal/SimpleDecimal.java:109-110 | at most `precision` digits remain and the sign is kept; a short value is unchanged; a long one gets exactly `precision` digits, a smaller scale, and the half-even quotient |
| SimpleDecimals.RoundedToDigits | src/main/java/org/firebirdsql/decimal/SimpleDecimal.java:109-110 | the precision step keeps the sign and leaves an in-range coefficient; a coefficient of at most `coefficientDigits` digits is unchanged; a longer one gets a larger exponent and the half-even quotient by the dropped power of ten |
| SimpleDecimals.Round | src/main/java/org/firebirdsql/decimal/SimpleDecimal.java:105-116 | specials are unchanged; the sign is kept; a finite value becomes an infinity or a value with exponent and coefficient in range |
| SimpleDecimals.RoundedRescaleFits | src/main/java/org/firebirdsql/decimal/SimpleDecimal.java:110-111 | rescaling the rounded value half-even never ends below the range and keeps the coefficient in range |
| SimpleDecimals.RoundBelowRange | src/main/java/org/firebirdsql/decimal/SimpleDecimal.java:110-115 | below the range, round gives biased exponent 0 and the half-even quotient of the rounded coefficient |
| SimpleDecimals.RoundInRange | src/main/java/org/firebirdsql/decimal/SimpleDecimal.java:110-115 | inside the range, round gives the precision-rounded value |
| SimpleDecimals.RoundAboveRange | src/main/java/org/firebirdsql/decimal/SimpleDecimal.java:110-115 | above the range, round gives an infinity exactly when no in-range representation exists, and otherwise the same value |
| SimpleDecimals.AboveRangeRescale | src/main/java/org/firebirdsql/decimal/SimpleDecimal.java:164-165 | above the range, half-even rescaling reaches eLimit exactly when the value is representable, and then keeps the value |
| SimpleDecimals.RoundIsIdentityInRange | src/main/java/org/firebirdsql/decimal/SimpleDecimal.java:105-116 | a value that already fits the format is returned unchanged |
| SimpleDecimals.RoundIdempotent | src/main/java/org/firebirdsql/decimal/SimpleDecimal.java:105-116 | rounding twice is rounding once |
| SimpleDecimals.RoundOverflowExample | src/test/java/org/firebirdsql/decimal/SimpleDecimalRoundingTest.java:126 | 1234567E+91 rounds to +Infinity in decimal32 |
| SimpleDecimals.RoundClampExample | src/test/java/org/firebirdsql/decimal/SimpleDecimalRoundingTest.java:107 | 123456E+91 rounds to 1234560E+90 in decimal32 |
| SimpleDecimals.RoundSubnormalExample | src/test/java/org/firebirdsql/decimal/SimpleDecimalRoundingTest.java:154 | 1234567E-102 rounds to 123457E-101 in decimal32 |
| SimpleDecimals.RoundToZeroExample | src/test/java/org/firebirdsql/decimal/SimpleDecimalRoundingTest.java:162 | 1000000E-108 rounds to 0E-101 in decimal32 |
| DecimalMath.DigitCount | src/main/java/org/firebirdsql/decimal/SimpleDecimal.java:190 | BigDecimal.precision(): r is the one count with 10^(r-1) <= n < 10^r, and zero has one digit |
| DecimalMath.DigitCountUnique | src/main/java/org/firebirdsql/decimal/SimpleDecimal.java:190 | the digit count is the only r with 10^(r-1) <= n < 10^r |
| DecimalMath.DigitCountShift | src/main/java/org/firebirdsql/decimal/SimpleDecimal.java:190-191 | appending k zeros to a non-zero magnitude adds k digits |
| DecimalMath.DivRoundHalfEven | src/main/java/org/firebirdsql/decimal/SimpleDecimal.java:218 | setScale with HALF_EVEN: within half a unit of c / 10^k, with a tie going to the even neighbour, and never of the opposite sign |
| DecimalMath.HalfEvenUnique | src/main/java/org/firebirdsql/decimal/SimpleDecimal.java:218 | the half-even quotient is unique |
| DecimalMath.HalfEvenExact | src/main/java/org/firebirdsql/decimal/SimpleDecimal.java:218 | on an exact division, half-even rounding is that division |
| DecimalCodecs.ExponentBitsRemaining | src/main/java/org/firebirdsql/decimal/DecimalCodec.java:82-85 | ecb - 2, which is also formatBitLength - 8 - coefficientContinuationBits |
| DecimalCodecs.MostSignificantDigit | src/main/java/org/firebirdsql/decimal/DecimalCodec.java:123 | the leading digit of an in-range coefficient is 0..9 |
| DecimalCodecs.FromFirstByte | src/test/java/org/firebirdsql/decimal/DecimalTypeFromFirstByteTest.java:61-84 | NORMAL exactly when the combination field is below 11110 |
| DecimalCodecs.FromFirstByteTable | src/test/java/org/firebirdsql/decimal/DecimalTypeFromFirstByteTest.java:61-84 | the test table as masks: x1111xxx is special, x11110xx infinity, x111110x NaN, x111111x signalling NaN, and the sign bit never matters |
| DecimalCodecs.SpecialBits | src/test/java/org/firebirdsql/decimal/Decimal32ByteConversionTest.java:68-85 | the canonical tag of each special is below the sign bit and reads back as that special |
| DecimalCodecs.SignByte | src/main/java/org/firebirdsql/decimal/DecimalCodec.java:107-109 | 0x80 exactly for a negative sign |
| DecimalCodecs.SignedZeros | src/main/java/org/firebirdsql/decimal/DecimalCodec.java:105-109 | `formatByteLength` bytes, the sign bit in byte 0 and every other byte zero |
| DecimalCodecs.SpecialEncoding | src/main/java/org/firebirdsql/decimal/DecimalCodec.java:113-115 | byte 0 is the sign bit plus the tag, and every other byte is zero |
| DecimalCodecs.Decode | src/main/java/org/firebirdsql/decimal/DecimalCodec.java:62-93 | succeeds exactly on `formatByteLength` bytes; the sign is the top bit; the kind is `fromFirstByte` of byte 0 |
| DecimalCodecs.LowByte | src/main/java/org/firebirdsql/decimal/DecimalCodec.java:142 | Java's (byte) cast keeps x mod 256 |
| DecimalCodecs.DecimalCodec.constructor | src/main/java/org/firebirdsql/decimal/DecimalCodec.java:50-53 | the codec keeps its format and a coefficient coder for that format, which must meet `ValidCoder` |
| BinaryCoders.BinaryCoderIsValid | src/main/java/org/firebirdsql/decimal/DecimalCodec.java:52 | for every format some coefficient coder meets `ValidCoder`, so the constructor's precondition can be met and the codec's contracts are not vacuous |
| DecimalCodecs.DecimalCodec.ParseBytes | src/main/java/org/firebirdsql/decimal/DecimalCodec.java:62-93 | returns exactly `Decode` of the array's contents |
| DecimalCodecs.DecimalCodec.ReadCombinationField | src/main/java/org/firebirdsql/decimal/DecimalCodec.java:74-80 | the masks and shifts of both layouts give the four leading exponent bits and the leading digit that G denotes |
| DecimalCodecs.DecimalCodec.EncodeDecimal | src/main/java/org/firebirdsql/decimal/DecimalCodec.java:104-118 | succeeds exactly for a special or an in-range finite value; the bytes then encode the value (`EncodesAs`); otherwise the exponent error, or else the coefficient error |
| DecimalCodecs.DecimalCodec.EncodeNormal | src/main/java/org/firebirdsql/decimal/DecimalCodec.java:120-137 | the same range conditions and errors; on failure the array is unchanged; on success it holds the encoding |
| DecimalCodecs.DecimalCodec.EncodeExponentContinuation | src/main/java/org/firebirdsql/decimal/DecimalCodec.java:139-148 | byte 0 is kept; when the last field byte had those bits clear, the n bits from bit 8 hold expAndBias mod 2^n and every bit after them is unchanged |
| DecimalCodecs.DecimalCodec.DecodeExponent | src/main/java/org/firebirdsql/decimal/DecimalCodec.java:150-163 | exponentMSB * 2^n plus the n bits from bit 8, read most significant first |
| DecimalCodecs.FirstByteLowDigit | src/main/java/org/firebirdsql/decimal/DecimalCodec.java:74-76 | without the 11 marker, the masks read G's exponent pair and digit |
| DecimalCodecs.FirstByteHighDigit | src/main/java/org/firebirdsql/decimal/DecimalCodec.java:77-79 | with the 11 marker, the masks read G's exponent pair and the digit 8 or 9 |
| DecimalCodecs.DecodeFinite | src/main/java/org/firebirdsql/decimal/DecimalCodec.java:82-91 | the finite value parseBytes builds from the fields it reads is `Decode`'s |
| DecimalCodecs.DecodeSpecial | src/main/java/org/firebirdsql/decimal/DecimalCodec.java:67-69 | a special first byte decodes to that special with the top bit's sign, whatever the other bits are |
| DecimalCodecs.DecodedSign | src/main/java/org/firebirdsql/decimal/DecimalCodec.java:88-91 | the coder's coefficient is zero or has the signum it was given, as the constructor asserts |
| DecimalCodecs.LowDigitCombination | src/main/java/org/firebirdsql/decimal/DecimalCodec.java:126-129 | the OR of the shifted fields is four times the combination field of a digit up to 7, plus two exponent bits |
| DecimalCodecs.HighDigitCombination | src/main/java/org/firebirdsql/decimal/DecimalCodec.java:130-135 | the OR with the 11 marker is four times the combination field of an 8 or 9, plus two exponent bits |
| DecimalCodecs.WithSign | src/main/java/org/firebirdsql/decimal/DecimalCodec.java:127 | OR-ing a byte below 0x80 into the sign byte adds it |
| DecimalCodecs.ExponentTopBound | src/main/java/org/firebirdsql/decimal/DecimalCodec.java:124-125 | for a biased exponent up to eLimit, expMSB is at most 2 and expTwoBitCont at most 3 |
| DecimalCodecs.CombinationRoundTrip | src/main/java/org/firebirdsql/decimal/DecimalCodec.java:124-135 | the combination field of digit 0..9 and expMSB 0..2 is below 11110 and reads back as the same digit and expMSB |
| DecimalCodecs.FirstByteBack | src/main/java/org/firebirdsql/decimal/DecimalCodec.java:124-135 | byte 0 of a finite encoding never shows the special prefix, and reads back as the sign, the digit and the four leading exponent bits |
| DecimalCodecs.FieldsBack | src/main/java/org/firebirdsql/decimal/DecimalCodec.java:136-163 | the exponent read back from byte 0 and the continuation bits is the biased exponent written |
| DecimalCodecs.CoefficientRoundTrip | src/main/java/org/firebirdsql/decimal/DecimalCodec.java:88-123 | the coder reads back the coefficient it wrote, whatever was then ORed before the continuation |
| DecimalCodecs.SpecialRoundTrip | src/main/java/org/firebirdsql/decimal/DecimalCodec.java:67-115 | a special's canonical encoding decodes to it |
| DecimalCodecs.FiniteRoundTrip | src/main/java/org/firebirdsql/decimal/DecimalCodec.java:62-137 | a finite value's fields decode to it |
| DecimalCodecs.FieldsExponentInRange | src/main/java/org/firebirdsql/decimal/DecimalCodec.java:82-85 | the biased exponent read from the combination field and the exponent continuation of a NORMAL first byte lies in 0..eLimit |
| DecimalCodecs.DecodeFits | src/main/java/org/firebirdsql/decimal/DecimalCodec.java:62-93 | every value parseBytes returns is well-formed, and a finite one has exponent and coefficient in the format's range, so it can be encoded again |
| DecimalCodecs.DecodeEncodeDecode | src/main/java/org/firebirdsql/decimal/DecimalCodec.java:62-137 | encoding a decoded value and decoding the result gives the same decoded value |
| DecimalCodecs.RoundTrip | src/main/java/org/firebirdsql/decimal/DecimalCodec.java:62-137 | decoding the encoding of a well-formed value gives the value back |
| DecimalCodecs.ReadWholeByte | src/main/java/org/firebirdsql/decimal/DecimalCodec.java:154 | shifting in a whole byte extends the bits read by eight |
| DecimalCodecs.ReadPartialByte | src/main/java/org/firebirdsql/decimal/DecimalCodec.java:159-160 | shifting in the top r bits of the next byte extends the bits read by r |
| DecimalCodecs.WholeByteStep | src/main/java/org/firebirdsql/decimal/DecimalCodec.java:142 | writing the next eight exponent bits extends the field by a byte |
| DecimalCodecs.PartialByteWrite | src/main/java/org/firebirdsql/decimal/DecimalCodec.java:145-146 | ORing the last r bits into a byte with those bits clear completes the field and keeps the rest of that byte |
| DecimalCodecs.DecodeExponentSixBits | src/test/java/org/firebirdsql/decimal/DecimalCodecTest.java:32-38 | exponentMSB 1 then six bits of 04, 0F or 80 is 0x41, 0x43 or 0x60 |
| DecimalCodecs.DecodeExponentThreeBits | src/test/java/org/firebirdsql/decimal/DecimalCodecTest.java:41 | exponentMSB 1 then three bits of 80 is 0x0C |
| DecimalCodecs.DecodeExponentEightBits | src/test/java/org/firebirdsql/decimal/DecimalCodecTest.java:46 | exponentMSB 1 then eight bits of 0C is 0x10C |
| DecimalCodecs.DecodeExponentTenBits | src/test/java/org/firebirdsql/decimal/DecimalCodecTest.java:49 | exponentMSB 1 then ten bits of 0C FF is 0x433 |
| DecimalCodecs.DecodeVectorA1C003D0 | src/test/java/org/firebirdsql/decimal/Decimal32ByteConversionTest.java:99 | A1C003D0 decodes as negative, leading digit 0, exponent -9 |
| DecimalCodecs.DecodeVectorC7F4D2E7 | src/test/java/org/firebirdsql/decimal/ExamplesTest.java:39-44 | C7F4D2E7 decodes as negative, leading digit 1, exponent 90 |
| DecimalCodecs.EncodeVectorA1C003D0 | src/test/java/org/firebirdsql/decimal/ExamplesTest.java:47-52 | encoding -750E-9 gives first byte A1, then the bits 1100 |
| BitFields.BitsSplit | src/main/java/org/firebirdsql/decimal/DecimalCodec.java:153-160 | a field is its leading part times 2^len plus its trailing part |
| BitFields.ByteWindow | src/main/java/org/firebirdsql/decimal/DecimalCodec.java:160 | the top r bits of a byte are the byte shifted right by 8 - r |
| BitFields.OrAdd | src/main/java/org/firebirdsql/decimal/DecimalCodec.java:146 | OR of two bytes whose set bits do not overlap is their sum |

## Left out

- `DenselyPackedDecimalCodec` (the three-digit declet tables) is not part of this model. The coder is a parameter constrained by `ValidCoder`. So the coefficient digits of the test vectors are not computed, and neither is the non-canonical declet case (2250016e read as 888 and re-encoded as 2250006e). The vector lemmas check sign, leading digit and exponent only.
- `DecimalType` is not part of this model as source. `FromFirstByte` and `SpecialBits` are specified from its tests.
- The format wrappers Decimal32, Decimal64, Decimal128 and AbstractDecimal, string and double conversions, `OverflowHandling`, `toString` and `hashCode`: they are outside the conversion core. The shared special constants are values here, so reference identity is not modelled.
- Exception messages: errors are the datatype `DecimalError`, which keeps the kind and the offending value, not the text.
- Java assertions (`assert` in the constructors and in `parseBytes`): they become preconditions (`FromSignumAndCoefficient`, `DecreaseExponent`, `IncreaseExponent`) or lemmas (`ExponentBitsRemaining`).
- DecimalCodecs.DecimalCodec.DecodeExponent: does not model 32-bit overflow of `exponent << 8`, because the codec passes at most 12 bits and an exponentMSB of at most 11.
- DecimalCodecs.DecimalCodec.EncodeExponentContinuation: does not model 32-bit overflow of `expAndBias << (8 - remaining)`; the (byte) cast is modelled by `LowByte`, and the caller's biased exponent is below 2^14.
- DecimalCodecs.DecimalCodec.EncodeDecimal: returns the filled array's contents as a sequence rather than the array.
- DecimalCodecs.DecimalCodec.EncodeNormal: the coder works on a copy of the array's contents and the result is copied back, rather than the coder writing into the array.
- SimpleDecimals.RescaleWith, SimpleDecimals.Rescale, SimpleDecimals.Round, SimpleDecimals.ValidateExponent: do not model Java int overflow of the biased exponent (SimpleDecimal.java:112, 161 and 262) or of `-scale` when the scale is Integer.MIN_VALUE. Exponents are unbounded here, so a value such as 1E+2147483600, whose biased exponent wraps negative in Java, is treated as above the range.
- SimpleDecimals.RoundToPrecision: models `BigDecimal.round` for HALF_EVEN with the precision as argument; other rounding modes and `MathContext` precision 0 (unlimited) are not used by the core.

## Findings

| source | as written | input that shows it | evidently intended | confidence | as-written member | corrected member |
|---|---|---|---|---|---|---|
| src/main/java/org/firebirdsql/decimal/SimpleDecimal.java:287 | `validateCoefficient0` throws when the coefficient IS in range | `rescaleAndValidate` of 1234567E+0 in decimal32 raises "Coefficient is out of range", while the rescaling tests (SimpleDecimalRescalingTest.java:101) expect it back unchanged | throw only when the coefficient is out of range, as the method's doc comment says | not executed | SimpleDecimals.RescaleAndValidateAsWrittenRefusesFittingValues | SimpleDecimals.RescaleAndValidateIsExact |
