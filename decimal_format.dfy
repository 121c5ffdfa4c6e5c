/**
  DecimalFormat: the constants of the decimal32, decimal64 and decimal128
  interchange formats (section 3.5 of IEEE 754-2008), derived from the
  bit length and the number of coefficient digits exactly as the enum's
  constructor derives them, and the range validators built on them.
*/
module DecimalFormats {
  import opened DecimalMath
  import opened DecimalTypes

  datatype DecimalFormat = Decimal32 | Decimal64 | Decimal128

  const SignBits: nat := 1
  const CombinationBits: nat := 5
  /** Densely packed decimal stores three digits in ten bits. */
  const BitsPerGroup: nat := 10
  const DigitsPerGroup: nat := 3

  function FormatBitLength(f: DecimalFormat): nat
  {
    match f
    case Decimal32 => 32
    case Decimal64 => 64
    case Decimal128 => 128
  }

  function CoefficientDigits(f: DecimalFormat): nat
  {
    match f
    case Decimal32 => 7
    case Decimal64 => 16
    case Decimal128 => 34
  }

  /** Java's int division, which truncates toward zero. */
  function TruncatingDiv(a: int, b: int): (q: int)
    requires b > 0
    ensures Abs(q) == Abs(a) / b
    ensures a >= 0 ==> q >= 0
    ensures a <= 0 ==> q <= 0
  {
    if a >= 0 then a / b else -((-a) / b)
  }

  /**
    The coefficient continuation: one ten-bit declet for every three digits
    after the leading one.
  */
  function CalculateCoefficientContinuationBits(coefficientDigits: nat): (r: int)
    requires coefficientDigits >= 1
    ensures r >= 0
    ensures (coefficientDigits - 1) % DigitsPerGroup == 0 ==> r == BitsPerGroup * ((coefficientDigits - 1) / DigitsPerGroup)
  {
    BitsPerGroup * (coefficientDigits - 1) / DigitsPerGroup
  }

  /** The exponent continuation: the bits the sign, the combination field and the coefficient continuation leave. */
  function CalculateExponentContinuationBits(formatBitLength: int, coefficientContinuationBits: int): (r: int)
    ensures SignBits + CombinationBits + r + coefficientContinuationBits == formatBitLength
  {
    formatBitLength - SignBits - CombinationBits - coefficientContinuationBits
  }

  /**
    The largest biased exponent: two leading bits 10 (the combination field
    never stores 11 there) followed by exponentContinuationBits ones.
  */
  function CalculateExponentLimit(exponentContinuationBits: nat): (r: int)
    ensures r == 2 * Pow2(exponentContinuationBits) + (Pow2(exponentContinuationBits) - 1)
  {
    3 * Pow2(exponentContinuationBits) - 1
  }

  function FormatByteLength(f: DecimalFormat): nat
  {
    FormatBitLength(f) / 8
  }

  function CoefficientContinuationBits(f: DecimalFormat): nat
  {
    CalculateCoefficientContinuationBits(CoefficientDigits(f))
  }

  function ExponentContinuationBits(f: DecimalFormat): nat
  {
    CalculateExponentContinuationBits(FormatBitLength(f), CoefficientContinuationBits(f))
  }

  function ELimit(f: DecimalFormat): nat
  {
    CalculateExponentLimit(ExponentContinuationBits(f))
  }

  function EMin(f: DecimalFormat): int
  {
    TruncatingDiv(-(ELimit(f) as int), 2)
  }

  function EMax(f: DecimalFormat): int
  {
    -EMin(f) + 1
  }

  function ExponentBias(f: DecimalFormat): int
  {
    -EMin(f) + CoefficientDigits(f) - 1
  }

  /** The number written as n nines, as the constructor builds maxCoefficient from a string. */
  function Nines(n: nat): nat
  {
    if n == 0 then 0 else 10 * Nines(n - 1) + 9
  }

  lemma {:induction false} NinesIsPow10Minus1(n: nat)
    ensures Nines(n) == Pow10(n) - 1
  {
    if n > 0 {
      NinesIsPow10Minus1(n - 1);
    }
  }

  function MaxCoefficient(f: DecimalFormat): nat
  {
    Nines(CoefficientDigits(f))
  }

  function MinCoefficient(f: DecimalFormat): int
  {
    -(MaxCoefficient(f) as int)
  }

  /**
    The exponent stored in the encoding, exponent + exponentBias: it counts
    up from the smallest exponent of the format, eMin - coefficientDigits + 1.
  */
  function BiasedExponent(f: DecimalFormat, exponent: int): (r: int)
    ensures r == exponent - (EMin(f) - CoefficientDigits(f) + 1)
  {
    exponent + ExponentBias(f)
  }

  predicate IsExponentInRange(f: DecimalFormat, exponent: int)
  {
    0 <= BiasedExponent(f, exponent) <= ELimit(f)
  }

  /** The range test of validateCoefficient0: minCoefficient <= coefficient <= maxCoefficient. */
  predicate IsCoefficientInRange(f: DecimalFormat, coefficient: int)
  {
    MinCoefficient(f) <= coefficient <= MaxCoefficient(f)
  }

  /** The derived constants, as the format tests list them. */
  lemma FormatConstants(f: DecimalFormat)
    ensures f == Decimal32 ==>
      FormatByteLength(f) == 4 && CoefficientContinuationBits(f) == 20 && ExponentContinuationBits(f) == 6
      && ELimit(f) == 191 && EMin(f) == -95 && EMax(f) == 96 && ExponentBias(f) == 101
    ensures f == Decimal64 ==>
      FormatByteLength(f) == 8 && CoefficientContinuationBits(f) == 50 && ExponentContinuationBits(f) == 8
      && ELimit(f) == 767 && EMin(f) == -383 && EMax(f) == 384 && ExponentBias(f) == 398
    ensures f == Decimal128 ==>
      FormatByteLength(f) == 16 && CoefficientContinuationBits(f) == 110 && ExponentContinuationBits(f) == 12
      && ELimit(f) == 12287 && EMin(f) == -6143 && EMax(f) == 6144 && ExponentBias(f) == 6176
  {
  }

  /**
    How the fields of the format fit together: sign, combination field,
    exponent continuation and coefficient continuation fill the bytes
    exactly; the coefficient continuation holds whole ten-bit declets of
    three digits each, plus the leading digit kept in the combination
    field; the exponent limit is three times a power of two less one, so
    its top two bits are never both set.
  */
  lemma FormatLayout(f: DecimalFormat)
    ensures 8 * FormatByteLength(f) == SignBits + CombinationBits + ExponentContinuationBits(f) + CoefficientContinuationBits(f)
    ensures ExponentContinuationBits(f) >= 2
    ensures CoefficientContinuationBits(f) % BitsPerGroup == 0
    ensures CoefficientDigits(f) == 1 + DigitsPerGroup * (CoefficientContinuationBits(f) / BitsPerGroup)
    ensures ELimit(f) + 1 == 3 * Pow2(ExponentContinuationBits(f))
    ensures ELimit(f) == 2 * EMax(f) - 1
    ensures ExponentBias(f) == EMax(f) + CoefficientDigits(f) - 2
  {
  }

  /**
    The biased-exponent range check is the range of section 3.3 of
    IEEE 754-2008 for integral significands: emin - p + 1 <= q <= emax - p + 1.
  */
  lemma ExponentRangeIsIeeeRange(f: DecimalFormat, exponent: int)
    ensures IsExponentInRange(f, exponent)
        <==> EMin(f) - CoefficientDigits(f) + 1 <= exponent <= EMax(f) - CoefficientDigits(f) + 1
  {
    FormatLayout(f);
  }

  /** A coefficient is in range exactly when it has at most coefficientDigits digits. */
  lemma CoefficientRangeIsDigitCount(f: DecimalFormat, coefficient: int)
    ensures IsCoefficientInRange(f, coefficient) <==> DigitCount(Abs(coefficient)) <= CoefficientDigits(f)
  {
    NinesIsPow10Minus1(CoefficientDigits(f));
    DigitCountAtMost(Abs(coefficient), CoefficientDigits(f));
  }

  /** DecimalFormat.validateByteLength. */
  function ValidateByteLength(f: DecimalFormat, decBytes: seq<bv8>): (r: Result<seq<bv8>>)
    ensures r.Ok? <==> |decBytes| == FormatByteLength(f)
    ensures r.Ok? ==> r.value == decBytes
    ensures r.Err? ==> r.error == ByteLengthMismatch(FormatByteLength(f))
  {
    if |decBytes| != FormatByteLength(f) then Err(ByteLengthMismatch(FormatByteLength(f))) else Ok(decBytes)
  }

  /** DecimalFormat.validateExponent: the exponent back, or IllegalArgumentException. */
  function ValidateExponent(f: DecimalFormat, exponent: int): (r: Result<int>)
    ensures r.Ok? <==> EMin(f) - CoefficientDigits(f) + 1 <= exponent <= EMax(f) - CoefficientDigits(f) + 1
    ensures r.Ok? ==> r.value == exponent && 0 <= r.value + ExponentBias(f) <= ELimit(f)
    ensures r.Err? ==> r.error == IllegalExponent(exponent)
  {
    ExponentRangeIsIeeeRange(f, exponent);
    var exponentAndBias := exponent + ExponentBias(f);
    if exponentAndBias < 0 || exponentAndBias > ELimit(f) then Err(IllegalExponent(exponent)) else Ok(exponent)
  }

  /** DecimalFormat.validateCoefficient: the coefficient back, or IllegalArgumentException. */
  function ValidateCoefficient(f: DecimalFormat, coefficient: int): (r: Result<int>)
    ensures r.Ok? <==> DigitCount(Abs(coefficient)) <= CoefficientDigits(f)
    ensures r.Ok? ==> r.value == coefficient
    ensures r.Err? ==> r.error == IllegalCoefficient(coefficient)
  {
    CoefficientRangeIsDigitCount(f, coefficient);
    if MinCoefficient(f) > coefficient || MaxCoefficient(f) < coefficient then
      Err(IllegalCoefficient(coefficient))
    else
      Ok(coefficient)
  }

  /**
    DecimalFormat.validate: a special passes; a finite value passes when
    its exponent and then its coefficient pass.
  */
  function Validate(f: DecimalFormat, d: SimpleDecimal): (r: Result<SimpleDecimal>)
    ensures r.Ok? <==> (d.Finite? ==> IsExponentInRange(f, d.exponent) && IsCoefficientInRange(f, d.coefficient))
    ensures r.Ok? ==> r.value == d
    ensures r.Err? && !IsExponentInRange(f, d.exponent) ==> r.error == IllegalExponent(d.exponent)
    ensures r.Err? && IsExponentInRange(f, d.exponent) ==> r.error == IllegalCoefficient(d.coefficient)
  {
    if d.Finite? then
      match ValidateExponent(f, d.exponent)
      case Err(e) => Err(e)
      case Ok(_) =>
        match ValidateCoefficient(f, d.coefficient)
        case Err(e) => Err(e)
        case Ok(_) => Ok(d)
    else
      Ok(d)
  }
}
