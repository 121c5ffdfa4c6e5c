/**
  SimpleDecimal: construction, negation, conversion to BigDecimal,
  structural equality, rescaling into the exponent range of a format,
  rounding to a format, and the validation that follows rescaling.
*/
module SimpleDecimals {
  import opened DecimalMath
  import opened DecimalTypes
  import opened DecimalFormats

  /** The two java.math.RoundingMode values the core uses. */
  datatype RoundingMode = Unnecessary | HalfEven

  /** getSpecialConstant: the shared constant of a special kind; only signum -1 is negative. */
  function GetSpecialConstant(kind: SpecialType, signum: int): (r: SimpleDecimal)
    ensures r.Special? && TypeOf(r) == kind
    ensures r.sign == Negative <==> signum == -1
  {
    Special(SignOf(signum), kind)
  }

  /**
    SimpleDecimal(int signum, BigDecimal): a finite value wrapping the
    BigDecimal; a signum of 0 becomes positive. The constructor does not
    check that the signum agrees with the BigDecimal.
  */
  function FromBigDecimal(signum: int, bigDecimal: BigDecimal): (r: SimpleDecimal)
    requires -1 <= signum <= 1
    ensures r.Finite? && ToBigDecimal(r) == Ok(bigDecimal)
    ensures r.sign == Negative <==> signum == -1
  {
    Finite(SignOf(signum), bigDecimal.unscaledValue, -bigDecimal.scale)
  }

  /**
    SimpleDecimal(int signum, BigInteger coefficient, int exponent): the
    caller asserts that the signum agrees with a non-zero coefficient.
  */
  function FromSignumAndCoefficient(signum: int, coefficient: int, exponent: int): (r: SimpleDecimal)
    requires signum == 1 || signum == -1
    requires coefficient == 0 || signum == SignumOfInt(coefficient)
    ensures Valid(r) && r.Finite? && Signum(r.sign) == signum
    ensures ToBigDecimal(r) == Ok(BigDecimal(coefficient, -exponent))
  {
    Finite(SignOf(signum), coefficient, exponent)
  }

  /** SimpleDecimal(BigInteger coefficient, int exponent): the sign is the coefficient's, positive for zero. */
  function FromCoefficient(coefficient: int, exponent: int): (r: SimpleDecimal)
    ensures Valid(r) && r.Finite? && r.coefficient == coefficient && r.exponent == exponent
    ensures r.sign == Negative <==> coefficient < 0
  {
    FromSignumAndCoefficient(if coefficient == 0 then 1 else SignumOfInt(coefficient), coefficient, exponent)
  }

  /** valueOf(BigDecimal): the sign is taken from the BigDecimal. */
  function ValueOf(bigDecimal: BigDecimal): (r: SimpleDecimal)
    ensures Valid(r) && r.Finite?
    ensures ToBigDecimal(r) == Ok(bigDecimal)
  {
    FromBigDecimal(SignumOfInt(bigDecimal.unscaledValue), bigDecimal)
  }

  /** toBigDecimal: the wrapped BigDecimal, or NumberFormatException for a special. */
  function ToBigDecimal(d: SimpleDecimal): (r: Result<BigDecimal>)
    ensures r.Ok? <==> TypeOf(d) == Normal
    ensures r.Err? ==> r.error == NotConvertible(d)
  {
    if d.Finite? then Ok(BigDecimal(d.coefficient, -d.exponent)) else Err(NotConvertible(d))
  }

  /**
    Converting a finite value to BigDecimal and back gives the same value,
    except for a negative zero, which comes back positive because a
    BigDecimal has no negative zero.
  */
  lemma ValueOfToBigDecimal(d: SimpleDecimal)
    requires Valid(d) && d.Finite?
    ensures ValueOf(ToBigDecimal(d).value) == d <==> !(d.sign == Negative && d.coefficient == 0)
  {
  }

  /** negate: flips the sign; a finite value also negates its BigDecimal. */
  function Negate(d: SimpleDecimal): (r: SimpleDecimal)
    ensures r.sign == Flip(d.sign) && TypeOf(r) == TypeOf(d)
    ensures d.Finite? ==> r.Finite? && r.coefficient == -d.coefficient && r.exponent == d.exponent
    ensures d.Finite? ==> SameValue(r.coefficient, r.exponent, -d.coefficient, d.exponent)
    ensures Valid(d) ==> Valid(r)
  {
    match d
    case Special(sign, kind) => GetSpecialConstant(kind, -1 * Signum(sign))
    case Finite(sign, c, e) => FromBigDecimal(-1 * Signum(sign), BigDecimal(-c, -e))
  }

  lemma NegateInvolutive(d: SimpleDecimal)
    ensures Negate(Negate(d)) == d
  {
  }

  /**
    equals: same signum, same type and, for a finite value, equal
    BigDecimals, which compares the scale as well as the unscaled value.
  */
  function Equals(a: SimpleDecimal, b: SimpleDecimal): (r: bool)
    ensures r <==> a == b
  {
    Signum(a.sign) == Signum(b.sign) && TypeOf(a) == TypeOf(b)
    && (TypeOf(a) == Normal ==> ToBigDecimal(a) == ToBigDecimal(b))
  }

  /** Equality is not numeric: 10E+0 and 1E+1 denote the same number but are not equal. */
  lemma EqualsComparesExponent()
    ensures SameValue(10, 0, 1, 1)
    ensures !Equals(FromCoefficient(10, 0), FromCoefficient(1, 1))
  {
  }

  /** Some coefficient and exponent, both within the ranges of the format, denote c * 10^e. */
  ghost predicate Representable(f: DecimalFormat, c: int, e: int)
  {
    exists c': int, e': int :: IsCoefficientInRange(f, c') && IsExponentInRange(f, e') && SameValue(c, e, c', e')
  }

  /**
    decreaseExponent: multiplies the coefficient by 10^exponentDecrease
    when the result still has at most coefficientDigits digits (always
    for a zero); otherwise the value is returned unchanged.
  */
  function DecreaseExponent(d: SimpleDecimal, exponentDecrease: int, f: DecimalFormat): (r: SimpleDecimal)
    requires d.Finite? && exponentDecrease > 0
    ensures r.Finite? && r.sign == d.sign
    ensures (d.coefficient == 0 || exponentDecrease <= CoefficientDigits(f) - DigitCount(Abs(d.coefficient))) ==>
      r.exponent == d.exponent - exponentDecrease
      && SameValue(d.coefficient, d.exponent, r.coefficient, r.exponent)
      && IsCoefficientInRange(f, r.coefficient)
    ensures !(d.coefficient == 0 || exponentDecrease <= CoefficientDigits(f) - DigitCount(Abs(d.coefficient))) ==> r == d
    ensures Valid(d) ==> Valid(r)
  {
    if d.coefficient == 0 || exponentDecrease <= CoefficientDigits(f) - DigitCount(Abs(d.coefficient)) then
      var c' := d.coefficient * Pow10(exponentDecrease);
      DecreasedCoefficientFits(d.coefficient, exponentDecrease, f);
      FromBigDecimal(Signum(d.sign), BigDecimal(c', -d.exponent + exponentDecrease))
    else
      d
  }

  lemma DecreasedCoefficientFits(c: int, k: nat, f: DecimalFormat)
    requires c == 0 || k <= CoefficientDigits(f) - DigitCount(Abs(c))
    ensures IsCoefficientInRange(f, c * Pow10(k))
    ensures SignumOfInt(c * Pow10(k)) == SignumOfInt(c)
  {
    var m := c * Pow10(k);
    AbsOfScaled(c, k);
    if c != 0 {
      DigitCountShift(Abs(c), k);
    }
    CoefficientRangeIsDigitCount(f, m);
  }

  lemma AbsOfScaled(c: int, k: nat)
    ensures Abs(c * Pow10(k)) == Abs(c) * Pow10(k)
    ensures SignumOfInt(c * Pow10(k)) == SignumOfInt(c)
  {
    if c < 0 {
      assert c * Pow10(k) == -(Abs(c) * Pow10(k));
      MulStrictMonotonic(0, Abs(c), Pow10(k));
    } else if c > 0 {
      MulStrictMonotonic(0, c, Pow10(k));
    }
  }

  /**
    increaseExponent: divides the coefficient by 10^exponentIncrease. With
    UNNECESSARY the division must be exact, and otherwise the value is
    returned unchanged; with HALF_EVEN the quotient is rounded.
  */
  function IncreaseExponent(d: SimpleDecimal, exponentIncrease: int, mode: RoundingMode): (r: SimpleDecimal)
    requires d.Finite? && exponentIncrease > 0
    ensures r.Finite? && r.sign == d.sign
    ensures mode == Unnecessary && d.coefficient % Pow10(exponentIncrease) == 0 ==>
      r.exponent == d.exponent + exponentIncrease && SameValue(d.coefficient, d.exponent, r.coefficient, r.exponent)
    ensures mode == Unnecessary && d.coefficient % Pow10(exponentIncrease) != 0 ==> r == d
    ensures mode == HalfEven ==>
      r.exponent == d.exponent + exponentIncrease
      && IsHalfEvenQuotient(d.coefficient, Pow10(exponentIncrease), r.coefficient)
    ensures Abs(r.coefficient) <= Abs(d.coefficient)
    ensures Valid(d) ==> Valid(r)
  {
    var p := Pow10(exponentIncrease);
    match mode
    case Unnecessary =>
      if d.coefficient % p == 0 then
        ExactQuotient(d.coefficient, p);
        FromBigDecimal(Signum(d.sign), BigDecimal(d.coefficient / p, -d.exponent - exponentIncrease))
      else
        d
    case HalfEven =>
      var q := DivRoundHalfEven(d.coefficient, exponentIncrease);
      HalfEvenShrinks(d.coefficient, p, q);
      FromBigDecimal(Signum(d.sign), BigDecimal(q, -d.exponent - exponentIncrease))
  }

  lemma ExactQuotient(c: int, p: int)
    requires p >= 1 && c % p == 0
    ensures (c / p) * p == c
    ensures Abs(c / p) <= Abs(c)
    ensures SignumOfInt(c / p) == SignumOfInt(c)
  {
    DivMod(c, p);
    var q := c / p;
    if q > 0 {
      MulMonotonic(1, p, q);
      assert q * p == p * q;
    } else if q < 0 {
      MulMonotonic(1, p, -q);
      assert (-q) * p == p * (-q);
    }
  }

  /** A half-even quotient by a divisor of at least one is no larger than the dividend. */
  lemma HalfEvenShrinks(c: int, p: int, q: int)
    requires p >= 1 && IsHalfEvenQuotient(c, p, q)
    requires c >= 0 ==> q >= 0
    requires c <= 0 ==> q <= 0
    ensures Abs(q) <= Abs(c)
  {
    if q > 0 {
      ShrinksPositive(c, p, q);
    } else if q < 0 {
      HalfEvenNegate(c, p, q);
      ShrinksPositive(-c, p, -q);
    }
  }

  lemma ShrinksPositive(c: int, p: int, q: int)
    requires p >= 1 && q > 0 && IsHalfEvenQuotient(c, p, q)
    ensures q <= c
  {
    var m := q * p;
    assert -p <= 2 * (c - m);
    // 2c >= 2qp - p = (2q - 1)p >= 2q - 1
    assert 2 * q - 1 <= (2 * q - 1) * p by {
      MulMonotonic(1, p, 2 * q - 1);
    }
    assert (2 * q - 1) * p == 2 * m - p;
  }

  /**
    The private rescale(decimalFormat, roundingMode): a special is returned
    as it is; a finite value whose biased exponent is below zero has its
    exponent increased to the lowest exponent of the format, one above
    eLimit has it decreased to the highest; one in range is unchanged.
  */
  function RescaleWith(d: SimpleDecimal, f: DecimalFormat, mode: RoundingMode): (r: SimpleDecimal)
    ensures !d.Finite? ==> r == d
    ensures d.Finite? ==> r.Finite? && r.sign == d.sign
    ensures d.Finite? && IsExponentInRange(f, d.exponent) ==> r == d
    ensures Valid(d) ==> Valid(r)
  {
    if !d.Finite? then
      d
    else
      var biasedExponent := BiasedExponent(f, d.exponent);
      if biasedExponent < 0 then
        IncreaseExponent(d, -1 * biasedExponent, mode)
      else if biasedExponent > ELimit(f) then
        DecreaseExponent(d, biasedExponent - ELimit(f), f)
      else
        d
  }

  /**
    Below the range, rescaling without rounding either reaches the lowest
    exponent with the same value or, when the dropped digits are not all
    zero, leaves the value alone; rounding half-even always reaches it.
  */
  lemma RescaleBelowRange(d: SimpleDecimal, f: DecimalFormat, mode: RoundingMode)
    requires d.Finite? && BiasedExponent(f, d.exponent) < 0
    ensures var r := RescaleWith(d, f, mode);
      && (mode == Unnecessary ==>
           if d.coefficient % Pow10(-BiasedExponent(f, d.exponent)) == 0
           then BiasedExponent(f, r.exponent) == 0 && SameValue(d.coefficient, d.exponent, r.coefficient, r.exponent)
           else r == d)
      && (mode == HalfEven ==>
           BiasedExponent(f, r.exponent) == 0
           && IsHalfEvenQuotient(d.coefficient, Pow10(-BiasedExponent(f, d.exponent)), r.coefficient))
      && Abs(r.coefficient) <= Abs(d.coefficient)
  {
    var r := IncreaseExponent(d, -BiasedExponent(f, d.exponent), mode);
    assert RescaleWith(d, f, mode) == r;
    if mode == HalfEven {
      assert r.exponent == d.exponent - BiasedExponent(f, d.exponent);
    } else if d.coefficient % Pow10(-BiasedExponent(f, d.exponent)) == 0 {
      assert r.exponent == d.exponent - BiasedExponent(f, d.exponent);
    }
  }

  /**
    Above the range, rescaling (in either mode) either reaches the highest
    exponent with the same value and an in-range coefficient or, when the
    coefficient would get too many digits, leaves the value alone.
  */
  lemma RescaleAboveRange(d: SimpleDecimal, f: DecimalFormat, mode: RoundingMode)
    requires d.Finite? && BiasedExponent(f, d.exponent) > ELimit(f)
    ensures var r := RescaleWith(d, f, mode);
      && r == RescaleWith(d, f, Unnecessary)
      && if d.coefficient == 0 || BiasedExponent(f, d.exponent) - ELimit(f) <= CoefficientDigits(f) - DigitCount(Abs(d.coefficient))
         then BiasedExponent(f, r.exponent) == ELimit(f) && IsCoefficientInRange(f, r.coefficient)
           && SameValue(d.coefficient, d.exponent, r.coefficient, r.exponent)
         else r == d
  {
  }

  /** rescale(decimalFormat): rescaling that never rounds. */
  function Rescale(d: SimpleDecimal, f: DecimalFormat): (r: SimpleDecimal)
    ensures !d.Finite? ==> r == d
    ensures d.Finite? ==>
      r.Finite? && r.sign == d.sign && SameValue(d.coefficient, d.exponent, r.coefficient, r.exponent)
    ensures d.Finite? && IsExponentInRange(f, d.exponent) ==> r == d
    ensures r == d || IsExponentInRange(f, r.exponent)
    ensures d.Finite? && BiasedExponent(f, d.exponent) <= ELimit(f) ==> Abs(r.coefficient) <= Abs(d.coefficient)
    ensures Valid(d) ==> Valid(r)
  {
    if d.Finite? && BiasedExponent(f, d.exponent) < 0 then
      RescaleBelowRange(d, f, Unnecessary);
      RescaleWith(d, f, Unnecessary)
    else if d.Finite? && BiasedExponent(f, d.exponent) > ELimit(f) then
      RescaleAboveRange(d, f, Unnecessary);
      RescaleWith(d, f, Unnecessary)
    else
      RescaleWith(d, f, Unnecessary)
  }

  /**
    Rescaling finds a representation whenever one exists: if some in-range
    coefficient and exponent denote the value, the rescaled exponent is in
    range.
  */
  lemma RescaleFindsRepresentation(d: SimpleDecimal, f: DecimalFormat)
    requires d.Finite? && Representable(f, d.coefficient, d.exponent)
    ensures IsExponentInRange(f, Rescale(d, f).exponent)
  {
    var c', e' :| IsCoefficientInRange(f, c') && IsExponentInRange(f, e') && SameValue(d.coefficient, d.exponent, c', e');
    var biased := BiasedExponent(f, d.exponent);
    if biased < 0 {
      RepresentationBelowRange(d, f, c', e');
    } else if biased > ELimit(f) {
      RepresentationAboveRange(d, f, c', e');
    }
  }

  lemma RepresentationBelowRange(d: SimpleDecimal, f: DecimalFormat, c': int, e': int)
    requires d.Finite? && BiasedExponent(f, d.exponent) < 0
    requires IsExponentInRange(f, e') && SameValue(d.coefficient, d.exponent, c', e')
    ensures BiasedExponent(f, Rescale(d, f).exponent) == 0
  {
    // The representation has a larger exponent, so 10^(e' - exponent) divides the coefficient.
    assert d.exponent < e' && c' * Pow10(e' - d.exponent) == d.coefficient;
    DivisibleByLowerPower(d.coefficient, c', -BiasedExponent(f, d.exponent), e' - d.exponent);
    RescaleBelowRange(d, f, Unnecessary);
  }

  lemma RepresentationAboveRange(d: SimpleDecimal, f: DecimalFormat, c': int, e': int)
    requires d.Finite? && BiasedExponent(f, d.exponent) > ELimit(f)
    requires IsCoefficientInRange(f, c') && IsExponentInRange(f, e') && SameValue(d.coefficient, d.exponent, c', e')
    ensures BiasedExponent(f, Rescale(d, f).exponent) == ELimit(f)
  {
    RescaleAboveRange(d, f, Unnecessary);
    if d.coefficient != 0 {
      // The representation has a smaller exponent: c' = c * 10^(e - e') has e - e' more digits.
      var j := ExponentGap(f, d.exponent, e');
      SameValueAbove(d.coefficient, d.exponent, c', e', j);
      ScaledFits(f, d.coefficient, c', j);
    }
  }

  lemma SameValueAbove(c: int, e: int, c': int, e': int, j: nat)
    requires SameValue(c, e, c', e') && j == e - e'
    ensures c * Pow10(j) == c'
  {
  }

  /** An in-range exponent e' below an exponent e above the range is at least e's excess below it. */
  lemma ExponentGap(f: DecimalFormat, e: int, e': int) returns (j: nat)
    requires BiasedExponent(f, e) > ELimit(f) && IsExponentInRange(f, e')
    ensures j == e - e' && BiasedExponent(f, e) - ELimit(f) <= j
  {
    j := e - e';
  }

  /** When c * 10^j is an in-range coefficient, c has room for j more digits. */
  lemma ScaledFits(f: DecimalFormat, c: int, c': int, j: nat)
    requires c != 0 && c * Pow10(j) == c' && IsCoefficientInRange(f, c')
    ensures DigitCount(Abs(c)) + j <= CoefficientDigits(f)
  {
    ScaledDigitCount(c, j);
    CoefficientRangeIsDigitCount(f, c');
  }

  lemma ScaledDigitCount(c: int, k: nat)
    requires c != 0
    ensures DigitCount(Abs(c * Pow10(k))) == DigitCount(Abs(c)) + k
  {
    AbsOfScaled(c, k);
    DigitCountShift(Abs(c), k);
  }

  /** The exponent check of SimpleDecimal.validateExponent: the exponent, or DecimalOverflowException. */
  function ValidateExponent(d: SimpleDecimal, f: DecimalFormat): (r: Result<int>)
    requires d.Finite?
    ensures r.Ok? <==> IsExponentInRange(f, d.exponent)
    ensures r.Ok? ==> r.value == d.exponent
    ensures r.Err? ==> r.error == ExponentOverflow(d.exponent)
  {
    var biasedExponent := BiasedExponent(f, d.exponent);
    if biasedExponent < 0 || biasedExponent > ELimit(f) then Err(ExponentOverflow(d.exponent)) else Ok(d.exponent)
  }

  /**
    SimpleDecimal.validateCoefficient as written: the range test is
    inverted, so an in-range coefficient raises DecimalOverflowException
    and an out-of-range one passes.
  */
  function ValidateCoefficientAsWritten(d: SimpleDecimal, f: DecimalFormat): (r: Result<int>)
    requires d.Finite?
    ensures r.Ok? <==> DigitCount(Abs(d.coefficient)) > CoefficientDigits(f)
    ensures r.Ok? ==> r.value == d.coefficient
    ensures r.Err? ==> r.error == CoefficientOverflow(d.coefficient)
  {
    CoefficientRangeIsDigitCount(f, d.coefficient);
    if IsCoefficientInRange(f, d.coefficient) then Err(CoefficientOverflow(d.coefficient)) else Ok(d.coefficient)
  }

  /** SimpleDecimal.validateCoefficient as evidently intended: only an out-of-range coefficient is refused. */
  function ValidateCoefficient(d: SimpleDecimal, f: DecimalFormat): (r: Result<int>)
    requires d.Finite?
    ensures r.Ok? <==> DigitCount(Abs(d.coefficient)) <= CoefficientDigits(f)
    ensures r.Ok? ==> r.value == d.coefficient
    ensures r.Err? ==> r.error == CoefficientOverflow(d.coefficient)
  {
    CoefficientRangeIsDigitCount(f, d.coefficient);
    if IsCoefficientInRange(f, d.coefficient) then Ok(d.coefficient) else Err(CoefficientOverflow(d.coefficient))
  }

  /** The private validate, with the coefficient check as written. */
  function ValidateAsWritten(d: SimpleDecimal, f: DecimalFormat): (r: Result<SimpleDecimal>)
    ensures r.Ok? <==> (d.Finite? ==> IsExponentInRange(f, d.exponent) && !IsCoefficientInRange(f, d.coefficient))
    ensures r.Ok? ==> r.value == d
    ensures r.Err? && !IsExponentInRange(f, d.exponent) ==> r.error == ExponentOverflow(d.exponent)
    ensures r.Err? && IsExponentInRange(f, d.exponent) ==> r.error == CoefficientOverflow(d.coefficient)
  {
    if d.Finite? then
      match ValidateExponent(d, f)
      case Err(e) => Err(e)
      case Ok(_) =>
        CoefficientRangeIsDigitCount(f, d.coefficient);
        match ValidateCoefficientAsWritten(d, f)
        case Err(e) => Err(e)
        case Ok(_) => Ok(d)
    else
      Ok(d)
  }

  /** The private validate, with the coefficient check corrected. */
  function Validate(d: SimpleDecimal, f: DecimalFormat): (r: Result<SimpleDecimal>)
    ensures r.Ok? <==> (d.Finite? ==> IsExponentInRange(f, d.exponent) && IsCoefficientInRange(f, d.coefficient))
    ensures r.Ok? ==> r.value == d
    ensures r.Err? && !IsExponentInRange(f, d.exponent) ==> r.error == ExponentOverflow(d.exponent)
    ensures r.Err? && IsExponentInRange(f, d.exponent) ==> r.error == CoefficientOverflow(d.coefficient)
  {
    if d.Finite? then
      match ValidateExponent(d, f)
      case Err(e) => Err(e)
      case Ok(_) =>
        CoefficientRangeIsDigitCount(f, d.coefficient);
        match ValidateCoefficient(d, f)
        case Err(e) => Err(e)
        case Ok(_) => Ok(d)
    else
      Ok(d)
  }

  /** rescaleAndValidate as written. */
  function RescaleAndValidateAsWritten(d: SimpleDecimal, f: DecimalFormat): (r: Result<SimpleDecimal>)
    ensures r.Ok? ==> r.value == Rescale(d, f)
    ensures r.Ok? <==> (d.Finite? ==>
      IsExponentInRange(f, Rescale(d, f).exponent) && !IsCoefficientInRange(f, Rescale(d, f).coefficient))
    ensures r.Err? && !IsExponentInRange(f, Rescale(d, f).exponent) ==> r.error == ExponentOverflow(Rescale(d, f).exponent)
    ensures r.Err? && IsExponentInRange(f, Rescale(d, f).exponent) ==> r.error == CoefficientOverflow(Rescale(d, f).coefficient)
  {
    ValidateAsWritten(Rescale(d, f), f)
  }

  /**
    The inverted check refuses every finite value that fits the format:
    1234567E+0 in decimal32, which the rescaling tests expect back
    unchanged, raises "Coefficient is out of range".
  */
  lemma RescaleAndValidateAsWrittenRefusesFittingValues(d: SimpleDecimal, f: DecimalFormat)
    requires d.Finite? && IsExponentInRange(f, d.exponent) && IsCoefficientInRange(f, d.coefficient)
    ensures RescaleAndValidateAsWritten(d, f) == Err(CoefficientOverflow(d.coefficient))
    ensures RescaleAndValidateAsWritten(FromCoefficient(1234567, 0), Decimal32) == Err(CoefficientOverflow(1234567))
  {
    var one := FromCoefficient(1234567, 0);
    FormatConstants(Decimal32);
    NinesIsPow10Minus1(CoefficientDigits(Decimal32));
    assert IsCoefficientInRange(Decimal32, 1234567);
    assert IsExponentInRange(Decimal32, 0);
  }

  /**
    rescaleAndValidate with the coefficient check corrected: rescale
    without rounding, then refuse a value whose exponent or coefficient is
    still out of range.
  */
  function RescaleAndValidate(d: SimpleDecimal, f: DecimalFormat): (r: Result<SimpleDecimal>)
    ensures r.Ok? ==> r.value == Rescale(d, f)
    ensures r.Ok? && d.Finite? ==>
      SameValue(d.coefficient, d.exponent, r.value.coefficient, r.value.exponent)
      && IsExponentInRange(f, r.value.exponent) && IsCoefficientInRange(f, r.value.coefficient)
    ensures !d.Finite? ==> r == Ok(d)
    ensures r.Ok? <==> (d.Finite? ==>
      IsExponentInRange(f, Rescale(d, f).exponent) && IsCoefficientInRange(f, Rescale(d, f).coefficient))
    ensures r.Err? && !IsExponentInRange(f, Rescale(d, f).exponent) ==> r.error == ExponentOverflow(Rescale(d, f).exponent)
    ensures r.Err? && IsExponentInRange(f, Rescale(d, f).exponent) ==> r.error == CoefficientOverflow(Rescale(d, f).coefficient)
  {
    Validate(Rescale(d, f), f)
  }

  /**
    For a coefficient already in range, rescaleAndValidate succeeds exactly
    when the value has an in-range representation.
  */
  lemma RescaleAndValidateIsExact(d: SimpleDecimal, f: DecimalFormat)
    requires d.Finite? && IsCoefficientInRange(f, d.coefficient)
    ensures RescaleAndValidate(d, f).Ok? <==> Representable(f, d.coefficient, d.exponent)
  {
    if Representable(f, d.coefficient, d.exponent) {
      RepresentableRescales(d, f);
    } else {
      OkIsRepresentable(d, f);
    }
  }

  lemma RepresentableRescales(d: SimpleDecimal, f: DecimalFormat)
    requires d.Finite? && IsCoefficientInRange(f, d.coefficient) && Representable(f, d.coefficient, d.exponent)
    ensures RescaleAndValidate(d, f).Ok?
  {
    var r := Rescale(d, f);
    RescaleFindsRepresentation(d, f);
    if BiasedExponent(f, d.exponent) > ELimit(f) {
      RescaleAboveRange(d, f, Unnecessary);
    } else {
      CoefficientShrinks(f, d.coefficient, r.coefficient);
    }
    assert Validate(r, f).Ok?;
  }

  lemma OkIsRepresentable(d: SimpleDecimal, f: DecimalFormat)
    requires d.Finite?
    ensures RescaleAndValidate(d, f).Ok? ==> Representable(f, d.coefficient, d.exponent)
  {
    if RescaleAndValidate(d, f).Ok? {
      var r := Rescale(d, f);
      assert IsCoefficientInRange(f, r.coefficient) && IsExponentInRange(f, r.exponent)
        && SameValue(d.coefficient, d.exponent, r.coefficient, r.exponent);
    }
  }

  lemma CoefficientShrinks(f: DecimalFormat, c: int, c': int)
    requires IsCoefficientInRange(f, c) && Abs(c') <= Abs(c)
    ensures IsCoefficientInRange(f, c')
  {
  }

  /**
    BigDecimal.round with a MathContext of the given precision and
    HALF_EVEN: a value with at most that many digits is returned as it is;
    otherwise the surplus digits are dropped with half-even rounding, and a
    carry into one more digit (9995 to three digits gives 1000) drops one
    digit more.
  */
  function RoundToPrecision(bd: BigDecimal, precision: nat): (r: BigDecimal)
    requires precision >= 1
    ensures DigitCount(Abs(r.unscaledValue)) <= precision
    ensures SignumOfInt(r.unscaledValue) == SignumOfInt(bd.unscaledValue)
    ensures DigitCount(Abs(bd.unscaledValue)) <= precision ==> r == bd
    ensures DigitCount(Abs(bd.unscaledValue)) > precision ==>
      DigitCount(Abs(r.unscaledValue)) == precision && r.scale < bd.scale
      && IsHalfEvenQuotient(bd.unscaledValue, Pow10(bd.scale - r.scale), r.unscaledValue)
  {
    var c := bd.unscaledValue;
    var drop := DigitCount(Abs(c)) - precision;
    if drop <= 0 then
      bd
    else
      var q := DivRoundHalfEven(c, drop);
      RoundedDigits(c, drop, precision);
      if Abs(q) < Pow10(precision) then
        DigitCountUnique(Abs(q), precision);
        BigDecimal(q, bd.scale - drop)
      else
        var q' := DivRoundHalfEven(q, 1);
        CarryDropsOneDigit(c, drop, precision);
        DigitCountUnique(Abs(q'), precision);
        BigDecimal(q', bd.scale - drop - 1)
  }

  /**
    Dropping the surplus digits of a coefficient with precision + drop
    digits leaves precision digits, or 10^precision after a carry.
  */
  lemma RoundedDigits(c: int, drop: nat, precision: nat)
    requires precision >= 1 && drop >= 1 && DigitCount(Abs(c)) == precision + drop
    ensures var q := DivRoundHalfEven(c, drop);
      Pow10(precision - 1) <= Abs(q) <= Pow10(precision) && SignumOfInt(q) == SignumOfInt(c)
  {
    var q := DivRoundHalfEven(c, drop);
    Pow10Add(precision - 1, drop);
    Pow10Add(precision, drop);
    if c > 0 {
      HalfEvenQuotientBounds(c, Pow10(drop), q, Pow10(precision - 1), Pow10(precision));
    } else {
      HalfEvenNegate(c, Pow10(drop), q);
      HalfEvenQuotientBounds(-c, Pow10(drop), -q, Pow10(precision - 1), Pow10(precision));
    }
  }

  /** After a carry to 10^precision, one more exact division by ten rounds c by 10^(drop + 1). */
  lemma CarryDropsOneDigit(c: int, drop: nat, precision: nat)
    requires precision >= 1
    requires Abs(DivRoundHalfEven(c, drop)) == Pow10(precision)
    ensures var q' := DivRoundHalfEven(DivRoundHalfEven(c, drop), 1);
      Abs(q') == Pow10(precision - 1) && SignumOfInt(q') == SignumOfInt(DivRoundHalfEven(c, drop))
      && IsHalfEvenQuotient(c, Pow10(drop + 1), q')
  {
    var q := DivRoundHalfEven(c, drop);
    var big: int := Pow10(precision - 1);
    assert Pow10(precision) == big * 10;
    var t := if q > 0 then big else -big;
    assert q == t * 10;
    assert DivRoundHalfEven(q, 1) == t by {
      MultipleMod(t, 10);
      HalfEvenExact(q, 1);
    }
    Pow10Add(drop, 1);
    ScaleByTen(t, q, Pow10(drop), Pow10(drop + 1));
    HalfEvenCoarser(c, Pow10(drop), Pow10(drop + 1), q, t);
  }

  lemma ScaleByTen(t: int, q: int, p: int, p10: int)
    requires q == t * 10 && p10 == p * 10
    ensures t * p10 == q * p
  {
    assert t * (p * 10) == (t * 10) * p;
  }

  /** A half-even quotient that is exact at a coarser divisor stays half-even there. */
  lemma HalfEvenCoarser(c: int, d: int, d': int, q: int, t: int)
    requires 0 < d < d' && IsHalfEvenQuotient(c, d, q) && q * d == t * d'
    ensures IsHalfEvenQuotient(c, d', t)
  {
  }

  /**
    round(decimalFormat): a special is returned as it is. A finite value is
    rounded to coefficientDigits digits, then rescaled into the exponent
    range rounding half-even, and becomes an infinity of its sign when its
    exponent is still above the range.
  */
  function Round(d: SimpleDecimal, f: DecimalFormat): (r: SimpleDecimal)
    ensures !d.Finite? ==> r == d
    ensures r.sign == d.sign
    ensures d.Finite? && r.Special? ==> TypeOf(r) == Infinity
    ensures r.Finite? && d.Finite? ==> IsExponentInRange(f, r.exponent) && IsCoefficientInRange(f, r.coefficient)
    ensures Valid(d) ==> Valid(r)
  {
    if !d.Finite? then
      d
    else
      var newValue := RescaleWith(RoundedToDigits(d, f), f, HalfEven);
      RoundedRescaleFits(RoundedToDigits(d, f), f);
      if BiasedExponent(f, newValue.exponent) > ELimit(f) then
        GetSpecialConstant(Infinity, Signum(d.sign))
      else
        newValue
  }

  /** The first step of round: the value rounded to coefficientDigits digits, with the sign kept. */
  function RoundedToDigits(d: SimpleDecimal, f: DecimalFormat): (r: SimpleDecimal)
    requires d.Finite?
    ensures r.Finite? && r.sign == d.sign && IsCoefficientInRange(f, r.coefficient)
    ensures DigitCount(Abs(d.coefficient)) <= CoefficientDigits(f) ==> r == d
    ensures DigitCount(Abs(d.coefficient)) > CoefficientDigits(f) ==>
      r.exponent > d.exponent && IsHalfEvenQuotient(d.coefficient, Pow10(r.exponent - d.exponent), r.coefficient)
    ensures Valid(d) ==> Valid(r)
  {
    var rounded := RoundToPrecision(BigDecimal(d.coefficient, -d.exponent), CoefficientDigits(f));
    CoefficientRangeIsDigitCount(f, rounded.unscaledValue);
    FromBigDecimal(Signum(d.sign), rounded)
  }

  /** Rescaling an in-range coefficient half-even reaches an exponent not below the range and keeps the coefficient in range. */
  lemma RoundedRescaleFits(x: SimpleDecimal, f: DecimalFormat)
    requires x.Finite? && IsCoefficientInRange(f, x.coefficient)
    ensures var y := RescaleWith(x, f, HalfEven);
      BiasedExponent(f, y.exponent) >= 0 && IsCoefficientInRange(f, y.coefficient)
  {
    var y := RescaleWith(x, f, HalfEven);
    if BiasedExponent(f, x.exponent) < 0 {
      RescaleBelowRange(x, f, HalfEven);
      CoefficientShrinks(f, x.coefficient, y.coefficient);
    } else if BiasedExponent(f, x.exponent) > ELimit(f) {
      RescaleAboveRange(x, f, HalfEven);
    }
  }

  /**
    What round does after the precision step, by where the exponent of the
    precision-rounded value x lies. Below the range x is rounded half-even
    to the lowest exponent.
  */
  lemma RoundBelowRange(d: SimpleDecimal, f: DecimalFormat, x: SimpleDecimal)
    requires d.Finite? && x == RoundedToDigits(d, f) && BiasedExponent(f, x.exponent) < 0
    ensures Round(d, f).Finite? && BiasedExponent(f, Round(d, f).exponent) == 0
    ensures IsHalfEvenQuotient(x.coefficient, Pow10(-BiasedExponent(f, x.exponent)), Round(d, f).coefficient)
  {
    var y := RescaleWith(x, f, HalfEven);
    RescaleBelowRange(x, f, HalfEven);
    RoundSteps(d, f, x, y);
  }

  /** Within the range x is kept. */
  lemma RoundInRange(d: SimpleDecimal, f: DecimalFormat, x: SimpleDecimal)
    requires d.Finite? && x == RoundedToDigits(d, f) && IsExponentInRange(f, x.exponent)
    ensures Round(d, f) == x
  {
    RoundSteps(d, f, x, x);
  }

  /**
    Above the range x keeps its value at the highest exponent when some
    in-range coefficient and exponent denote it, and becomes an infinity
    exactly when none does.
  */
  lemma RoundAboveRange(d: SimpleDecimal, f: DecimalFormat, x: SimpleDecimal)
    requires d.Finite? && x == RoundedToDigits(d, f) && BiasedExponent(f, x.exponent) > ELimit(f)
    ensures Round(d, f).Special? <==> !Representable(f, x.coefficient, x.exponent)
    ensures Round(d, f).Finite? ==> SameValue(x.coefficient, x.exponent, Round(d, f).coefficient, Round(d, f).exponent)
  {
    var y := RescaleWith(x, f, HalfEven);
    RoundSteps(d, f, x, y);
    AboveRangeRescale(x, f, y);
  }

  /** Above the range, half-even rescaling reaches the range exactly when the value is representable. */
  lemma AboveRangeRescale(x: SimpleDecimal, f: DecimalFormat, y: SimpleDecimal)
    requires x.Finite? && BiasedExponent(f, x.exponent) > ELimit(f) && y == RescaleWith(x, f, HalfEven)
    ensures y.Finite? && BiasedExponent(f, y.exponent) >= ELimit(f)
    ensures BiasedExponent(f, y.exponent) == ELimit(f) <==> Representable(f, x.coefficient, x.exponent)
    ensures BiasedExponent(f, y.exponent) == ELimit(f) ==> SameValue(x.coefficient, x.exponent, y.coefficient, y.exponent)
  {
    RescaleAboveRange(x, f, HalfEven);
    if BiasedExponent(f, y.exponent) == ELimit(f) {
      assert IsCoefficientInRange(f, y.coefficient) && IsExponentInRange(f, y.exponent);
    } else if Representable(f, x.coefficient, x.exponent) {
      RescaleFindsRepresentation(x, f);
      assert false;
    }
  }

  /** A finite value that already fits the format is returned unchanged by round. */
  lemma RoundIsIdentityInRange(d: SimpleDecimal, f: DecimalFormat)
    requires d.Finite? && IsExponentInRange(f, d.exponent) && IsCoefficientInRange(f, d.coefficient)
    ensures Round(d, f) == d
  {
    CoefficientRangeIsDigitCount(f, d.coefficient);
    assert RoundedToDigits(d, f) == d;
    RoundInRange(d, f, d);
  }

  /** Rounding twice is rounding once. */
  lemma RoundIdempotent(d: SimpleDecimal, f: DecimalFormat)
    ensures Round(Round(d, f), f) == Round(d, f)
  {
    if Round(d, f).Finite? {
      RoundIsIdentityInRange(Round(d, f), f);
    }
  }

  /** round is the precision step, then half-even rescaling, then the overflow test. */
  lemma RoundSteps(d: SimpleDecimal, f: DecimalFormat, x: SimpleDecimal, y: SimpleDecimal)
    requires d.Finite? && x == RoundedToDigits(d, f) && y == RescaleWith(x, f, HalfEven)
    ensures BiasedExponent(f, y.exponent) <= ELimit(f) ==> Round(d, f) == y
    ensures BiasedExponent(f, y.exponent) > ELimit(f) ==> Round(d, f) == Special(d.sign, Infinity)
  {
  }

  /** A coefficient with at most coefficientDigits digits is not rounded by the precision step. */
  lemma FewDigitsKept(d: SimpleDecimal, f: DecimalFormat)
    requires d.Finite? && DigitCount(Abs(d.coefficient)) <= CoefficientDigits(f)
    ensures RoundedToDigits(d, f) == d
  {
  }

  /** Below the range by k, half-even rescaling divides the coefficient by 10^k. */
  lemma RescaleUpBy(d: SimpleDecimal, f: DecimalFormat, k: nat)
    requires d.Finite? && k > 0 && BiasedExponent(f, d.exponent) + k == 0
    ensures RescaleWith(d, f, HalfEven) == Finite(d.sign, DivRoundHalfEven(d.coefficient, k), d.exponent + k)
  {
  }

  /** Above the range by k, rescaling is decreaseExponent by k. */
  lemma RescaleDownBy(d: SimpleDecimal, f: DecimalFormat, k: nat)
    requires d.Finite? && k > 0 && BiasedExponent(f, d.exponent) == ELimit(f) + k
    ensures RescaleWith(d, f, HalfEven) == DecreaseExponent(d, k, f)
  {
  }

  /** decreaseExponent by k multiplies the coefficient by 10^k when the result fits. */
  lemma DecreaseFits(d: SimpleDecimal, f: DecimalFormat, k: nat)
    requires d.Finite? && k > 0 && DigitCount(Abs(d.coefficient)) + k <= CoefficientDigits(f)
    ensures DecreaseExponent(d, k, f) == Finite(d.sign, d.coefficient * Pow10(k), d.exponent - k)
  {
  }

  /** The half-even quotient is the one DivRoundHalfEven computes. */
  lemma HalfEvenValue(c: int, k: nat, q: int)
    requires IsHalfEvenQuotient(c, Pow10(k), q)
    ensures DivRoundHalfEven(c, k) == q
  {
    HalfEvenUnique(c, Pow10(k), q, DivRoundHalfEven(c, k));
  }

  lemma Decimal32Range()
    ensures CoefficientDigits(Decimal32) == 7 && ExponentBias(Decimal32) == 101 && ELimit(Decimal32) == 191
  {
    FormatConstants(Decimal32);
  }

  /** 1234567E+91 is too large for decimal32 and rounds to +Infinity. */
  lemma RoundOverflowExample()
    ensures Round(FromCoefficient(1234567, 91), Decimal32) == Special(Positive, Infinity)
  {
    var d := FromCoefficient(1234567, 91);
    SevenDigitsKept(d);
    OverflowRescale(d);
    RoundSteps(d, Decimal32, d, d);
    Decimal32Range();
  }

  lemma SevenDigitsKept(d: SimpleDecimal)
    requires d.Finite? && (d.coefficient == 1234567 || d.coefficient == 1000000)
    ensures RoundedToDigits(d, Decimal32) == d
  {
    Decimal32Range();
    DigitCountUnique(d.coefficient, 7);
    FewDigitsKept(d, Decimal32);
  }

  lemma OverflowRescale(d: SimpleDecimal)
    requires d == Finite(Positive, 1234567, 91)
    ensures RescaleWith(d, Decimal32, HalfEven) == d
  {
    Decimal32Range();
    DigitCountUnique(1234567, 7);
    RescaleDownBy(d, Decimal32, 1);
    assert DecreaseExponent(d, 1, Decimal32) == d;
  }

  /** 123456E+91 fits decimal32 once the coefficient is multiplied by ten: 1234560E+90. */
  lemma RoundClampExample()
    ensures Round(FromCoefficient(123456, 91), Decimal32) == FromCoefficient(1234560, 90)
  {
    var d := FromCoefficient(123456, 91);
    ClampPrecision(d);
    ClampRescale(d);
    RoundSteps(d, Decimal32, d, Finite(Positive, 1234560, 90));
    Decimal32Range();
  }

  lemma ClampPrecision(d: SimpleDecimal)
    requires d == Finite(Positive, 123456, 91)
    ensures RoundedToDigits(d, Decimal32) == d
  {
    Decimal32Range();
    DigitCountUnique(123456, 6);
    FewDigitsKept(d, Decimal32);
  }

  lemma ClampRescale(d: SimpleDecimal)
    requires d == Finite(Positive, 123456, 91)
    ensures RescaleWith(d, Decimal32, HalfEven) == Finite(Positive, 1234560, 90)
  {
    Decimal32Range();
    DigitCountUnique(123456, 6);
    RescaleDownBy(d, Decimal32, 1);
    DecreaseFits(d, Decimal32, 1);
  }

  /** 1234567E-102 is below the decimal32 range and rounds half-even to 123457E-101. */
  lemma RoundSubnormalExample()
    ensures Round(FromCoefficient(1234567, -102), Decimal32) == FromCoefficient(123457, -101)
  {
    var d := FromCoefficient(1234567, -102);
    SevenDigitsKept(d);
    SubnormalRescale(d);
    RoundSteps(d, Decimal32, d, Finite(Positive, 123457, -101));
    Decimal32Range();
  }

  lemma SubnormalRescale(d: SimpleDecimal)
    requires d == Finite(Positive, 1234567, -102)
    ensures RescaleWith(d, Decimal32, HalfEven) == Finite(Positive, 123457, -101)
  {
    Decimal32Range();
    RescaleUpBy(d, Decimal32, 1);
    HalfEvenValue(1234567, 1, 123457);
  }

  /** 1000000E-108 is less than half of 1E-101 and rounds to 0E-101. */
  lemma RoundToZeroExample()
    ensures Round(FromCoefficient(1000000, -108), Decimal32) == FromCoefficient(0, -101)
  {
    var d := FromCoefficient(1000000, -108);
    SevenDigitsKept(d);
    ToZeroRescale(d);
    RoundSteps(d, Decimal32, d, Finite(Positive, 0, -101));
    Decimal32Range();
  }

  lemma ToZeroRescale(d: SimpleDecimal)
    requires d == Finite(Positive, 1000000, -108)
    ensures RescaleWith(d, Decimal32, HalfEven) == Finite(Positive, 0, -101)
  {
    Decimal32Range();
    RescaleUpBy(d, Decimal32, 7);
    Pow10Seven();
    HalfEvenValue(1000000, 7, 0);
  }

  lemma Pow10Seven()
    ensures Pow10(7) == 10000000
  {
  }
}
