/**
  The values the conversion core passes around: the sign, the kind of a
  decimal (finite or one of the three specials), the simple decimal itself,
  the BigDecimal it wraps for a finite value, and the errors the core
  raises as exceptions.
*/
module DecimalTypes {

  /** Signum.POSITIVE (1) and Signum.NEGATIVE (-1). */
  datatype Sign = Positive | Negative

  function Signum(s: Sign): (r: int)
    ensures r == 1 || r == -1
    ensures r == -1 <==> s == Negative
  {
    if s == Negative then -1 else 1
  }

  /** The sign a Java signum denotes: only -1 (Signum.NEGATIVE) is negative. */
  function SignOf(signum: int): (s: Sign)
    ensures s == Negative <==> signum == -1
  {
    if signum == -1 then Negative else Positive
  }

  function Flip(s: Sign): (r: Sign)
    ensures r != s
  {
    if s == Negative then Positive else Negative
  }

  /** BigInteger.signum: -1, 0 or 1. */
  function SignumOfInt(c: int): (r: int)
    ensures r == 0 <==> c == 0
    ensures r == 1 <==> c > 0
    ensures r == -1 <==> c < 0
  {
    if c < 0 then -1 else if c == 0 then 0 else 1
  }

  /** DecimalType: NORMAL for finite values, and the three specials. */
  datatype DecimalType = Normal | Infinity | NaN | SignalingNaN

  type SpecialType = t: DecimalType | t != Normal witness Infinity

  /**
    java.math.BigDecimal as this core uses it: an unscaled value and a
    scale, denoting unscaledValue * 10^-scale. Two of them are equal
    (BigDecimal.equals) only when both parts are equal.
  */
  datatype BigDecimal = BigDecimal(unscaledValue: int, scale: int)

  /**
    SimpleDecimal. A finite value is coefficient * 10^exponent (the wrapped
    BigDecimal has unscaled value coefficient and scale -exponent); a
    special carries only its sign and its kind.
  */
  datatype SimpleDecimal =
    | Finite(sign: Sign, coefficient: int, exponent: int)
    | Special(sign: Sign, kind: SpecialType)

  /** DecimalType of a simple decimal (SimpleDecimal.getType). */
  function TypeOf(d: SimpleDecimal): (t: DecimalType)
    ensures t == Normal <==> d.Finite?
  {
    if d.Finite? then Normal else d.kind
  }

  /**
    The invariant the constructors keep: a non-zero coefficient has the
    sign of the value (a zero may carry either sign).
  */
  predicate Valid(d: SimpleDecimal)
  {
    d.Finite? ==> d.coefficient == 0 || Signum(d.sign) == SignumOfInt(d.coefficient)
  }

  /**
    The exceptions of the core: IllegalArgumentException from the format
    validators, DecimalOverflowException from the simple decimal
    validators, NumberFormatException from converting a special.
  */
  datatype DecimalError =
    | ByteLengthMismatch(expectedLength: nat)
    | IllegalExponent(exponent: int)
    | IllegalCoefficient(coefficient: int)
    | ExponentOverflow(exponent: int)
    | CoefficientOverflow(coefficient: int)
    | NotConvertible(value: SimpleDecimal)

  datatype Result<T> = Ok(value: T) | Err(error: DecimalError)
}
