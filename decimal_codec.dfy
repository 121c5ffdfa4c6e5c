/**
  DecimalCodec: the conversion between a simple decimal and the bytes of
  its decimal32, decimal64 or decimal128 interchange encoding, in the
  densely packed decimal (DPD) variant of section 3.5.2 of IEEE 754-2008.

  The layout, bit 0 being the most significant bit of byte 0: the sign bit;
  the five-bit combination field G, holding the two leading exponent bits
  and the most significant digit (or the tag of a special); the remaining
  ecb exponent bits, two of them in byte 0 and the rest from bit 8 on; and
  the coefficient continuation, which the DPD coder fills.
*/
module DecimalCodecs {
  import opened DecimalMath
  import opened DecimalTypes
  import opened DecimalFormats
  import opened SimpleDecimals
  import opened BitFields

  /** What DenselyPackedDecimalCodec.encodeValue leaves: the digit it returns and the array it filled. */
  datatype EncodedCoefficient = EncodedCoefficient(mostSignificantDigit: int, bytes: seq<bv8>)

  /**
    DenselyPackedDecimalCodec, whose source is not part of this model:
    encodeValue(coefficient, bytes) and decodeValue(signum, firstDigit, bytes).
  */
  datatype CoefficientCoder = CoefficientCoder(
    encodeValue: (int, seq<bv8>) -> EncodedCoefficient,
    decodeValue: (int, int, seq<bv8>) -> int)

  /** The number of exponent continuation bits stored from bit 8 on (two more sit in byte 0). */
  function ExponentBitsRemaining(f: DecimalFormat): (n: nat)
    ensures n + 2 == ExponentContinuationBits(f)
    ensures 8 + n + CoefficientContinuationBits(f) == 8 * FormatByteLength(f)
  {
    FormatLayout(f);
    ExponentContinuationBits(f) - 2
  }

  /** The first bit of the coefficient continuation field. */
  function CoefficientStart(f: DecimalFormat): (t: nat)
    ensures 8 <= t < 8 * FormatByteLength(f)
  {
    FormatLayout(f);
    8 + ExponentBitsRemaining(f)
  }

  /** The digit that the combination field carries: the leading one of coefficientDigits digits. */
  function MostSignificantDigit(f: DecimalFormat, coefficient: int): (r: int)
    ensures IsCoefficientInRange(f, coefficient) ==> 0 <= r <= 9
  {
    LeadingDigitBound(f, coefficient);
    Abs(coefficient) / Pow10(CoefficientDigits(f) - 1)
  }

  lemma LeadingDigitBound(f: DecimalFormat, coefficient: int)
    ensures IsCoefficientInRange(f, coefficient) ==> 0 <= Abs(coefficient) / Pow10(CoefficientDigits(f) - 1) <= 9
  {
    if IsCoefficientInRange(f, coefficient) {
      CoefficientBelowPow10(f, coefficient);
      QuotientBelow(Abs(coefficient), Pow10(CoefficientDigits(f) - 1), 10);
    }
  }

  lemma CoefficientBelowPow10(f: DecimalFormat, coefficient: int)
    requires IsCoefficientInRange(f, coefficient)
    ensures Abs(coefficient) < 10 * Pow10(CoefficientDigits(f) - 1)
  {
    NinesBelow(CoefficientDigits(f));
  }

  lemma NinesBelow(n: nat)
    requires n >= 1
    ensures Nines(n) < 10 * Pow10(n - 1)
  {
    NinesIsPow10Minus1(n);
  }

  lemma QuotientBelow(x: int, p: int, k: int)
    requires 0 <= x < k * p && p >= 1
    ensures 0 <= x / p < k
  {
    if x / p >= k {
      DivMod(x, p);
      MulMonotonic(k, x / p, p);
    }
  }

  /**
    What the codec relies on from the DPD coder: encoding writes only the
    coefficient continuation and returns the leading digit; decoding reads
    only the coefficient continuation, inverts encoding (the signum giving
    the sign) and yields an in-range coefficient of that sign for every
    leading digit 0..9.
  */
  ghost predicate ValidCoder(coder: CoefficientCoder, f: DecimalFormat)
  {
    EncodeKeepsPrefix(coder, f) && DecodeInvertsEncode(coder, f) && DecodeReadsCoefficient(coder, f) && DecodeInRange(coder, f)
  }

  /** Encoding an in-range coefficient leaves the bits before the coefficient continuation alone. */
  ghost predicate EncodeKeepsPrefix(coder: CoefficientCoder, f: DecimalFormat)
  {
    forall c: int, b: seq<bv8> | |b| == FormatByteLength(f) && IsCoefficientInRange(f, c) ::
      SameBefore(coder.encodeValue(c, b).bytes, b, CoefficientStart(f))
      && coder.encodeValue(c, b).mostSignificantDigit == MostSignificantDigit(f, c)
  }

  /** Decoding what was encoded into clear bytes, with the coefficient's signum and leading digit, gives it back. */
  ghost predicate DecodeInvertsEncode(coder: CoefficientCoder, f: DecimalFormat)
  {
    forall signum: int, c: int, b: seq<bv8>
      | (signum == 1 || signum == -1) && |b| == FormatByteLength(f) && ZeroFrom(b, CoefficientStart(f))
        && IsCoefficientInRange(f, c) && (c == 0 || SignumOfInt(c) == signum) ::
      coder.decodeValue(signum, MostSignificantDigit(f, c), coder.encodeValue(c, b).bytes) == c
  }

  /** Decoding reads nothing before the coefficient continuation. */
  ghost predicate DecodeReadsCoefficient(coder: CoefficientCoder, f: DecimalFormat)
  {
    forall signum: int, digit: int, a: seq<bv8>, b: seq<bv8>
      | |a| == FormatByteLength(f) && SameFrom(a, b, CoefficientStart(f)) ::
      coder.decodeValue(signum, digit, a) == coder.decodeValue(signum, digit, b)
  }

  /** Every decoded coefficient is in range and zero or of the given signum. */
  ghost predicate DecodeInRange(coder: CoefficientCoder, f: DecimalFormat)
  {
    forall signum: int, digit: int, b: seq<bv8>
      | (signum == 1 || signum == -1) && 0 <= digit <= 9 && |b| == FormatByteLength(f) ::
      IsCoefficientInRange(f, coder.decodeValue(signum, digit, b))
      && (coder.decodeValue(signum, digit, b) == 0 || SignumOfInt(coder.decodeValue(signum, digit, b)) == signum)
  }

  /** The combination field G: bits 1 to 5, that is bits 2 to 6 of the first byte counted from the least significant. */
  function CombinationOf(firstByte: bv8): (g: nat)
    ensures g < 32
  {
    ((firstByte as int) / 4) % 32
  }

  /**
    DecimalType.fromFirstByte: G = 11110 is an infinity and G = 11111 a NaN,
    signalling when the next bit is set; every other G is a finite value.
  */
  function FromFirstByte(firstByte: bv8): (t: DecimalType)
    ensures t == Normal <==> CombinationOf(firstByte) < 30
  {
    var g := CombinationOf(firstByte);
    if g < 30 then Normal
    else if g == 30 then Infinity
    else if ((firstByte as int) / 2) % 2 == 0 then NaN
    else SignalingNaN
  }

  /** DecimalType.getSpecialBits: the canonical combination field and next bit of each special. */
  function SpecialBits(kind: SpecialType): (r: bv8)
    ensures r as int < 128 && FromFirstByte(r) == kind
  {
    match kind
    case Infinity => 0x78
    case NaN => 0x7C
    case SignalingNaN => 0x7E
  }

  /** NEGATIVE_BIT when the sign is negative. */
  function SignByte(sign: Sign): (r: bv8)
    ensures r as int == if sign == Negative then 128 else 0
  {
    if sign == Negative then 0x80 else 0
  }

  /** The array encodeDecimal prepares before encoding a value: the sign bit and zeros. */
  function SignedZeros(f: DecimalFormat, sign: Sign): (r: seq<bv8>)
    ensures |r| == FormatByteLength(f) && r[0] == SignByte(sign)
    ensures forall k :: 1 <= k < |r| ==> r[k] == 0
  {
    FormatLayout(f);
    Zeros(FormatByteLength(f))[0 := SignByte(sign)]
  }

  /** The canonical encoding of a special: the sign bit and the tag in byte 0, every other bit zero. */
  function SpecialEncoding(f: DecimalFormat, sign: Sign, kind: SpecialType): (r: seq<bv8>)
    ensures |r| == FormatByteLength(f) && r[0] as int == (SignByte(sign) as int) + (SpecialBits(kind) as int)
    ensures forall k :: 1 <= k < |r| ==> r[k] == 0
  {
    SignedZeros(f, sign)[0 := SignByte(sign) + SpecialBits(kind)]
  }

  /**
    The combination field of a finite value (section 3.5.2 of IEEE 754-2008):
    a leading digit up to 7 follows the two leading exponent bits; an 8 or 9
    is marked by 11, then the exponent bits, then the digit's last bit.
  */
  function CombinationField(digit: int, exponentTop: int): int
  {
    if digit <= 7 then 8 * exponentTop + digit else 24 + 2 * exponentTop + (digit - 8)
  }

  /** The two leading exponent bits a finite value's combination field G carries. */
  function CombinationExponent(g: int): int
  {
    if g >= 24 then (g / 2) % 4 else g / 8
  }

  /** exponentMSB: the four leading bits of the biased exponent, two from G and two from byte 0. */
  function LeadingExponentBits(firstByte: bv8): int
  {
    4 * CombinationExponent(CombinationOf(firstByte)) + firstByte as int % 4
  }

  /** The leading digit a finite value's combination field G carries. */
  function CombinationDigit(g: int): int
  {
    if g >= 24 then 8 + g % 2 else g % 8
  }

  /**
    The value bytes encode, read field by field: the sign bit, the kind
    from the combination field, and for a finite value the leading digit,
    the biased exponent (two bits from G, two from byte 0, the rest from bit
    8 on) and the coefficient the DPD coder reads.
  */
  function Decode(f: DecimalFormat, coder: CoefficientCoder, b: seq<bv8>): (r: Result<SimpleDecimal>)
    ensures r.Ok? <==> |b| == FormatByteLength(f)
    ensures r.Err? ==> r.error == ByteLengthMismatch(FormatByteLength(f))
    ensures r.Ok? ==> (r.value.sign == Negative <==> b[0] as int >= 128) && TypeOf(r.value) == FromFirstByte(b[0])
  {
    if |b| != FormatByteLength(f) then
      Err(ByteLengthMismatch(FormatByteLength(f)))
    else
      var first := b[0] as int;
      var sign := if first >= 128 then Negative else Positive;
      var kind := FromFirstByte(b[0]);
      if kind != Normal then
        Ok(Special(sign, kind))
      else
        var g := CombinationOf(b[0]);
        Ok(Finite(sign, coder.decodeValue(Signum(sign), CombinationDigit(g), b), FieldsExponent(f, b) - ExponentBias(f)))
  }

  /**
    The biased exponent of a finite value's bytes: two bits from the
    combination field, two from byte 0 and the rest from bit 8 on.
  */
  function FieldsExponent(f: DecimalFormat, b: seq<bv8>): int
    requires |b| == FormatByteLength(f)
  {
    var n := ExponentBitsRemaining(f);
    LeadingExponentBits(b[0]) * Pow2(n) + BitsValue(b, 8, n)
  }

  /**
    Byte 0 of a finite value: the sign bit, the combination field of the
    leading digit and the two top bits of the biased exponent, then the
    next two exponent bits; n exponent bits follow from bit 8 on.
  */
  function FiniteFirstByte(sign: Sign, digit: int, biased: int, n: nat): int
  {
    SignByte(sign) as int + 4 * CombinationField(digit, biased / Pow2(n + 2)) + (biased / Pow2(n)) % 4
  }

  /**
    b is the encoding of d: a special has its canonical encoding; a finite
    value has exponent and coefficient in range, byte 0 holds its sign, its
    combination field and two exponent bits, bits 8 on hold the remaining
    exponent bits, and the coefficient continuation is what the coder wrote.
  */
  ghost predicate EncodesAs(f: DecimalFormat, coder: CoefficientCoder, d: SimpleDecimal, b: seq<bv8>)
  {
    && |b| == FormatByteLength(f)
    && match d
      case Special(sign, kind) => b == SpecialEncoding(f, sign, kind)
      case Finite(sign, c, e) =>
        var n := ExponentBitsRemaining(f);
        var biased := BiasedExponent(f, e);
        && IsExponentInRange(f, e) && IsCoefficientInRange(f, c)
        && b[0] as int == FiniteFirstByte(sign, MostSignificantDigit(f, c), biased, n)
        && BitsValue(b, 8, n) == biased % Pow2(n)
        && SameFrom(b, coder.encodeValue(c, SignedZeros(f, sign)).bytes, CoefficientStart(f))
  }

  /** The bits of the exponent field that share a byte with whatever follows the field are clear. */
  ghost predicate LastFieldByteClear(s: seq<bv8>, n: nat)
    requires 8 + n <= 8 * |s|
  {
    n == 0 || BitsValue(s, 8 + 8 * ((n - 1) / 8), n - 8 * ((n - 1) / 8)) == 0
  }

  /** Java's (byte) cast of an int: its low eight bits, two's complement. */
  function LowByte(x: int): (r: bv8)
    ensures r as int == x % 256
  {
    ByteOf(x % 256)
  }

  /** DecimalCodec for one format and its DPD coder. */
  class DecimalCodec {
    const format: DecimalFormat
    const coder: CoefficientCoder

    ghost predicate Valid()
    {
      ValidCoder(coder, format)
    }

    /** The coder, built from coefficientDigits in the source, is a parameter here. */
    constructor (format: DecimalFormat, coder: CoefficientCoder)
      requires ValidCoder(coder, format)
      ensures this.format == format && this.coder == coder && Valid()
    {
      this.format := format;
      this.coder := coder;
    }

    /** parseBytes: the value the bytes encode, or the byte length error. */
    method ParseBytes(decBytes: array<bv8>) returns (r: Result<SimpleDecimal>)
      requires Valid()
      ensures r == Decode(format, coder, decBytes[..])
    {
      ghost var bytes := decBytes[..];
      var checked := ValidateByteLength(format, decBytes[..]);
      if checked.Err? {
        return Err(checked.error);
      }
      var firstByte := decBytes[0];
      // -1 * (firstByte >>> 7) | 1
      var signum := if firstByte >> 7 == 1 then -1 else 1;
      var decimalType := FromFirstByte(firstByte);
      FirstByteSign(firstByte);
      if decimalType != Normal {
        DecodeSpecial(format, coder, bytes, signum);
        return Ok(GetSpecialConstant(decimalType, signum));
      }
      var exponentMSB, firstDigit := ReadCombinationField(firstByte);
      var exponentBitsRemaining := ExponentBitsRemaining(format);
      var biased := DecodeExponent(decBytes, exponentMSB, exponentBitsRemaining);
      var exponent := biased - ExponentBias(format);
      var coefficient := coder.decodeValue(signum, firstDigit, decBytes[..]);
      DecodedSign(format, coder, decBytes[..], signum, firstDigit);
      DecodeFinite(format, coder, decBytes[..], signum, firstDigit, exponentMSB, biased, coefficient, exponent);
      return Ok(FromSignumAndCoefficient(signum, coefficient, exponent));
    }

    /**
      The finite branch of parseBytes on byte 0: exponentMSB and the first
      digit, laid out one way when the combination field starts with 11
      and another when it does not.
    */
    static method ReadCombinationField(firstByte: bv8) returns (exponentMSB: int, firstDigit: int)
      ensures exponentMSB == LeadingExponentBits(firstByte)
      ensures firstDigit == CombinationDigit(CombinationOf(firstByte))
    {
      if firstByte & 0x60 != 0x60 {
        exponentMSB := (((firstByte >> 3) & 0x0C) | (firstByte & 0x03)) as int;
        firstDigit := ((firstByte >> 2) & 0x07) as int;
        FirstByteLowDigit(firstByte);
      } else {
        exponentMSB := (((firstByte >> 1) & 0x0C) | (firstByte & 0x03)) as int;
        firstDigit := (0x08 | ((firstByte >> 2) & 0x01)) as int;
        FirstByteHighDigit(firstByte);
      }
    }

    /**
      encodeDecimal: the encoding of the value, or the range error of its
      exponent or coefficient.
    */
    method EncodeDecimal(decimal: SimpleDecimal) returns (r: Result<seq<bv8>>)
      requires Valid()
      ensures r.Ok? <==> (decimal.Finite? ==> IsExponentInRange(format, decimal.exponent) && IsCoefficientInRange(format, decimal.coefficient))
      ensures r.Ok? ==> EncodesAs(format, coder, decimal, r.value)
      ensures r.Err? && !IsExponentInRange(format, decimal.exponent) ==> r.error == IllegalExponent(decimal.exponent)
      ensures r.Err? && IsExponentInRange(format, decimal.exponent) ==> r.error == IllegalCoefficient(decimal.coefficient)
    {
      FormatLayout(format);
      var decBytes := new bv8[FormatByteLength(format)](_ => 0);
      if decimal.sign == Negative {
        decBytes[0] := 0x80;
      }
      assert decBytes[..] == SignedZeros(format, decimal.sign);
      if decimal.Finite? {
        var encoded := EncodeNormal(decimal, decBytes);
        if encoded.Err? {
          return Err(encoded.error);
        }
      } else {
        SpecialByte(decimal.sign, decimal.kind);
        decBytes[0] := decBytes[0] | SpecialBits(decimal.kind);
        assert decBytes[..] == SpecialEncoding(format, decimal.sign, decimal.kind);
      }
      return Ok(decBytes[..]);
    }

    /**
      encodeNormal: validates exponent and coefficient, lets the coder
      write the coefficient, ORs sign, combination field and two exponent
      bits into byte 0 and writes the remaining exponent bits.
    */
    method EncodeNormal(decimal: SimpleDecimal, decBytes: array<bv8>) returns (r: Result<()>)
      requires Valid() && decimal.Finite?
      requires decBytes[..] == SignedZeros(format, decimal.sign)
      modifies decBytes
      ensures r.Ok? <==> IsExponentInRange(format, decimal.exponent) && IsCoefficientInRange(format, decimal.coefficient)
      ensures r.Err? ==> decBytes[..] == old(decBytes[..])
      ensures r.Err? && !IsExponentInRange(format, decimal.exponent) ==> r.error == IllegalExponent(decimal.exponent)
      ensures r.Err? && IsExponentInRange(format, decimal.exponent) ==> r.error == IllegalCoefficient(decimal.coefficient)
      ensures r.Ok? ==> EncodesAs(format, coder, decimal, decBytes[..])
    {
      var exponent := DecimalFormats.ValidateExponent(format, decimal.exponent);
      if exponent.Err? {
        return Err(exponent.error);
      }
      var biasedExponent := exponent.value + ExponentBias(format);
      var coefficient := DecimalFormats.ValidateCoefficient(format, decimal.coefficient);
      if coefficient.Err? {
        CoefficientRangeIsDigitCount(format, decimal.coefficient);
        return Err(coefficient.error);
      }
      CoefficientRangeIsDigitCount(format, decimal.coefficient);
      var n := ExponentBitsRemaining(format);
      ghost var before := decBytes[..];
      var encoded := coder.encodeValue(coefficient.value, decBytes[..]);
      EncodedByCoder(format, coder, coefficient.value, before, encoded, n);
      forall i | 0 <= i < decBytes.Length {
        decBytes[i] := encoded.bytes[i];
      }
      assert decBytes[..] == encoded.bytes;
      var mostSignificantDigit := encoded.mostSignificantDigit;
      assert 8 + n <= 8 * decBytes.Length;
      var expMSB := biasedExponent / Pow2(n + 2);
      var expTwoBitCont := (biasedExponent / Pow2(n)) % 4;
      ExponentTopBound(format, biasedExponent, n, expMSB, expTwoBitCont);
      var signByte := decBytes[0];
      assert signByte == SignByte(decimal.sign);
      var combination: bv8;
      if mostSignificantDigit <= 7 {
        combination := LowDigitCombination(expMSB, mostSignificantDigit, expTwoBitCont);
      } else {
        combination := HighDigitCombination(expMSB, mostSignificantDigit, expTwoBitCont);
      }
      var first := WithSign(signByte, combination);
      ComposedFirstByte(decimal.sign, signByte, combination, first, mostSignificantDigit, biasedExponent, n, expMSB, expTwoBitCont);
      decBytes[0] := first;
      ghost var combined := decBytes[..];
      assert combined == encoded.bytes[0 := first];
      CoderLeavesFieldClear(combined, encoded.bytes, before, first, n);
      EncodeExponentContinuation(decBytes, biasedExponent, n);
      CoefficientKept(format, decBytes[..], combined, encoded.bytes, n, first);
      NormalEncoding(format, coder, decimal, decBytes[..], encoded, biasedExponent, n, first);
      return Ok(());
    }

    /**
      encodeExponentContinuation: writes the low expBitsRemaining bits of
      expAndBias from bit 8 on, whole bytes by assignment and the last,
      partial byte by OR. When that last byte had those bits clear, the
      field then holds expAndBias modulo 2^expBitsRemaining and nothing
      from the end of the field on has changed.
    */
    static method EncodeExponentContinuation(decBytes: array<bv8>, expAndBias: int, expBitsRemaining: nat)
      requires expAndBias >= 0 && 8 + expBitsRemaining <= 8 * decBytes.Length
      modifies decBytes
      ensures decBytes[0] == old(decBytes[0])
      ensures old(LastFieldByteClear(decBytes[..], expBitsRemaining)) ==>
        && BitsValue(decBytes[..], 8, expBitsRemaining) == expAndBias % Pow2(expBitsRemaining)
        && SameFrom(decBytes[..], old(decBytes[..]), 8 + expBitsRemaining)
    {
      ghost var n := expBitsRemaining;
      var expByteIndex: nat := 1;
      var remaining: nat := expBitsRemaining;
      while remaining > 8
        invariant expByteIndex >= 1 && n == remaining + 8 * (expByteIndex - 1)
        invariant 8 * expByteIndex + remaining <= 8 * decBytes.Length
        invariant expByteIndex > 1 ==> remaining > 0
        invariant decBytes[0] == old(decBytes[0])
        invariant forall k :: expByteIndex <= k < decBytes.Length ==> decBytes[k] == old(decBytes[k])
        invariant BitsValue(decBytes[..], 8, 8 * (expByteIndex - 1)) == (expAndBias / Pow2(remaining)) % Pow2(8 * (expByteIndex - 1))
      {
        ghost var prev := decBytes[..];
        // (byte) (expAndBias >>> (remaining - 8))
        decBytes[expByteIndex] := LowByte(expAndBias / Pow2(remaining - 8));
        WholeByteStep(prev, decBytes[..], expByteIndex, expAndBias, remaining);
        expByteIndex := expByteIndex + 1;
        remaining := remaining - 8;
      }
      if remaining > 0 {
        ghost var prev := decBytes[..];
        // (byte) (expAndBias << (8 - remaining))
        var shifted := LowByte(expAndBias * Pow2(8 - remaining));
        decBytes[expByteIndex] := decBytes[expByteIndex] | shifted;
        PartialByteWrite(prev, decBytes[..], old(decBytes[..]), expByteIndex, expAndBias, remaining, n, shifted);
      } else {
        assert n == 0;
      }
    }

    /**
      decodeExponent: exponentMSB followed by the exponentBitsRemaining bits
      from bit 8 on, read most significant first.
    */
    static method DecodeExponent(decBytes: array<bv8>, exponentMSB: int, exponentBitsRemaining: nat) returns (exponent: int)
      requires 8 + exponentBitsRemaining <= 8 * decBytes.Length
      ensures exponent == exponentMSB * Pow2(exponentBitsRemaining) + BitsValue(decBytes[..], 8, exponentBitsRemaining)
    {
      ghost var n := exponentBitsRemaining;
      exponent := exponentMSB;
      var byteIndex: nat := 1;
      var remaining: nat := exponentBitsRemaining;
      while remaining > 8
        invariant byteIndex >= 1 && n == remaining + 8 * (byteIndex - 1)
        invariant exponent == exponentMSB * Pow2(8 * (byteIndex - 1)) + BitsValue(decBytes[..], 8, 8 * (byteIndex - 1))
      {
        // (exponent << 8) | (decBytes[byteIndex] & 0xFF): the shifted value has its low eight bits clear
        exponent := exponent * 256 + decBytes[byteIndex] as int;
        ReadWholeByte(decBytes[..], byteIndex, exponentMSB);
        remaining := remaining - 8;
        byteIndex := byteIndex + 1;
      }
      if remaining > 0 {
        // (exponent << remaining) | ((decBytes[byteIndex] & 0xFF) >>> (8 - remaining))
        exponent := exponent * Pow2(remaining) + (decBytes[byteIndex] as int) / Pow2(8 - remaining);
        ReadPartialByte(decBytes[..], byteIndex, remaining, exponentMSB);
        SameWidth(decBytes[..], exponentMSB, 8 * (byteIndex - 1) + remaining, exponentBitsRemaining);
      } else {
        SameWidth(decBytes[..], exponentMSB, 8 * (byteIndex - 1), exponentBitsRemaining);
      }
    }
  }

  // ---- byte 0 ----

  lemma FirstByteSign(fb: bv8)
    ensures (fb >> 7 == 1) <==> fb as int >= 128
  {
  }

  /** Without the 11 marker, byte 0 holds the two top exponent bits, then the digit, then two more exponent bits. */
  lemma FirstByteLowDigit(fb: bv8)
    requires (fb & 0x60) != 0x60
    ensures (((fb >> 3) & 0x0C) | (fb & 0x03)) as int == LeadingExponentBits(fb)
    ensures ((fb >> 2) & 0x07) as int == CombinationDigit(CombinationOf(fb))
  {
    FirstByteLowFields(fb);
  }

  lemma FirstByteLowFields(fb: bv8)
    ensures ((fb & 0x60) != 0x60) <==> CombinationOf(fb) < 24
    ensures (((fb >> 3) & 0x0C) | (fb & 0x03)) as int == 4 * (CombinationOf(fb) / 8) + fb as int % 4
    ensures ((fb >> 2) & 0x07) as int == CombinationOf(fb) % 8
  {
    var e, m, t := ((fb >> 5) & 3) as int, ((fb >> 2) & 7) as int, (fb & 3) as int;
    FirstByteBits(fb);
    FirstByteDigits(fb as int, (fb >> 7) as int, e, m, t);
    MarkerField(fb);
    LowExponentField(fb);
  }

  /** With the 11 marker, byte 0 holds the two top exponent bits after it, then the digit's last bit, then two more exponent bits. */
  lemma FirstByteHighDigit(fb: bv8)
    requires (fb & 0x60) == 0x60
    ensures (((fb >> 1) & 0x0C) | (fb & 0x03)) as int == LeadingExponentBits(fb)
    ensures (0x08 | ((fb >> 2) & 0x01)) as int == CombinationDigit(CombinationOf(fb))
  {
    FirstByteHighFields(fb);
  }

  lemma FirstByteHighFields(fb: bv8)
    ensures ((fb & 0x60) != 0x60) <==> CombinationOf(fb) < 24
    ensures (((fb >> 1) & 0x0C) | (fb & 0x03)) as int == 4 * ((CombinationOf(fb) / 2) % 4) + fb as int % 4
    ensures (0x08 | ((fb >> 2) & 0x01)) as int == 8 + CombinationOf(fb) % 2
  {
    var e, m, t := ((fb >> 5) & 3) as int, ((fb >> 2) & 7) as int, (fb & 3) as int;
    var h, d := ((fb >> 3) & 3) as int, ((fb >> 2) & 1) as int;
    FirstByteBits(fb);
    FirstByteDigits(fb as int, (fb >> 7) as int, e, m, t);
    MarkerField(fb);
    DigitField(fb);
    HighExponentField(fb);
    HighDigitField(fb);
    CombinationHalves(CombinationOf(fb), e, h, d);
  }

  /** Byte 0 as its fields: the sign bit, two bits, three bits and two bits. */
  lemma FirstByteBits(fb: bv8)
    ensures fb as int == 128 * (fb >> 7) as int + 32 * ((fb >> 5) & 3) as int + 4 * ((fb >> 2) & 7) as int + (fb & 3) as int
  {
  }

  lemma FirstByteDigits(x: int, a: int, e: int, m: int, t: int)
    requires x == 128 * a + 32 * e + 4 * m + t
    requires 0 <= a && 0 <= e < 4 && 0 <= m < 8 && 0 <= t < 4
    ensures (x / 4) % 32 == 8 * e + m && x % 4 == t
  {
    DivModUnique(x, 4, 32 * a + 8 * e + m, t);
    DivModUnique(32 * a + 8 * e + m, 32, a, 8 * e + m);
  }

  lemma MarkerField(fb: bv8)
    ensures ((fb & 0x60) != 0x60) <==> ((fb >> 5) & 3) as int != 3
  {
  }

  lemma LowExponentField(fb: bv8)
    ensures (((fb >> 3) & 0x0C) | (fb & 0x03)) as int == 4 * ((fb >> 5) & 3) as int + (fb & 3) as int
  {
    assert ((fb >> 3) & 0x0C) | (fb & 0x03) == 4 * ((fb >> 5) & 3) + (fb & 3);
    FourTimesPlus((fb >> 5) & 3, fb & 3);
  }

  lemma FourTimesPlus(u: bv8, v: bv8)
    requires u < 4 && v < 4
    ensures (4 * u + v) as int == 4 * u as int + v as int
  {
  }

  /** The three bits after the exponent pair: two more bits and the last one. */
  lemma DigitField(fb: bv8)
    ensures ((fb >> 2) & 7) as int == 2 * ((fb >> 3) & 3) as int + ((fb >> 2) & 1) as int
  {
  }

  lemma HighExponentField(fb: bv8)
    ensures (((fb >> 1) & 0x0C) | (fb & 0x03)) as int == 4 * ((fb >> 3) & 3) as int + (fb & 3) as int
  {
    assert ((fb >> 1) & 0x0C) | (fb & 0x03) == 4 * ((fb >> 3) & 3) + (fb & 3);
    FourTimesPlus((fb >> 3) & 3, fb & 3);
  }

  lemma HighDigitField(fb: bv8)
    ensures (0x08 | ((fb >> 2) & 0x01)) as int == 8 + ((fb >> 2) & 1) as int
  {
  }

  lemma CombinationHalves(g: int, e: int, h: int, d: int)
    requires g == 8 * e + 2 * h + d && 0 <= h < 4 && 0 <= d < 2
    ensures (g / 2) % 4 == h && g % 2 == d
  {
    DivModUnique(g, 2, 4 * e + h, d);
    DivModUnique(4 * e + h, 4, e, h);
  }

  /**
    The first-byte table: with the sign bit ignored, 11110 followed by
    anything is an infinity, 11111 then 0 a quiet NaN, 11111 then 1 a
    signalling NaN, and every byte without 1111 after the sign bit is finite.
  */
  lemma FromFirstByteTable(fb: bv8)
    ensures FromFirstByte(fb) == Normal <==> fb & 0x78 != 0x78
    ensures FromFirstByte(fb) == Infinity <==> fb & 0x7C == 0x78
    ensures FromFirstByte(fb) == NaN <==> fb & 0x7E == 0x7C
    ensures FromFirstByte(fb) == SignalingNaN <==> fb & 0x7E == 0x7E
  {
    var e, m, t := ((fb >> 5) & 3) as int, ((fb >> 2) & 7) as int, (fb & 3) as int;
    FirstByteBits(fb);
    FirstByteDigits(fb as int, (fb >> 7) as int, e, m, t);
    SpecialMasks(fb);
    NextBit(fb as int, 32 * (fb >> 7) as int + 8 * e + m, t);
  }

  /** The masks of the first-byte table, read as the exponent pair, the digit field and the last two bits. */
  lemma SpecialMasks(fb: bv8)
    ensures fb & 0x78 == 0x78 <==> ((fb >> 5) & 3) as int == 3 && ((fb >> 2) & 7) as int >= 6
    ensures fb & 0x7C == 0x78 <==> ((fb >> 5) & 3) as int == 3 && ((fb >> 2) & 7) as int == 6
    ensures fb & 0x7E == 0x7C <==> ((fb >> 5) & 3) as int == 3 && ((fb >> 2) & 7) as int == 7 && (fb & 3) as int < 2
    ensures fb & 0x7E == 0x7E <==> ((fb >> 5) & 3) as int == 3 && ((fb >> 2) & 7) as int == 7 && (fb & 3) as int >= 2
  {
  }

  /** The bit after the combination field is the high bit of the last two. */
  lemma NextBit(x: int, k: int, t: int)
    requires x == 4 * k + t && 0 <= t < 4
    ensures (x / 2) % 2 == t / 2
  {
    DivModUnique(x, 2, 2 * k + t / 2, t % 2);
    DivModUnique(2 * k + t / 2, 2, k, t / 2);
  }

  /** The fields parseBytes reads from a finite value's bytes are the ones Decode reads. */
  lemma DecodeFinite(f: DecimalFormat, coder: CoefficientCoder, b: seq<bv8>, signum: int, digit: int, exponentMSB: int,
                     biased: int, coefficient: int, exponent: int)
    requires |b| == FormatByteLength(f) && FromFirstByte(b[0]) == Normal
    requires signum == if b[0] as int >= 128 then -1 else 1
    requires digit == CombinationDigit(CombinationOf(b[0]))
    requires exponentMSB == LeadingExponentBits(b[0])
    requires biased == exponentMSB * Pow2(ExponentBitsRemaining(f)) + BitsValue(b, 8, ExponentBitsRemaining(f))
    requires exponent == biased - ExponentBias(f)
    requires coefficient == coder.decodeValue(signum, digit, b)
    requires coefficient == 0 || signum == SignumOfInt(coefficient)
    ensures Decode(f, coder, b) == Ok(FromSignumAndCoefficient(signum, coefficient, exponent))
  {
    var d := Decode(f, coder, b).value;
    assert d.sign == SignOf(signum);
    assert d.coefficient == coefficient;
    assert d.exponent == exponent;
  }

  /** The special parseBytes returns for a non-finite first byte is the one Decode reads. */
  lemma DecodeSpecial(f: DecimalFormat, coder: CoefficientCoder, b: seq<bv8>, signum: int)
    requires |b| == FormatByteLength(f) && FromFirstByte(b[0]) != Normal
    requires signum == if b[0] as int >= 128 then -1 else 1
    ensures Decode(f, coder, b) == Ok(GetSpecialConstant(FromFirstByte(b[0]), signum))
  {
  }

  /** A coefficient the coder decodes under a signum is zero or has that signum. */
  lemma DecodedSign(f: DecimalFormat, coder: CoefficientCoder, b: seq<bv8>, signum: int, digit: int)
    requires DecodeInRange(coder, f) && |b| == FormatByteLength(f) && (signum == 1 || signum == -1) && 0 <= digit <= 9
    ensures var c := coder.decodeValue(signum, digit, b); c == 0 || signum == SignumOfInt(c)
    ensures IsCoefficientInRange(f, coder.decodeValue(signum, digit, b))
  {
  }

  /**
    What encodeNormal ORs into byte 0 for a leading digit up to 7:
    (expMSB << 5) | (digit << 2) | expTwoBitCont, the combination field
    followed by two exponent bits.
  */
  function LowDigitCombination(top: int, digit: int, two: int): (r: bv8)
    requires 0 <= top <= 2 && 0 <= digit <= 7 && 0 <= two <= 3
    ensures r as int == 4 * CombinationField(digit, top) + two
  {
    var e, m, t := ByteOf(top), ByteOf(digit), ByteOf(two);
    LowDigitCombinationBits(e, m, t);
    (e << 5) | (m << 2) | t
  }

  /** The byte encodeNormal composes is byte 0 of the value's encoding. */
  lemma ComposedFirstByte(sign: Sign, signByte: bv8, combination: bv8, first: bv8, digit: int, biased: int, n: nat,
                          top: int, two: int)
    requires signByte == SignByte(sign)
    requires top == biased / Pow2(n + 2) && two == (biased / Pow2(n)) % 4
    requires combination as int == 4 * CombinationField(digit, top) + two
    requires first as int == signByte as int + combination as int
    ensures first as int == FiniteFirstByte(sign, digit, biased, n)
  {
  }

  /** signByte | combination: OR-ing a byte below 128 into the sign byte adds it. */
  function WithSign(s: bv8, x: bv8): (r: bv8)
    requires s == 0 || s == 0x80
    requires x as int < 128
    ensures r as int == s as int + x as int
  {
    s | x
  }

  lemma LowDigitCombinationBits(e: bv8, m: bv8, t: bv8)
    requires e as int <= 2 && m as int <= 7 && t as int <= 3
    ensures ((e << 5) | (m << 2) | t) as int == 32 * (e as int) + 4 * (m as int) + t as int
  {
  }

  /**
    What encodeNormal ORs into byte 0 for a leading digit 8 or 9:
    0b1100000 | (expMSB << 3) | ((digit & 1) << 2) | expTwoBitCont.
  */
  function HighDigitCombination(top: int, digit: int, two: int): (r: bv8)
    requires 0 <= top <= 2 && 8 <= digit <= 9 && 0 <= two <= 3
    ensures r as int == 4 * CombinationField(digit, top) + two
  {
    var e, m, t := ByteOf(top), ByteOf(digit), ByteOf(two);
    HighDigitCombinationBits(e, m, t);
    0x60 | (e << 3) | ((m & 0x01) << 2) | t
  }

  lemma HighDigitCombinationBits(e: bv8, m: bv8, t: bv8)
    requires e as int <= 2 && 8 <= m as int <= 9 && t as int <= 3
    ensures (0x60 | (e << 3) | ((m & 0x01) << 2) | t) as int == 96 + 8 * (e as int) + 4 * (m as int - 8) + t as int
  {
  }

  lemma SpecialByte(sign: Sign, kind: SpecialType)
    ensures SignByte(sign) | SpecialBits(kind) == SignByte(sign) + SpecialBits(kind)
  {
  }

  /** A biased exponent up to eLimit has at most 2 in its two top bits. */
  lemma ExponentTopBound(f: DecimalFormat, biased: int, n: nat, top: int, two: int)
    requires 0 <= biased <= ELimit(f) && n == ExponentBitsRemaining(f)
    requires top == biased / Pow2(n + 2) && two == (biased / Pow2(n)) % 4
    ensures 0 <= top <= 2 && 0 <= two <= 3
  {
    BiasedExponentBound(f, biased, n);
    QuotientBelow(biased, Pow2(n + 2), 3);
  }

  /** eLimit is 3 * 2^ecb - 1: three values of the two top bits, then any ecb bits. */
  lemma BiasedExponentBound(f: DecimalFormat, biased: int, n: nat)
    requires biased <= ELimit(f) && n == ExponentBitsRemaining(f)
    ensures biased < 3 * Pow2(n + 2)
  {
    FormatLayout(f);
  }

  /**
    The bytes encodeNormal leaves: byte 0 as composed, the exponent field
    as written and, from the coefficient continuation on, the coder's
    bytes. That is the encoding of the value.
  */
  lemma NormalEncoding(f: DecimalFormat, coder: CoefficientCoder, d: SimpleDecimal, b: seq<bv8>,
                       encoded: EncodedCoefficient, biased: int, n: nat, first: bv8)
    requires d.Finite? && IsExponentInRange(f, d.exponent) && IsCoefficientInRange(f, d.coefficient)
    requires n == ExponentBitsRemaining(f) && biased == BiasedExponent(f, d.exponent)
    requires encoded == coder.encodeValue(d.coefficient, SignedZeros(f, d.sign))
    requires |b| == FormatByteLength(f) && b[0] == first
    requires first as int == FiniteFirstByte(d.sign, MostSignificantDigit(f, d.coefficient), biased, n)
    requires BitsValue(b, 8, n) == biased % Pow2(n)
    requires SameFrom(b, encoded.bytes, CoefficientStart(f))
    ensures EncodesAs(f, coder, d, b)
  {
  }

  /** Bytes that agree with the coder's output but for byte 0, from the coefficient continuation on. */
  lemma CoefficientKept(f: DecimalFormat, b: seq<bv8>, combined: seq<bv8>, encoded: seq<bv8>, n: nat, first: bv8)
    requires n == ExponentBitsRemaining(f)
    requires |encoded| == |b| == FormatByteLength(f) && combined == encoded[0 := first]
    requires SameFrom(b, combined, 8 + n)
    ensures SameFrom(b, encoded, CoefficientStart(f))
  {
    var t := CoefficientStart(f);
    assert t == 8 + n;
    SameFromPastFirstByte(b, encoded, combined, first, t);
  }

  /** What the codec takes from the coder when it encodes an in-range coefficient. */
  lemma EncodedByCoder(f: DecimalFormat, coder: CoefficientCoder, c: int, b: seq<bv8>, encoded: EncodedCoefficient, n: nat)
    requires EncodeKeepsPrefix(coder, f) && |b| == FormatByteLength(f) && IsCoefficientInRange(f, c)
    requires encoded == coder.encodeValue(c, b) && n == ExponentBitsRemaining(f)
    ensures SameBefore(encoded.bytes, b, 8 + n)
    ensures encoded.mostSignificantDigit == MostSignificantDigit(f, c) && 0 <= encoded.mostSignificantDigit <= 9
  {
    var t := CoefficientStart(f);
    assert SameBefore(encoded.bytes, b, t);
    assert t == 8 + n;
  }

  // ---- exponent continuation ----

  /**
    The coder keeps the bits before the coefficient continuation, which
    start out clear, and byte 0 is all that changes after it: the bits of
    the exponent field that share a byte with the coefficient are clear.
  */
  lemma CoderLeavesFieldClear(combined: seq<bv8>, encoded: seq<bv8>, before: seq<bv8>, first: bv8, n: nat)
    requires |encoded| == |before| == |combined| && 8 + n <= 8 * |combined|
    requires combined == encoded[0 := first]
    requires SameBefore(encoded, before, 8 + n)
    requires forall k :: 1 <= k < |before| ==> before[k] == 0
    ensures LastFieldByteClear(combined, n)
  {
    if n > 0 {
      var k, r := 1 + (n - 1) / 8, n - 8 * ((n - 1) / 8);
      LastFieldByteIndex(n, k, r);
      assert combined[k] == encoded[k];
      ByteAboveSplit(encoded, before, 8 + n, k, r);
      ByteWindow(combined, k, r);
    }
  }

  /** The exponent field of n > 0 bits from bit 8 on ends in byte k, after its r leading bits. */
  lemma LastFieldByteIndex(n: nat, k: nat, r: nat)
    requires n > 0 && k == 1 + (n - 1) / 8 && r == n - 8 * ((n - 1) / 8)
    ensures 8 * k + r == 8 + n && 0 < r <= 8 && k >= 1
  {
  }

  lemma ZeroQuotient(p: int)
    requires p >= 1
    ensures 0 / p == 0
  {
  }

  /** The bits of byte k before bit t = 8k + r agree with a zero byte, so they are clear. */
  lemma ByteAboveSplit(a: seq<bv8>, b: seq<bv8>, t: nat, k: nat, r: nat)
    requires SameBefore(a, b, t) && t == 8 * k + r && 0 < r <= 8 && k < |a| && b[k] == 0
    ensures (a[k] as int) / Pow2(8 - r) == 0
  {
    var p := Pow2(8 - r);
    ZeroQuotient(p);
    if r == 8 {
      assert t / 8 == k + 1;
      assert a[k] == b[k];
    } else {
      assert t / 8 == k && t % 8 == r;
      assert (a[k] as int) / p == (b[k] as int) / p;
    }
  }

  /**
    What decodeExponent returns for the exponent examples of the codec
    tests: exponentMSB 1 followed by 6, 3 and 8 bits from byte 1, and by
    10 bits from bytes 1 and 2.
  */
  lemma DecodeExponentSixBits(b: seq<bv8>)
    requires b == [0xFF, 0x04] || b == [0xFF, 0x0F] || b == [0xFF, 0x80]
    ensures b[1] == 0x04 ==> 1 * Pow2(6) + BitsValue(b, 8, 6) == 0x41
    ensures b[1] == 0x0F ==> 1 * Pow2(6) + BitsValue(b, 8, 6) == 0x43
    ensures b[1] == 0x80 ==> 1 * Pow2(6) + BitsValue(b, 8, 6) == 0x60
  {
    ExponentFromByteOne(b, 6);
    assert Pow2(6) == 64 && Pow2(2) == 4;
  }

  lemma DecodeExponentThreeBits(b: seq<bv8>)
    requires b == [0xFF, 0x80]
    ensures 1 * Pow2(3) + BitsValue(b, 8, 3) == 0x0C
  {
    ExponentFromByteOne(b, 3);
    assert Pow2(3) == 8 && Pow2(5) == 32;
  }

  lemma DecodeExponentEightBits(b: seq<bv8>)
    requires b == [0xFF, 0x0C]
    ensures 1 * Pow2(8) + BitsValue(b, 8, 8) == 0x10C
  {
    ExponentFromByteOne(b, 8);
    assert Pow2(8) == 256 && Pow2(0) == 1;
  }

  lemma DecodeExponentTenBits(b: seq<bv8>)
    requires b == [0xFF, 0x0C, 0xFF]
    ensures 1 * Pow2(10) + BitsValue(b, 8, 10) == 0x433
  {
    ExponentFromTwoBytes(b, 2);
    assert Pow2(10) == 1024 && Pow2(2) == 4 && Pow2(6) == 64;
  }

  lemma ExponentFromByteOne(b: seq<bv8>, r: nat)
    requires 2 <= |b| && r <= 8
    ensures Pow2(r) + BitsValue(b, 8, r) == Pow2(r) + (b[1] as int) / Pow2(8 - r)
  {
    ByteWindow(b, 1, r);
  }

  lemma ExponentFromTwoBytes(b: seq<bv8>, r: nat)
    requires 3 <= |b| && r <= 8
    ensures Pow2(8 + r) + BitsValue(b, 8, 8 + r) == Pow2(8 + r) + (b[1] as int) * Pow2(r) + (b[2] as int) / Pow2(8 - r)
  {
    BitsSplit(b, 8, 8, r);
    ByteValue(b, 1);
    ByteWindow(b, 2, r);
  }

  /** The exponent read over a width written one way is the one read over the same width written another. */
  lemma SameWidth(b: seq<bv8>, msb: int, m: nat, n: nat)
    requires m == n && 8 + n <= 8 * |b|
    ensures msb * Pow2(m) + BitsValue(b, 8, m) == msb * Pow2(n) + BitsValue(b, 8, n)
  {
  }

  /**
    The decimal32 vectors of the conversion tests, field by field:
    A1C003D0 is negative with leading digit 0 and exponent -9 (it is
    -750E-9, the coder supplying 750), and C7F4D2E7 is negative with
    leading digit 1 and exponent 90 (it is -1234567E+90).
  */
  lemma DecodeVectorA1C003D0(coder: CoefficientCoder, b: seq<bv8>)
    requires b == [0xA1, 0xC0, 0x03, 0xD0]
    ensures Decode(Decimal32, coder, b) == Ok(Finite(Negative, coder.decodeValue(-1, 0, b), -9))
  {
    Decimal32Fields();
    ExponentFromByteOne(b, 4);
    assert FieldsExponent(Decimal32, b) == 92;
  }

  lemma DecodeVectorC7F4D2E7(coder: CoefficientCoder, b: seq<bv8>)
    requires b == [0xC7, 0xF4, 0xD2, 0xE7]
    ensures Decode(Decimal32, coder, b) == Ok(Finite(Negative, coder.decodeValue(-1, 1, b), 90))
  {
    Decimal32Fields();
    ExponentFromByteOne(b, 4);
    assert FieldsExponent(Decimal32, b) == 191;
  }

  /** Encoding -750E-9 in decimal32 gives first byte A1 and C as the next four bits, as in A1C003D0. */
  lemma EncodeVectorA1C003D0(coder: CoefficientCoder, b: seq<bv8>)
    requires EncodesAs(Decimal32, coder, Finite(Negative, -750, -9), b)
    ensures b[0] == 0xA1 && BitsValue(b, 8, 4) == 0xC
  {
    Decimal32Fields();
    LeadingDigitOf750();
    assert b[0] as int == FiniteFirstByte(Negative, 0, 92, 4);
    FirstByteOf750();
  }

  lemma LeadingDigitOf750()
    ensures MostSignificantDigit(Decimal32, -750) == 0
  {
    Decimal32Fields();
    Pow10Seven();
    assert Pow10(6) == 1000000;
  }

  lemma FirstByteOf750()
    ensures FiniteFirstByte(Negative, 0, 92, 4) == 0xA1
  {
    assert Pow2(6) == 64 && Pow2(4) == 16;
  }

  lemma Decimal32Fields()
    ensures FormatByteLength(Decimal32) == 4 && ExponentBitsRemaining(Decimal32) == 4 && ExponentBias(Decimal32) == 101
    ensures Pow2(4) == 16
  {
    FormatConstants(Decimal32);
  }

  /** Reading one more whole byte shifts the value left by eight bits. */
  lemma ReadWholeByte(b: seq<bv8>, k: nat, msb: int)
    requires 1 <= k < |b|
    ensures (msb * Pow2(8 * (k - 1)) + BitsValue(b, 8, 8 * (k - 1))) * 256 + b[k] as int
      == msb * Pow2(8 * k) + BitsValue(b, 8, 8 * k)
  {
    FieldThenWholeByte(b, k);
    ShiftByOneByte(k);
    ShiftIn(msb, Pow2(8 * (k - 1)), BitsValue(b, 8, 8 * (k - 1)), 256, b[k] as int, Pow2(8 * k), BitsValue(b, 8, 8 * k));
  }

  lemma ShiftByOneByte(k: nat)
    requires k >= 1
    ensures Pow2(8 * k) == Pow2(8 * (k - 1)) * 256
  {
    var a := 8 * (k - 1);
    Pow2Add(a, 8);
    assert Pow2(8) == 256;
    assert a + 8 == 8 * k;
  }

  /** The exponent bits up to the end of byte k. */
  lemma FieldThenWholeByte(b: seq<bv8>, k: nat)
    requires 1 <= k < |b|
    ensures BitsValue(b, 8, 8 * k) == BitsValue(b, 8, 8 * (k - 1)) * 256 + b[k] as int
  {
    // a width that is 8 without being the literal keeps the solver from unfolding the field bit by bit
    var r: nat :| r == 8;
    FieldThenByte(b, k, r, 8 * k);
    WholeByteWidth(r);
    Substitute(BitsValue(b, 8, 8 * k), BitsValue(b, 8, 8 * (k - 1)), Pow2(r), b[k] as int, Pow2(8 - r));
  }

  lemma Substitute(total: int, v: int, p: int, w: int, d: int)
    requires p == 256 && d == 1 && total == v * p + w / d
    ensures total == v * 256 + w
  {
  }

  lemma WholeByteWidth(r: nat)
    requires r == 8
    ensures Pow2(r) == 256 && Pow2(8 - r) == 1
  {
  }

  /** Reading the leading r bits of the next byte shifts the value left by r bits. */
  lemma ReadPartialByte(b: seq<bv8>, k: nat, r: nat, msb: int)
    requires 1 <= k < |b| && 0 < r <= 8
    ensures (msb * Pow2(8 * (k - 1)) + BitsValue(b, 8, 8 * (k - 1))) * Pow2(r) + (b[k] as int) / Pow2(8 - r)
      == msb * Pow2(8 * (k - 1) + r) + BitsValue(b, 8, 8 * (k - 1) + r)
  {
    var m := 8 * (k - 1);
    FieldThenByte(b, k, r, m + r);
    Pow2Add(m, r);
    ShiftIn(msb, Pow2(m), BitsValue(b, 8, m), Pow2(r), (b[k] as int) / Pow2(8 - r), Pow2(m + r), BitsValue(b, 8, m + r));
  }

  /** The exponent bits up to the leading r bits of byte k, which end at bit 8 + m. */
  lemma FieldThenByte(b: seq<bv8>, k: nat, r: nat, m: nat)
    requires 1 <= k < |b| && 0 < r <= 8 && m == 8 * (k - 1) + r
    ensures BitsValue(b, 8, m) == BitsValue(b, 8, 8 * (k - 1)) * Pow2(r) + (b[k] as int) / Pow2(8 - r)
  {
    BitsSplit(b, 8, 8 * (k - 1), r);
    ByteWindow(b, k, r);
  }

  /** (m * p + v) shifted by q, with w joined below, read as m above a field of value v * q + w. */
  lemma ShiftIn(m: int, p: int, v: int, q: int, w: int, pq: int, vw: int)
    requires pq == p * q && vw == v * q + w
    ensures (m * p + v) * q + w == m * pq + vw
  {
    assert (m * p + v) * q == m * (p * q) + v * q;
  }

  /** Writing byte k with the next eight bits of e extends the field written so far. */
  lemma WholeByteStep(prev: seq<bv8>, next: seq<bv8>, k: nat, e: int, remaining: nat)
    requires 1 <= k < |prev| && remaining > 8 && e >= 0
    requires |next| == |prev| && (forall j :: 0 <= j < |prev| && j != k ==> next[j] == prev[j])
    requires next[k] as int == (e / Pow2(remaining - 8)) % 256
    requires BitsValue(prev, 8, 8 * (k - 1)) == (e / Pow2(remaining)) % Pow2(8 * (k - 1))
    ensures BitsValue(next, 8, 8 * k) == (e / Pow2(remaining - 8)) % Pow2(8 * k)
  {
    FieldThenWholeByte(next, k);
    PrefixKept(prev, next, k, 8 * (k - 1));
    Pow2PlusEight(remaining - 8);
    assert remaining - 8 + 8 == remaining;
    ShiftByOneByte(k);
    ByteStepArith(e, Pow2(remaining - 8), Pow2(remaining), Pow2(8 * (k - 1)), Pow2(8 * k),
      BitsValue(prev, 8, 8 * (k - 1)), next[k] as int);
  }

  lemma ByteStepArith(e: int, p: int, p8: int, q: int, q8: int, v: int, y: int)
    requires e >= 0 && p > 0 && q > 0 && p8 == p * 256 && q8 == 256 * q
    requires v == (e / p8) % q && y == (e / p) % 256
    ensures v * 256 + y == (e / p) % q8
  {
    DivDiv(e, p, 256);
    ModSplit(e / p, 256, q);
  }

  /** Writing bytes from k on leaves a field that ends by byte k alone. */
  lemma {:induction false} PrefixKept(prev: seq<bv8>, next: seq<bv8>, k: nat, len: nat)
    requires |next| == |prev| && 8 + len <= 8 * k <= 8 * |prev|
    requires forall j :: 0 <= j < k ==> next[j] == prev[j]
    ensures BitsValue(next, 8, len) == BitsValue(prev, 8, len)
  {
    if len > 0 {
      PrefixKept(prev, next, k, len - 1);
      assert (8 + len - 1) / 8 < k;
    }
  }

  lemma Pow2PlusEight(a: nat)
    ensures Pow2(a + 8) == Pow2(a) * 256
  {
    Pow2Add(a, 8);
    Pow2Eight();
  }

  lemma Pow2Complement(r: nat)
    requires r <= 8
    ensures Pow2(8 - r) * Pow2(r) == 256
  {
    Pow2Add(8 - r, r);
    Pow2Eight();
  }

  lemma Pow2Eight()
    ensures Pow2(8) == 256
  {
  }

  /**
    The last step of encodeExponentContinuation: OR-ing the low r bits of e
    into the top of byte k completes the field, provided those bits were
    clear to begin with.
  */
  lemma PartialByteWrite(prev: seq<bv8>, next: seq<bv8>, original: seq<bv8>, k: nat, e: int, r: nat, n: nat, shifted: bv8)
    requires 1 <= k < |prev| && 0 < r <= 8 && e >= 0 && n == r + 8 * (k - 1) && 8 + n <= 8 * |prev|
    requires |original| == |prev| && forall j :: k <= j < |prev| ==> prev[j] == original[j]
    requires |next| == |prev| && (forall j :: 0 <= j < |prev| && j != k ==> next[j] == prev[j])
    requires shifted as int == (e * Pow2(8 - r)) % 256 && next[k] == prev[k] | shifted
    requires BitsValue(prev, 8, 8 * (k - 1)) == (e / Pow2(r)) % Pow2(8 * (k - 1))
    ensures LastFieldByteClear(original, n) ==>
      BitsValue(next, 8, n) == e % Pow2(n) && SameFrom(next, original, 8 + n)
  {
    if LastFieldByteClear(original, n) {
      LastFieldByte(original, n, k, r);
      PartialByte(prev[k], shifted, e, r);
      PartialByteStep(prev, next, original, k, e, r, n);
    }
  }

  lemma PartialByteStep(prev: seq<bv8>, next: seq<bv8>, original: seq<bv8>, k: nat, e: int, r: nat, n: nat)
    requires 1 <= k < |prev| && 0 < r <= 8 && e >= 0 && n == r + 8 * (k - 1)
    requires |original| == |prev| && forall j :: k <= j < |prev| ==> prev[j] == original[j]
    requires |next| == |prev| && (forall j :: 0 <= j < |prev| && j != k ==> next[j] == prev[j])
    requires (next[k] as int) / Pow2(8 - r) == e % Pow2(r)
    requires (next[k] as int) % Pow2(8 - r) == prev[k] as int % Pow2(8 - r)
    requires BitsValue(prev, 8, 8 * (k - 1)) == (e / Pow2(r)) % Pow2(8 * (k - 1))
    ensures BitsValue(next, 8, n) == e % Pow2(n)
    ensures SameFrom(next, original, 8 + n)
  {
    FieldThenByte(next, k, r, n);
    PrefixKept(prev, next, k, 8 * (k - 1));
    Pow2Add(8 * (k - 1), r);
    PartialStepArith(e, Pow2(r), Pow2(8 * (k - 1)), Pow2(n),
      BitsValue(prev, 8, 8 * (k - 1)), (next[k] as int) / Pow2(8 - r), BitsValue(next, 8, n));
    LastByteKept(next, original, k, r, n);
  }

  lemma PartialStepArith(e: int, q: int, h: int, qh: int, v: int, w: int, total: int)
    requires e >= 0 && q > 0 && h > 0 && qh == h * q
    requires v == (e / q) % h && w == e % q && total == v * q + w
    ensures total == e % qh
  {
    ModSplit(e, q, h);
  }

  /** The partial write changes only the field's own bits of byte k. */
  lemma LastByteKept(next: seq<bv8>, original: seq<bv8>, k: nat, r: nat, n: nat)
    requires 1 <= k < |next| == |original| && 0 < r <= 8 && n == r + 8 * (k - 1)
    requires forall j :: k < j < |next| ==> next[j] == original[j]
    requires (next[k] as int) % Pow2(8 - r) == original[k] as int % Pow2(8 - r)
    ensures SameFrom(next, original, 8 + n)
  {
    if r == 8 {
      assert (8 + n) / 8 == k + 1 && (8 + n) % 8 == 0;
    } else {
      assert (8 + n) / 8 == k && (8 + n) % 8 == r;
    }
  }

  /** The byte the exponent field ends in is byte k, holding its last r bits; its top r bits are clear. */
  lemma LastFieldByte(b: seq<bv8>, n: nat, k: nat, r: nat)
    requires k < |b| && 0 < r <= 8 && k >= 1 && n == r + 8 * (k - 1)
    requires 8 + n <= 8 * |b| && LastFieldByteClear(b, n)
    ensures (b[k] as int) < Pow2(8 - r)
  {
    assert (n - 1) / 8 == k - 1;
    ClearTopBits(b, k, r);
  }

  /** The top r bits of byte k are clear: the byte is below 2^(8 - r). */
  lemma ClearTopBits(b: seq<bv8>, k: nat, r: nat)
    requires k < |b| && r <= 8 && BitsValue(b, 8 * k, r) == 0
    ensures (b[k] as int) < Pow2(8 - r)
  {
    ByteWindow(b, k, r);
    DivMod(b[k] as int, Pow2(8 - r));
  }

  /**
    (v | (e << (8 - r))) on a byte whose top r bits are clear: the top r
    bits become the low r bits of e and the rest stay as they were.
  */
  lemma PartialByte(v: bv8, shifted: bv8, e: int, r: nat)
    requires 0 < r <= 8 && e >= 0 && (v as int) < Pow2(8 - r)
    requires shifted as int == (e * Pow2(8 - r)) % 256
    ensures ((v | shifted) as int) / Pow2(8 - r) == e % Pow2(r)
    ensures ((v | shifted) as int) % Pow2(8 - r) == v as int == (v as int) % Pow2(8 - r)
  {
    var p, q := Pow2(8 - r), Pow2(r);
    Pow2Complement(r);
    PartialByteArith(v as int, e, p, q);
    OrAdd(v, shifted, 8 - r);
  }

  lemma PartialByteArith(v: int, e: int, p: int, q: int)
    requires 0 <= v < p && e >= 0 && q > 0 && p * q == 256
    ensures (e * p) % 256 == (e % q) * p
    ensures 0 <= (e % q) * p < 256 && ((e % q) * p) % p == 0
    ensures (v + (e % q) * p) / p == e % q && (v + (e % q) * p) % p == v == v % p
  {
    var m := e % q;
    ShiftMod(e, p, q);
    MulStrictMonotonic(m, q, p);
    MultipleMod(m, p);
    DivModUnique(v + m * p, p, m, v);
    DivModUnique(v, p, 0, v);
  }

  /** (e * p) % (p * q) == (e % q) * p: shifting left keeps only the low bits that fit. */
  lemma ShiftMod(e: int, p: int, q: int)
    requires e >= 0 && p > 0 && q > 0
    ensures (e * p) % (p * q) == (e % q) * p
  {
    DivMod(e, q);
    var a, m := e / q, e % q;
    assert e * p == a * (p * q) + m * p;
    MulStrictMonotonic(m, q, p);
    DivModUnique(e * p, p * q, a, m * p);
  }

  // ---- properties ----

  /**
    The combination field of a finite value is decoded back into its
    leading digit and its two top exponent bits, and never reads as a
    special.
  */
  lemma CombinationRoundTrip(digit: int, top: int)
    requires 0 <= digit <= 9 && 0 <= top <= 2
    ensures var g := CombinationField(digit, top);
      0 <= g < 30 && CombinationDigit(g) == digit && CombinationExponent(g) == top
  {
    var g := CombinationField(digit, top);
    if digit <= 7 {
      assert g == 8 * top + digit;
      DivModUnique(g, 8, top, digit);
    } else {
      assert g == 24 + 2 * top + (digit - 8);
      DivModUnique(g, 2, 12 + top, digit - 8);
      DivModUnique(12 + top, 4, 3, top);
    }
  }

  /** A byte made of the sign bit, a combination field and two bits gives each back. */
  lemma FirstByteFieldsBack(first: bv8, s: int, g: int, two: int)
    requires first as int == s + 4 * g + two
    requires (s == 0 || s == 128) && 0 <= g < 32 && 0 <= two <= 3
    ensures CombinationOf(first) == g && first as int % 4 == two
    ensures first as int >= 128 <==> s == 128
  {
    var x := first as int;
    DivModUnique(x, 4, s / 4 + g, two);
    DivModUnique(s / 4 + g, 32, s / 128, g);
  }

  /** Read back through the decoder's functions, the fields of byte 0 of a finite value. */
  lemma FiniteByteFieldsBack(first: bv8, sign: Sign, g: int, two: int)
    requires first as int == SignByte(sign) as int + 4 * g + two
    requires 0 <= g < 30 && 0 <= two <= 3
    ensures FromFirstByte(first) == Normal && (first as int >= 128 <==> sign == Negative)
    ensures CombinationDigit(CombinationOf(first)) == CombinationDigit(g)
    ensures LeadingExponentBits(first) == 4 * CombinationExponent(g) + two
  {
    FirstByteFieldsBack(first, SignByte(sign) as int, g, two);
  }

  /** The biased exponent is its top two bits, the next two bits and the low bits, read back in order. */
  lemma ExponentRecomposed(biased: int, p: int, p4: int, top: int, two: int, low: int, lead: int)
    requires biased >= 0 && p >= 1 && p4 == p * 4
    requires top == biased / p4 && two == (biased / p) % 4 && low == biased % p && lead == 4 * top + two
    ensures lead * p + low == biased
  {
    DivDiv(biased, p, 4);
    DivMod(biased / p, 4);
    DivMod(biased, p);
    assert (4 * top + two) * p == (biased / p) * p;
  }

  /** The bytes encodeDecimal hands the coder are clear from the coefficient continuation on. */
  lemma SignedZerosClear(f: DecimalFormat, sign: Sign, t: nat)
    requires t == CoefficientStart(f)
    ensures ZeroFrom(SignedZeros(f, sign), t)
  {
    var z := SignedZeros(f, sign);
    assert t / 8 >= 1;
    if t / 8 < |z| {
      assert z[t / 8] == 0;
      ZeroModulus(Pow2(8 - t % 8));
    }
  }

  lemma ZeroModulus(p: int)
    requires p >= 1
    ensures 0 % p == 0
  {
  }

  /** The coder reads back from the encoding the coefficient it wrote. */
  lemma CoefficientRoundTrip(f: DecimalFormat, coder: CoefficientCoder, sign: Sign, c: int, b: seq<bv8>)
    requires DecodeInvertsEncode(coder, f) && DecodeReadsCoefficient(coder, f)
    requires IsCoefficientInRange(f, c) && (c == 0 || Signum(sign) == SignumOfInt(c))
    requires |b| == FormatByteLength(f)
    requires SameFrom(b, coder.encodeValue(c, SignedZeros(f, sign)).bytes, CoefficientStart(f))
    ensures coder.decodeValue(Signum(sign), MostSignificantDigit(f, c), b) == c
  {
    var t := CoefficientStart(f);
    var z := SignedZeros(f, sign);
    SignedZerosClear(f, sign, t);
    var encoded := coder.encodeValue(c, z).bytes;
    assert coder.decodeValue(Signum(sign), MostSignificantDigit(f, c), encoded) == c;
    assert coder.decodeValue(Signum(sign), MostSignificantDigit(f, c), b)
        == coder.decodeValue(Signum(sign), MostSignificantDigit(f, c), encoded);
  }

  /** Decoding the canonical encoding of a special gives it back. */
  lemma SpecialRoundTrip(f: DecimalFormat, coder: CoefficientCoder, sign: Sign, kind: SpecialType, b: seq<bv8>)
    requires b == SpecialEncoding(f, sign, kind)
    ensures Decode(f, coder, b) == Ok(Special(sign, kind))
  {
    var x := b[0] as int;
    var g := (SpecialBits(kind) as int) / 4;
    assert x == SignByte(sign) as int + 4 * g + (SpecialBits(kind) as int) % 4;
    FirstByteFieldsBack(b[0], SignByte(sign) as int, g, (SpecialBits(kind) as int) % 4);
    assert CombinationOf(b[0]) == CombinationOf(SpecialBits(kind));
    assert (x / 2) % 2 == ((SpecialBits(kind) as int) / 2) % 2;
  }

  /**
    Byte 0 of a finite value's encoding reads back as its sign, a finite
    kind, its leading digit and the four leading bits of its biased exponent.
  */
  lemma FirstByteBack(sign: Sign, digit: int, biased: int, n: nat, first: bv8, top: int, two: int)
    requires 0 <= digit <= 9 && 0 <= biased < 3 * Pow2(n + 2)
    requires top == biased / Pow2(n + 2) && two == (biased / Pow2(n)) % 4
    requires first as int == FiniteFirstByte(sign, digit, biased, n)
    ensures FromFirstByte(first) == Normal && (first as int >= 128 <==> sign == Negative)
    ensures CombinationDigit(CombinationOf(first)) == digit
    ensures LeadingExponentBits(first) == 4 * top + two
  {
    QuotientBelow(biased, Pow2(n + 2), 3);
    CombinationRoundTrip(digit, top);
    FiniteByteFieldsBack(first, sign, CombinationField(digit, top), two);
  }

  /**
    Byte 0 and the exponent field of a finite value's encoding read back
    as its sign, a finite kind, its leading digit and its biased exponent.
  */
  lemma FiniteFieldsBack(f: DecimalFormat, sign: Sign, c: int, e: int, b: seq<bv8>)
    requires IsExponentInRange(f, e) && IsCoefficientInRange(f, c) && |b| == FormatByteLength(f)
    requires b[0] as int == FiniteFirstByte(sign, MostSignificantDigit(f, c), BiasedExponent(f, e), ExponentBitsRemaining(f))
    requires BitsValue(b, 8, ExponentBitsRemaining(f)) == BiasedExponent(f, e) % Pow2(ExponentBitsRemaining(f))
    ensures FromFirstByte(b[0]) == Normal && (b[0] as int >= 128 <==> sign == Negative)
    ensures CombinationDigit(CombinationOf(b[0])) == MostSignificantDigit(f, c)
    ensures FieldsExponent(f, b) == BiasedExponent(f, e)
  {
    var n := ExponentBitsRemaining(f);
    var biased := BiasedExponent(f, e);
    BiasedExponentBound(f, biased, n);
    FieldsBack(sign, MostSignificantDigit(f, c), biased, n, b);
  }

  lemma FieldsBack(sign: Sign, digit: int, biased: int, n: nat, b: seq<bv8>)
    requires 0 <= digit <= 9 && 0 <= biased < 3 * Pow2(n + 2) && 8 + n <= 8 * |b|
    requires b[0] as int == FiniteFirstByte(sign, digit, biased, n)
    requires BitsValue(b, 8, n) == biased % Pow2(n)
    ensures FromFirstByte(b[0]) == Normal && (b[0] as int >= 128 <==> sign == Negative)
    ensures CombinationDigit(CombinationOf(b[0])) == digit
    ensures LeadingExponentBits(b[0]) * Pow2(n) + BitsValue(b, 8, n) == biased
  {
    var top, two := biased / Pow2(n + 2), (biased / Pow2(n)) % 4;
    FirstByteBack(sign, digit, biased, n, b[0], top, two);
    Pow2PlusTwo(n);
    ExponentRecomposed(biased, Pow2(n), Pow2(n + 2), top, two, BitsValue(b, 8, n), LeadingExponentBits(b[0]));
  }

  /** Decoding the encoding of a valid finite value, whose coefficient the coder reads back, gives it back. */
  lemma FiniteRoundTrip(f: DecimalFormat, coder: CoefficientCoder, sign: Sign, c: int, e: int, b: seq<bv8>)
    requires Valid(Finite(sign, c, e))
    requires IsExponentInRange(f, e) && IsCoefficientInRange(f, c) && |b| == FormatByteLength(f)
    requires b[0] as int == FiniteFirstByte(sign, MostSignificantDigit(f, c), BiasedExponent(f, e), ExponentBitsRemaining(f))
    requires BitsValue(b, 8, ExponentBitsRemaining(f)) == BiasedExponent(f, e) % Pow2(ExponentBitsRemaining(f))
    requires coder.decodeValue(Signum(sign), MostSignificantDigit(f, c), b) == c
    ensures Decode(f, coder, b) == Ok(Finite(sign, c, e))
  {
    FiniteFieldsBack(f, sign, c, e, b);
    DecodeFinite(f, coder, b, Signum(sign), MostSignificantDigit(f, c), LeadingExponentBits(b[0]), BiasedExponent(f, e), c, e);
  }

  lemma Pow2PlusTwo(a: nat)
    ensures Pow2(a + 2) == Pow2(a) * 4
  {
    Pow2Add(a, 2);
    assert Pow2(2) == 4;
  }

  /** Decoding an encoding gives back the value: parseBytes(encodeDecimal(d)) == d. */
  lemma RoundTrip(f: DecimalFormat, coder: CoefficientCoder, d: SimpleDecimal, b: seq<bv8>)
    requires ValidCoder(coder, f) && Valid(d) && EncodesAs(f, coder, d, b)
    ensures Decode(f, coder, b) == Ok(d)
  {
    match d
    case Special(sign, kind) => SpecialRoundTrip(f, coder, sign, kind, b);
    case Finite(sign, c, e) =>
      CoefficientRoundTrip(f, coder, sign, c, b);
      FiniteRoundTrip(f, coder, sign, c, e, b);
  }
  /** A finite first byte carries at most 11 (binary 1011) as its four leading exponent bits and a digit up to 9. */
  lemma NormalFirstByteBounds(fb: bv8)
    requires FromFirstByte(fb) == Normal
    ensures 0 <= LeadingExponentBits(fb) <= 11
    ensures 0 <= CombinationDigit(CombinationOf(fb)) <= 9
  {
  }

  /** l * p + v with l <= 11 and v < p stays below 12 * p. */
  lemma FieldsBound(l: int, v: int, p: int)
    requires 0 <= l <= 11 && 0 <= v < p
    ensures 0 <= l * p + v <= 12 * p - 1
  {
    assert (11 - l) * p >= 0;
  }

  /** The biased exponent read from a finite value's bytes is at most eLimit. */
  lemma FieldsExponentInRange(f: DecimalFormat, b: seq<bv8>)
    requires |b| == FormatByteLength(f) && FromFirstByte(b[0]) == Normal
    ensures 0 <= FieldsExponent(f, b) <= ELimit(f)
  {
    NormalFirstByteBounds(b[0]);
    ELimitFromRemaining(f);
    FieldsBound(LeadingExponentBits(b[0]), BitsValue(b, 8, ExponentBitsRemaining(f)), Pow2(ExponentBitsRemaining(f)));
  }

  /** eLimit is 12 * 2^n - 1 for the n exponent bits after byte 0. */
  lemma ELimitFromRemaining(f: DecimalFormat)
    ensures ELimit(f) == 12 * Pow2(ExponentBitsRemaining(f)) - 1
  {
    LimitOfWidth(ExponentContinuationBits(f), ExponentBitsRemaining(f));
  }

  lemma LimitOfWidth(e: nat, n: nat)
    requires e == n + 2
    ensures CalculateExponentLimit(e) == 12 * Pow2(n) - 1
  {
    assert Pow2(n + 2) == 4 * Pow2(n);
  }

  /**
    Every value parseBytes returns is well formed and, when finite, has its
    exponent and coefficient in the format's range, so encodeDecimal
    accepts it.
  */
  lemma DecodeFits(f: DecimalFormat, coder: CoefficientCoder, b: seq<bv8>)
    requires DecodeInRange(coder, f) && |b| == FormatByteLength(f)
    ensures Valid(Decode(f, coder, b).value)
    ensures Decode(f, coder, b).value.Finite? ==>
      IsExponentInRange(f, Decode(f, coder, b).value.exponent) && IsCoefficientInRange(f, Decode(f, coder, b).value.coefficient)
  {
    if FromFirstByte(b[0]) == Normal {
      FieldsExponentInRange(f, b);
      NormalFirstByteBounds(b[0]);
      DecodedSign(f, coder, b, if b[0] as int >= 128 then -1 else 1, CombinationDigit(CombinationOf(b[0])));
    }
  }

  /** The other round trip: re-encoding what parseBytes returned and decoding again gives the same result. */
  lemma DecodeEncodeDecode(f: DecimalFormat, coder: CoefficientCoder, b: seq<bv8>, b2: seq<bv8>)
    requires ValidCoder(coder, f) && |b| == FormatByteLength(f)
    requires EncodesAs(f, coder, Decode(f, coder, b).value, b2)
    ensures Decode(f, coder, b2) == Decode(f, coder, b)
  {
    DecodeFits(f, coder, b);
    RoundTrip(f, coder, Decode(f, coder, b).value, b2);
  }
}
