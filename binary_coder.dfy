/**
  A coefficient coder that meets ValidCoder, so that the codec's contracts,
  which all assume a valid coder, are not vacuous. Instead of declets it
  stores the coefficient's trailing coefficientDigits - 1 digits as one
  binary number in the coefficient continuation: the low bits of the byte
  the field starts in, then the whole bytes after it, big-endian.
*/
module BinaryCoders {
  import opened DecimalMath
  import opened DecimalTypes
  import opened DecimalFormats
  import opened BitFields
  import opened DecimalCodecs

  /** The big-endian value of a byte sequence. */
  function BytesValue(s: seq<bv8>): nat
  {
    if |s| == 0 then 0 else BytesValue(s[..|s| - 1]) * 256 + s[|s| - 1] as int
  }

  /** The m low bytes of v, big-endian. */
  function BytesOf(v: nat, m: nat): (r: seq<bv8>)
    ensures |r| == m
  {
    if m == 0 then [] else BytesOf(v / 256, m - 1) + [LowByte(v)]
  }

  lemma {:induction false} BytesRoundTrip(v: nat, m: nat)
    ensures BytesValue(BytesOf(v, m)) == v % Pow2(8 * m)
  {
    if m > 0 {
      BytesRoundTrip(v / 256, m - 1);
      var s := BytesOf(v, m);
      assert s[..|s| - 1] == BytesOf(v / 256, m - 1);
      Pow2Add(8, 8 * (m - 1));
      assert Pow2(8) == 256;
      DivDiv(v, 256, Pow2(8 * (m - 1)));
    }
  }

  /** Byte x with its low w bits replaced by the low w bits of h. */
  function WithLowBits(x: bv8, w: nat, h: int): (r: bv8)
    requires w <= 8
    ensures (r as int) / Pow2(w) == (x as int) / Pow2(w)
    ensures (r as int) % Pow2(w) == h % Pow2(w)
  {
    ByteSplit(w);
    ReplaceLow(x as int, Pow2(w), Pow2(8 - w), h % Pow2(w));
    ByteOf(x as int - (x as int) % Pow2(w) + h % Pow2(w))
  }

  lemma ByteSplit(w: nat)
    requires w <= 8
    ensures Pow2(8 - w) * Pow2(w) == 256
  {
    Pow2Add(w, 8 - w);
    assert Pow2(8) == 256;
  }

  /** Replacing the remainder of x by p with h keeps the quotient and stays below k * p. */
  lemma ReplaceLow(x: int, p: int, k: int, h: int)
    requires 0 <= x < k * p && p >= 1 && 0 <= h < p
    ensures 0 <= x - x % p + h < k * p
    ensures (x - x % p + h) / p == x / p && (x - x % p + h) % p == h
  {
    DivMod(x, p);
    QuotientBelow(x, p, k);
    MulMonotonic(x / p, k - 1, p);
    DivModUnique(x - x % p + h, p, x / p, h);
  }

  /**
    The field from bit t to the end of b, read as one number: the low
    8 - t % 8 bits of byte t / 8, then the bytes after it.
  */
  function ReadFrom(b: seq<bv8>, t: nat): nat
  {
    if t < 8 * |b| then
      ByteIndexBelow(t, |b|);
      ReadAt(b, t / 8, 8 - t % 8, |b| - t / 8 - 1)
    else 0
  }

  /** The low w bits of byte j and the m bytes after it, the last of b, as one number. */
  function ReadAt(b: seq<bv8>, j: nat, w: nat, m: nat): nat
    requires |b| == j + 1 + m
  {
    ((b[j] as int) % Pow2(w)) * Pow2(8 * m) + BytesValue(b[j + 1..])
  }

  /** b with the field from bit t on holding x (modulo 2 to the field's width). */
  function WriteFrom(b: seq<bv8>, t: nat, x: nat): (r: seq<bv8>)
    ensures |r| == |b|
  {
    if t < 8 * |b| then
      ByteIndexBelow(t, |b|);
      WriteAt(b, t / 8, 8 - t % 8, |b| - t / 8 - 1, x)
    else b
  }

  /** The low w bits of byte j and the m bytes after it, the last of b, set to x. */
  function WriteAt(b: seq<bv8>, j: nat, w: nat, m: nat, x: nat): (r: seq<bv8>)
    requires |b| == j + 1 + m && w <= 8
    ensures |r| == |b|
  {
    b[..j] + [WithLowBits(b[j], w, x / Pow2(8 * m))] + BytesOf(x % Pow2(8 * m), m)
  }

  lemma ByteIndexBelow(t: nat, l: nat)
    requires t < 8 * l
    ensures t / 8 < l
  {
  }

  /** The field from bit t on is 8 * |b| - t bits wide. */
  lemma FieldWidth(b: seq<bv8>, t: nat)
    requires t < 8 * |b|
    ensures Pow2(8 - t % 8) * Pow2(8 * (|b| - t / 8 - 1)) == Pow2(8 * |b| - t)
  {
    FieldSplit(t, |b|);
    PowersJoin(8 - t % 8, 8 * (|b| - t / 8 - 1), 8 * |b| - t);
  }

  lemma FieldSplit(t: nat, l: nat)
    requires t < 8 * l
    ensures (8 - t % 8) + 8 * (l - t / 8 - 1) == 8 * l - t
  {
  }

  lemma PowersJoin(a: nat, b: nat, c: nat)
    requires a + b == c
    ensures Pow2(a) * Pow2(b) == Pow2(c)
  {
    Pow2Add(a, b);
  }

  /** Reading back what was written gives it back, when it fits the field. */
  lemma WriteRead(b: seq<bv8>, t: nat, x: nat)
    requires t < 8 * |b| && x < Pow2(8 * |b| - t)
    ensures ReadFrom(WriteFrom(b, t, x), t) == x
  {
    FieldWidth(b, t);
    ByteIndexBelow(t, |b|);
    WriteReadAt(b, t / 8, 8 - t % 8, |b| - t / 8 - 1, x);
  }

  lemma WriteReadAt(b: seq<bv8>, j: nat, w: nat, m: nat, x: nat)
    requires |b| == j + 1 + m && w <= 8 && x < Pow2(w) * Pow2(8 * m)
    ensures ReadAt(WriteAt(b, j, w, m, x), j, w, m) == x
  {
    assert WriteAt(b, j, w, m, x)[j + 1..] == BytesOf(x % Pow2(8 * m), m);
    assert WriteAt(b, j, w, m, x)[j] == WithLowBits(b[j], w, x / Pow2(8 * m));
    BytesRoundTrip(x % Pow2(8 * m), m);
    Recombine(x, Pow2(8 * m), Pow2(w));
  }

  /** x below w * p is its quotient by p, reduced modulo w, times p plus its remainder, reduced modulo p. */
  lemma Recombine(x: int, p: int, w: int)
    requires p >= 1 && w >= 1 && 0 <= x < w * p
    ensures ((x / p) % w) * p + (x % p) % p == x
  {
    DivMod(x, p);
    QuotientBelow(x, p, w);
    DivModUnique(x / p, w, 0, x / p);
    DivModUnique(x % p, p, 0, x % p);
  }

  /** Writing the field leaves every bit before t alone. */
  lemma WriteKeepsBefore(b: seq<bv8>, t: nat, x: nat)
    requires t < 8 * |b|
    ensures SameBefore(WriteFrom(b, t, x), b, t)
  {
  }

  /** Reading the field looks at no bit before t. */
  lemma ReadSameFrom(a: seq<bv8>, b: seq<bv8>, t: nat)
    requires t < 8 * |a| && SameFrom(a, b, t)
    ensures ReadFrom(a, t) == ReadFrom(b, t)
  {
    assert a[t / 8 + 1..] == b[t / 8 + 1..];
  }

  /** Ten bits hold three digits: 10^(3k) <= 2^(10k). */
  lemma {:induction false} DeclatsFit(k: nat)
    ensures Pow10(3 * k) <= Pow2(10 * k)
  {
    if k > 0 {
      DeclatsFit(k - 1);
      Pow10Add(3 * (k - 1), 3);
      Pow2Add(10 * (k - 1), 10);
      assert Pow10(3) == 1000 && Pow2(10) == 1024;
      MulMonotonic(Pow10(3 * (k - 1)), Pow2(10 * (k - 1)), 1000);
    }
  }

  lemma DigitsFitBits(d: nat, c: nat)
    requires c % BitsPerGroup == 0 && d == 1 + DigitsPerGroup * (c / BitsPerGroup)
    ensures Pow10(d - 1) <= Pow2(c)
  {
    DeclatsFit(c / BitsPerGroup);
  }

  /** The trailing coefficientDigits - 1 digits fit in the coefficient continuation. */
  lemma TrailingDigitsFit(f: DecimalFormat, b: seq<bv8>)
    requires |b| == FormatByteLength(f)
    ensures CoefficientStart(f) < 8 * |b| && 1 <= Pow10(CoefficientDigits(f) - 1) <= Pow2(8 * |b| - CoefficientStart(f))
  {
    FormatLayout(f);
    DigitsFitBits(CoefficientDigits(f), CoefficientContinuationBits(f));
  }

  /**
    Encoding stores |c| mod 10^(coefficientDigits - 1) in the coefficient
    continuation; the combination field carries the leading digit.
  */
  function BinaryEncode(f: DecimalFormat, c: int, b: seq<bv8>): (r: seq<bv8>)
    ensures |r| == |b|
  {
    StoreDigits(b, CoefficientStart(f), Pow10(CoefficientDigits(f) - 1), c)
  }

  /** Decoding puts the leading digit in front of the stored digits and applies the signum. */
  function BinaryDecode(f: DecimalFormat, signum: int, digit: int, b: seq<bv8>): int
  {
    LoadDigits(b, CoefficientStart(f), Pow10(CoefficientDigits(f) - 1), signum, digit)
  }

  /** |c| mod p, its digits below the leading one, stored in the field from bit t on. */
  function StoreDigits(b: seq<bv8>, t: nat, p: nat, c: int): (r: seq<bv8>)
    requires p >= 1
    ensures |r| == |b|
  {
    WriteFrom(b, t, Abs(c) % p)
  }

  /** The leading digit times p plus the stored digits, with the signum applied. */
  function LoadDigits(b: seq<bv8>, t: nat, p: nat, signum: int, digit: int): int
    requires p >= 1
  {
    signum * (digit * p + ReadFrom(b, t) % p)
  }

  function BinaryCoder(f: DecimalFormat): CoefficientCoder
  {
    CoefficientCoder(
      (c: int, b: seq<bv8>) => EncodedCoefficient(MostSignificantDigit(f, c), BinaryEncode(f, c, b)),
      (signum: int, digit: int, b: seq<bv8>) => BinaryDecode(f, signum, digit, b))
  }

  lemma DecodeOfEncode(f: DecimalFormat, signum: int, c: int, b: seq<bv8>)
    requires (signum == 1 || signum == -1) && |b| == FormatByteLength(f) && (c == 0 || SignumOfInt(c) == signum)
    ensures BinaryDecode(f, signum, MostSignificantDigit(f, c), BinaryEncode(f, c, b)) == c
  {
    TrailingDigitsFit(f, b);
    StoredDigitsBack(b, CoefficientStart(f), signum, c, Pow10(CoefficientDigits(f) - 1));
  }

  /** Storing |c| mod p in a field wide enough for p and reading it back recovers c from its leading digits. */
  lemma StoredDigitsBack(b: seq<bv8>, t: nat, signum: int, c: int, p: nat)
    requires t < 8 * |b| && 1 <= p <= Pow2(8 * |b| - t)
    requires (signum == 1 || signum == -1) && (c == 0 || SignumOfInt(c) == signum)
    ensures LoadDigits(StoreDigits(b, t, p, c), t, p, signum, Abs(c) / p) == c
  {
    WriteRead(b, t, Abs(c) % p);
    Recompose(signum, c, p);
  }

  lemma DecodedInRange(f: DecimalFormat, signum: int, digit: int, b: seq<bv8>)
    requires (signum == 1 || signum == -1) && 0 <= digit <= 9
    ensures IsCoefficientInRange(f, BinaryDecode(f, signum, digit, b))
  {
    DigitsPositive(f);
    LoadInNines(b, CoefficientStart(f), CoefficientDigits(f), signum, digit);
    NinesRange(f, BinaryDecode(f, signum, digit, b));
  }

  lemma NinesRange(f: DecimalFormat, v: int)
    requires -(Nines(CoefficientDigits(f)) as int) <= v <= Nines(CoefficientDigits(f))
    ensures IsCoefficientInRange(f, v)
  {
  }

  lemma DigitsPositive(f: DecimalFormat)
    ensures CoefficientDigits(f) >= 1
  {
  }

  /** Below the leading digit's place value 10^(n - 1), a decoded value has at most n digits. */
  lemma LoadInNines(b: seq<bv8>, t: nat, n: nat, signum: int, digit: int)
    requires n >= 1 && (signum == 1 || signum == -1) && 0 <= digit <= 9
    ensures -(Nines(n) as int) <= LoadDigits(b, t, Pow10(n - 1), signum, digit) <= Nines(n)
  {
    NinesAsLeading(n);
    LoadBound(b, t, Pow10(n - 1), signum, digit);
  }
  lemma DecodedSignum(f: DecimalFormat, signum: int, digit: int, b: seq<bv8>)
    requires (signum == 1 || signum == -1) && 0 <= digit <= 9
    ensures BinaryDecode(f, signum, digit, b) == 0 || SignumOfInt(BinaryDecode(f, signum, digit, b)) == signum
  {
    LoadBound(b, CoefficientStart(f), Pow10(CoefficientDigits(f) - 1), signum, digit);
  }

  /** A leading digit and fewer trailing digits, with a sign, stay within ten times the place value. */
  lemma LoadBound(b: seq<bv8>, t: nat, p: nat, signum: int, digit: int)
    requires p >= 1 && (signum == 1 || signum == -1) && 0 <= digit <= 9
    ensures -(10 * p - 1) <= LoadDigits(b, t, p, signum, digit) <= 10 * p - 1
    ensures LoadDigits(b, t, p, signum, digit) == 0 || SignumOfInt(LoadDigits(b, t, p, signum, digit)) == signum
  {
    MulMonotonic(digit, 9, p);
  }

  lemma NinesAsLeading(n: nat)
    requires n >= 1
    ensures Nines(n) == 10 * Pow10(n - 1) - 1
  {
    NinesIsPow10Minus1(n);
  }

  /** A value of the given signum is its leading digits times p plus its remainder, signed. */
  lemma Recompose(signum: int, c: int, p: int)
    requires (signum == 1 || signum == -1) && (c == 0 || SignumOfInt(c) == signum) && p >= 1
    ensures signum * ((Abs(c) / p) * p + (Abs(c) % p) % p) == c
  {
    DivMod(Abs(c), p);
    DivModUnique(Abs(c) % p, p, 0, Abs(c) % p);
  }

  lemma BinaryCoderIsValid(f: DecimalFormat)
    ensures ValidCoder(BinaryCoder(f), f)
  {
    BinaryEncodeKeepsPrefix(f);
    BinaryDecodeInvertsEncode(f);
    BinaryDecodeReadsCoefficient(f);
    BinaryDecodeInRange(f);
  }

  lemma BinaryEncodeKeepsPrefix(f: DecimalFormat)
    ensures EncodeKeepsPrefix(BinaryCoder(f), f)
  {
    forall c: int, b: seq<bv8> | |b| == FormatByteLength(f) && IsCoefficientInRange(f, c)
      ensures SameBefore(BinaryCoder(f).encodeValue(c, b).bytes, b, CoefficientStart(f))
    {
      WriteKeepsBefore(b, CoefficientStart(f), Abs(c) % Pow10(CoefficientDigits(f) - 1));
    }
  }

  lemma BinaryDecodeInvertsEncode(f: DecimalFormat)
    ensures DecodeInvertsEncode(BinaryCoder(f), f)
  {
    forall signum: int, c: int, b: seq<bv8>
      | (signum == 1 || signum == -1) && |b| == FormatByteLength(f) && ZeroFrom(b, CoefficientStart(f))
        && IsCoefficientInRange(f, c) && (c == 0 || SignumOfInt(c) == signum)
      ensures BinaryCoder(f).decodeValue(signum, MostSignificantDigit(f, c), BinaryCoder(f).encodeValue(c, b).bytes) == c
    {
      DecodeOfEncode(f, signum, c, b);
    }
  }

  lemma BinaryDecodeReadsCoefficient(f: DecimalFormat)
    ensures DecodeReadsCoefficient(BinaryCoder(f), f)
  {
    forall signum: int, digit: int, a: seq<bv8>, b: seq<bv8>
      | |a| == FormatByteLength(f) && SameFrom(a, b, CoefficientStart(f))
      ensures BinaryCoder(f).decodeValue(signum, digit, a) == BinaryCoder(f).decodeValue(signum, digit, b)
    {
      DecodeReadsField(f, signum, digit, a, b);
    }
  }

  lemma DecodeReadsField(f: DecimalFormat, signum: int, digit: int, a: seq<bv8>, b: seq<bv8>)
    requires |a| == FormatByteLength(f) && SameFrom(a, b, CoefficientStart(f))
    ensures BinaryDecode(f, signum, digit, a) == BinaryDecode(f, signum, digit, b)
  {
    ReadSameFrom(a, b, CoefficientStart(f));
  }

  lemma BinaryDecodeInRange(f: DecimalFormat)
    ensures DecodeInRange(BinaryCoder(f), f)
  {
    forall signum: int, digit: int, b: seq<bv8>
      | (signum == 1 || signum == -1) && 0 <= digit <= 9 && |b| == FormatByteLength(f)
      ensures IsCoefficientInRange(f, BinaryCoder(f).decodeValue(signum, digit, b))
      ensures BinaryCoder(f).decodeValue(signum, digit, b) == 0
        || SignumOfInt(BinaryCoder(f).decodeValue(signum, digit, b)) == signum
    {
      DecodedInRange(f, signum, digit, b);
      DecodedSignum(f, signum, digit, b);
    }
  }

  /** With this coder in place, decoding what the codec encoded gives the value back. */
  lemma BinaryRoundTrip(f: DecimalFormat, d: SimpleDecimal, b: seq<bv8>)
    requires Valid(d) && EncodesAs(f, BinaryCoder(f), d, b)
    ensures Decode(f, BinaryCoder(f), b) == Ok(d)
  {
    BinaryCoderIsValid(f);
    RoundTrip(f, BinaryCoder(f), d, b);
  }
}
