/**
  Integer arithmetic that stands in for the parts of java.math the decimal
  conversion core relies on: powers of two and ten, the digit count of an
  unscaled value (BigDecimal.precision), exact equality of two
  coefficient/exponent pairs, and division by a power of ten rounded
  half-even (RoundingMode.HALF_EVEN, the roundTiesToEven attribute of
  section 4.3.1 of IEEE 754-2008).
*/
module DecimalMath {

  function Pow2(n: nat): (r: nat)
    ensures r >= 1
  {
    if n == 0 then 1 else 2 * Pow2(n - 1)
  }

  function Pow10(n: nat): (r: nat)
    ensures r >= 1
  {
    if n == 0 then 1 else 10 * Pow10(n - 1)
  }

  function Abs(x: int): nat
  {
    if x < 0 then -x else x
  }

  lemma {:induction false} Pow2Add(a: nat, b: nat)
    ensures Pow2(a + b) == Pow2(a) * Pow2(b)
  {
    if a > 0 {
      Pow2Add(a - 1, b);
    }
  }

  lemma {:induction false} Pow10Add(a: nat, b: nat)
    ensures Pow10(a + b) == Pow10(a) * Pow10(b)
  {
    if a > 0 {
      Pow10Add(a - 1, b);
    }
  }

  lemma {:induction false} Pow10Monotonic(a: nat, b: nat)
    requires a <= b
    ensures Pow10(a) <= Pow10(b)
  {
    if a < b {
      Pow10Monotonic(a, b - 1);
    }
  }

  lemma {:induction false} Pow2Monotonic(a: nat, b: nat)
    requires a <= b
    ensures Pow2(a) <= Pow2(b)
  {
    if a < b {
      Pow2Monotonic(a, b - 1);
    }
  }

  /** Number of decimal digits of n; zero has one digit, as BigDecimal.precision() says. */
  function DigitCount(n: nat): (r: nat)
    ensures r >= 1
    ensures n < Pow10(r)
    ensures n == 0 || Pow10(r - 1) <= n
  {
    if n < 10 then 1 else 1 + DigitCount(n / 10)
  }

  /** DigitCount is the only r with 10^(r-1) <= n < 10^r. */
  lemma {:induction false} DigitCountUnique(n: nat, r: nat)
    requires r >= 1 && Pow10(r - 1) <= n < Pow10(r)
    ensures DigitCount(n) == r
  {
    var d := DigitCount(n);
    if d < r {
      Pow10Monotonic(d, r - 1);
    } else if d > r {
      Pow10Monotonic(r, d - 1);
    }
  }

  /** A magnitude has at most p digits exactly when it is below 10^p. */
  lemma DigitCountAtMost(n: nat, p: nat)
    requires p >= 1
    ensures DigitCount(n) <= p <==> n < Pow10(p)
  {
    var d := DigitCount(n);
    if d <= p {
      Pow10Monotonic(d, p);
    } else {
      Pow10Monotonic(p, d - 1);
    }
  }

  /** Appending k zero digits to a non-zero magnitude adds k to its digit count. */
  lemma {:induction false} DigitCountShift(n: nat, k: nat)
    requires n > 0
    ensures DigitCount(n * Pow10(k)) == DigitCount(n) + k
  {
    if k > 0 {
      DigitCountShift(n, k - 1);
      TimesTen(n, Pow10(k - 1));
      DigitCountTimesTen(n * Pow10(k - 1));
    }
  }

  lemma TimesTen(n: nat, p: nat)
    requires n > 0 && p > 0
    ensures n * (10 * p) == (n * p) * 10 && n * p > 0
  {
    MulStrictMonotonic(0, n, p);
  }

  lemma DigitCountTimesTen(m: nat)
    requires m > 0
    ensures DigitCount(m * 10) == DigitCount(m) + 1
  {
    assert (m * 10) / 10 == m;
  }

  lemma {:induction false} MulMonotonic(a: int, b: int, m: nat)
    requires a <= b
    ensures a * m <= b * m
    decreases b - a
  {
    if a < b {
      MulMonotonic(a, b - 1, m);
      assert (b - 1) * m + m == b * m;
    }
  }

  lemma MulStrictMonotonic(a: int, b: int, m: nat)
    requires a < b && m > 0
    ensures a * m < b * m
  {
    MulMonotonic(a + 1, b, m);
    assert (a + 1) * m == a * m + m;
  }

  /** Only -1, 0 and 1 have a multiple of d within [-d, d]. */
  lemma UnitMultiple(x: int, d: int)
    requires d > 0 && -d <= x * d <= d
    ensures -1 <= x <= 1
  {
    if x >= 2 {
      MulMonotonic(2, x, d);
    } else if x <= -2 {
      MulMonotonic(x, -2, d);
    }
  }

  lemma DivMod(n: int, d: int)
    requires d > 0
    ensures n == (n / d) * d + n % d && 0 <= n % d < d
  {
  }

  /** Quotient and remainder are determined by n = q * d + r with 0 <= r < d. */
  lemma DivModUnique(n: int, d: int, q: int, r: int)
    requires d > 0 && 0 <= r < d && n == q * d + r
    ensures n / d == q && n % d == r
  {
    var q', r' := n / d, n % d;
    assert (q' - q) * d == r - r';
    UnitMultiple(q' - q, d);
  }

  lemma MultipleMod(a: int, d: int)
    requires d > 0
    ensures (a * d) % d == 0 && (a * d) / d == a
  {
    DivModUnique(a * d, d, a, 0);
  }

  /** A multiple of 10^k is divisible by 10^j for every j <= k. */
  lemma DivisibleByLowerPower(c: int, m: int, j: nat, k: nat)
    requires j <= k && c == m * Pow10(k)
    ensures c % Pow10(j) == 0
  {
    Pow10Add(j, k - j);
    assert j + (k - j) == k;
    MultipleOfFactor(c, m, Pow10(j), Pow10(k - j), Pow10(k));
  }

  lemma MultipleOfFactor(c: int, m: int, p: int, q: int, pq: int)
    requires p > 0 && pq == p * q && c == m * pq
    ensures c % p == 0
  {
    assert c == (m * q) * p;
    MultipleMod(m * q, p);
  }

  /**
    c * 10^e and c' * 10^e' denote the same number. BigDecimal.compareTo is
    this relation, while BigDecimal.equals also compares the exponent.
  */
  ghost predicate SameValue(c: int, e: int, c': int, e': int)
  {
    if e >= e' then c * Pow10(e - e') == c' else c' * Pow10(e' - e) == c
  }

  /**
    q is n / d rounded to the nearest integer, a tie going to the even
    neighbour: the rounding error is at most half of d, and exactly half
    only when q is even.
  */
  ghost predicate IsHalfEvenQuotient(n: int, d: int, q: int)
  {
    2 * Abs(n - q * d) <= d && (2 * Abs(n - q * d) == d ==> q % 2 == 0)
  }

  lemma RoundUpIsHalfEven(n: int, d: int, q0: int, r: int)
    requires d > 0 && 0 <= r < d && n == q0 * d + r
    requires 2 * r > d || (2 * r == d && q0 % 2 == 1)
    ensures IsHalfEvenQuotient(n, d, q0 + 1)
  {
    assert (q0 + 1) * d == q0 * d + d;
  }

  lemma RoundDownIsHalfEven(n: int, d: int, q0: int, r: int)
    requires d > 0 && 0 <= r < d && n == q0 * d + r
    requires !(2 * r > d || (2 * r == d && q0 % 2 == 1))
    ensures IsHalfEvenQuotient(n, d, q0)
  {
  }

  /** Half-even rounding of n / d for a non-negative n. */
  function RoundQuotient(n: nat, d: nat): (q: nat)
    requires d > 0
    ensures IsHalfEvenQuotient(n, d, q)
  {
    var q0 := n / d;
    var r := n % d;
    QuotientRemainder(n, d, q0, r);
    if 2 * r > d || (2 * r == d && q0 % 2 == 1) then
      RoundUpIsHalfEven(n, d, q0, r);
      q0 + 1
    else
      RoundDownIsHalfEven(n, d, q0, r);
      q0
  }

  lemma QuotientRemainder(n: nat, d: nat, q0: int, r: int)
    requires d > 0 && q0 == n / d && r == n % d
    ensures n == q0 * d + r && 0 <= r < d && q0 >= 0
  {
  }

  /**
    c / 10^k rounded half-even, symmetrically about zero, as
    BigDecimal.setScale and BigDecimal.round do with RoundingMode.HALF_EVEN.
  */
  function DivRoundHalfEven(c: int, k: nat): (q: int)
    ensures IsHalfEvenQuotient(c, Pow10(k), q)
    ensures c >= 0 ==> q >= 0
    ensures c <= 0 ==> q <= 0
  {
    if c >= 0 then
      RoundQuotient(c, Pow10(k))
    else
      var m: int := RoundQuotient(-c, Pow10(k));
      HalfEvenNegate(-c, Pow10(k), m);
      -m
  }

  /** The half-even rounding of n / d is unique. */
  lemma HalfEvenUnique(n: int, d: int, q1: int, q2: int)
    requires d > 0
    requires IsHalfEvenQuotient(n, d, q1) && IsHalfEvenQuotient(n, d, q2)
    ensures q1 == q2
  {
    assert (q1 - q2) * d == (n - q2 * d) - (n - q1 * d);
    UnitMultiple(q1 - q2, d);
  }

  /** When 10^k divides c, half-even rounding is exact division. */
  lemma HalfEvenExact(c: int, k: nat)
    requires c % Pow10(k) == 0
    ensures DivRoundHalfEven(c, k) == c / Pow10(k)
  {
    DivMod(c, Pow10(k));
    HalfEvenUnique(c, Pow10(k), DivRoundHalfEven(c, k), c / Pow10(k));
  }

  /** Rounding is symmetric about zero. */
  lemma HalfEvenNegate(n: int, d: int, q: int)
    requires IsHalfEvenQuotient(n, d, q)
    ensures IsHalfEvenQuotient(-n, d, -q)
  {
    assert -n - (-q) * d == -(n - q * d);
    assert q % 2 == 0 ==> (-q) % 2 == 0;
  }

  /** A half-even quotient of lo * d <= n < hi * d lies between lo and hi. */
  lemma HalfEvenQuotientBounds(n: int, d: int, q: int, lo: int, hi: int)
    requires d > 0 && IsHalfEvenQuotient(n, d, q) && lo * d <= n < hi * d
    ensures lo <= q <= hi
  {
    assert (hi + 1) * d == hi * d + d;
    assert (lo - 1) * d == lo * d - d;
    if q > hi {
      MulMonotonic(hi + 1, q, d);
    }
    if q < lo {
      MulMonotonic(q, lo - 1, d);
    }
  }
}
