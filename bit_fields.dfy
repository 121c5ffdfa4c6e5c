/**
  Bit fields of a big-endian byte sequence, numbered from the most
  significant bit of byte 0, as the interchange formats of section 3.5 of
  IEEE 754-2008 lay them out; and the facts about Java's shifts, masks and
  bitwise OR on bytes that the codec relies on.
*/
module BitFields {
  import opened DecimalMath

  /** Bit i of the sequence, bit 0 being the most significant bit of byte 0. */
  function BitAt(b: seq<bv8>, i: nat): (r: nat)
    requires i < 8 * |b|
    ensures r <= 1
  {
    ((b[i / 8] as int) / Pow2(7 - i % 8)) % 2
  }

  /** The unsigned value of the len bits starting at bit start, most significant first. */
  function BitsValue(b: seq<bv8>, start: nat, len: nat): (r: nat)
    requires start + len <= 8 * |b|
    ensures r < Pow2(len)
  {
    if len == 0 then 0 else 2 * BitsValue(b, start, len - 1) + BitAt(b, start + len - 1)
  }

  /** A field is its leading part followed by its trailing part. */
  lemma {:induction false} BitsSplit(b: seq<bv8>, start: nat, l1: nat, l2: nat)
    requires start + l1 + l2 <= 8 * |b|
    ensures BitsValue(b, start, l1 + l2) == BitsValue(b, start, l1) * Pow2(l2) + BitsValue(b, start + l1, l2)
  {
    if l2 > 0 {
      BitsSplit(b, start, l1, l2 - 1);
      SplitStep(BitsValue(b, start, l1 + l2), BitsValue(b, start, l1 + l2 - 1), BitsValue(b, start, l1),
        Pow2(l2 - 1), Pow2(l2), BitsValue(b, start + l1, l2 - 1), BitsValue(b, start + l1, l2),
        BitAt(b, start + l1 + l2 - 1));
    }
  }

  /** One more trailing bit doubles both the whole field and its trailing part. */
  lemma SplitStep(total: int, prev: int, v: int, p: int, q: int, w: int, tail: int, bit: int)
    requires total == 2 * prev + bit && prev == v * p + w && q == 2 * p && tail == 2 * w + bit
    ensures total == v * q + tail
  {
    Twice(v, p, q);
  }

  lemma Twice(x: int, p: int, q: int)
    requires q == 2 * p
    ensures x * q == 2 * (x * p)
  {
  }

  /** The leading r bits of byte k are the byte shifted right by 8 - r. */
  lemma {:induction false} ByteWindow(b: seq<bv8>, k: nat, r: nat)
    requires k < |b| && r <= 8
    ensures BitsValue(b, 8 * k, r) == (b[k] as int) / Pow2(8 - r)
  {
    var x := b[k] as int;
    if r == 0 {
      assert Pow2(8) == 256;
    } else {
      ByteWindow(b, k, r - 1);
      var p := Pow2(8 - r);
      assert (8 * k + r - 1) / 8 == k && (8 * k + r - 1) % 8 == r - 1;
      assert Pow2(9 - r) == p * 2;
      DivDiv(x, p, 2);
      DivMod(x / p, 2);
    }
  }

  /** A whole byte read as a field. */
  lemma ByteValue(b: seq<bv8>, k: nat)
    requires k < |b|
    ensures BitsValue(b, 8 * k, 8) == b[k] as int
  {
    // a width that is 8 without being the literal keeps the solver from unfolding the field bit by bit
    var r :| r == 8;
    ByteWindow(b, k, r);
    assert Pow2(8 - r) == 1;
  }

  lemma DivDiv(x: int, a: int, c: int)
    requires x >= 0 && a > 0 && c > 0
    ensures x / (a * c) == (x / a) / c
    ensures x % (a * c) == ((x / a) % c) * a + x % a
  {
    var q1, r1 := x / a, x % a;
    var q2, r2 := q1 / c, q1 % c;
    DivMod(x, a);
    DivMod(q1, c);
    assert x == q2 * (a * c) + (r2 * a + r1) by {
      assert x == q1 * a + r1;
      assert q1 * a == (q2 * c + r2) * a == q2 * (a * c) + r2 * a;
    }
    MulMonotonic(r2, c - 1, a);
    assert (c - 1) * a == a * c - a;
    DivModUnique(x, a * c, q2, r2 * a + r1);
  }

  /** (x >>> p) & (q - 1), shifted back and joined to the low bits, is x % (p * q). */
  lemma ModSplit(x: int, p: int, q: int)
    requires x >= 0 && p > 0 && q > 0
    ensures ((x / p) % q) * p + x % p == x % (p * q)
  {
    DivDiv(x, p, q);
  }

  /** Bitwise OR of two bytes whose set bits do not overlap is their sum. */
  lemma OrAdd(v: bv8, w: bv8, k: nat)
    requires k <= 8 && (v as int) < Pow2(k) && (w as int) % Pow2(k) == 0
    ensures (v | w) as int == v as int + w as int
  {
    if k == 0 { NoBits(v); }
    else if k == 1 { assert Pow2(1) == 2; Split2(v, w); OrSplit2(v, w); }
    else if k == 2 { assert Pow2(2) == 4; Split4(v, w); OrSplit4(v, w); }
    else if k == 3 { assert Pow2(3) == 8; Split8(v, w); OrSplit8(v, w); }
    else if k == 4 { assert Pow2(4) == 16; Split16(v, w); OrSplit16(v, w); }
    else if k == 5 { assert Pow2(5) == 32; Split32(v, w); OrSplit32(v, w); }
    else if k == 6 { assert Pow2(6) == 64; Split64(v, w); OrSplit64(v, w); }
    else if k == 7 { assert Pow2(7) == 128; Split128(v, w); OrSplit128(v, w); }
    else { assert Pow2(8) == 256; NoBits(w); }
  }

  /** A byte whose value is below one, or a multiple of 256, is zero. */
  lemma NoBits(v: bv8)
    requires (v as int) < 1 || (v as int) % 256 == 0
    ensures v == 0
  {}

  lemma Split2(v: bv8, w: bv8)
    requires (v as int) < 2 && (w as int) % 2 == 0
    ensures v < 2 && w & 1 == 0
  {}
  lemma OrSplit2(v: bv8, w: bv8)
    requires v < 2 && w & 1 == 0
    ensures (v | w) as int == v as int + w as int
  {}
  lemma Split4(v: bv8, w: bv8)
    requires (v as int) < 4 && (w as int) % 4 == 0
    ensures v < 4 && w & 3 == 0
  {}
  lemma OrSplit4(v: bv8, w: bv8)
    requires v < 4 && w & 3 == 0
    ensures (v | w) as int == v as int + w as int
  {}
  lemma Split8(v: bv8, w: bv8)
    requires (v as int) < 8 && (w as int) % 8 == 0
    ensures v < 8 && w & 7 == 0
  {}
  lemma OrSplit8(v: bv8, w: bv8)
    requires v < 8 && w & 7 == 0
    ensures (v | w) as int == v as int + w as int
  {}
  lemma Split16(v: bv8, w: bv8)
    requires (v as int) < 16 && (w as int) % 16 == 0
    ensures v < 16 && w & 15 == 0
  {}
  lemma OrSplit16(v: bv8, w: bv8)
    requires v < 16 && w & 15 == 0
    ensures (v | w) as int == v as int + w as int
  {}
  lemma Split32(v: bv8, w: bv8)
    requires (v as int) < 32 && (w as int) % 32 == 0
    ensures v < 32 && w & 31 == 0
  {}
  lemma OrSplit32(v: bv8, w: bv8)
    requires v < 32 && w & 31 == 0
    ensures (v | w) as int == v as int + w as int
  {}
  lemma Split64(v: bv8, w: bv8)
    requires (v as int) < 64 && (w as int) % 64 == 0
    ensures v < 64 && w & 63 == 0
  {}
  lemma OrSplit64(v: bv8, w: bv8)
    requires v < 64 && w & 63 == 0
    ensures (v | w) as int == v as int + w as int
  {}
  lemma Split128(v: bv8, w: bv8)
    requires (v as int) < 128 && (w as int) % 128 == 0
    ensures v < 128 && w & 127 == 0
  {}
  lemma OrSplit128(v: bv8, w: bv8)
    requires v < 128 && w & 127 == 0
    ensures (v | w) as int == v as int + w as int
  {}

  /** The byte whose unsigned value is x. */
  function ByteOf(x: int): (r: bv8)
    requires 0 <= x < 256
    ensures r as int == x
    decreases x
  {
    if x == 0 then
      0
    else
      var h := ByteOf(x / 2);
      HalfByte(h);
      if x % 2 == 1 then
        ShiftInOne(h);
        (h << 1) | 1
      else
        ShiftInZero(h);
        h << 1
  }

  lemma HalfByte(h: bv8)
    requires (h as int) < 128
    ensures h < 128
  {}

  lemma ShiftInZero(v: bv8)
    requires v < 128
    ensures (v << 1) as int == 2 * (v as int)
  {}

  lemma ShiftInOne(v: bv8)
    requires v < 128
    ensures ((v << 1) | 1) as int == 2 * (v as int) + 1
  {}

  /** n zero bytes: a freshly allocated Java byte array. */
  function Zeros(n: nat): (r: seq<bv8>)
    ensures |r| == n && forall k :: 0 <= k < n ==> r[k] == 0
  {
    seq(n, _ => 0)
  }

  /** a and b have the same bits before bit t (and the same length). */
  predicate SameBefore(a: seq<bv8>, b: seq<bv8>, t: nat)
  {
    && |a| == |b|
    && (forall k :: 0 <= k < t / 8 && k < |a| ==> a[k] == b[k])
    && (t / 8 < |a| ==> (a[t / 8] as int) / Pow2(8 - t % 8) == (b[t / 8] as int) / Pow2(8 - t % 8))
  }

  /** a and b have the same bits from bit t on (and the same length). */
  predicate SameFrom(a: seq<bv8>, b: seq<bv8>, t: nat)
  {
    && |a| == |b|
    && (forall k :: t / 8 < k < |a| ==> a[k] == b[k])
    && (t / 8 < |a| ==> (a[t / 8] as int) % Pow2(8 - t % 8) == (b[t / 8] as int) % Pow2(8 - t % 8))
  }

  /** Agreement from bit t >= 8 on does not see byte 0. */
  lemma SameFromPastFirstByte(a: seq<bv8>, b: seq<bv8>, c: seq<bv8>, x: bv8, t: nat)
    requires |b| > 0 && t >= 8 && c == b[0 := x] && SameFrom(a, c, t)
    ensures SameFrom(a, b, t)
  {
    var i := t / 8;
    assert i >= 1;
    forall k | i < k < |a|
      ensures a[k] == b[k]
    {
      assert a[k] == c[k];
    }
    if i < |a| {
      assert c[i] == b[i];
    }
  }

  /** Every bit of a from bit t on is zero. */
  predicate ZeroFrom(a: seq<bv8>, t: nat)
  {
    && (forall k :: t / 8 < k < |a| ==> a[k] == 0)
    && (t / 8 < |a| ==> (a[t / 8] as int) % Pow2(8 - t % 8) == 0)
  }

  /** Bits before t that agree keep agreeing on any field that ends by t. */
  lemma {:induction false} SameBeforeField(a: seq<bv8>, b: seq<bv8>, t: nat, start: nat, len: nat)
    requires SameBefore(a, b, t) && start + len <= t && t <= 8 * |a|
    ensures BitsValue(a, start, len) == BitsValue(b, start, len)
  {
    if len > 0 {
      SameBeforeField(a, b, t, start, len - 1);
      SameBeforeBit(a, b, t, start + len - 1);
    }
  }

  lemma SameBeforeBit(a: seq<bv8>, b: seq<bv8>, t: nat, i: nat)
    requires SameBefore(a, b, t) && i < t <= 8 * |a|
    ensures BitAt(a, i) == BitAt(b, i)
  {
    if i / 8 == t / 8 {
      // the bit lies in the byte that t splits, above the split
      var p, q := 8 - t % 8, t % 8 - 1 - i % 8;
      HighBitSame(a[i / 8] as int, b[i / 8] as int, p, q);
      assert p + q == 7 - i % 8;
    }
  }

  lemma HighBitSame(x: int, y: int, p: nat, q: nat)
    requires x >= 0 && y >= 0 && x / Pow2(p) == y / Pow2(p)
    ensures (x / Pow2(p + q)) % 2 == (y / Pow2(p + q)) % 2
  {
    Pow2Add(p, q);
    DivDiv(x, Pow2(p), Pow2(q));
    DivDiv(y, Pow2(p), Pow2(q));
  }
}
