/**
 Emulated 64-bit integers (jslong.h without native long long, and jslong.c): a pair of
 32-bit words updated in place by macros, and the schoolbook division that serves them.
 Every operation is proved against integer arithmetic modulo 2^64.
 */
module LongLong {
  import opened Words

  const W2: int := W * W
  const MIN: int := -0x8000_0000_0000_0000

  /** The struct passed by value. */
  datatype Long = Long(lo: Word, hi: Word) {
    function U(): (u: int)
      ensures 0 <= u < W2
    {
      hi * W + lo
    }

    function S(): int {
      Signed(hi) * W + lo
    }
  }

  /** A struct variable that macros assign to, member by member. */
  class Int64 {
    var lo: Word
    var hi: Word

    constructor (v: Long)
      ensures Get() == v
    {
      lo, hi := v.lo, v.hi;
    }

    function Get(): Long
      reads this
    {
      Long(lo, hi)
    }

    method Set(v: Long)
      modifies this
      ensures Get() == v
    {
      lo, hi := v.lo, v.hi;
    }
  }

  function Wrap64(x: int): nat {
    x % W2
  }

  lemma Wrap64Of(x: int, k: int)
    requires 0 <= x - k * W2 < W2
    ensures Wrap64(x) == x - k * W2
  {
    DivUnique(x, W2, k, x - k * W2);
  }

  // ----- Comparison -----

  predicate Eq(a: Long, b: Long)
    ensures Eq(a, b) <==> a.U() == b.U()
  {
    a.hi == b.hi && a.lo == b.lo
  }

  predicate CmpLess(a: Long, b: Long)
    ensures CmpLess(a, b) <==> a.S() < b.S()
  {
    Signed(a.hi) < Signed(b.hi) || (a.hi == b.hi && a.lo < b.lo)
  }

  predicate CmpGreater(a: Long, b: Long)
    ensures CmpGreater(a, b) <==> a.S() > b.S()
  {
    Signed(a.hi) > Signed(b.hi) || (a.hi == b.hi && a.lo > b.lo)
  }

  predicate UCmpLess(a: Long, b: Long)
    ensures UCmpLess(a, b) <==> a.U() < b.U()
  {
    a.hi < b.hi || (a.hi == b.hi && a.lo < b.lo)
  }

  predicate UCmpGreater(a: Long, b: Long)
    ensures UCmpGreater(a, b) <==> a.U() > b.U()
  {
    a.hi > b.hi || (a.hi == b.hi && a.lo > b.lo)
  }

  // ----- Addition, subtraction, negation, multiplication -----

  /** The one macro that reads its operand after writing its result: r may be a. */
  method Neg(r: Int64, a: Int64)
    modifies r
    ensures r.Get().U() == Wrap64(-old(a.Get().U()))
  {
    ghost var v := a.Get();
    r.lo := Wrap(-Signed(a.lo));
    r.hi := Wrap(-Signed(a.hi) - (if r.lo != 0 then 1 else 0));
    assert r.lo == if v.lo == 0 then 0 else W - v.lo;
    Wrap64Of(-v.U(), if v.U() == 0 then 0 else -1);
  }

  method Add(r: Int64, a: Long, b: Long)
    modifies r
    ensures r.Get().U() == Wrap64(a.U() + b.U())
  {
    r.lo := Wrap(a.lo + b.lo);
    r.hi := Wrap(a.hi + b.hi + (if r.lo < b.lo then 1 else 0));
    ghost var c := if a.lo + b.lo < W then 0 else 1;
    ghost var k := if a.hi + b.hi + c < W then 0 else 1;
    WrapOf(a.lo + b.lo, c);
    WrapOf(a.hi + b.hi + c, k);
    Wrap64Of(a.U() + b.U(), k);
  }

  method Sub(r: Int64, a: Long, b: Long)
    modifies r
    ensures r.Get().U() == Wrap64(a.U() - b.U())
  {
    r.lo := Wrap(a.lo - b.lo);
    r.hi := Wrap(a.hi - b.hi - (if a.lo < b.lo then 1 else 0));
    ghost var c := if a.lo < b.lo then 1 else 0;
    ghost var k := if a.hi - b.hi - c < 0 then -1 else 0;
    WrapOf(a.lo - b.lo, -c);
    WrapOf(a.hi - b.hi - c, k);
    Wrap64Of(a.U() - b.U(), k);
  }

  /** jshi16 and jslo16: the two 16-bit halves of a word. */
  method Halves(a: Word) returns (h: Word, l: Word)
    ensures a == h * 0x1_0000 + l && 0 <= l < 0x1_0000 && 0 <= h < 0x1_0000
  {
    h, l := Shr(a, 16), BitAnd(a, 0xffff);
    Pow2Values();
    AndLowMask(a, 16);
  }

  lemma ProductBound(x: nat, y: nat, m: nat, n: nat)
    requires x <= m && y <= n
    ensures 0 <= x * y <= m * n
  {
    assert x * y <= x * n by {
      assert x * (n - y) >= 0;
    }
    assert x * n <= m * n by {
      assert (m - x) * n >= 0;
    }
  }

  lemma SmallProduct(x: Word, y: Word)
    requires x <= 0xffff && y <= 0xffff
    ensures Wrap(x * y) == x * y <= 0xfffe_0001
  {
    ProductBound(x, y, 0xffff, 0xffff);
    WrapOf(x * y, 0);
  }

  /** The four 16-bit partial products; none of them overflows a word. */
  method PartialProducts(a: Word, b: Word) returns (y0: Word, y1: Word, y2: Word, y3: Word)
    ensures y0 <= 0xfffe_0001 && y1 <= 0xfffe_0001 && y2 <= 0xfffe_0001 && y3 <= 0xfffe_0001
    ensures y3 * W + (y1 + y2) * 0x1_0000 + y0 == a * b
  {
    var a1, a0 := Halves(a);
    var b1, b0 := Halves(b);
    SmallProduct(a0, b0);
    SmallProduct(a0, b1);
    SmallProduct(a1, b0);
    SmallProduct(a1, b1);
    y0 := Wrap(a0 * b0);
    y1 := Wrap(a0 * b1);
    y2 := Wrap(a1 * b0);
    y3 := Wrap(a1 * b1);
  }

  lemma JoinHalves(h: Word, l: Word)
    requires h < 0x1_0000 && l < 0x1_0000
    ensures Wrap(Shl(h, 16) + l) == h * 0x1_0000 + l
  {
    Pow2Values();
    WrapOf(h * 0x1_0000, 0);
    WrapOf(h * 0x1_0000 + l, 0);
  }

  /** The exact 64-bit product of two words, from four 16-bit products and one carry. */
  method Mul32(r: Int64, a: Word, b: Word)
    modifies r
    ensures r.Get().U() == a * b
  {
    hide Wrap, Shl;
    var y0, y1, y2, y3 := PartialProducts(a, b);
    var h0, l0 := Halves(y0);
    WrapOf(y1 + h0, 0);
    y1 := Wrap(y1 + h0);
    ghost var m := y1;
    WrapOf(m + y2, if m + y2 < W then 0 else 1);
    y1 := Wrap(y1 + y2);
    var h1, l1 := Halves(y1);
    ProductBound(a, b, W - 1, W - 1);
    if y1 < y2 {
      WrapOf(y3 + 0x1_0000, 0);
      y3 := Wrap(y3 + 0x1_0000);
    }
    JoinHalves(l1, l0);
    WrapOf(y3 + h1, 0);
    r.lo := Wrap(Shl(l1, 16) + l0);
    r.hi := Wrap(y3 + h1);
  }

  lemma ProductModulo(a: Long, b: Long)
    ensures a.U() * b.U() == a.lo * b.lo + (a.hi * b.lo + a.lo * b.hi) * W + (a.hi * b.hi) * W2
  {
  }

  method Mul(r: Int64, a: Long, b: Long)
    modifies r
    ensures r.Get().U() == Wrap64(a.U() * b.U())
  {
    Mul32(r, a.lo, b.lo);
    ghost var h := r.hi;
    ghost var x, y, z := a.hi * b.lo, a.lo * b.hi, a.hi * b.hi;
    r.hi := Wrap(r.hi + Wrap(a.hi * b.lo) + Wrap(a.lo * b.hi));
    ProductModulo(a, b);
    ghost var k := (h + x % W + y % W) / W + x / W + y / W;
    assert r.hi == h + x + y - k * W;
    assert r.Get().U() == a.U() * b.U() - (z + k) * W2;
    Wrap64Of(a.U() * b.U(), z + k);
  }

  // ----- Shifts -----

  lemma Distribute(h: int, q: int, l: int, p: int)
    ensures (h * q + l) * p == h * (q * p) + l * p
  {
  }

  lemma PowSplit(n: nat)
    requires n <= 32
    ensures Pow2(n) * Pow2(32 - n) == W
  {
    Pow2Add(n, 32 - n);
    Pow2Values();
  }

  /** Splitting a word at bit 32-n: its top n bits h and the rest l. */
  lemma ShiftParts(a: Word, n: nat) returns (h: int, l: int)
    requires 0 < n < 32
    ensures a == h * Pow2(32 - n) + l && 0 <= l < Pow2(32 - n) && 0 <= h < Pow2(n)
    ensures h == Shr(a, 32 - n)
    ensures Shl(a, n) == l * Pow2(n) <= W - Pow2(n)
    ensures a * Pow2(n) == h * W + l * Pow2(n)
  {
    PowSplit(n);
    h, l := ShiftPartsOf(a, Pow2(n), Pow2(32 - n));
    WrapOf(a * Pow2(n), h);
  }

  lemma ShiftPartsOf(a: Word, p: int, q: int) returns (h: int, l: int)
    requires p > 0 && q > 0 && p * q == W
    ensures a == h * q + l && h == a / q && 0 <= l < q && 0 <= h < p
    ensures a * p == h * W + l * p && 0 <= l * p <= W - p
  {
    h, l := a / q, a % q;
    DivBelow(a, q, p);
    Distribute(h, q, l, p);
    assert h * (q * p) == h * W;
    ProductBound(l, p, q - 1, p);
    Distribute(1, q, -1, p);
  }

  /** Or-ing the two shifted-out parts joins them. */
  lemma ShiftJoin(n1: Word, n0: Word, n: nat)
    requires 0 < n < 32
    ensures BitOr(Shl(n1, n), Shr(n0, 32 - n)) == Shl(n1, n) + Shr(n0, 32 - n) < W
  {
    var h1, l1 := ShiftParts(n1, n);
    var h0, l0 := ShiftParts(n0, n);
    DivUnique(l1 * Pow2(n), Pow2(n), l1, 0);
    OrDisjoint(l1 * Pow2(n), h0, n);
  }

  /** Shifting the words n2:n1:n0 left by n multiplies the pair n1:n0 by 2^n exactly. */
  lemma ShiftPairLeft(n1: Word, n0: Word, n: nat)
    requires 0 < n < 32
    ensures Shr(n1, 32 - n) * W2 + (Shl(n1, n) + Shr(n0, 32 - n)) * W + Shl(n0, n)
         == (n1 * W + n0) * Pow2(n)
    ensures Shr(n1, 32 - n) < Pow2(n)
  {
    var h1, l1 := ShiftParts(n1, n);
    var h0, l0 := ShiftParts(n0, n);
    ScalePair(n1, n0, Pow2(n), h1, l1 * Pow2(n), h0, l0 * Pow2(n));
  }

  lemma ScalePair(n1: int, n0: int, p: int, h1: int, x1: int, h0: int, x0: int)
    requires n1 * p == h1 * W + x1 && n0 * p == h0 * W + x0
    ensures (n1 * W + n0) * p == h1 * W2 + (x1 + h0) * W + x0
  {
  }

  /** Dually, dropping the low n bits of a pair divides it by 2^n. */
  lemma ShiftPairRight(n1: Word, n0: Word, n: nat)
    requires 0 < n < 32
    ensures (n1 * W + n0) / Pow2(n) == Shr(n1, n) * W + Shl(n1, 32 - n) + Shr(n0, n)
  {
    var p, q := Pow2(n), Pow2(32 - n);
    var h1, l1 := ShiftParts(n1, 32 - n);
    var h0, l0 := ShiftParts(n0, 32 - n);
    PowSplit(n);
    DropBits(h1, l1, h0, l0, p, q);
  }

  lemma DropBits(h1: int, l1: int, h0: int, l0: int, p: int, q: int)
    requires p * q == W && 0 <= l0 < p
    ensures ((h1 * p + l1) * W + (h0 * p + l0)) / p == h1 * W + l1 * q + h0
  {
    Distribute(l1, q, h0, p);
    assert l1 * (q * p) == l1 * W;
    Distribute(1, l1 * q + h0, h1 * W, p);
    DivUnique((h1 * p + l1) * W + (h0 * p + l0), p, h1 * W + l1 * q + h0, l0);
  }

  method ShiftLeft(r: Int64, a: Long, b: nat)
    requires b < 64
    modifies r
    ensures r.Get().U() == Wrap64(a.U() * Pow2(b))
  {
    if b != 0 {
      if b < 32 {
        r.lo := Shl(a.lo, b);
        ShiftPairLeft(a.hi, a.lo, b);
        ShiftJoin(a.hi, a.lo, b);
        r.hi := BitOr(Shl(a.hi, b), Shr(a.lo, 32 - b));
        Wrap64Of(a.U() * Pow2(b), Shr(a.hi, 32 - b));
      } else {
        r.lo := 0;
        r.hi := Shl(a.lo, b - 32);
        ShiftByWord(a, b - 32);
      }
    } else {
      r.Set(a);
      Wrap64Of(a.U(), 0);
    }
  }

  lemma ShiftByWord(a: Long, n: nat)
    requires n < 32
    ensures Wrap64(a.U() * Pow2(n + 32)) == Shl(a.lo, n) * W
  {
    Pow2Add(n, 32);
    Pow2Values();
    var p := Pow2(n);
    var x := a.lo * p;
    ScalePair(a.hi, a.lo, p, a.hi * p / W, a.hi * p % W, x / W, x % W);
    ScaleByWord(a.U(), p, a.hi * p + x / W, x % W);
    Wrap64Of(a.U() * Pow2(n + 32), a.hi * p + x / W);
  }

  lemma ScaleByWord(u: int, p: int, k: int, x: int)
    requires u * p == k * W + x
    ensures u * (p * W) == k * W2 + x * W
  {
    assert u * (p * W) == (u * p) * W;
  }

  method ShiftRightUnsigned(r: Int64, a: Long, b: nat)
    requires b < 64
    modifies r
    ensures r.Get().U() == a.U() / Pow2(b)
  {
    if b != 0 {
      if b < 32 {
        ShiftPairRight(a.hi, a.lo, b);
        ShiftJoin(a.hi, a.lo, 32 - b);
        r.lo := BitOr(Shl(a.hi, 32 - b), Shr(a.lo, b));
        r.hi := Shr(a.hi, b);
      } else {
        r.lo := Shr(a.hi, b - 32);
        r.hi := 0;
        DropWord(a.hi, a.lo, b - 32);
      }
    } else {
      r.Set(a);
    }
  }

  lemma DropWord(h: int, l: Word, n: nat)
    ensures (h * W + l) / Pow2(n + 32) == h / Pow2(n)
  {
    Pow2Add(n, 32);
    Pow2Values();
    DropWordOf(h, l, Pow2(n));
  }

  lemma DropWordOf(h: int, l: Word, p: int)
    requires p > 0
    ensures (h * W + l) / (p * W) == h / p
  {
    var q, r := h / p, h % p;
    assert h == q * p + r;
    Distribute(q, p, r, W);
    assert (r + 1) * W <= p * W;
    DivUnique(h * W + l, p * W, q, r * W + l);
  }

  method ShiftRightSigned(r: Int64, a: Long, b: nat)
    requires b < 64
    modifies r
    ensures r.Get().S() == a.S() / Pow2(b)
  {
    if b != 0 {
      if b < 32 {
        SignedShiftLow(a, b);
        r.lo := BitOr(Shl(a.hi, 32 - b), Shr(a.lo, b));
        r.hi := Sar(a.hi, b);
      } else {
        r.lo := Sar(a.hi, b - 32);
        r.hi := Sar(a.hi, 31);
        SignedShiftHigh(a, b - 32);
      }
    } else {
      r.Set(a);
    }
  }

  lemma SignedShiftLow(a: Long, n: nat)
    requires 0 < n < 32
    ensures BitOr(Shl(a.hi, 32 - n), Shr(a.lo, n)) < W
    ensures Long(BitOr(Shl(a.hi, 32 - n), Shr(a.lo, n)), Sar(a.hi, n)).S() == a.S() / Pow2(n)
  {
    SarBounds(a.hi, n);
    ShiftPairRightSigned(a, n);
    ShiftJoin(a.hi, a.lo, 32 - n);
  }

  lemma SignedShiftHigh(a: Long, n: nat)
    requires n < 32
    ensures Long(Sar(a.hi, n), Sar(a.hi, 31)).S() == a.S() / Pow2(n + 32)
  {
    SarBounds(a.hi, n);
    SarBounds(a.hi, 31);
    DropWord(Signed(a.hi), a.lo, n);
    SignFill(Signed(a.hi), n);
    WrapOf(Signed(a.hi) / Pow2(n), if Signed(a.hi) < 0 then -1 else 0);
  }

  /** An arithmetic shift keeps the value in signed range, so reading it back is exact. */
  lemma SarBounds(a: Word, n: nat)
    requires n < 32
    ensures Signed(Sar(a, n)) == Signed(a) / Pow2(n)
    ensures -0x8000_0000 <= Signed(a) / Pow2(n) < 0x8000_0000
  {
    FloorBounds(Signed(a), Pow2(n));
    var q := Signed(a) / Pow2(n);
    WrapOf(q, if q < 0 then -1 else 0);
  }

  /** Floor division by a positive number moves towards -1 or 0, keeping the sign. */
  lemma FloorBounds(x: int, p: int)
    requires p >= 1
    ensures x >= 0 ==> 0 <= x / p <= x
    ensures x < 0 ==> x <= x / p < 0
  {
    var q, r := x / p, x % p;
    assert x == q * p + r;
    MulBound(q, p);
    if q >= 1 {
      MulBound(p, q);
    } else if q <= -1 {
      Distribute(q + 1, p - 1, 0, 1);
      ProductBound(-q - 1, p - 1, -q - 1, p - 1);
      assert q * p == (q + 1) * (p - 1) + q - p + 1;
    }
  }

  lemma SignFill(x: int, n: nat)
    requires -0x8000_0000 <= x < 0x8000_0000 && n < 32
    ensures x / Pow2(31) == if x < 0 then -1 else 0
    ensures x / Pow2(n) < 0 <==> x < 0
  {
    Pow2Values();
    FloorBounds(x, Pow2(n));
    DivUnique(x, Pow2(31), if x < 0 then -1 else 0, if x < 0 then x + Pow2(31) else x);
  }

  lemma ShiftPairRightSigned(a: Long, n: nat)
    requires 0 < n < 32
    ensures a.S() / Pow2(n) == (Signed(a.hi) / Pow2(n)) * W + Shl(a.hi, 32 - n) + Shr(a.lo, n)
  {
    ShiftPairRight(a.hi, a.lo, n);
    if a.hi >= 0x8000_0000 {
      PowSplit(n);
      SignExtend(a.hi * W + a.lo, a.hi, Pow2(n), Pow2(32 - n));
    }
  }

  lemma SignExtend(u: int, h: int, p: int, q: int)
    requires p > 0 && p * q == W
    ensures (u - W2) / p == u / p - q * W
    ensures (h - W) / p == h / p - q
  {
    assert q * W * p == W2;
    DivShift(u, p, q * W);
    DivShift(h, p, q);
  }

  /** Subtracting a multiple of the divisor subtracts its factor from the quotient. */
  lemma DivShift(x: int, p: int, k: int)
    requires p > 0
    ensures (x - k * p) / p == x / p - k
  {
    var q, r := x / p, x % p;
    assert x - k * p == (q - k) * p + r;
    DivUnique(x - k * p, p, q - k, r);
  }

  // ----- Unsigned division -----

  /** Divisors are normalized by shifting until bit 31 is set; this counts how far. */
  method CountLeadingZeros(a: Word) returns (r: nat)
    ensures r == if a == 0 then 32 else 31 - Log2(a)
  {
    Pow2Values();
    var v := a;
    var hit;
    r := 32;
    hit, v := TestAndShift(v, 16);
    if hit { r := r - 16; }
    hit, v := TestAndShift(v, 8);
    if hit { r := r - 8; }
    hit, v := TestAndShift(v, 4);
    if hit { r := r - 4; }
    hit, v := TestAndShift(v, 2);
    if hit { r := r - 2; }
    hit, v := TestAndShift(v, 1);
    if hit { r := r - 1; }
    LowBit(v);
    if BitAnd(v, 1) != 0 {
      r := r - 1;
    }
  }

  /** Shifting by that count moves the highest set bit to position 31. */
  lemma NormalizingShift(a: Word)
    requires a > 0
    ensures Log2(a) <= 31
    ensures 0x8000_0000 <= a * Pow2(31 - Log2(a)) < W
  {
    Pow2Values();
    var n := Log2(a);
    Log2Bounds(a);
    if n > 31 {
      Pow2Monotone(31, n);
    }
    Pow2Add(n, 31 - n);
    BetweenMultiples(a, Pow2(n), Pow2(31 - n));
  }

  lemma BetweenMultiples(a: int, q: int, p: int)
    requires q <= a < 2 * q && p > 0
    ensures q * p <= a * p < 2 * (q * p)
  {
    MulBound(2 * q - a, p);
    Distribute(1, a, -q, p);
    if a > q {
      MulBound(a - q, p);
    }
    Distribute(2, q, -a, p);
  }

  /**
   Correcting an estimated digit q whose partial remainder r - m may be negative: b is added
   back at most twice.  Sums wrap at 2^32; the test r >= b recognizes one that did not.
   */
  method CorrectDigit(q: Word, r: Word, m: Word, b: Word) returns (q': Word, r': Word)
    requires b >= 0x8000_0000 && -2 * b < r - m < b && q <= 0x1_0001
    requires (r < m ==> q >= 1) && (r + b < m ==> q >= 2)
    ensures q - 2 <= q' <= q && r' < b
    ensures r' == r - m + if q' == q then 0 else if q' == q - 1 then b else 2 * b
  {
    q', r' := q, r;
    if r' < m {
      WrapOf(r' + b, if r' + b < W then 0 else 1);
      q', r' := q' - 1, Wrap(r' + b);
      if r' >= b && r' < m {
        WrapOf(r' + b, if r' + b < W then 0 else 1);
        q', r' := q' - 1, Wrap(r' + b);
      }
    }
    WrapOf(r' - m, if r' < m then -1 else 0);
    r' := Wrap(r' - m);
  }

  /**
   One quotient digit in base 2^16: divides u*2^16 + t by the normalized b, estimating the
   digit with b's top half.
   */
  method DivideDigit(u: Word, t: Word, b: Word) returns (q: Word, r: Word)
    requires b >= 0x8000_0000 && u < b && t < 0x1_0000
    ensures u * 0x1_0000 + t == q * b + r
    ensures r < b && q < 0x1_0000
  {
    var d1, d0 := Halves(b);
    q, r := WordDivide(u, d1);
    ghost var m0 := Estimate(u, t, d1, d0, q, r);
    WrapOf(q * d0, 0);
    JoinHalves(r, t);
    ghost var q0, x := q, r * 0x1_0000 + t - m0;
    q, r := CorrectDigit(q, Wrap(Shl(r, 16) + t), Wrap(q * d0), b);
    MoveMultiple(u * 0x1_0000 + t, q0, x, q0 - q, b);
    DigitBound(u, t, b, q, r);
  }

  method WordDivide(u: Word, d: Word) returns (q: Word, r: Word)
    requires d > 0
    ensures u == q * d + r && r < d
  {
    DivBounds(u, d);
    q, r := u / d, u % d;
  }

  /** The estimated digit is never too small and at most two too large. */
  lemma Estimate(u: int, t: int, d1: int, d0: int, q: int, r: int) returns (m: int)
    requires 0x8000 <= d1 < 0x1_0000 && 0 <= d0 < 0x1_0000 && 0 <= t < 0x1_0000
    requires 0 <= u < d1 * 0x1_0000 + d0 && u == q * d1 + r && 0 <= r < d1 && 0 <= q
    ensures m == q * d0 && 0 <= q <= 0x1_0001 && 0 <= m < W
    ensures var b, x := d1 * 0x1_0000 + d0, r * 0x1_0000 + t - m;
            && u * 0x1_0000 + t == q * b + x && -2 * b < x < b
            && (x < 0 ==> q >= 1) && (x + b < 0 ==> q >= 2)
  {
    EstimateBound(u, d1, q, r);
    m := q * d0;
    ProductBound(q, d0, 0x1_0001, 0xffff);
    EstimateIdentity(u, t, d1, d0, q, r, m);
  }

  lemma EstimateBound(u: int, d: int, q: int, r: int)
    requires d > 0 && 0 <= u < 0x1_0002 * d && u == q * d + r && 0 <= r
    ensures q <= 0x1_0001
  {
    MulBound(0x1_0002 - q, d);
    assert (0x1_0002 - q) * d == 0x1_0002 * d - q * d;
  }

  lemma EstimateIdentity(u: int, t: int, d1: int, d0: int, q: int, r: int, m: int)
    requires u == q * d1 + r && m == q * d0
    ensures u * 0x1_0000 + t == q * (d1 * 0x1_0000 + d0) + (r * 0x1_0000 + t - m)
    ensures q == 0 ==> m == 0
    ensures q == 1 ==> m == d0
  {
  }

  lemma MoveMultiple(n: int, q: int, x: int, k: int, b: int)
    requires n == q * b + x
    ensures n == (q - k) * b + (x + k * b)
  {
  }

  lemma DigitBound(u: int, t: int, b: int, q: int, r: int)
    requires b > 0 && 0 <= u < b && 0 <= t < 0x1_0000 && 0 <= r < b && 0 <= q
    requires u * 0x1_0000 + t == q * b + r
    ensures q < 0x1_0000
  {
    Distribute(1, 0x1_0000, -q, b);
    MulBound(0x1_0000 - q, b);
  }

  /** norm_udivmod32: a 64-bit number by a normalized word, digit by digit. */
  method NormDivide(a: Long, b: Word) returns (q: Word, r: Word)
    requires b >= 0x8000_0000 && a.hi < b
    ensures a.U() == q * b + r && r < b
  {
    var t1, t0 := Halves(a.lo);
    var q1, r1 := DivideDigit(a.hi, t1, b);
    var q0, r0 := DivideDigit(r1, t0, b);
    JoinDigits(q1, q0);
    TwoDigits(a.hi, t1, t0, b, q1, r1, q0, r0);
    q := BitOr(Shl(q1, 16), q0);
    r := r0;
  }

  lemma JoinDigits(q1: Word, q0: Word)
    requires q1 < 0x1_0000 && q0 < 0x1_0000
    ensures BitOr(Shl(q1, 16), q0) == q1 * 0x1_0000 + q0
  {
    Pow2Values();
    WrapOf(q1 * 0x1_0000, 0);
    OrDisjoint(q1 * 0x1_0000, q0, 16);
  }

  lemma TwoDigits(u: int, t1: int, t0: int, b: int, q1: int, r1: int, q0: int, r0: int)
    requires u * 0x1_0000 + t1 == q1 * b + r1 && r1 * 0x1_0000 + t0 == q0 * b + r0
    ensures u * W + t1 * 0x1_0000 + t0 == (q1 * 0x1_0000 + q0) * b + r0
  {
  }

  /** What division by a scaled divisor says about the division itself. */
  lemma Denormalize(n: int, d: int, p: int, q: int, r: int)
    requires d > 0 && p > 0 && n * p == q * (d * p) + r && 0 <= r < d * p
    ensures n / d == q && n % d == r / p && r == (n % d) * p
  {
    var x := n - q * d;
    ScaleDifference(n, q, d, p);
    CancelBounds(x, d, p);
    DivUnique(n, d, q, x);
    DivUnique(r, p, x, 0);
  }

  lemma ScaleDifference(n: int, q: int, d: int, p: int)
    ensures n * p - q * (d * p) == (n - q * d) * p
  {
  }

  lemma CancelBounds(x: int, d: int, p: int)
    requires p > 0 && 0 <= x * p < d * p
    ensures 0 <= x < d
  {
    MulBound(x, p);
    Distribute(1, d, -x, p);
    MulBound(d - x, p);
  }

  lemma ScaleLess(n: int, m: int, p: int)
    requires n < m && p > 0
    ensures n * p < m * p
  {
    MulBound(m - n, p);
    Distribute(1, m, -n, p);
  }

  /**
   The remainder jsll_udivmod leaves.  When the divisor's top bit is set and the dividend is
   not smaller, the code stores the dividend itself instead of the difference it computed.
   */
  predicate RemainderLost(a: Long, b: Long) {
    b.hi >= 0x8000_0000 && a.U() >= b.U()
  }

  method UDivMod(qp: Int64?, rp: Int64?, a: Long, b: Long)
    requires b.U() != 0 && (qp == null || qp != rp)
    modifies qp, rp
    ensures qp != null ==> qp.Get().U() == a.U() / b.U()
    ensures rp != null ==> rp.Get().U() == if RemainderLost(a, b) then a.U() else a.U() % b.U()
  {
    var q, r := LongDivide(a, b);
    if rp != null {
      rp.lo, rp.hi := r.lo, r.hi;
    }
    if qp != null {
      qp.lo, qp.hi := q.lo, q.hi;
    }
  }

  method LongDivide(a: Long, b: Long) returns (q: Long, r: Long)
    requires b.U() != 0
    ensures q.U() == a.U() / b.U()
    ensures r.U() == if RemainderLost(a, b) then a.U() else a.U() % b.U()
  {
    if b.hi == 0 {
      q, r := DivideByWord(a, b.lo);
    } else if b.hi > a.hi {
      DivUnique(a.U(), b.U(), 0, a.U());
      q, r := Long(0, 0), a;
    } else {
      var lsh := CountLeadingZeros(b.hi);
      TopBitSet(b.hi);
      if lsh == 0 {
        q, r := DivideTopBitSet(a, b);
      } else {
        q, r := DivideByPair(a, b, lsh);
      }
    }
  }

  lemma TopBitSet(w: Word)
    requires w > 0
    ensures w >= 0x8000_0000 <==> Log2(w) == 31
    ensures Log2(w) <= 31
  {
    NormalizingShift(w);
    Pow2Values();
    if w >= 0x8000_0000 {
      Log2Unique(w, 31);
    }
  }

  /** Divisors of 2^63 and more: the quotient is 0 or 1, and the difference is thrown away. */
  method DivideTopBitSet(a: Long, b: Long) returns (q: Long, r: Long)
    requires 0x8000_0000 <= b.hi <= a.hi
    ensures q.U() == a.U() / b.U()
    ensures r == a && (RemainderLost(a, b) || a.U() == a.U() % b.U())
  {
    if a.hi > b.hi || a.lo >= b.lo {
      var diff := new Int64(a);
      Sub(diff, a, b);
      Wrap64Of(a.U() - b.U(), 0);
      DivUnique(a.U(), b.U(), 1, diff.Get().U());
      q := Long(1, 0);
    } else {
      DivUnique(a.U(), b.U(), 0, a.U());
      q := Long(0, 0);
    }
    r := a;
  }

  /** Divisors below 2^32: one or two word quotients of the normalized dividend. */
  method DivideByWord(a: Long, d: Word) returns (q: Long, r: Long)
    requires d != 0
    ensures q.U() == a.U() / d && r.U() == a.U() % d
  {
    var lsh := CountLeadingZeros(d);
    TopBitSet(d);
    var q1, q0, n0;
    if d > a.hi {
      q1 := 0;
      q0, n0 := DivideOneWord(a, d, lsh);
    } else {
      q1, q0, n0 := DivideTwoWords(a, d, lsh);
    }
    q, r := Long(q0, q1), Long(Shr(n0, lsh), 0);
  }

  /** (0 q0) = (n1 n0) / (0 d): the quotient fits in one word. */
  method DivideOneWord(a: Long, d: Word, lsh: nat) returns (q0: Word, n: Word)
    requires 0 < d && a.hi < d && Log2(d) <= 31 && lsh == 31 - Log2(d)
    ensures q0 == a.U() / d && n / Pow2(lsh) == a.U() % d
  {
    NormalizingShift(d);
    var d', n1, n0 := d, a.hi, a.lo;
    if lsh != 0 {
      d' := Shl(d, lsh);
      n1 := BitOr(Shl(a.hi, lsh), Shr(a.lo, 32 - lsh));
      n0 := Shl(a.lo, lsh);
      ShiftJoin(a.hi, a.lo, lsh);
      NormalizedDividend(a, d, lsh);
    }
    q0, n := NormDivide(Long(n0, n1), d');
    Denormalize(a.U(), d, Pow2(lsh), q0, n);
  }

  lemma NormalizedDividend(a: Long, d: Word, lsh: nat)
    requires 0 < lsh < 32 && d * Pow2(lsh) < W && 0 < d
    ensures Shl(d, lsh) == d * Pow2(lsh)
    ensures Shr(a.hi, 32 - lsh) * W2 + (Shl(a.hi, lsh) + Shr(a.lo, 32 - lsh)) * W + Shl(a.lo, lsh)
         == a.U() * Pow2(lsh)
    ensures Shr(a.hi, 32 - lsh) < Pow2(lsh)
    ensures a.hi < d ==> Shr(a.hi, 32 - lsh) == 0 && Shl(a.hi, lsh) + Shr(a.lo, 32 - lsh) < d * Pow2(lsh)
  {
    ShiftPairLeft(a.hi, a.lo, lsh);
    WrapOf(d * Pow2(lsh), 0);
    if a.hi < d {
      LeadingWords(Shr(a.hi, 32 - lsh), Shl(a.hi, lsh) + Shr(a.lo, 32 - lsh), Shl(a.lo, lsh),
                   a.U(), d, Pow2(lsh));
    }
  }

  lemma LeadingWords(n2: int, n1: int, n0: int, u: int, d: int, p: int)
    requires 0 <= n2 && 0 <= n1 && 0 <= n0 && n2 * W2 + n1 * W + n0 == u * p
    requires u < d * W && p > 0 && d * p < W
    ensures n2 == 0 && n1 < d * p
  {
    ScaleLess(u, d * W, p);
    assert (d * W) * p == (d * p) * W;
  }

  /** (q1 q0) = (n1 n0) / (0 d): the quotient needs two words. */
  method DivideTwoWords(a: Long, d: Word, lsh: nat) returns (q1: Word, q0: Word, n: Word)
    requires 0 < d <= a.hi && Log2(d) <= 31 && lsh == 31 - Log2(d)
    ensures q1 * W + q0 == a.U() / d && n / Pow2(lsh) == a.U() % d
  {
    NormalizingShift(d);
    var d', n1, n0;
    if lsh == 0 {
      d', n1, n0, q1 := d, a.hi - d, a.lo, 1;
    } else {
      d', q1, n1, n0 := LeadingQuotientWord(a, d, lsh);
    }
    ghost var top := n1;
    q0, n := NormDivide(Long(n0, n1), d');
    TwoWords(q1, q0, d', top, n0, n);
    Denormalize(a.U(), d, Pow2(lsh), q1 * W + q0, n);
  }

  method LeadingQuotientWord(a: Long, d: Word, lsh: nat) returns (d': Word, q1: Word, n1: Word, n0: Word)
    requires 0 < d && 0 < lsh < 32 && 0x8000_0000 <= d * Pow2(lsh) < W
    ensures d' == d * Pow2(lsh) && n1 < d'
    ensures (q1 * d' + n1) * W + n0 == a.U() * Pow2(lsh)
  {
    var rsh := 32 - lsh;
    d' := Shl(d, lsh);
    var n2 := Shr(a.hi, rsh);
    ShiftJoin(a.hi, a.lo, lsh);
    NormalizedDividend(a, d, lsh);
    SmallPower(lsh);
    n1 := BitOr(Shl(a.hi, lsh), Shr(a.lo, rsh));
    n0 := Shl(a.lo, lsh);
    q1, n1 := NormDivide(Long(n1, n2), d');
  }

  lemma SmallPower(n: nat)
    requires n < 32
    ensures Pow2(n) <= 0x8000_0000
  {
    Pow2Values();
    if n < 31 {
      Pow2Monotone(n, 31);
    }
  }

  lemma TwoWords(q1: int, q0: int, d: int, r1: int, n0: int, r: int)
    requires r1 * W + n0 == q0 * d + r
    ensures (q1 * d + r1) * W + n0 == (q1 * W + q0) * d + r
  {
  }

  /** (0 q0) = (n1 n0) / (d1 d0), after normalizing. */
  method DivideByPair(a: Long, b: Long, lsh: nat) returns (q: Long, r: Long)
    requires b.hi != 0 && Log2(b.hi) <= 31 && lsh == 31 - Log2(b.hi) && lsh != 0
    ensures q.U() == a.U() / b.U() && r.U() == a.U() % b.U()
  {
    var rsh := 32 - lsh;
    NormalizedDivisor(b, lsh);
    LowWordBound(b.lo, lsh);
    var b' := Long(Shl(b.lo, lsh), BitOr(Shl(b.hi, lsh), Shr(b.lo, rsh)));
    ShiftPairLeft(a.hi, a.lo, lsh);
    ShiftJoin(a.hi, a.lo, lsh);
    SmallPower(lsh);
    var q0, d := PairQuotient(Shr(a.hi, rsh), BitOr(Shl(a.hi, lsh), Shr(a.lo, rsh)), Shl(a.lo, lsh),
                              b', Pow2(lsh));
    Denormalize(a.U(), b.U(), Pow2(lsh), q0, d.U());
    ShiftPairRight(d.hi, d.lo, lsh);
    ShiftJoin(d.hi, d.lo, rsh);
    q, r := Long(q0, 0), Long(BitOr(Shl(d.hi, rsh), Shr(d.lo, lsh)), Shr(d.hi, lsh));
  }

  /** The quotient estimated by the divisor's top word alone is at most one too large. */
  method PairQuotient(n2: Word, n1: Word, n0: Word, b: Long, ghost p: int) returns (q0: Word, d: Long)
    requires 1 <= p <= 0x8000_0000 && 0 <= p * b.lo <= 0x4000_0000_0000_0000
    requires b.hi >= 0x8000_0000 && n2 < p
    ensures n2 * W2 + n1 * W + n0 == q0 * b.U() + d.U() && d.U() < b.U()
  {
    var r1;
    q0, r1 := NormDivide(Long(n1, n2), b.hi);
    PairEstimate(n2, n1, n0, b, p, q0, r1);
    var m := new Int64(Long(0, 0));
    Mul32(m, q0, b.lo);
    var rest := Long(n0, r1);
    ghost var m0, k := m.Get().U(), 0;
    if UCmpGreater(m.Get(), rest) {
      q0, k := q0 - 1, 1;
      Sub(m, m.Get(), b);
    }
    var diff := new Int64(rest);
    Sub(diff, rest, m.Get());
    d := diff.Get();
    CorrectedRemainder(rest, b, m0, k, m.Get(), d);
    MoveMultiple(n2 * W2 + n1 * W + n0, q0 + k, rest.U() - m0, k, b.U());
  }

  lemma NormalizedDivisor(b: Long, lsh: nat)
    requires b.hi != 0 && Log2(b.hi) <= 31 && lsh == 31 - Log2(b.hi) && lsh != 0
    ensures BitOr(Shl(b.hi, lsh), Shr(b.lo, 32 - lsh)) == Shl(b.hi, lsh) + Shr(b.lo, 32 - lsh)
    ensures 0x8000_0000 <= Shl(b.hi, lsh) + Shr(b.lo, 32 - lsh) < W
    ensures (Shl(b.hi, lsh) + Shr(b.lo, 32 - lsh)) * W + Shl(b.lo, lsh) == b.U() * Pow2(lsh)
  {
    NormalizingShift(b.hi);
    WrapOf(b.hi * Pow2(lsh), 0);
    ShiftPairLeft(b.hi, b.lo, lsh);
    ShiftJoin(b.hi, b.lo, lsh);
    var h, l := ShiftParts(b.hi, lsh);
  }

  lemma LowWordBound(w: Word, n: nat)
    requires 0 < n < 32
    ensures 0 <= Pow2(n) * Shl(w, n) <= 0x4000_0000_0000_0000
  {
    var h, l := ShiftParts(w, n);
    Pow2Values();
    if n < 31 {
      Pow2Monotone(n, 31);
      ProductBound(Pow2(n), Shl(w, n), 0x4000_0000, W);
    } else {
      ProductBound(Pow2(n), Shl(w, n), 0x8000_0000, 0x8000_0000);
    }
  }

  lemma PairEstimate(n2: Word, n1: Word, n0: Word, b: Long, p: int, q0: Word, r1: Word)
    requires p >= 1 && 0 <= p * b.lo <= 0x4000_0000_0000_0000 && b.hi >= 0x8000_0000
    requires n2 < p && n2 * W + n1 == q0 * b.hi + r1 && r1 < b.hi
    ensures n2 * W2 + n1 * W + n0 == q0 * b.U() + (r1 * W + n0 - q0 * b.lo)
    ensures q0 * b.lo <= b.U() && r1 * W + n0 < b.U()
    ensures q0 * b.lo > 0 ==> q0 > 0
  {
    ProductBound(q0, 0x8000_0000, q0, b.hi);
    ProductBound(q0, b.lo, 2 * p, b.lo);
    Distribute(q0, b.hi, 0, W);
    Distribute(2, p, 0, b.lo);
    assert q0 * b.U() == (q0 * b.hi) * W + q0 * b.lo by {
      SplitProduct(q0, b.hi, b.lo);
    }
  }

  lemma SplitProduct(q: int, h: int, l: int)
    ensures q * (h * W + l) == (q * h) * W + q * l
  {
  }

  lemma CorrectedRemainder(x: Long, b: Long, m0: int, k: int, m: Long, d: Long)
    requires 0 <= m0 <= b.U() && x.U() < b.U()
    requires k == if m0 > x.U() then 1 else 0
    requires m.U() == if k == 1 then Wrap64(m0 - b.U()) else m0
    requires d.U() == Wrap64(x.U() - m.U())
    ensures d.U() == x.U() - m0 + k * b.U() < b.U()
  {
    if k == 1 {
      Wrap64Of(m0 - b.U(), if m0 < b.U() then -1 else 0);
      Wrap64Of(x.U() - m.U(), if x.U() < m.U() then -1 else 0);
    } else {
      Wrap64Of(x.U() - m0, 0);
    }
  }

  // ----- Signed division, as ISO C99 section 6.5.5 paragraph 6 defines it -----

  function Abs(x: int): nat {
    if x < 0 then -x else x
  }

  function Quotient(x: int, y: int): int
    requires y != 0
  {
    if (x < 0) == (y < 0) then Abs(x) / Abs(y) else -(Abs(x) / Abs(y))
  }

  function Remainder(x: int, y: int): int
    requires y != 0
  {
    if x < 0 then -(Abs(x) % Abs(y)) else Abs(x) % Abs(y)
  }

  /** q and r are a quotient and remainder of x by y, truncated: r is small and keeps x's sign. */
  predicate Truncated(x: int, y: int, q: int, r: int) {
    x == q * y + r && Abs(r) < Abs(y) && (r == 0 || (r < 0 <==> x < 0))
  }

  /** Exactly one pair is. */
  lemma TruncatedDivision(x: int, y: int, q: int, r: int)
    requires y != 0
    ensures Truncated(x, y, q, r) <==> q == Quotient(x, y) && r == Remainder(x, y)
  {
    if Truncated(x, y, q, r) {
      DivUnique(Abs(x), Abs(y), if (x < 0) == (y < 0) then q else -q, Abs(r));
    }
  }

  lemma Magnitude(v: Long)
    ensures v.S() < 0 ==> Wrap64(-v.U()) == -v.S() <= -MIN
    ensures v.S() >= 0 ==> v.U() == v.S() < -MIN
    ensures v.S() < 0 <==> Signed(v.hi) < 0
  {
    if v.S() < 0 {
      Wrap64Of(-v.U(), -1);
    }
  }

  lemma NegateBack(u: int, v: Long)
    requires 0 <= u <= -MIN && v.U() == Wrap64(-u)
    ensures v.S() == -u
  {
    Wrap64Of(-u, if u == 0 then 0 else -1);
  }

  method Div(r: Int64, a: Int64, b: Int64)
    requires b.Get().S() != 0
    modifies r
    ensures (r.Get().S() == Quotient(old(a.Get().S()), old(b.Get().S())))
       <==> !(old(a.Get().S()) == MIN && old(b.Get().S()) == -1)
    ensures old(a.Get().S()) == MIN && old(b.Get().S()) == -1 ==> r.Get().S() == MIN
  {
    ghost var x, y := a.Get().S(), b.Get().S();
    Magnitude(a.Get());
    Magnitude(b.Get());
    var negative := Signed(a.hi) < 0;
    var a' := new Int64(a.Get());
    var b' := new Int64(b.Get());
    if negative {
      Neg(a', a);
    }
    if Signed(b.hi) < 0 {
      negative := !negative;
      Neg(b', b);
    }
    UDivMod(r, null, a'.Get(), b'.Get());
    DivBounds(Abs(x), Abs(y));
    ghost var q := r.Get().U();
    if negative {
      Neg(r, r);
      NegateBack(q, r.Get());
    }
  }

  method Mod(r: Int64, a: Int64, b: Int64)
    requires b.Get().S() != 0
    modifies r
    ensures (r.Get().S() == Remainder(old(a.Get().S()), old(b.Get().S())))
       <==> !(old(a.Get().S()) == MIN && old(b.Get().S()) == MIN)
    ensures old(a.Get().S()) == MIN && old(b.Get().S()) == MIN ==> r.Get().S() == MIN
  {
    hide Wrap64;
    ghost var x, y := a.Get().S(), b.Get().S();
    Magnitude(a.Get());
    Magnitude(b.Get());
    var negative := Signed(a.hi) < 0;
    var a' := new Int64(a.Get());
    var b' := new Int64(b.Get());
    if negative {
      Neg(a', a);
    }
    if Signed(b.hi) < 0 {
      Neg(b', b);
    }
    UDivMod(null, r, a'.Get(), b'.Get());
    ghost var u := r.Get().U();
    if negative {
      Neg(r, r);
      NegateBack(u, r.Get());
    }
    LostRemainder(x, y);
  }

  lemma LostRemainder(x: int, y: int)
    requires MIN <= x < -MIN && y != 0
    ensures x == MIN && y == MIN ==> Remainder(x, y) == 0
  {
    if x == MIN && y == MIN {
      DivUnique(-MIN, -MIN, 1, 0);
    }
  }
}
