/**
 32-bit unsigned machine words as C sees them on this port: values below 2^32, wrapping
 arithmetic, shifts and bitwise operators.  Everything is defined over integers, and the
 lemmas below say what each operator does in terms of powers of two.
 */
module Words {

  const W: int := 0x1_0000_0000

  type Word = x: int | 0 <= x < 0x1_0000_0000

  /** The value C stores when an unsigned 32-bit computation yields x. */
  function Wrap(x: int): Word {
    x % W
  }

  /** The value of a word reinterpreted as a signed 32-bit integer. */
  function Signed(w: Word): int {
    if w < 0x8000_0000 then w else w - W
  }

  function Pow2(n: nat): (p: nat)
    ensures p >= 1
  {
    if n == 0 then 1 else 2 * Pow2(n - 1)
  }

  lemma {:induction false} Pow2Add(m: nat, n: nat)
    ensures Pow2(m + n) == Pow2(m) * Pow2(n)
  {
    if m > 0 {
      Pow2Add(m - 1, n);
      assert Pow2(m + n) == 2 * (Pow2(m - 1) * Pow2(n));
    }
  }

  lemma {:induction false} Pow2Monotone(m: nat, n: nat)
    requires m < n
    ensures 2 * Pow2(m) <= Pow2(n)
    decreases n
  {
    if m < n - 1 {
      Pow2Monotone(m, n - 1);
    }
  }

  lemma Pow2Values()
    ensures Pow2(1) == 2 && Pow2(2) == 4 && Pow2(3) == 8 && Pow2(4) == 16 && Pow2(5) == 32
    ensures Pow2(8) == 0x100 && Pow2(16) == 0x1_0000 && Pow2(31) == 0x8000_0000 && Pow2(32) == W
  {
    assert Pow2(8) == 0x100;
    Pow2Add(8, 8);
    Pow2Add(16, 16);
  }

  /** a << n.  C leaves counts of 32 and more undefined, hence the bound. */
  function Shl(a: Word, n: nat): Word
    requires n < 32
  {
    Wrap(a * Pow2(n))
  }

  /** a >> n on an unsigned word. */
  function Shr(a: Word, n: nat): (r: Word)
    requires n < 32
    ensures r <= a
  {
    DivBounds(a, Pow2(n));
    a / Pow2(n)
  }

  /** (JSInt32)a >> n: the arithmetic shift every supported compiler performs. */
  function Sar(a: Word, n: nat): Word
    requires n < 32
  {
    Wrap(Signed(a) / Pow2(n))
  }

  // ----- Bitwise operators, bit by bit -----

  function BitAnd(a: nat, b: nat): (r: nat)
    ensures r <= a && r <= b
  {
    if a == 0 || b == 0 then 0 else 2 * BitAnd(a / 2, b / 2) + (if a % 2 == 1 && b % 2 == 1 then 1 else 0)
  }

  function BitOr(a: nat, b: nat): nat {
    if a == 0 || b == 0 then a + b
    else 2 * BitOr(a / 2, b / 2) + (if a % 2 == 0 && b % 2 == 0 then 0 else 1)
  }

  function BitNot(w: Word): Word {
    W - 1 - w
  }

  /** Bit i of w, counted from the least significant end. */
  predicate Bit(w: nat, i: nat) {
    if i == 0 then w % 2 == 1 else Bit(w / 2, i - 1)
  }

  // ----- Division facts used throughout -----

  lemma MulBound(x: int, d: int)
    requires d > 0
    ensures x >= 1 ==> x * d >= d
    ensures x <= -1 ==> x * d <= -d
  {
  }

  lemma DivUnique(n: int, d: int, q: int, r: int)
    requires d > 0 && n == q * d + r && 0 <= r < d
    ensures n / d == q && n % d == r
  {
    var q', r' := n / d, n % d;
    assert (q - q') * d == r' - r;
    MulBound(q - q', d);
  }

  lemma DivBounds(n: nat, d: nat)
    requires d > 0
    ensures 0 <= n / d <= n
  {
    var q := n / d;
    MulBound(q, d);
    if q >= 1 {
      MulBound(d, q);
    }
  }

  /** The quotient of a non-negative number is below any bound its multiple is below. */
  lemma DivBelow(n: nat, d: nat, k: nat)
    requires d > 0 && n < k * d
    ensures n / d < k
  {
    var q := n / d;
    assert (k - q) * d > 0;
    MulBound(k - q, d);
  }

  /** Halving and taking remainders: the low bit is untouched by a larger power of two. */
  lemma ModHalf(a: nat, p: nat)
    requires p > 0
    ensures a % (2 * p) == 2 * ((a / 2) % p) + a % 2
    ensures a / (2 * p) == (a / 2) / p
  {
    var q, r := (a / 2) / p, (a / 2) % p;
    assert a / 2 == q * p + r;
    assert a == q * (2 * p) + (2 * r + a % 2);
    DivUnique(a, 2 * p, q, 2 * r + a % 2);
  }

  lemma WrapOf(x: int, k: int)
    requires 0 <= x - k * W < W
    ensures Wrap(x) == x - k * W
  {
    DivUnique(x, W, k, x - k * W);
  }

  // ----- What the bitwise operators compute -----

  /** The k low bits of a. */
  function LowBits(a: nat, k: nat): nat {
    if k == 0 then 0 else 2 * LowBits(a / 2, k - 1) + a % 2
  }

  lemma {:induction false} LowBitsRemainder(a: nat, k: nat)
    ensures LowBits(a, k) == a % Pow2(k)
  {
    if k > 0 {
      LowBitsRemainder(a / 2, k - 1);
      ModHalf(a, Pow2(k - 1));
    }
  }

  lemma {:induction false} AndLowBits(a: nat, k: nat)
    ensures BitAnd(a, Pow2(k) - 1) == LowBits(a, k)
  {
    if k > 0 {
      var h := Pow2(k - 1) - 1;
      assert Pow2(k) - 1 == 2 * h + 1;
      AndLowBits(a / 2, k - 1);
    }
  }

  /** Masking with the low k bits is the remainder modulo 2^k. */
  lemma AndLowMask(a: nat, k: nat)
    ensures BitAnd(a, Pow2(k) - 1) == a % Pow2(k)
  {
    AndLowBits(a, k);
    LowBitsRemainder(a, k);
  }

  /** Or-ing a multiple of 2^k with a number below 2^k adds them. */
  lemma {:induction false} OrDisjoint(a: nat, b: nat, k: nat)
    requires a % Pow2(k) == 0 && b < Pow2(k)
    ensures BitOr(a, b) == a + b
  {
    if a > 0 && b > 0 {
      var p := Pow2(k - 1);
      var q := a / (2 * p);
      assert a == 2 * (q * p);
      DivUnique(a / 2, p, q, 0);
      OrDisjoint(a / 2, b / 2, k - 1);
    }
  }

  lemma {:induction false} AllLowBits(a: nat, k: nat)
    requires a < Pow2(k)
    ensures LowBits(a, k) == a
  {
    if k > 0 {
      AllLowBits(a / 2, k - 1);
    }
  }

  lemma {:induction false} AndHighBits(a: nat, k: nat, d: nat)
    requires a < Pow2(k + d)
    ensures Pow2(k) <= Pow2(k + d) && BitAnd(a, Pow2(k + d) - Pow2(k)) == a - LowBits(a, k)
  {
    if k == 0 {
      AndLowBits(a, d);
      AllLowBits(a, d);
    } else {
      var h := Pow2(k - 1 + d) - Pow2(k - 1);
      assert Pow2(k + d) == 2 * Pow2(k - 1 + d) && Pow2(k) == 2 * Pow2(k - 1);
      hide BitAnd, Pow2;
      AndHighBits(a / 2, k - 1, d);
    }
  }

  /** Masking with the complement of the low k bits rounds down to a multiple of 2^k. */
  lemma AndHighMask(a: nat, k: nat, d: nat)
    requires a < Pow2(k + d)
    ensures Pow2(k) <= Pow2(k + d) && BitAnd(a, Pow2(k + d) - Pow2(k)) == a - a % Pow2(k)
  {
    AndHighBits(a, k, d);
    LowBitsRemainder(a, k);
  }

  lemma {:induction false} BitOfAnd(a: nat, b: nat, i: nat)
    ensures Bit(BitAnd(a, b), i) <==> Bit(a, i) && Bit(b, i)
  {
    if a == 0 || b == 0 {
      BitOfZero(i);
    } else {
      var h := BitAnd(a / 2, b / 2);
      assert BitAnd(a, b) / 2 == h;
      if i > 0 {
        BitOfAnd(a / 2, b / 2, i - 1);
      }
    }
  }

  lemma {:induction false} BitOfOr(a: nat, b: nat, i: nat)
    ensures Bit(BitOr(a, b), i) <==> Bit(a, i) || Bit(b, i)
  {
    if a == 0 || b == 0 {
      BitOfZero(i);
    } else {
      assert BitOr(a, b) / 2 == BitOr(a / 2, b / 2);
      if i > 0 {
        BitOfOr(a / 2, b / 2, i - 1);
      }
    }
  }

  lemma {:induction false} BitOfZero(i: nat)
    ensures !Bit(0, i)
  {
    if i > 0 {
      BitOfZero(i - 1);
    }
  }

  /** Complementing an n-bit number flips each of its n bits. */
  lemma {:induction false} BitOfComplement(w: nat, i: nat, n: nat)
    requires i < n && w < Pow2(n)
    ensures Bit(Pow2(n) - 1 - w, i) <==> !Bit(w, i)
  {
    var c := Pow2(n) - 1 - w;
    if i > 0 {
      BitOfComplement(w / 2, i - 1, n - 1);
    }
  }

  lemma {:induction false} BitOfPow2(k: nat, i: nat)
    ensures Bit(Pow2(k), i) <==> i == k
  {
    if k == 0 {
      if i > 0 {
        BitOfZero(i - 1);
      }
    } else if i > 0 {
      BitOfPow2(k - 1, i - 1);
    }
  }

  /** A number with at least one bit set is not zero, and conversely. */
  lemma {:induction false} SomeBit(w: nat) returns (i: nat)
    requires w > 0
    ensures Bit(w, i)
  {
    if w % 2 == 1 {
      i := 0;
    } else {
      var j := SomeBit(w / 2);
      i := j + 1;
    }
  }

  /** The bitwise or of two n-bit numbers is an n-bit number. */
  lemma {:induction false} OrBound(a: nat, b: nat, n: nat)
    requires a < Pow2(n) && b < Pow2(n)
    ensures BitOr(a, b) < Pow2(n)
  {
    if a > 0 && b > 0 {
      OrBound(a / 2, b / 2, n - 1);
    }
  }

  // ----- The position of the highest set bit -----

  /** The number of the highest bit set in a; zero has none and is given zero. */
  function Log2(a: nat): nat {
    if a <= 1 then 0 else 1 + Log2(a / 2)
  }

  lemma {:induction false} Log2Bounds(a: nat)
    requires a > 0
    ensures Pow2(Log2(a)) <= a < 2 * Pow2(Log2(a))
  {
    if a > 1 {
      Log2Bounds(a / 2);
    }
  }

  lemma {:induction false} Log2Unique(a: nat, n: nat)
    requires Pow2(n) <= a < 2 * Pow2(n)
    ensures Log2(a) == n
  {
    if n > 0 {
      Log2Unique(a / 2, n - 1);
    }
  }

  /** Shifting out k bits below the highest one lowers its position by k. */
  lemma {:induction false} Log2Shift(a: nat, k: nat)
    requires a / Pow2(k) > 0
    ensures Log2(a) == k + Log2(a / Pow2(k))
  {
    if k > 0 {
      var p := Pow2(k - 1);
      ModHalf(a, p);
      DivBounds(a / 2, p);
      Log2Shift(a / 2, k - 1);
    }
  }

  /** The test-and-shift step of the binary search for the highest set bit. */
  method TestAndShift(v: Word, k: nat) returns (hit: bool, v': Word)
    requires 0 < k < 32 && v < Pow2(2 * k)
    ensures v' < Pow2(k) && (v' == 0 <==> v == 0)
    ensures Log2(v) == (if hit then k else 0) + Log2(v')
  {
    var t := Shr(v, k);
    hit, v' := t != 0, if t != 0 then t else v;
    Pow2Add(k, k);
    QuotientRange(v, Pow2(k));
    if hit {
      Log2Shift(v, k);
    }
  }

  lemma QuotientRange(v: nat, p: nat)
    requires p > 0 && v < p * p
    ensures 0 <= v / p < p
    ensures v / p == 0 <==> v < p
  {
    DivBelow(v, p, p);
    MulBound(v / p, p);
    if v < p {
      DivUnique(v, p, 0, v);
    }
  }

  lemma LowBit(v: nat)
    ensures BitAnd(v, 1) == v % 2
  {
    AndLowMask(v, 1);
    Pow2Values();
  }
}
