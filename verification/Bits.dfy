/** Logarithms by binary search and bitmaps of words (jsbit.h, jslog2.c). */
module Bits {
  import opened Words

  // ----- Logarithms -----

  /** JS_FLOOR_LOG2 without a count-leading-zeros instruction. */
  method FloorLog2(n: Word) returns (log2: nat)
    ensures log2 == Log2(n) < 32
    ensures n > 0 ==> Pow2(log2) <= n < 2 * Pow2(log2)
    ensures n == 0 ==> log2 == 0
  {
    hide Log2;
    Pow2Values();
    var j, hit := n, false;
    log2 := 0;
    hit, j := TestAndShift(j, 16);
    log2 := log2 + if hit then 16 else 0;
    hit, j := TestAndShift(j, 8);
    log2 := log2 + if hit then 8 else 0;
    hit, j := TestAndShift(j, 4);
    log2 := log2 + if hit then 4 else 0;
    hit, j := TestAndShift(j, 2);
    log2 := log2 + if hit then 2 else 0;
    hit, j := TestAndShift(j, 1);
    log2 := log2 + if hit then 1 else 0;
    LastBit(j);
    if n > 0 {
      Log2Bounds(n);
    }
  }

  lemma LastBit(j: nat)
    requires j < 2
    ensures Log2(j) == 0
  {
  }

  /** The least c such that 2 to the c is at least n. */
  ghost predicate IsCeilingLog2(n: nat, c: nat) {
    n <= Pow2(c) && forall d: nat :: d < c ==> Pow2(d) < n
  }

  lemma {:induction false} BitAndSelf(a: nat)
    ensures BitAnd(a, a) == a
  {
    if a > 0 {
      BitAndSelf(a / 2);
    }
  }

  /** n and n - 1 share no bit exactly when n is a power of two. */
  lemma {:induction false} PowerOfTwoTest(n: nat)
    requires n > 0
    ensures BitAnd(n, n - 1) == 0 <==> n == Pow2(Log2(n))
  {
    if n > 1 {
      var m := n / 2;
      if n % 2 == 0 {
        PowerOfTwoTest(m);
        assert (n - 1) / 2 == m - 1;
      } else {
        BitAndSelf(m);
        assert (n - 1) / 2 == m;
        assert Pow2(Log2(n)) == 2 * Pow2(Log2(m));
      }
    }
  }

  lemma CeilingFromFloor(n: nat, c: nat)
    requires n > 0
    requires c == Log2(n) + if n == Pow2(Log2(n)) then 0 else 1
    ensures IsCeilingLog2(n, c)
  {
    Log2Bounds(n);
    assert n <= Pow2(c);
    forall d: nat | d < c
      ensures Pow2(d) < n
    {
      if d < Log2(n) {
        Pow2Monotone(d, Log2(n));
      }
    }
  }

  /** JS_CEILING_LOG2 in the same style: one more than the floor unless n is a power of two. */
  method CeilingLog2(n: Word) returns (log2: nat)
    ensures IsCeilingLog2(n, log2)
  {
    hide Log2, Pow2, BitAnd;
    var extra := BitAnd(n, Wrap(n - 1)) != 0;
    log2 := FloorLog2(n);
    if extra {
      log2 := log2 + 1;
    }
    if n > 0 {
      WrapOf(n - 1, 0);
      PowerOfTwoTest(n);
      CeilingFromFloor(n, log2);
    }
  }

  /** JS_CEILING_LOG2W; the form with a count-leading-zeros instruction computes the same. */
  function CeilingLog2W(n: nat): nat {
    if n <= 1 then 0 else 1 + Log2(n - 1)
  }

  /** __builtin_clz of a word that is not zero */
  function LeadingZeros(n: nat): int {
    31 - Log2(n)
  }

  /** All forms of the ceiling agree, for zero and one too. */
  lemma CeilingForms(n: nat, c: nat)
    requires IsCeilingLog2(n, c)
    ensures c == CeilingLog2W(n)
    ensures c == if n <= 1 then 0 else 32 - LeadingZeros(n - 1)
  {
    var w := CeilingLog2W(n);
    if n > 1 {
      Log2Bounds(n - 1);
      forall d: nat | d < w
        ensures Pow2(d) < n
      {
        if d < Log2(n - 1) {
          Pow2Monotone(d, Log2(n - 1));
        }
      }
    }
    assert IsCeilingLog2(n, w);
  }

  /** The floor with a count-leading-zeros instruction, which sets the lowest bit first. */
  lemma FloorForms(n: nat)
    ensures Log2(n) == 31 - LeadingZeros(BitOr(n, 1))
  {
    hide BitOr;
    OrOne(n);
    assert BitOr(n, 1) / 2 == n / 2;
  }

  lemma OrOne(n: nat)
    ensures BitOr(n, 1) == 2 * (n / 2) + 1
  {
    if n > 0 {
      var h := n / 2;
      assert BitOr(h, 0) == h;
      assert 1 / 2 == 0;
    }
  }

  // ----- Bitmaps -----

  /** The numbers of the bits that are set. */
  ghost function Members(map_: seq<Word>): set<nat> {
    set i: nat | 0 <= i < 32 * |map_| && Bit(map_[i / 32], i % 32)
  }

  lemma BitPosition(bit: Word)
    ensures Shr(bit, 5) == bit / 32 && BitAnd(bit, 31) == bit % 32
  {
    hide BitAnd;
    Pow2Values();
    AndLowMask(bit, 5);
  }

  lemma OneBit(k: nat)
    requires k < 32
    ensures Shl(1, k) == Pow2(k) < W
  {
    hide Pow2;
    Pow2Values();
    if k < 31 {
      Pow2Monotone(k, 31);
    }
    WrapOf(Pow2(k), 0);
  }

  /** One bit of a word is set, the others stay. */
  lemma SetInWord(w: Word, k: nat)
    requires k < 32
    ensures BitOr(w, Pow2(k)) < W
    ensures forall i: nat :: i < 32 ==> (Bit(BitOr(w, Pow2(k)), i) <==> Bit(w, i) || i == k)
  {
    hide BitOr, Pow2, Bit;
    Pow2Values();
    OneBit(k);
    OrBound(w, Pow2(k), 32);
    forall i: nat | i < 32
      ensures Bit(BitOr(w, Pow2(k)), i) <==> Bit(w, i) || i == k
    {
      BitOfOr(w, Pow2(k), i);
      BitOfPow2(k, i);
    }
  }

  lemma ClearInWord(w: Word, k: nat)
    requires k < 32
    ensures Pow2(k) < W
    ensures forall i: nat :: i < 32 ==> (Bit(BitAnd(w, BitNot(Pow2(k))), i) <==> Bit(w, i) && i != k)
  {
    hide BitAnd, Pow2, Bit;
    Pow2Values();
    OneBit(k);
    forall i: nat | i < 32
      ensures Bit(BitAnd(w, BitNot(Pow2(k))), i) <==> Bit(w, i) && i != k
    {
      BitOfAnd(w, BitNot(Pow2(k)), i);
      BitOfComplement(Pow2(k), i, 32);
      BitOfPow2(k, i);
    }
  }

  lemma TestInWord(w: Word, k: nat)
    requires k < 32
    ensures BitAnd(w, Pow2(k)) != 0 <==> Bit(w, k)
  {
    hide BitAnd, Pow2, Bit;
    var x := BitAnd(w, Pow2(k));
    BitOfAnd(w, Pow2(k), k);
    BitOfPow2(k, k);
    if x != 0 {
      var i := SomeBit(x);
      BitOfAnd(w, Pow2(k), i);
      BitOfPow2(k, i);
    } else {
      BitOfZero(k);
    }
  }

  /** Only word b / 32 changes, and in it only bit b % 32. */
  lemma MembersUpdated(s: seq<Word>, t: seq<Word>, b: nat, on: bool)
    requires b < 32 * |s| && |t| == |s|
    requires forall j :: 0 <= j < |s| && j != b / 32 ==> t[j] == s[j]
    requires forall i: nat :: i < 32 ==> (Bit(t[b / 32], i) <==> if i == b % 32 then on else Bit(s[b / 32], i))
    ensures Members(t) == if on then Members(s) + {b} else Members(s) - {b}
  {
    hide Bit;
    forall i: nat | i < 32 * |s|
      ensures Bit(t[i / 32], i % 32) <==> if i == b then on else Bit(s[i / 32], i % 32)
    {
      if i / 32 == b / 32 {
        assert i == b <==> i % 32 == b % 32;
      }
    }
  }

  /** JS_SET_BIT */
  method SetBit(map_: array<Word>, bit: Word)
    requires bit < 32 * map_.Length
    modifies map_
    ensures Members(map_[..]) == old(Members(map_[..])) + {bit as nat}
  {
    hide BitOr, BitAnd, Pow2, Bit, Members;
    BitPosition(bit);
    var i, k := Shr(bit, 5), BitAnd(bit, 31);
    OneBit(k);
    SetInWord(map_[i], k);
    ghost var was := map_[..];
    map_[i] := BitOr(map_[i], Shl(1, k));
    MembersUpdated(was, map_[..], bit, true);
  }

  /** JS_CLEAR_BIT */
  method ClearBit(map_: array<Word>, bit: Word)
    requires bit < 32 * map_.Length
    modifies map_
    ensures Members(map_[..]) == old(Members(map_[..])) - {bit as nat}
  {
    hide BitOr, BitAnd, Pow2, Bit, Members;
    BitPosition(bit);
    var i, k := Shr(bit, 5), BitAnd(bit, 31);
    OneBit(k);
    ClearInWord(map_[i], k);
    ghost var was := map_[..];
    map_[i] := BitAnd(map_[i], BitNot(Shl(1, k)));
    MembersUpdated(was, map_[..], bit, false);
  }

  /** JS_TEST_BIT */
  method TestBit(map_: array<Word>, bit: Word) returns (r: bool)
    requires bit < 32 * map_.Length
    ensures r <==> bit as nat in Members(map_[..])
  {
    hide BitOr, BitAnd, Pow2, Bit;
    BitPosition(bit);
    var i, k := Shr(bit, 5), BitAnd(bit, 31);
    OneBit(k);
    TestInWord(map_[i], k);
    r := BitAnd(map_[i], Shl(1, k)) != 0;
  }
}
