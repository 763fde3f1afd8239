/**
 Arena pools (jsarena.h, jsarena.c) on 32-bit addresses: allocation by moving avail up, growth of
 the last block in place, and release of everything since a mark.
 */
module ArenaPools {
  import opened Options
  import opened Words

  // ----- Unsigned tests -----

  /** JS_ARENA_ALIGN */
  function Align(n: Word, mask: Word): Word {
    BitAnd(Wrap(n + mask), BitNot(mask))
  }

  ghost predicate IsMask(mask: Word) {
    exists k: nat :: k < 32 && mask + 1 == Pow2(k)
  }

  /** n rounded up, unless adding the mask wraps; then it is zero. */
  lemma AlignRoundsUp(n: Word, mask: Word)
    requires IsMask(mask)
    ensures Align(n, mask) % (mask + 1) == 0
    ensures n + mask < W ==> n <= Align(n, mask) <= n + mask
    ensures n + mask >= W ==> Align(n, mask) == 0
    ensures n <= Align(n, mask) <==> n + mask < W
    ensures n % (mask + 1) == 0 ==> Align(n, mask) == n
  {
    hide BitAnd, Pow2, BitNot;
    var k: nat :| k < 32 && mask + 1 == Pow2(k);
    var x := Wrap(n + mask);
    AndNotMask(x, mask, k);
    WholeMultiple(k);
    RoundedUp(n, x, mask + 1, Pow2(32 - k));
  }

  lemma AndNotMask(x: Word, mask: Word, k: nat)
    requires k < 32 && mask + 1 == Pow2(k)
    ensures BitAnd(x, BitNot(mask)) == x - x % (mask + 1)
  {
    hide BitAnd, Pow2;
    Pow2Values();
    assert k + (32 - k) == 32;
    AndHighMask(x, k, 32 - k);
  }

  lemma WholeMultiple(k: nat)
    requires k < 32
    ensures Pow2(k) * Pow2(32 - k) == W
  {
    hide Pow2;
    Pow2Values();
    Pow2Add(k, 32 - k);
  }

  /** a is the quotient of n by m. */
  lemma RoundedUp(n: nat, x: nat, m: nat, q: nat)
    requires n < W && 0 < m <= W && x == (if n + m - 1 < W then n + m - 1 else n + m - 1 - W)
    requires m * q == W
    ensures (x - x % m) % m == 0
    ensures n + m - 1 >= W ==> x - x % m == 0
    ensures n + m - 1 < W ==> n <= x - x % m
    ensures n % m == 0 ==> x - x % m == n
  {
    var a, r := n / m, n % m;
    assert n == a * m + r;
    Below(a, q, m, r);
    if r == 0 {
      Rounded(x, a, m, m - 1);
    } else if n + m - 1 < W {
      Rounded(x, a + 1, m, r - 1);
    } else {
      LastMultiple(a, q, m, r);
      Rounded(x, 0, m, r - 1);
    }
  }

  lemma Below(a: nat, q: nat, m: nat, r: nat)
    requires 0 < m && 0 <= r < m && a * m + r < m * q
    ensures a + 1 <= q && (a + 1) * m <= m * q && (a + 1) * m == a * m + m
  {
    if a >= q {
      MulMonotone(q, a, m);
    }
    MulMonotone(a + 1, q, m);
  }

  lemma LastMultiple(a: nat, q: nat, m: nat, r: nat)
    requires 0 < r < m && a + 1 <= q && a * m + r + m - 1 >= m * q && (a + 1) * m <= m * q
    ensures (a + 1) * m == m * q
  {
    if a + 1 < q {
      MulMonotone(a + 2, q, m);
    }
  }

  lemma MulMonotone(a: int, b: int, m: nat)
    requires a <= b
    ensures a * m <= b * m && b * m == m * b
  {
  }

  lemma Rounded(x: nat, a: nat, m: nat, r: nat)
    requires 0 < m && x == a * m + r && r < m
    ensures x % m == r && x - x % m == a * m && (x - x % m) % m == 0
  {
    DivUnique(x, m, a, r);
    DivUnique(a * m, m, a, 0);
  }

  /** The guarded test of JS_ARENA_ALLOCATE_CAST and the test of JS_ARENA_GROW_CAST are exact. */
  lemma FitsTest(p: Word, nb: Word, limit: Word)
    ensures nb > limit || p > Wrap(limit - nb) <==> p + nb > limit
    ensures limit >= nb && p <= Wrap(limit - nb) <==> p + nb <= limit
  {
    if nb <= limit {
      WrapOf(limit - nb, 0);
    }
  }

  /** Without the guard, as in JS_ARENA_ALLOCATE_TYPE, the test is exact unless nb exceeds limit. */
  lemma UnguardedTest(p: Word, nb: Word, limit: Word)
    requires p <= limit
    ensures (p > Wrap(limit - nb) <==> p + nb > limit) <==> nb <= limit
  {
    if nb <= limit {
      WrapOf(limit - nb, 0);
    } else {
      WrapOf(limit - nb, -1);
    }
  }

  /** The test of JS_ARENA_RELEASE with unsigned differences. */
  lemma InsideTest(mark: Word, base: Word, avail: Word)
    requires base <= avail
    ensures Wrap(mark - base) <= Wrap(avail - base) <==> base <= mark <= avail
  {
    WrapOf(avail - base, 0);
    if mark < base {
      WrapOf(mark - base, -1);
    } else {
      WrapOf(mark - base, 0);
    }
  }

  // ----- Pools -----

  /** The header of the arena is at at; [base, limit) is allocated from, up to avail. */
  datatype Arena = Arena(at: nat, base: Word, limit: Word, avail: Word)

  /** An allocation that is in use. */
  datatype Block = Block(arena: nat, start: Word, size: nat)

  /** The last arena is the current one; blocks are in the order they were allocated in. */
  datatype Pool = Pool(arenas: seq<Arena>, blocks: seq<Block>)

  ghost predicate GoodArena(a: Arena, m: nat)
    requires m > 0
  {
    a.at < a.base <= a.avail <= a.limit && a.base % m == 0 && a.avail % m == 0
  }

  ghost predicate Apart(a: Arena, b: Arena) {
    a.limit <= b.at || b.limit <= a.at
  }

  /** Inside the used part of its arena, and aligned. */
  ghost predicate GoodBlock(arenas: seq<Arena>, b: Block, m: nat)
    requires m > 0
  {
    && b.arena < |arenas| && arenas[b.arena].base <= b.start && b.start + b.size <= arenas[b.arena].avail
    && b.size > 0 && b.start % m == 0 && b.size % m == 0
  }

  ghost predicate Before(x: Block, y: Block) {
    x.arena < y.arena || (x.arena == y.arena && x.start + x.size <= y.start)
  }

  ghost predicate GoodArenas(arenas: seq<Arena>, m: nat)
    requires m > 0
  {
    && arenas != [] && (forall i :: 0 <= i < |arenas| ==> GoodArena(arenas[i], m))
    && forall i, j :: 0 <= i < j < |arenas| ==> Apart(arenas[i], arenas[j])
  }

  ghost predicate GoodBlocks(arenas: seq<Arena>, blocks: seq<Block>, m: nat)
    requires m > 0
  {
    && (forall i :: 0 <= i < |blocks| ==> GoodBlock(arenas, blocks[i], m))
    && forall i, j :: 0 <= i < j < |blocks| ==> Before(blocks[i], blocks[j])
  }

  ghost predicate ValidPool(p: Pool, m: nat)
    requires m > 0
  {
    GoodArenas(p.arenas, m) && GoodBlocks(p.arenas, p.blocks, m)
  }

  /** No two blocks share an address. */
  lemma BlocksAreDisjoint(p: Pool, m: nat, i: nat, j: nat)
    requires m > 0 && ValidPool(p, m) && i < j < |p.blocks|
    ensures var x, y := p.blocks[i], p.blocks[j];
            x.start + x.size <= y.start || y.start + y.size <= x.start
  {
    var x, y := p.blocks[i], p.blocks[j];
    assert Before(x, y) && GoodBlock(p.arenas, x, m) && GoodBlock(p.arenas, y, m);
    if x.arena < y.arena {
      assert Apart(p.arenas[x.arena], p.arenas[y.arena]);
      assert GoodArena(p.arenas[x.arena], m) && GoodArena(p.arenas[y.arena], m);
    }
  }

  ghost function Current(p: Pool): Arena
    requires p.arenas != []
  {
    p.arenas[|p.arenas| - 1]
  }

  ghost function MoveAvail(p: Pool, avail: Word): seq<Arena>
    requires p.arenas != []
  {
    p.arenas[|p.arenas| - 1 := Current(p).(avail := avail)]
  }

  /** nb bytes are taken from the current arena; none make no block. */
  ghost function Taken(p: Pool, nb: nat): Pool
    requires p.arenas != [] && Current(p).avail + nb < W
  {
    Pool(MoveAvail(p, Current(p).avail + nb),
         p.blocks + if nb > 0 then [Block(|p.arenas| - 1, Current(p).avail, nb)] else [])
  }

  lemma ModSum(a: nat, b: nat, m: nat)
    requires m > 0 && a % m == 0 && b % m == 0
    ensures (a + b) % m == 0
  {
    assert a == a / m * m && b == b / m * m;
    DivUnique(a + b, m, a / m + b / m, 0);
  }

  lemma TakenIsValid(p: Pool, nb: nat, m: nat)
    requires m > 0 && ValidPool(p, m) && nb % m == 0 && Current(p).avail + nb <= Current(p).limit
    ensures ValidPool(Taken(p, nb), m)
  {
    var q, c := Taken(p, nb), |p.arenas| - 1;
    assert GoodArena(p.arenas[c], m);
    ModSum(Current(p).avail, nb, m);
    forall i, j | 0 <= i < j < |q.blocks|
      ensures Before(q.blocks[i], q.blocks[j])
    {
      assert GoodBlock(p.arenas, p.blocks[i], m);
      if j < |p.blocks| {
        assert Before(p.blocks[i], p.blocks[j]);
      }
    }
    forall i | 0 <= i < |q.blocks|
      ensures GoodBlock(q.arenas, q.blocks[i], m)
    {
      if i < |p.blocks| {
        assert GoodBlock(p.arenas, p.blocks[i], m);
      }
    }
  }

  /** A new, empty current arena in memory no other arena has. */
  ghost function Added(p: Pool, a: Arena): Pool {
    Pool(p.arenas + [a], p.blocks)
  }

  // ----- Marks -----

  /**
   t is s with more allocated: the arenas of s are there, only the current one with a larger avail,
   the blocks of s come first, and all others are beyond the avail of s.
   */
  ghost predicate Extends(s: Pool, t: Pool)
    requires s.arenas != []
  {
    var c := |s.arenas| - 1;
    && |s.arenas| <= |t.arenas| && s.blocks <= t.blocks
    && (forall i :: 0 <= i < c ==> t.arenas[i] == s.arenas[i])
    && t.arenas[c] == s.arenas[c].(avail := t.arenas[c].avail) && s.arenas[c].avail <= t.arenas[c].avail
    && forall j :: |s.blocks| <= j < |t.blocks| ==> Beyond(t.blocks[j], c, s.arenas[c].avail)
  }

  ghost predicate Beyond(b: Block, c: nat, avail: Word) {
    b.arena > c || (b.arena == c && avail <= b.start)
  }

  lemma ExtendsTrans(s: Pool, t: Pool, u: Pool)
    requires s.arenas != [] && t.arenas != [] && Extends(s, t) && Extends(t, u)
    ensures Extends(s, u)
  {
    var c := |s.arenas| - 1;
    forall j | |s.blocks| <= j < |u.blocks|
      ensures Beyond(u.blocks[j], c, s.arenas[c].avail)
    {
      if j < |t.blocks| {
        assert Beyond(t.blocks[j], c, s.arenas[c].avail) && u.blocks[j] == t.blocks[j];
      } else {
        assert Beyond(u.blocks[j], |t.arenas| - 1, Current(t).avail);
      }
    }
  }

  lemma TakenExtends(p: Pool, nb: nat)
    requires p.arenas != [] && Current(p).avail + nb < W
    ensures Extends(p, Taken(p, nb))
  {
  }

  /** b ends at or before the mark in arena c. */
  ghost predicate EndsBelow(b: Block, c: nat, mark: Word) {
    b.arena < c || (b.arena == c && b.start + b.size <= mark)
  }

  /** The blocks that end at or before the mark. */
  ghost function Kept(blocks: seq<Block>, c: nat, mark: Word): seq<Block> {
    if blocks == [] then []
    else
      var b := blocks[|blocks| - 1];
      Kept(blocks[..|blocks| - 1], c, mark)
      + if EndsBelow(b, c, mark) then [b] else []
  }

  ghost predicate Holds(a: Arena, mark: Word) {
    a.base <= mark <= a.avail
  }

  /** The first arena that holds the mark, their number if none does. */
  ghost function Holder(arenas: seq<Arena>, mark: Word): (c: nat)
    ensures c <= |arenas| && (c < |arenas| ==> Holds(arenas[c], mark))
    ensures forall i :: 0 <= i < c ==> !Holds(arenas[i], mark)
  {
    if arenas == [] then 0
    else if Holds(arenas[0], mark) then 0
    else
      var c := Holder(arenas[1..], mark);
      assert forall i :: 0 < i < 1 + c ==> arenas[i] == arenas[1..][i - 1];
      1 + c
  }

  /** What a release leaves. */
  ghost function Released(p: Pool, mark: Word): Pool {
    var c := Holder(p.arenas, mark);
    if c == |p.arenas| then p
    else Pool(p.arenas[..c] + [p.arenas[c].(avail := mark)], Kept(p.blocks, c, mark))
  }

  lemma {:induction false} KeptPrefix(blocks: seq<Block>, n: nat, c: nat, mark: Word)
    requires n <= |blocks|
    requires forall j :: 0 <= j < |blocks| ==> (j < n <==> EndsBelow(blocks[j], c, mark))
    ensures Kept(blocks, c, mark) == blocks[..n]
  {
    if blocks != [] {
      var rest := blocks[..|blocks| - 1];
      if n == |blocks| {
        KeptPrefix(rest, n - 1, c, mark);
        assert blocks[..n] == rest[..n - 1] + [blocks[n - 1]];
      } else {
        KeptPrefix(rest, n, c, mark);
      }
    }
  }

  /** No other arena than the marked one holds the mark. */
  lemma MarkIsFound(s: Pool, t: Pool, m: nat)
    requires m > 0 && ValidPool(s, m) && ValidPool(t, m) && Extends(s, t)
    ensures Holder(t.arenas, Current(s).avail) == |s.arenas| - 1
  {
    var c, mark := |s.arenas| - 1, Current(s).avail;
    assert GoodArena(s.arenas[c], m) && GoodArena(t.arenas[c], m);
    assert Holds(t.arenas[c], mark);
  }

  /**
   Whatever was allocated since the mark, releasing the mark restores the pool: the arenas, the
   position in the current one, and the blocks in use.
   */
  lemma ReleaseRestores(s: Pool, t: Pool, m: nat)
    requires m > 0 && ValidPool(s, m) && ValidPool(t, m) && Extends(s, t)
    ensures Released(t, Current(s).avail) == s
  {
    hide Apart, GoodArena;
    var c, mark := |s.arenas| - 1, Current(s).avail;
    MarkIsFound(s, t, m);
    forall j | 0 <= j < |t.blocks|
      ensures j < |s.blocks| <==> EndsBelow(t.blocks[j], c, mark)
    {
      assert GoodBlock(t.arenas, t.blocks[j], m);
      if j < |s.blocks| {
        assert GoodBlock(s.arenas, s.blocks[j], m);
      } else {
        assert Beyond(t.blocks[j], c, mark);
      }
    }
    KeptPrefix(t.blocks, |s.blocks|, c, mark);
    assert t.arenas[..c] + [t.arenas[c].(avail := mark)] == s.arenas;
  }

  /** Blocks are in the order of their addresses, so what is kept of them are the first ones. */
  lemma {:induction false} KeptIsPrefix(blocks: seq<Block>, c: nat, mark: Word)
    requires forall i, j :: 0 <= i < j < |blocks| ==> Before(blocks[i], blocks[j])
    ensures var n := |Kept(blocks, c, mark)|;
            && n <= |blocks| && Kept(blocks, c, mark) == blocks[..n]
            && forall j :: 0 <= j < |blocks| ==> (j < n <==> EndsBelow(blocks[j], c, mark))
  {
    if blocks != [] {
      var rest, b := blocks[..|blocks| - 1], blocks[|blocks| - 1];
      KeptIsPrefix(rest, c, mark);
      if EndsBelow(b, c, mark) {
        assert forall j :: 0 <= j < |rest| ==> Before(blocks[j], b) && EndsBelow(rest[j], c, mark);
        assert Kept(blocks, c, mark) == rest + [b] == blocks;
      }
    }
  }

  /** q has those blocks of p that end at or before the mark, all if no arena holds it. */
  ghost predicate GivesUp(p: Pool, q: Pool, mark: Word) {
    var c := Holder(p.arenas, mark);
    && q.blocks <= p.blocks
    && forall j :: 0 <= j < |p.blocks| ==> (j < |q.blocks| <==> c == |p.arenas| || EndsBelow(p.blocks[j], c, mark))
  }

  /**
   A release of a mark that is held gives up exactly the blocks that end beyond it, whenever they were
   allocated: one that begins before the mark goes with them.
   */
  lemma ReleaseGivesUp(p: Pool, mark: Word, m: nat)
    requires m > 0 && ValidPool(p, m)
    ensures GivesUp(p, Released(p, mark), mark)
  {
    KeptIsPrefix(p.blocks, Holder(p.arenas, mark), mark);
  }

  // ----- Growth in place -----

  /** The last block, at the end of the current arena, has nb bytes instead. */
  ghost function Grown(p: Pool, nb: nat): Pool
    requires p.arenas != [] && p.blocks != [] && p.blocks[|p.blocks| - 1].start + nb < W
  {
    var b := p.blocks[|p.blocks| - 1];
    Pool(MoveAvail(p, b.start + nb), p.blocks[..|p.blocks| - 1] + if nb > 0 then [b.(size := nb)] else [])
  }

  /** Blocks of other arenas, and all but the last one, end elsewhere than at the current avail. */
  lemma EndsElsewhere(p: Pool, m: nat, j: nat)
    requires m > 0 && ValidPool(p, m) && j < |p.blocks|
    ensures p.blocks[j].arena < |p.arenas| - 1 ==> p.blocks[j].start + p.blocks[j].size != Current(p).avail
    ensures j < |p.blocks| - 1 && p.blocks[j].arena == |p.arenas| - 1 ==>
              p.blocks[j].start + p.blocks[j].size < Current(p).avail
  {
    var b, c := p.blocks[j], |p.arenas| - 1;
    assert GoodBlock(p.arenas, b, m) && GoodArena(p.arenas[b.arena], m) && GoodArena(p.arenas[c], m);
    if b.arena < c {
      assert Apart(p.arenas[b.arena], p.arenas[c]);
    } else if j < |p.blocks| - 1 {
      assert Before(b, p.blocks[j + 1]) && GoodBlock(p.arenas, p.blocks[j + 1], m);
    }
  }

  /** Only the last block can end at the avail of the current arena. */
  lemma EndsAtAvail(p: Pool, m: nat, j: nat)
    requires m > 0 && ValidPool(p, m) && j < |p.blocks|
    requires p.blocks[j].start + p.blocks[j].size == Current(p).avail
    ensures j == |p.blocks| - 1 && p.blocks[j].arena == |p.arenas| - 1
  {
    EndsElsewhere(p, m, j);
    assert GoodBlock(p.arenas, p.blocks[j], m);
  }

  lemma EndDoesNotWrap(p: Pool, m: nat, j: nat)
    requires m > 0 && ValidPool(p, m) && j < |p.blocks|
    ensures Wrap(p.blocks[j].start + p.blocks[j].size) == p.blocks[j].start + p.blocks[j].size
  {
    assert GoodBlock(p.arenas, p.blocks[j], m);
    WrapOf(p.blocks[j].start + p.blocks[j].size, 0);
  }

  lemma MovedArenas(p: Pool, avail: Word, m: nat)
    requires m > 0 && ValidPool(p, m) && Current(p).base <= avail <= Current(p).limit && avail % m == 0
    ensures GoodArenas(MoveAvail(p, avail), m)
  {
    var q := MoveAvail(p, avail);
    forall i | 0 <= i < |q|
      ensures GoodArena(q[i], m)
    {
      assert GoodArena(p.arenas[i], m);
    }
    forall i, j | 0 <= i < j < |q|
      ensures Apart(q[i], q[j])
    {
      assert Apart(p.arenas[i], p.arenas[j]);
    }
  }

  lemma GrownIsValid(p: Pool, nb: nat, m: nat)
    requires m > 0 && ValidPool(p, m) && p.blocks != [] && nb % m == 0
    requires var b := p.blocks[|p.blocks| - 1];
             b.start + b.size == Current(p).avail && b.start + nb <= Current(p).limit
    ensures ValidPool(Grown(p, nb), m)
  {
    hide GoodArenas;
    var j := |p.blocks| - 1;
    var b, q := p.blocks[j], Grown(p, nb);
    EndsAtAvail(p, m, j);
    assert GoodBlock(p.arenas, b, m);
    ModSum(b.start, nb, m);
    MovedArenas(p, b.start + nb, m);
    forall i | 0 <= i < |q.blocks|
      ensures GoodBlock(q.arenas, q.blocks[i], m)
    {
      assert GoodBlock(p.arenas, p.blocks[i], m);
      if i < j {
        assert Before(p.blocks[i], b);
      }
    }
    forall i, k | 0 <= i < k < |q.blocks|
      ensures Before(q.blocks[i], q.blocks[k])
    {
      assert Before(p.blocks[i], p.blocks[k]);
    }
  }

  /** A released pool is valid. */
  lemma ReleasedIsValid(p: Pool, mark: Word, m: nat)
    requires m > 0 && ValidPool(p, m) && mark % m == 0
    ensures ValidPool(Released(p, mark), m)
  {
    var c := Holder(p.arenas, mark);
    if c < |p.arenas| {
      var q := Released(p, mark);
      KeptIsPrefix(p.blocks, c, mark);
      forall i, j | 0 <= i < j < |q.arenas|
        ensures Apart(q.arenas[i], q.arenas[j])
      {
        assert Apart(p.arenas[i], p.arenas[j]);
      }
      forall i | 0 <= i < |q.arenas|
        ensures GoodArena(q.arenas[i], m)
      {
        assert GoodArena(p.arenas[i], m);
      }
      forall i | 0 <= i < |q.blocks|
        ensures GoodBlock(q.arenas, q.blocks[i], m)
      {
        assert GoodBlock(p.arenas, p.blocks[i], m) && EndsBelow(p.blocks[i], c, mark);
      }
    }
  }

  /** Growing a block allocated since the mark leaves what was there at the mark alone. */
  lemma GrownExtends(s: Pool, p: Pool, nb: nat, m: nat)
    requires m > 0 && ValidPool(s, m) && ValidPool(p, m) && Extends(s, p) && |s.blocks| < |p.blocks|
    requires var b := p.blocks[|p.blocks| - 1];
             b.start + b.size == Current(p).avail && b.start + nb <= Current(p).limit
    ensures Extends(s, Grown(p, nb))
  {
    var j, c := |p.blocks| - 1, |s.arenas| - 1;
    EndsAtAvail(p, m, j);
    assert Beyond(p.blocks[j], c, s.arenas[c].avail);
    var q := Grown(p, nb);
    forall k | |s.blocks| <= k < |q.blocks|
      ensures Beyond(q.blocks[k], c, s.arenas[c].avail)
    {
      assert Beyond(p.blocks[k], c, s.arenas[c].avail);
    }
  }

  // ----- New arenas -----

  /** sizeof(JSArena) */
  const ARENA_SIZE: nat := 16
  /** The back pointer of an oversized arena, just before its base. */
  const LINK_SIZE: nat := 4

  /** HEADER_BASE_MASK */
  function BaseMask(mask: Word): Word
    requires mask < 0x8000_0000
  {
    if mask < 3 then 3 else mask
  }

  /** A mask of at least three has its low two bits set, so this is the bitwise or with three. */
  lemma BaseMaskBits(mask: Word)
    requires IsMask(mask) && mask < 0x8000_0000
    ensures BitOr(mask, 3) == BaseMask(mask) && IsMask(BaseMask(mask)) && (BaseMask(mask) + 1) % (mask + 1) == 0
  {
    var k: nat :| k < 32 && mask + 1 == Pow2(k);
    assert Pow2(0) == 1 && Pow2(1) == 2 && Pow2(2) == 4;
    if k < 2 {
      assert mask == 0 || mask == 1;
      assert mask < 3 && BaseMask(mask) == 3;
      assert BitOr(0, 3) == 3;
    } else {
      Pow2Add(2, k - 2);
      OrThree(mask, Pow2(k - 2) - 1);
      MulMonotone(1, Pow2(k - 2), 4);
      DivUnique(mask + 1, mask + 1, 1, 0);
    }
  }

  lemma OrThree(a: nat, q: nat)
    requires a == 4 * q + 3
    ensures BitOr(a, 3) == a
  {
    assert a / 2 == 2 * q + 1 && a / 2 / 2 == q;
    assert BitOr(q, 0) == q;
    assert BitOr(a / 2, 1) == 2 * BitOr(q, 0) + 1;
    assert BitOr(a, 3) == 2 * BitOr(a / 2, 1) + 1;
  }

  /** HEADER_SIZE, for an arena made for one oversized allocation only. */
  function Extra(nb: Word, mask: Word, arenasize: Word): nat {
    if nb > arenasize then LINK_SIZE + (if mask < 3 then 3 - mask else 0) else 0
  }

  function Max(a: int, b: int): int {
    if a < b then b else a
  }

  /** The size asked of malloc, before it is wrapped to a word. */
  function Gross(nb: Word, mask: Word, arenasize: Word): nat {
    ARENA_SIZE + Extra(nb, mask, arenasize) + mask + Max(nb, arenasize)
  }

  /** The test of gross against nb notices exactly the sums that wrapped. */
  lemma GrossIsChecked(nb: Word, mask: Word, arenasize: Word)
    requires ARENA_SIZE + LINK_SIZE + 3 + mask + arenasize < W
    ensures Wrap(ARENA_SIZE + Extra(nb, mask, arenasize) + mask + Max(nb, arenasize)) < nb
            <==> Gross(nb, mask, arenasize) >= W
    ensures Gross(nb, mask, arenasize) < W ==> Wrap(Gross(nb, mask, arenasize)) == Gross(nb, mask, arenasize)
  {
    var g := Gross(nb, mask, arenasize);
  }

  /** The arena made in the memory at at. */
  function NewArena(at: nat, nb: Word, mask: Word, arenasize: Word): Arena
    requires mask < 0x8000_0000 && at + Gross(nb, mask, arenasize) < W
  {
    var extra := Extra(nb, mask, arenasize);
    var base := if extra > 0 then BitAnd(at + ARENA_SIZE + extra + mask, BitNot(BaseMask(mask)))
                else Align(at + ARENA_SIZE, mask);
    Arena(at, base, at + Gross(nb, mask, arenasize), base)
  }

  /**
   A new arena is aligned, lies behind its header and, if it is oversized, behind the aligned back
   pointer too, and has room for the allocation it was made for.
   */
  lemma NewArenaFits(at: nat, nb: Word, mask: Word, arenasize: Word)
    requires IsMask(mask) && mask < 0x8000_0000 && at + Gross(nb, mask, arenasize) < W
    ensures var a := NewArena(at, nb, mask, arenasize);
            && GoodArena(a, mask + 1) && at + ARENA_SIZE <= a.base
            && a.base + nb <= a.limit && a.base + arenasize <= a.limit
            && (nb > arenasize ==> at + ARENA_SIZE + LINK_SIZE <= a.base && a.base % LINK_SIZE == 0)
  {
    hide BitAnd, BitOr, Pow2, Align, BitNot;
    var extra := Extra(nb, mask, arenasize);
    if nb > arenasize {
      var bm := BaseMask(mask);
      BaseMaskBits(mask);
      var x := at + ARENA_SIZE + extra + mask;
      BaseBelow(x, bm, mask);
    } else {
      AlignRoundsUp(at + ARENA_SIZE, mask);
    }
  }

  /**
   And no more memory is asked for than that takes: at an address where nothing is lost to alignment,
   just as much is left over at the end as alignment could have taken.
   */
  lemma NewArenaIsTight(at: nat, nb: Word, mask: Word, arenasize: Word)
    requires IsMask(mask) && mask < 0x8000_0000 && at + Gross(nb, mask, arenasize) < W
    requires if nb > arenasize then (at + ARENA_SIZE + LINK_SIZE) % (BaseMask(mask) + 1) == 0
             else (at + ARENA_SIZE) % (mask + 1) == 0
    ensures var a := NewArena(at, nb, mask, arenasize);
            if nb > arenasize then
              a.base == at + ARENA_SIZE + LINK_SIZE && a.limit == a.base + nb + BaseMask(mask)
            else a.base == at + ARENA_SIZE && a.limit == a.base + arenasize + mask
  {
    hide BitAnd, BitOr, Pow2, Align, BitNot;
    if nb > arenasize {
      var bm, base := BaseMask(mask), at + ARENA_SIZE + LINK_SIZE;
      BaseMaskBits(mask);
      var k: nat :| k < 32 && bm + 1 == Pow2(k);
      AndNotMask(base + bm, bm, k);
      DivUnique(base + bm, bm + 1, base / (bm + 1), bm);
    } else {
      AlignRoundsUp(at + ARENA_SIZE, mask);
    }
  }

  lemma BaseBelow(x: Word, bm: Word, mask: Word)
    requires IsMask(bm) && bm >= 3 && (bm + 1) % (mask + 1) == 0
    ensures var base := BitAnd(x, BitNot(bm));
            x - bm <= base <= x && base % (mask + 1) == 0 && base % LINK_SIZE == 0
  {
    hide BitAnd, BitNot, Pow2;
    var k: nat :| k < 32 && bm + 1 == Pow2(k);
    AndNotMask(x, bm, k);
    MaskOfFour(bm, k);
    Rest(x, bm + 1);
    MultipleOf(x / (bm + 1), bm + 1, mask + 1);
    MultipleOf(x / (bm + 1), bm + 1, LINK_SIZE);
  }

  lemma Rest(x: nat, m: nat)
    requires m > 0
    ensures x - x % m == x / m * m && x % m < m
  {
  }

  lemma MaskOfFour(bm: Word, k: nat)
    requires bm >= 3 && bm + 1 == Pow2(k)
    ensures (bm + 1) % LINK_SIZE == 0
  {
    assert k >= 2 by {
      assert Pow2(0) == 1 && Pow2(1) == 2;
    }
    hide Pow2;
    Pow2Values();
    Pow2Add(2, k - 2);
    DivUnique(bm + 1, LINK_SIZE, Pow2(k - 2), 0);
  }

  lemma MultipleOf(q: nat, a: nat, m: nat)
    requires m > 0 && a % m == 0
    ensures (q * a) % m == 0
  {
    assert a == a / m * m;
    Reorder(q, a / m, m);
    DivUnique(q * a, m, q * (a / m), 0);
  }

  lemma Reorder(x: int, y: int, z: int)
    ensures x * (y * z) == x * y * z
  {
  }

  // ----- Runs -----

  /** arena is the one made if the current one has no room. */
  datatype Op = Alloc(nb: nat, arena: Arena) | GrowLast(nb: nat) | MarkAndRelease(ops: seq<Op>)

  ghost predicate HasRoom(p: Pool, nb: nat)
    requires p.arenas != []
  {
    Current(p).avail + nb <= Current(p).limit
  }

  /** The pool from whose current arena nb bytes are taken. */
  ghost function Ready(p: Pool, nb: nat, a: Arena): Pool
    requires p.arenas != []
  {
    if HasRoom(p, nb) then p else Added(p, a)
  }

  ghost predicate CanAdd(p: Pool, nb: nat, a: Arena, m: nat)
    requires m > 0
  {
    GoodArena(a, m) && a.avail + nb <= a.limit && forall i :: 0 <= i < |p.arenas| ==> Apart(p.arenas[i], a)
  }

  ghost predicate EndsAtEnd(p: Pool)
    requires p.arenas != []
  {
    p.blocks != [] && p.blocks[|p.blocks| - 1].start + p.blocks[|p.blocks| - 1].size == Current(p).avail
  }

  /** The operation makes sense in p. */
  ghost predicate CanDo(p: Pool, op: Op, m: nat)
    requires m > 0 && ValidPool(p, m)
  {
    match op
    case Alloc(nb, a) => nb % m == 0 && (HasRoom(p, nb) || CanAdd(p, nb, a, m))
    case GrowLast(nb) =>
      nb % m == 0 && nb > 0 && EndsAtEnd(p) && p.blocks[|p.blocks| - 1].start + nb <= Current(p).limit
    case MarkAndRelease(_) => true
  }

  lemma ReadyIsValid(p: Pool, nb: nat, a: Arena, m: nat)
    requires m > 0 && ValidPool(p, m) && (HasRoom(p, nb) || CanAdd(p, nb, a, m))
    ensures ValidPool(Ready(p, nb, a), m) && HasRoom(Ready(p, nb, a), nb) && Extends(p, Ready(p, nb, a))
  {
  }

  lemma AllocIsValid(p: Pool, nb: nat, a: Arena, m: nat)
    requires m > 0 && ValidPool(p, m) && nb % m == 0 && (HasRoom(p, nb) || CanAdd(p, nb, a, m))
    ensures HasRoom(Ready(p, nb, a), nb)
    ensures ValidPool(Taken(Ready(p, nb, a), nb), m) && Extends(p, Taken(Ready(p, nb, a), nb))
  {
    hide ValidPool, Extends, Taken, Ready;
    ReadyIsValid(p, nb, a, m);
    NotEmpty(p, m);
    NotEmpty(Ready(p, nb, a), m);
    TakenIsValid(Ready(p, nb, a), nb, m);
    TakenExtends(Ready(p, nb, a), nb);
    ExtendsTrans(p, Ready(p, nb, a), Taken(Ready(p, nb, a), nb));
  }

  lemma NotEmpty(p: Pool, m: nat)
    requires m > 0 && ValidPool(p, m)
    ensures p.arenas != [] && Current(p).avail <= Current(p).limit < W
  {
    assert GoodArena(p.arenas[|p.arenas| - 1], m);
  }

  /** A run of operations; None if one of them makes no sense where it stands. */
  ghost function Run(p: Pool, ops: seq<Op>, m: nat): Option<Pool>
    requires m > 0
    decreases ops
  {
    if ops == [] then Some(p)
    else if !ValidPool(p, m) || !CanDo(p, ops[0], m) then None
    else
      NotEmpty(p, m);
      match ops[0]
      case Alloc(nb, a) =>
        AllocIsValid(p, nb, a, m);
        Run(Taken(Ready(p, nb, a), nb), ops[1..], m)
      case GrowLast(nb) => Run(Grown(p, nb), ops[1..], m)
      case MarkAndRelease(inner) =>
        match Run(p, inner, m)
        case None => None
        case Some(q) => Run(Released(q, Current(p).avail), ops[1..], m)
  }

  lemma ExtendsSelf(p: Pool)
    requires p.arenas != []
    ensures Extends(p, p)
  {
  }

  // ----- What a run leaves alone -----

  /** p without its last block, if that is at the end and so may be grown. */
  ghost function Core(p: Pool): Pool
    requires p.arenas != []
  {
    if EndsAtEnd(p) then Pool(MoveAvail(p, p.blocks[|p.blocks| - 1].start), p.blocks[..|p.blocks| - 1]) else p
  }

  /** t has more than the core of s, and has not come down to where the last block of s began. */
  ghost predicate Continues(s: Pool, t: Pool)
    requires s.arenas != []
  {
    Extends(Core(s), t) && (EndsAtEnd(s) ==> Current(Core(s)).avail < t.arenas[|s.arenas| - 1].avail)
  }

  lemma LoweredBlocks(p: Pool, m: nat)
    requires m > 0 && ValidPool(p, m) && EndsAtEnd(p)
    ensures GoodBlocks(Core(p).arenas, Core(p).blocks, m)
  {
    hide GoodArenas;
    var q, j := Core(p), |p.blocks| - 1;
    EndsAtAvail(p, m, j);
    forall i | 0 <= i < |q.blocks|
      ensures GoodBlock(q.arenas, q.blocks[i], m)
    {
      assert GoodBlock(p.arenas, p.blocks[i], m) && Before(p.blocks[i], p.blocks[j]);
    }
    forall i, k | 0 <= i < k < |q.blocks|
      ensures Before(q.blocks[i], q.blocks[k])
    {
      assert Before(p.blocks[i], p.blocks[k]);
    }
  }

  lemma CoreIsValid(p: Pool, m: nat)
    requires m > 0 && ValidPool(p, m)
    ensures ValidPool(Core(p), m) && Continues(p, p)
  {
    if EndsAtEnd(p) {
      var q, j := Core(p), |p.blocks| - 1;
      EndsAtAvail(p, m, j);
      assert GoodBlock(p.arenas, p.blocks[j], m) && GoodArena(Current(p), m);
      MovedArenas(p, p.blocks[j].start, m);
      LoweredBlocks(p, m);
    }
  }

  lemma MoreContinues(s: Pool, p: Pool, q: Pool)
    requires s.arenas != [] && p.arenas != [] && Continues(s, p) && Extends(p, q)
    ensures Continues(s, q)
  {
    ExtendsTrans(Core(s), p, q);
  }

  lemma CoreEndsBelow(s: Pool, m: nat, j: nat)
    requires m > 0 && ValidPool(s, m) && j < |Core(s).blocks|
    ensures EndsBelow(Core(s).blocks[j], |s.arenas| - 1, Current(Core(s)).avail)
  {
    CoreIsValid(s, m);
    assert GoodBlock(Core(s).arenas, Core(s).blocks[j], m);
  }

  /** Only the last block of s itself, or one from after s, can be grown. */
  lemma CoreIsBehind(s: Pool, p: Pool, m: nat)
    requires m > 0 && ValidPool(s, m) && ValidPool(p, m) && Continues(s, p) && EndsAtEnd(p)
    ensures |Core(s).blocks| < |p.blocks|
  {
    hide ValidPool, GoodArenas, GoodBlocks;
    NotEmpty(s, m);
    var j := |Core(s).blocks| - 1;
    EndsAtAvail(p, m, |p.blocks| - 1);
    if j >= 0 {
      CoreEndsBelow(s, m, j);
      assert p.blocks[j] != p.blocks[|p.blocks| - 1];
    }
  }

  lemma GrownContinues(s: Pool, p: Pool, nb: nat, m: nat)
    requires m > 0 && ValidPool(s, m) && ValidPool(p, m) && Continues(s, p) && CanDo(p, GrowLast(nb), m)
    ensures ValidPool(Grown(p, nb), m) && Continues(s, Grown(p, nb))
  {
    hide GoodArenas, GoodBlocks, Extends;
    NotEmpty(s, m);
    CoreIsValid(s, m);
    CoreIsBehind(s, p, m);
    GrownIsValid(p, nb, m);
    GrownExtends(Core(s), p, nb, m);
    StaysAbove(Core(s), p, nb, m);
  }

  /** The last block of p begins behind the avail of core, and does not end there, whatever it grows to. */
  lemma StaysAbove(core: Pool, p: Pool, nb: nat, m: nat)
    requires m > 0 && ValidPool(p, m) && core.arenas != [] && Extends(core, p) && |core.blocks| < |p.blocks|
    requires CanDo(p, GrowLast(nb), m)
    ensures var c, q := |core.arenas| - 1, Grown(p, nb);
            && c < |p.arenas| == |q.arenas|
            && if c == |p.arenas| - 1 then Current(core).avail < q.arenas[c].avail else q.arenas[c] == p.arenas[c]
  {
    hide GoodArenas;
    EndsAtAvail(p, m, |p.blocks| - 1);
    assert Beyond(p.blocks[|p.blocks| - 1], |core.arenas| - 1, Current(core).avail);
  }

  /** Memory is used by one arena at most. */
  lemma OneArenaHolds(arenas: seq<Arena>, m: nat, i: nat, j: nat, mark: Word)
    requires m > 0 && GoodArenas(arenas, m) && i < |arenas| && j < |arenas|
    ensures Holds(arenas[i], mark) && arenas[j].base <= mark <= arenas[j].limit ==> i == j
  {
    assert GoodArena(arenas[i], m) && GoodArena(arenas[j], m);
    if i != j {
      assert Apart(arenas[if i < j then i else j], arenas[if i < j then j else i]);
    }
  }

  /** If any arena still holds the mark, it is the one that was current when it was taken. */
  lemma MarkIsThereOrGone(p: Pool, q: Pool, m: nat)
    requires m > 0 && ValidPool(p, m) && ValidPool(q, m) && Continues(p, q)
    ensures var h := Holder(q.arenas, Current(p).avail);
            h == |p.arenas| - 1 || h == |q.arenas|
  {
    var h, c, mark := Holder(q.arenas, Current(p).avail), |p.arenas| - 1, Current(p).avail;
    assert GoodArena(p.arenas[c], m) && GoodArena(q.arenas[c], m);
    if h < |q.arenas| {
      OneArenaHolds(q.arenas, m, h, c, mark);
    }
  }

  /** A release of a mark in or behind the current arena of s, above its core, keeps the core. */
  lemma CutContinues(s: Pool, q: Pool, mark: Word, m: nat)
    requires m > 0 && ValidPool(s, m) && ValidPool(q, m) && Continues(s, q)
    requires |s.arenas| - 1 <= Holder(q.arenas, mark) < |q.arenas|
    requires Holder(q.arenas, mark) == |s.arenas| - 1 ==>
               Current(Core(s)).avail <= mark && (EndsAtEnd(s) ==> Current(Core(s)).avail < mark)
    ensures Continues(s, Released(q, mark))
  {
    hide ValidPool, Kept, EndsAtEnd;
    NotEmpty(s, m);
    var c, r, core := Holder(q.arenas, mark), Released(q, mark), Core(s);
    CoreIsValid(s, m);
    ReleaseGivesUp(q, mark, m);
    CoreIsKept(core, q, mark, m);
    forall j | |core.blocks| <= j < |r.blocks|
      ensures Beyond(r.blocks[j], |s.arenas| - 1, Current(core).avail)
    {
      assert r.blocks[j] == q.blocks[j];
    }
  }

  lemma CoreIsKept(core: Pool, q: Pool, mark: Word, m: nat)
    requires m > 0 && ValidPool(core, m) && ValidPool(q, m) && Extends(core, q)
    requires |core.arenas| - 1 <= Holder(q.arenas, mark) < |q.arenas|
    requires Holder(q.arenas, mark) == |core.arenas| - 1 ==> Current(core).avail <= mark
    ensures core.blocks <= Released(q, mark).blocks
  {
    hide Kept, Holder, Released;
    ReleaseGivesUp(q, mark, m);
    if core.blocks != [] {
      var j := |core.blocks| - 1;
      assert GoodBlock(core.arenas, core.blocks[j], m) && q.blocks[j] == core.blocks[j];
      assert EndsBelow(q.blocks[j], Holder(q.arenas, mark), mark);
    }
  }

  lemma ReleasedContinues(s: Pool, p: Pool, q: Pool, m: nat)
    requires m > 0 && ValidPool(s, m) && ValidPool(p, m) && ValidPool(q, m)
    requires Continues(s, p) && Continues(p, q) && Continues(s, q)
    ensures ValidPool(Released(q, Current(p).avail), m) && Continues(s, Released(q, Current(p).avail))
  {
    hide Kept;
    var mark := Current(p).avail;
    assert GoodArena(p.arenas[|p.arenas| - 1], m);
    MarkIsThereOrGone(p, q, m);
    ReleasedIsValid(q, mark, m);
    if Holder(q.arenas, mark) < |q.arenas| {
      CutContinues(s, q, mark, m);
    }
  }

  /**
   Every run, also one that grows blocks from before s, keeps the pool valid and all blocks of s but
   the last, if that was at the end, untouched.
   */
  lemma {:induction false} RunKeepsOlder(s: Pool, p: Pool, ops: seq<Op>, m: nat)
    requires m > 0 && ValidPool(s, m) && ValidPool(p, m) && Continues(s, p) && Run(p, ops, m).Some?
    ensures ValidPool(Run(p, ops, m).value, m) && Continues(s, Run(p, ops, m).value)
    decreases ops
  {
    hide ValidPool, Continues, Extends, Taken, Ready, Grown, Released;
    if ops != [] {
      NotEmpty(p, m);
      NotEmpty(s, m);
      match ops[0]
      case Alloc(nb, a) =>
        ReadyIsValid(p, nb, a, m);
        NotEmpty(Ready(p, nb, a), m);
        AllocIsValid(p, nb, a, m);
        MoreContinues(s, p, Taken(Ready(p, nb, a), nb));
        RunKeepsOlder(s, Taken(Ready(p, nb, a), nb), ops[1..], m);
      case GrowLast(nb) =>
        GrownContinues(s, p, nb, m);
        RunKeepsOlder(s, Grown(p, nb), ops[1..], m);
      case MarkAndRelease(inner) =>
        var q := Run(p, inner, m).value;
        CoreIsValid(p, m);
        RunKeepsOlder(p, p, inner, m);
        RunKeepsOlder(s, p, inner, m);
        ReleasedContinues(s, p, q, m);
        RunKeepsOlder(s, Released(q, Current(p).avail), ops[1..], m);
    }
  }

  /** If the last block of s is as it was, everything is. */
  lemma ContinuesWhole(s: Pool, t: Pool, m: nat)
    requires m > 0 && ValidPool(s, m) && ValidPool(t, m) && Continues(s, t) && s.blocks <= t.blocks
    ensures Extends(s, t)
  {
    if EndsAtEnd(s) {
      var n, c := |s.blocks| - 1, |s.arenas| - 1;
      EndsAtAvail(s, m, n);
      assert t.blocks[n] == s.blocks[n] && GoodBlock(t.arenas, t.blocks[n], m);
      forall j | |s.blocks| <= j < |t.blocks|
        ensures Beyond(t.blocks[j], c, s.arenas[c].avail)
      {
        assert Before(t.blocks[n], t.blocks[j]);
      }
    }
  }

  /**
   Mark, any run, release: the pool is valid, and it is as it was if and only if before the release
   every block from before the mark is as it was.
   */
  lemma MarkedRunIsUndone(p: Pool, ops: seq<Op>, m: nat)
    requires m > 0 && ValidPool(p, m) && Run(p, ops, m).Some?
    ensures var q, mark := Run(p, ops, m).value, Current(p).avail;
            && ValidPool(q, m) && ValidPool(Released(q, mark), m)
            && (Released(q, mark) == p <==> p.blocks <= q.blocks)
  {
    var q, mark := Run(p, ops, m).value, Current(p).avail;
    CoreIsValid(p, m);
    RunKeepsOlder(p, p, ops, m);
    ReleasedContinues(p, p, q, m);
    if p.blocks <= q.blocks {
      ContinuesWhole(p, q, m);
      ReleaseRestores(p, q, m);
    }
    if Released(q, mark) == p && Holder(q.arenas, mark) < |q.arenas| {
      ReleaseGivesUp(q, mark, m);
    }
  }

  /** A last block that is made larger than it was at the mark begins before it and ends beyond it. */
  lemma GrownIsCut(p: Pool, nb: nat, m: nat)
    requires m > 0 && ValidPool(p, m) && CanDo(p, GrowLast(nb), m) && nb > p.blocks[|p.blocks| - 1].size
    ensures ValidPool(Grown(p, nb), m)
    ensures var q := Pool(p.arenas, p.blocks[..|p.blocks| - 1]);
            Released(Grown(p, nb), Current(p).avail) == q && ValidPool(q, m)
  {
    hide Kept;
    var g, mark, n, c := Grown(p, nb), Current(p).avail, |p.blocks| - 1, |p.arenas| - 1;
    GrownIsValid(p, nb, m);
    EndsAtAvail(p, m, n);
    assert GoodArena(p.arenas[c], m);
    assert Holds(g.arenas[c], mark);
    OneArenaHolds(g.arenas, m, Holder(g.arenas, mark), c, mark);
    ReleasedIsValid(g, mark, m);
    ReleaseGivesUp(g, mark, m);
    assert !EndsBelow(g.blocks[n], c, mark);
    if n > 0 {
      assert Before(p.blocks[n - 1], p.blocks[n]);
      assert EndsBelow(g.blocks[n - 1], c, mark);
    }
    assert |Released(g, mark).blocks| == n;
    assert Released(g, mark).arenas == p.arenas;
  }

  /**
   Growing a block from before the mark loses it: the release cuts it, and what is allocated next is
   in the memory that it was given.
   */
  lemma OlderGrowthIsCut(p: Pool, nb: nat, next: nat, m: nat)
    requires m > 0 && ValidPool(p, m) && CanDo(p, GrowLast(nb), m) && nb > p.blocks[|p.blocks| - 1].size
    requires 0 < next && Current(p).avail + next < W
    ensures var b := p.blocks[|p.blocks| - 1];
            var q := Pool(p.arenas, p.blocks[..|p.blocks| - 1]);
            && Run(p, [MarkAndRelease([GrowLast(nb)])], m) == Some(q) && q != p
            && Taken(q, next).blocks == q.blocks + [Block(b.arena, b.start + b.size, next)]
            && b.start < b.start + b.size < b.start + nb
  {
    hide Released, ValidPool;
    NotEmpty(p, m);
    GrownIsCut(p, nb, m);
    EndsAtAvail(p, m, |p.blocks| - 1);
    OneStepRun(p, GrowLast(nb), m);
    OneStepRun(p, MarkAndRelease([GrowLast(nb)]), m);
    HasSize(p, m);
  }

  lemma OlderGrowthExample()
    ensures var p := Pool([Arena(0, 16, 80, 32)], [Block(0, 16, 16)]);
            ValidPool(p, 8) && Run(p, [MarkAndRelease([GrowLast(32)])], 8) == Some(Pool([Arena(0, 16, 80, 32)], []))
  {
    OlderGrowthIsCut(Pool([Arena(0, 16, 80, 32)], [Block(0, 16, 16)]), 32, 8, 8);
  }

  lemma HasSize(p: Pool, m: nat)
    requires m > 0 && ValidPool(p, m) && p.blocks != []
    ensures p.blocks[|p.blocks| - 1].size > 0
  {
    assert GoodBlock(p.arenas, p.blocks[|p.blocks| - 1], m);
  }

  lemma OneStepRun(p: Pool, op: Op, m: nat)
    requires m > 0 && ValidPool(p, m) && CanDo(p, op, m)
    ensures op.GrowLast? ==> Current(p).limit < W && Run(p, [op], m) == Some(Grown(p, op.nb))
    ensures op.MarkAndRelease? && Run(p, op.ops, m).Some? ==>
              Current(p).avail < W && Run(p, [op], m) == Some(Released(Run(p, op.ops, m).value, Current(p).avail))
  {
    hide Released, ValidPool;
    NotEmpty(p, m);
    assert [op][1..] == [];
  }

  // ----- Runs that grow only younger blocks -----

  /** No operation grows one of the first floor blocks, and none inside a mark one from before it. */
  ghost predicate Spares(p: Pool, ops: seq<Op>, floor: nat, m: nat)
    requires m > 0
    decreases ops
  {
    if ops == [] || !ValidPool(p, m) || !CanDo(p, ops[0], m) then true
    else
      NotEmpty(p, m);
      match ops[0]
      case Alloc(nb, a) =>
        AllocIsValid(p, nb, a, m);
        Spares(Taken(Ready(p, nb, a), nb), ops[1..], floor, m)
      case GrowLast(nb) => floor < |p.blocks| && Spares(Grown(p, nb), ops[1..], floor, m)
      case MarkAndRelease(inner) =>
        Spares(p, inner, |p.blocks|, m) &&
        match Run(p, inner, m)
        case None => true
        case Some(q) => Spares(Released(q, Current(p).avail), ops[1..], floor, m)
  }

  /** Such a run from a mark leaves all that was there at the mark untouched, so the mark can be released. */
  lemma {:induction false} RunExtends(s: Pool, p: Pool, ops: seq<Op>, m: nat)
    requires m > 0 && ValidPool(s, m) && ValidPool(p, m) && Extends(s, p)
    requires Run(p, ops, m).Some? && Spares(p, ops, |s.blocks|, m)
    ensures var q := Run(p, ops, m).value;
            ValidPool(q, m) && Extends(s, q) && Released(q, Current(s).avail) == s
    decreases ops
  {
    hide ValidPool, Extends, Taken, Ready, Grown, Released;
    if ops == [] {
      ReleaseRestores(s, p, m);
    } else {
      NotEmpty(p, m);
      NotEmpty(s, m);
      match ops[0]
      case Alloc(nb, a) =>
        ReadyIsValid(p, nb, a, m);
        NotEmpty(Ready(p, nb, a), m);
        AllocIsValid(p, nb, a, m);
        ExtendsTrans(s, p, Taken(Ready(p, nb, a), nb));
        RunExtends(s, Taken(Ready(p, nb, a), nb), ops[1..], m);
      case GrowLast(nb) =>
        YoungerGrowth(s, p, nb, m);
        RunExtends(s, Grown(p, nb), ops[1..], m);
      case MarkAndRelease(inner) =>
        ExtendsSelf(p);
        RunExtends(p, p, inner, m);
        RunExtends(s, p, ops[1..], m);
    }
  }

  lemma YoungerGrowth(s: Pool, p: Pool, nb: nat, m: nat)
    requires m > 0 && ValidPool(s, m) && ValidPool(p, m) && Extends(s, p) && |s.blocks| < |p.blocks|
    requires CanDo(p, GrowLast(nb), m)
    ensures ValidPool(Grown(p, nb), m) && Extends(s, Grown(p, nb))
  {
    GrownIsValid(p, nb, m);
    GrownExtends(s, p, nb, m);
  }

  // ----- The pool in memory -----

  /** Moved comes with the new address; Realloc stands for JS_ArenaRealloc, which is not entered. */
  datatype Growth = InPlace | Moved(p: Word) | Realloc | Failed

  ghost predicate Config(mask: Word, arenasize: Word) {
    IsMask(mask) && mask < 0x8000_0000 && ARENA_SIZE + LINK_SIZE + 3 + mask + arenasize < W
  }

  /** nb is rounded up, and what malloc would give for it, if it is asked, is memory no arena has. */
  ghost predicate CanAsk(p: Pool, nb: Word, mem: Option<nat>, mask: Word, arenasize: Word) {
    && Config(mask, arenasize) && ValidPool(p, mask + 1) && nb % (mask + 1) == 0
    && (mem.Some? && Gross(nb, mask, arenasize) < W ==>
          var size := Gross(nb, mask, arenasize);
          mem.value + size < W
          && forall i :: 0 <= i < |p.arenas| ==> p.arenas[i].limit <= mem.value || mem.value + size <= p.arenas[i].at)
  }

  lemma AllocationIsValid(p: Pool, nb: Word, at: nat, mask: Word, arenasize: Word)
    requires CanAsk(p, nb, Some(at), mask, arenasize) && p.arenas != [] && !HasRoom(p, nb)
    requires Gross(nb, mask, arenasize) < W
    ensures mask < 0x8000_0000 && at + Gross(nb, mask, arenasize) < W
    ensures var a := NewArena(at, nb, mask, arenasize);
            && a.avail == a.base && a.avail + nb < W
            && ValidPool(Taken(Added(p, a), nb), mask + 1) && Extends(p, Taken(Added(p, a), nb))
  {
    hide ValidPool, Extends, Taken, Extra, Gross, IsMask, BitAnd, BitNot, Align;
    var a := NewArena(at, nb, mask, arenasize);
    NewArenaFits(at, nb, mask, arenasize);
    AllocIsValid(p, nb, a, mask + 1);
  }

  /** The runs above contain whatever the pool can be asked for: what is allocated where there is room or memory, */
  lemma AllocationIsInRuns(p: Pool, nb: Word, at: Option<nat>, mask: Word, arenasize: Word)
    requires CanAsk(p, nb, at, mask, arenasize) && p.arenas != []
    requires HasRoom(p, nb) || (at.Some? && Gross(nb, mask, arenasize) < W)
    ensures var new_ := at.Some? && Gross(nb, mask, arenasize) < W;
            && (new_ ==> mask < 0x8000_0000 && at.value + Gross(nb, mask, arenasize) < W)
            && CanDo(p, Alloc(nb, if new_ then NewArena(at.value, nb, mask, arenasize) else Current(p)), mask + 1)
  {
    hide Extra, Gross, IsMask, BitAnd, BitNot, Align, GoodBlocks;
    if at.Some? && Gross(nb, mask, arenasize) < W {
      NewArenaFits(at.value, nb, mask, arenasize);
    }
  }

  /** and what is grown in place. */
  lemma GrowthIsInRuns(p: Pool, nb: nat, m: nat, j: nat)
    requires m > 0 && ValidPool(p, m) && nb % m == 0 && nb > 0 && j < |p.blocks|
    requires p.blocks[j].start + p.blocks[j].size == Current(p).avail && p.blocks[j].start + nb <= Current(p).limit
    ensures CanDo(p, GrowLast(nb), m)
  {
    EndsAtAvail(p, m, j);
  }

  /** All of the size bytes at at belong to a, of which nb from p on are taken. */
  ghost predicate IsNew(a: Arena, at: nat, p: Word, size: nat, nb: nat) {
    a.at == at && a.base == p && a.limit == at + size && a.avail == p + nb
  }

  class ArenaPool {
    const mask: Word
    const arenasize: Word
    var arenas: seq<Arena>
    ghost var blocks: seq<Block>

    ghost function P(): Pool
      reads this
    {
      Pool(arenas, blocks)
    }

    ghost predicate Valid()
      reads this
    {
      Config(mask, arenasize) && ValidPool(P(), mask + 1)
    }

    /** JS_InitArenaPool for a pool at the address at; the first arena has no room. */
    constructor (at: Word, size: Word, mask: Word)
      requires Config(mask, size)
      requires at + ARENA_SIZE + mask < W
      ensures Valid() && this.mask == mask && arenasize == size && blocks == []
      ensures var base := Align(at + ARENA_SIZE, mask);
              arenas == [Arena(at, base, base, base)]
    {
      AlignRoundsUp(at + ARENA_SIZE, mask);
      var base := Align(at + ARENA_SIZE, mask);
      this.mask, arenasize, arenas, blocks := mask, size, [Arena(at, base, base, base)], [];
    }

    /** JS_ArenaAllocate; the loop makes one arena at most, as the current one is the last. */
    method ArenaAllocate(nb: Word, mem: Option<nat>) returns (r: Option<Word>)
      requires Valid() && CanAsk(P(), nb, mem, mask, arenasize) && !HasRoom(P(), nb)
      modifies this
      ensures Valid() && Extends(old(P()), P())
      ensures r == None <==> mem == None || Gross(nb, mask, arenasize) >= W
      ensures r == None ==> P() == old(P())
      ensures r.Some? ==>
                var n := |old(arenas)|;
                && |arenas| == n + 1 && arenas[..n] == old(arenas)
                && IsNew(arenas[n], mem.value, r.value, Gross(nb, mask, arenasize), nb)
                && blocks == old(blocks) + if nb > 0 then [Block(n, r.value, nb)] else []
    {
      hide Align, BitAnd, BitOr, BitNot, IsMask, Gross;
      var extra := Extra(nb, mask, arenasize);
      var hdrsz := ARENA_SIZE + extra + mask;
      var gross := Wrap(hdrsz + Max(nb, arenasize));
      GrossIsChecked(nb, mask, arenasize);
      if gross < nb || mem == None {
        return None;
      }
      var b := mem.value;
      AllocationIsValid(P(), nb, b, mask, arenasize);
      var a := NewArena(b, nb, mask, arenasize);
      arenas := arenas + [a];
      r := Some(a.avail);
      TakeCurrent(nb);
    }

    /** avail moves up. */
    method TakeCurrent(nb: nat)
      requires arenas != [] && Current(P()).avail + nb < W
      modifies this
      ensures P() == Taken(old(P()), nb)
    {
      var c := |arenas| - 1;
      if nb > 0 {
        blocks := blocks + [Block(c, arenas[c].avail, nb)];
      }
      arenas := arenas[c := arenas[c].(avail := arenas[c].avail + nb)];
    }

    /** JS_ARENA_ALLOCATE_CAST */
    method Allocate(n: Word, mem: Option<nat>) returns (r: Option<Word>)
      requires Valid() && CanAsk(P(), Align(n, mask), mem, mask, arenasize)
      modifies this
      ensures Valid() && Extends(old(P()), P())
      ensures var nb, c := Align(n, mask), |old(arenas)| - 1;
              if old(arenas[c].avail + nb <= arenas[c].limit)
              then
                && r == Some(old(arenas[c].avail))
                && arenas == old(arenas[c := arenas[c].(avail := arenas[c].avail + nb)])
              else
                && (r == None <==> mem == None || Gross(nb, mask, arenasize) >= W)
                && (r == None ==> P() == old(P()))
                && (r.Some? ==> |arenas| == c + 2 && arenas[..c + 1] == old(arenas)
                                && IsNew(arenas[c + 1], mem.value, r.value, Gross(nb, mask, arenasize), nb))
      ensures r.Some? ==>
                var nb := Align(n, mask);
                blocks == old(blocks) + if nb > 0 then [Block(|arenas| - 1, r.value, nb)] else []
    {
      hide Align, BitAnd, BitOr, BitNot, Gross, IsMask, ValidPool, Extends, CanAsk, IsNew, Wrap;
      var nb := Align(n, mask);
      NotEmpty(P(), mask + 1);
      var a := arenas[|arenas| - 1];
      var p := a.avail;
      FitsTest(p, nb, a.limit);
      if nb > a.limit || p > Wrap(a.limit - nb) {
        r := ArenaAllocate(nb, mem);
      } else {
        AlignRoundsUp(n, mask);
        TakenIsValid(P(), nb, mask + 1);
        TakenExtends(P(), nb);
        TakeCurrent(nb);
        r := Some(p);
      }
    }

    /** JS_ARENA_MARK */
    method Mark() returns (m: Word)
      requires Valid()
      ensures m == Current(P()).avail && m % (mask + 1) == 0
    {
      assert GoodArena(arenas[|arenas| - 1], mask + 1);
      m := arenas[|arenas| - 1].avail;
    }

    /** JS_ARENA_RELEASE and JS_ArenaRelease */
    method Release(mark: Word)
      requires Valid() && mark % (mask + 1) == 0
      modifies this
      ensures Valid() && P() == Released(old(P()), mark)
      ensures GivesUp(old(P()), P(), mark)
    {
      hide Align, BitAnd, BitNot, Released, GivesUp, IsMask, GoodBlocks, GoodBlock;
      ReleasedIsValid(P(), mark, mask + 1);
      ReleaseGivesUp(P(), mark, mask + 1);
      var c := |arenas| - 1;
      assert GoodArena(arenas[c], mask + 1);
      InsideTest(mark, arenas[c].base, arenas[c].avail);
      AlignRoundsUp(mark, mask);
      if c != 0 && Wrap(mark - arenas[c].base) <= Wrap(arenas[c].avail - arenas[c].base) {
        Cut(c, mark);
      } else {
        SlowRelease(mark);
      }
    }

    /** avail of arena c becomes the mark, and the arenas behind it are freed. */
    method Cut(c: nat, mark: Word)
      requires Valid() && c == Holder(arenas, mark) && c < |arenas| && mark % (mask + 1) == 0
      modifies this
      ensures P() == Released(old(P()), mark)
    {
      AlignRoundsUp(mark, mask);
      blocks := Kept(blocks, c, mark);
      arenas := arenas[..c] + [arenas[c].(avail := Align(mark, mask))];
    }

    method SlowRelease(mark: Word)
      requires Valid() && mark % (mask + 1) == 0
      modifies this
      ensures P() == Released(old(P()), mark)
    {
      hide Align, BitAnd, BitNot, Kept, IsMask, GoodBlocks, Wrap;
      var i := 0;
      while i < |arenas|
        invariant i <= |arenas| && P() == old(P())
        invariant forall k :: 0 <= k < i ==> !Holds(arenas[k], mark)
      {
        assert GoodArena(arenas[i], mask + 1);
        InsideTest(mark, arenas[i].base, arenas[i].avail);
        if Wrap(mark - arenas[i].base) <= Wrap(arenas[i].avail - arenas[i].base) {
          Cut(i, mark);
          return;
        }
        i := i + 1;
      }
    }

    /**
     JS_ARENA_GROW_CAST for block j, which was allocated for size bytes.  After wrapping, the new
     size can be smaller than the old one.  A block that moves leaves its old memory in use.
     */
    method Grow(p: Word, size: Word, incr: Word, mem: Option<nat>, ghost j: nat) returns (r: Growth)
      requires Valid() && j < |blocks| && p == blocks[j].start && Align(size, mask) == blocks[j].size
      requires CanAsk(P(), Align(Wrap(size + incr), mask), mem, mask, arenasize)
      modifies this
      ensures Valid()
      ensures var nb, a, end := Align(Wrap(size + incr), mask), old(arenas[|arenas| - 1]), p + old(blocks[j].size);
              && (r == InPlace <==> end == a.avail && p + nb <= a.limit)
              && (r == Realloc <==> r != InPlace && (size > arenasize || (end == a.avail && p == a.base)))
              && (r == Failed <==> r != InPlace && r != Realloc && a.avail + nb > a.limit
                                   && (mem == None || Gross(nb, mask, arenasize) >= W))
      ensures r == InPlace ==>
                var nb, c := Align(Wrap(size + incr), mask), |old(arenas)| - 1;
                && arenas == old(arenas)[c := old(arenas)[c].(avail := p + nb)]
                && j == |old(blocks)| - 1
                && blocks == old(blocks)[..j] + if nb > 0 then [old(blocks)[j].(size := nb)] else []
      ensures r == Realloc || r == Failed ==> P() == old(P())
      ensures r.Moved? ==>
                var nb := Align(Wrap(size + incr), mask);
                && Extends(old(P()), P())
                && blocks == old(blocks) + if nb > 0 then [Block(|arenas| - 1, r.p, nb)] else []
    {
      hide Align, BitAnd, BitOr, BitNot, CanAsk, ValidPool, Wrap, Gross, Extends;
      NotEmpty(P(), mask + 1);
      EndDoesNotWrap(P(), mask + 1, j);
      var a := arenas[|arenas| - 1];
      var end := Align(size, mask);
      if a.avail == Wrap(p + end) {
        EndsAtAvail(P(), mask + 1, j);
        var nb := Align(Wrap(size + incr), mask);
        AlignRoundsUp(Wrap(size + incr), mask);
        FitsTest(p, nb, a.limit);
        if a.limit >= nb && p <= Wrap(a.limit - nb) {
          GrownIsValid(P(), nb, mask + 1);
          GrowLast(nb, p);
          return InPlace;
        }
        if p == a.base {
          return Realloc;
        }
      }
      r := ArenaGrow(size, incr, mem);
    }

    method GrowLast(nb: Word, p: Word)
      requires arenas != [] && blocks != [] && p == blocks[|blocks| - 1].start && p + nb < W
      modifies this
      ensures P() == Grown(old(P()), nb)
    {
      var c := |arenas| - 1;
      arenas := arenas[c := arenas[c].(avail := p + nb)];
      blocks := blocks[..|blocks| - 1] + if nb > 0 then [blocks[|blocks| - 1].(size := nb)] else [];
    }

    /** JS_ArenaGrow: an allocation of the new size, into which the old contents are copied. */
    method ArenaGrow(size: Word, incr: Word, mem: Option<nat>) returns (r: Growth)
      requires Valid() && CanAsk(P(), Align(Wrap(size + incr), mask), mem, mask, arenasize)
      modifies this
      ensures Valid() && Extends(old(P()), P()) && r != InPlace
      ensures r == Realloc <==> size > arenasize
      ensures var nb, a := Align(Wrap(size + incr), mask), old(arenas[|arenas| - 1]);
              r == Failed <==> r != Realloc && a.avail + nb > a.limit
                               && (mem == None || Gross(nb, mask, arenasize) >= W)
      ensures r == Realloc || r == Failed ==> P() == old(P())
      ensures r.Moved? ==>
                var nb := Align(Wrap(size + incr), mask);
                blocks == old(blocks) + if nb > 0 then [Block(|arenas| - 1, r.p, nb)] else []
    {
      hide Align, BitAnd, BitOr, BitNot, CanAsk, ValidPool, Gross, Extends;
      NotEmpty(P(), mask + 1);
      if size > arenasize {
        ExtendsSelf(P());
        return Realloc;
      }
      var newp := Allocate(Wrap(size + incr), mem);
      r := if newp == None then Failed else Moved(newp.value);
    }
  }
}
