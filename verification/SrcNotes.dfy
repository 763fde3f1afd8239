/**
 Taking source notes (jsemit.c): the growable byte vectors of the prolog and the main code, the
 functions that append and patch notes in them, and the one that joins them.
 */
module SrcNotes {
  import opened Options
  import opened Words
  import opened SrcNoteCode

  // ----- Patching, on values -----

  /** The position of operand which, for operands that start at i. */
  function OperandAt(s: seq<Byte>, i: nat, which: nat): nat
    decreases which
  {
    if which == 0 || i >= |s| then i else OperandAt(s, i + (if 0x80 <= s[i] then 3 else 1), which - 1)
  }

  function OperandSize(s: seq<Byte>, p: nat): nat
    requires p < |s|
  {
    if 0x80 <= s[p] then 3 else 1
  }

  /** The note at index has an operand which. */
  predicate HasOperand(s: seq<Byte>, index: nat, which: nat) {
    var p := OperandAt(s, index + 1, which);
    p < |s| && p + OperandSize(s, p) <= |s|
  }

  function OperandValue(s: seq<Byte>, p: nat): nat
    requires p < |s| && p + OperandSize(s, p) <= |s|
  {
    if 0x80 <= s[p] then ThreeBytes(s[p..]) else s[p]
  }

  /** What js_SetSrcNoteOffset makes of the bytes; a short operand is written over one byte only. */
  function WithOperand(s: seq<Byte>, p: nat, v: nat): seq<Byte>
    requires p < |s| && p + OperandSize(s, p) <= |s| && v < OFFSET_LIMIT
  {
    if v <= 0x7F then s[p := v] else s[..p] + OperandBytes(v) + s[p + OperandSize(s, p)..]
  }

  /** The operand is three bytes wide and the new value needs one. */
  predicate Shrinks(was: nat, v: nat) {
    was > 0x7F && v <= 0x7F
  }

  /** Overwriting one operand in place. */
  lemma WithOperandReplaces(a: seq<Byte>, was: nat, v: nat, b: seq<Byte>)
    requires was < OFFSET_LIMIT && v < OFFSET_LIMIT
    ensures var s := a + OperandBytes(was) + b;
            && |a| + OperandSize(s, |a|) <= |s|
            && (WithOperand(s, |a|, v) == a + OperandBytes(v) + b <==> !Shrinks(was, v))
  {
    var s := a + OperandBytes(was) + b;
    if v <= 0x7F && was <= 0x7F {
      assert s[|a| := v] == a + [v] + b;
    } else if v <= 0x7F {
      assert |s[|a| := v]| == |a| + 3 + |b|;
    }
  }

  lemma {:induction false} OperandFound(a: seq<Byte>, vs: seq<nat>, b: seq<Byte>, which: nat)
    requires which < |vs| && forall i :: 0 <= i < |vs| ==> vs[i] < OFFSET_LIMIT
    ensures OperandAt(a + AllOperandBytes(vs) + b, |a|, which) == |a| + |AllOperandBytes(vs[..which])|
    decreases which
  {
    hide OperandBytes, OperandValue, OperandSize, OperandAt;
    if which == 0 {
      NoOperandsBefore(a + AllOperandBytes(vs) + b, |a|);
      assert vs[..which] == [];
    } else {
      var rest := AllOperandBytes(vs[1..]) + b;
      NextOperand(a, vs[0], rest, which);
      OperandFound(a + OperandBytes(vs[0]), vs[1..], b, which - 1);
      assert a + AllOperandBytes(vs) + b == a + OperandBytes(vs[0]) + rest
             == a + OperandBytes(vs[0]) + AllOperandBytes(vs[1..]) + b;
      assert vs[..which][0] == vs[0] && vs[..which][1..] == vs[1..][..which - 1];
    }
  }

  lemma NoOperandsBefore(s: seq<Byte>, i: nat)
    ensures OperandAt(s, i, 0) == i
  {
  }

  lemma NextOperand(a: seq<Byte>, v: nat, rest: seq<Byte>, which: nat)
    requires v < OFFSET_LIMIT && 0 < which
    ensures var s := a + OperandBytes(v) + rest;
            OperandAt(s, |a|, which) == OperandAt(s, |a + OperandBytes(v)|, which - 1)
  {
  }

  lemma {:induction false} OperandSplit(vs: seq<nat>, which: nat)
    requires which < |vs| && forall i :: 0 <= i < |vs| ==> vs[i] < OFFSET_LIMIT
    ensures AllOperandBytes(vs)
            == AllOperandBytes(vs[..which]) + OperandBytes(vs[which]) + AllOperandBytes(vs[which + 1..])
    decreases which
  {
    hide OperandBytes;
    if which == 0 {
      assert vs[..0] == [] && [] + OperandBytes(vs[0]) == OperandBytes(vs[0]);
    } else {
      OperandSplit(vs[1..], which - 1);
      assert vs[..which][0] == vs[0] && vs[..which][1..] == vs[1..][..which - 1];
      assert vs[1..][which..] == vs[which + 1..];
    }
  }

  lemma Reassociate(a: seq<Byte>, x: seq<Byte>, y: seq<Byte>, z: seq<Byte>, b: seq<Byte>)
    ensures a + (x + y + z) + b == (a + x) + y + (z + b)
  {
  }

  lemma SplitVector(a: seq<Byte>, vs: seq<nat>, after: seq<Byte>, which: nat)
    requires which < |vs| && forall i :: 0 <= i < |vs| ==> vs[i] < OFFSET_LIMIT
    ensures a + AllOperandBytes(vs) + after
            == (a + AllOperandBytes(vs[..which])) + OperandBytes(vs[which]) + (AllOperandBytes(vs[which + 1..]) + after)
  {
    hide OperandBytes, AllOperandBytes;
    OperandSplit(vs, which);
    Reassociate(a, AllOperandBytes(vs[..which]), OperandBytes(vs[which]), AllOperandBytes(vs[which + 1..]), after);
  }

  lemma OperandReads(a: seq<Byte>, was: nat, b: seq<Byte>)
    requires was < OFFSET_LIMIT
    ensures var s := a + OperandBytes(was) + b;
            |a| < |s| && |a| + OperandSize(s, |a|) <= |s| && OperandValue(s, |a|) == was
  {
    var s := a + OperandBytes(was) + b;
    assert s[|a|..] == OperandBytes(was) + b;
  }

  lemma SetBetween(left: seq<Byte>, was: nat, v: nat, right: seq<Byte>, s: seq<Byte>, t: seq<Byte>, p: nat)
    requires was < OFFSET_LIMIT && v < OFFSET_LIMIT && p == |left|
    requires s == left + OperandBytes(was) + right && t == left + OperandBytes(v) + right
    ensures p < |s| && p + OperandSize(s, p) <= |s| && OperandValue(s, p) == was
    ensures WithOperand(s, p, v) == t <==> !Shrinks(was, v)
  {
    hide OperandBytes, OperandValue, OperandSize, WithOperand, Shrinks;
    OperandReads(left, was, right);
    WithOperandReplaces(left, was, v, right);
  }

  /**
   Setting an operand of a note leaves the encoding of the note with that operand, and everything
   around it as it was, exactly unless a three-byte operand is given a value that needs one byte.
   Here a ends with the byte of the note.
   */
  lemma OperandIsSet(a: seq<Byte>, vs: seq<nat>, after: seq<Byte>, which: nat, v: nat)
    requires a != [] && which < |vs| && forall i :: 0 <= i < |vs| ==> vs[i] < OFFSET_LIMIT
    requires v < OFFSET_LIMIT
    ensures var s := a + AllOperandBytes(vs) + after;
            && HasOperand(s, |a| - 1, which)
            && OperandValue(s, OperandAt(s, |a|, which)) == vs[which]
            && (WithOperand(s, OperandAt(s, |a|, which), v) == a + AllOperandBytes(vs[which := v]) + after
                <==> !Shrinks(vs[which], v))
  {
    hide OperandBytes, AllOperandBytes, OperandValue, WithOperand, OperandAt, OperandSize, Shrinks;
    var vs' := vs[which := v];
    var s, t := a + AllOperandBytes(vs) + after, a + AllOperandBytes(vs') + after;
    var left := a + AllOperandBytes(vs[..which]);
    var right := AllOperandBytes(vs[which + 1..]) + after;
    OperandFound(a, vs, after, which);
    SplitVector(a, vs, after, which);
    SplitVector(a, vs', after, which);
    assert vs'[..which] == vs[..which] && vs'[which + 1..] == vs[which + 1..];
    SetBetween(left, vs[which], v, right, s, t, OperandAt(s, |a|, which));
  }

  /** When it is, the notes that follow are misread. */
  lemma ShrinkingMisreads()
    ensures var s := Encode([Note(0, 3, [0x180]), Note(1, 1, [])]) + [0];
            var t := WithOperand(s, 1, 5);
            && Decode(s, 0) == Some([Note(0, 3, [0x180]), Note(1, 1, [])])
            && Decode(t, 0) != Some([Note(0, 3, [5]), Note(1, 1, [])])
  {
    hide Decode;
    var notes := [Note(0, 3, [0x180]), Note(1, 1, [])];
    TerminatedRoundTrip(notes);
    var s: seq<Byte> := [24, 0x80, 1, 0x80, 9, 0];
    assert Encode(notes) + [0] == s by {
      assert notes[1..] == [Note(1, 1, [])] && notes[1..][1..] == [];
    }
    var rest: seq<Byte> := [1, 0x80, 9, 0];
    assert WithOperand(s, 1, 5) == [MakeNote(3, 0)] + AllOperandBytes([5]) + rest;
    DecodePlain(3, 0, [5], rest, 0);
    StartsWithNull(rest);
    if Decode(rest, 0).Some? {
      var more := Decode(rest, 0).value;
      assert ([Note(0, 3, [5])] + more)[1] == more[0];
    }
  }

  /** A byte of one is no note that was taken, but a note of type zero. */
  lemma StartsWithNull(s: seq<Byte>)
    requires s != [] && s[0] == 1
    ensures Decode(s, 0).Some? ==> Decode(s, 0).value != [] && Decode(s, 0).value[0].kind == 0
  {
  }

  // ----- Adding to a delta, on values -----

  /** What js_AddToSrcNoteDelta makes of the bytes from the note on. */
  function AddDelta(s: seq<Byte>, d: nat): seq<Byte>
    requires s != [] && d <= XDELTA_MASK
  {
    if d <= Room(s[0]) then s[0 := s[0] + d] else [MakeXDelta(d)] + s
  }

  predicate StartsNote(s: seq<Byte>) {
    s != [] && s[0] != 0
  }

  lemma AddDeltaDecodes(s: seq<Byte>, d: nat, c: nat)
    requires StartsNote(s) && d <= XDELTA_MASK
    ensures Decode(AddDelta(s, d), c) == Decode(s, c + d)
  {
    hide Decode, Room;
    if d <= Room(s[0]) {
      RaisedDecodes(s, d, c);
    } else {
      DecodeXDelta(d, s, c);
    }
  }

  lemma RaisedDecodes(s: seq<Byte>, d: nat, c: nat)
    requires StartsNote(s) && d <= Room(s[0])
    ensures s[0] + d < 0x100 && Decode(s[0 := s[0] + d], c) == Decode(s, c + d)
  {
    hide Operands, Arity;
    RoomIsExact(s[0], d);
    hide IsXDelta, TypeOf, DeltaOf, Room;
    var t := s[0 := s[0] + d];
    assert t[1..] == s[1..];
  }

  /** Extended deltas put in front one by one, the full ones first. */
  function Prefixed(s: seq<Byte>, d: nat): seq<Byte>
    decreases d
  {
    if d == 0 then s
    else if d <= XDELTA_MASK then [MakeXDelta(d)] + s
    else Prefixed([MakeXDelta(XDELTA_MASK)] + s, d - XDELTA_MASK)
  }

  /** The bytes of the main notes with diff added to the delta of the first. */
  function Bumped(s: seq<Byte>, diff: nat): seq<Byte> {
    if s == [] then s
    else if diff <= Room(s[0]) then s[0 := s[0] + diff]
    else Prefixed(s[0 := s[0] + Room(s[0])], diff - Room(s[0]))
  }

  lemma {:induction false} PrefixedDecodes(s: seq<Byte>, d: nat, c: nat)
    ensures Decode(Prefixed(s, d), c) == Decode(s, c + d)
    ensures |Prefixed(s, d)| == |s| + HowMany(d, XDELTA_MASK)
    decreases d
  {
    hide Decode;
    if 0 < d <= XDELTA_MASK {
      DecodeXDelta(d, s, c);
    } else if d > XDELTA_MASK {
      PrefixedDecodes([MakeXDelta(XDELTA_MASK)] + s, d - XDELTA_MASK, c);
      DecodeXDelta(XDELTA_MASK, s, c + d - XDELTA_MASK);
    }
  }

  /** Bumping moves the first note, and so all that follow, by diff. */
  lemma BumpedDecodes(s: seq<Byte>, diff: nat, c: nat)
    requires StartsNote(s)
    ensures Decode(Bumped(s, diff), c) == Decode(s, c + diff)
    ensures |Bumped(s, diff)| == |s| + if diff <= Room(s[0]) then 0 else HowMany(diff - Room(s[0]), XDELTA_MASK)
  {
    hide Decode, Prefixed;
    var d := if diff <= Room(s[0]) then diff else Room(s[0]);
    AddDeltaDecodes(s, d, c + diff - d);
    if diff > d {
      PrefixedDecodes(s[0 := s[0] + d], diff - d, c);
    }
  }

  lemma {:induction false} PrefixedAppends(s: seq<Byte>, more: seq<Byte>, d: nat)
    ensures Prefixed(s, d) + more == Prefixed(s + more, d)
    decreases d
  {
    if 0 < d <= XDELTA_MASK {
      assert [MakeXDelta(d)] + s + more == [MakeXDelta(d)] + (s + more);
    } else if d > XDELTA_MASK {
      PrefixedAppends([MakeXDelta(XDELTA_MASK)] + s, more, d - XDELTA_MASK);
      assert [MakeXDelta(XDELTA_MASK)] + s + more == [MakeXDelta(XDELTA_MASK)] + (s + more);
    }
  }

  lemma BumpedAppends(s: seq<Byte>, more: seq<Byte>, diff: nat)
    requires s != []
    ensures Bumped(s, diff) + more == Bumped(s + more, diff)
  {
    hide Prefixed;
    assert (s + more)[0] == s[0];
    var d := if diff <= Room(s[0]) then diff else Room(s[0]);
    assert s[0 := s[0] + d] + more == (s + more)[0 := s[0] + d];
    PrefixedAppends(s[0 := s[0] + d], more, diff - d);
  }

  // ----- Where notes are -----

  /** The pc of the last of the notes. */
  function EndPc(notes: seq<Note>): nat {
    if notes == [] then 0 else EndPc(notes[..|notes| - 1]) + notes[|notes| - 1].delta
  }

  /** The pc of note k. */
  function PcOf(notes: seq<Note>, k: nat): nat
    requires k < |notes|
  {
    EndPc(notes[..k + 1])
  }

  lemma {:induction false} EndPcAppends(a: seq<Note>, b: seq<Note>)
    ensures EndPc(a + b) == EndPc(a) + EndPc(b)
    decreases |b|
  {
    if b == [] {
      assert a + b == a;
    } else {
      EndPcAppends(a, b[..|b| - 1]);
      assert (a + b)[..|a + b| - 1] == a + b[..|b| - 1];
    }
  }

  /** The notes with diff added to the first delta. */
  function Later(notes: seq<Note>, diff: nat): seq<Note> {
    if notes == [] then [] else notes[0 := notes[0].(delta := notes[0].delta + diff)]
  }

  lemma {:induction false} EndPcLater(notes: seq<Note>, diff: nat)
    requires notes != []
    ensures EndPc(Later(notes, diff)) == EndPc(notes) + diff
  {
    if |notes| > 1 {
      EndPcLater(notes[..|notes| - 1], diff);
      assert Later(notes, diff)[..|notes| - 1] == Later(notes[..|notes| - 1], diff);
    }
  }

  /**
   Each note of the main code ends up at its own pc plus the length of the prolog, with the line
   note in between and without it.
   */
  lemma MoveBehindLine(p: seq<Note>, m: seq<Note>, line: Note, k: nat)
    requires k < |m|
    ensures PcOf(p + [line] + m, |p| + 1 + k) == EndPc(p) + line.delta + PcOf(m, k)
  {
    hide EndPc;
    assert (p + [line] + m)[..|p| + 1 + k + 1] == p + [line] + m[..k + 1];
    EndPcAppends(p + [line], m[..k + 1]);
    EndPcAppends(p, [line]);
    OneNote(line);
  }

  lemma TakeLater(p: seq<Note>, m: seq<Note>, diff: nat, j: nat)
    requires 0 < j <= |m|
    ensures (p + Later(m, diff))[..|p| + j] == p + Later(m[..j], diff)
  {
    assert Later(m, diff)[..j] == Later(m[..j], diff);
  }

  lemma MoveLater(p: seq<Note>, m: seq<Note>, diff: nat, k: nat)
    requires k < |m|
    ensures PcOf(p + Later(m, diff), |p| + k) == EndPc(p) + diff + PcOf(m, k)
  {
    hide EndPc, Later;
    var head := m[..k + 1];
    TakeLater(p, m, diff, k + 1);
    EndPcAppends(p, Later(head, diff));
    EndPcLater(head, diff);
  }

  /**
   Taking one more note: the bytes stay the encoding of the notes taken, and the pc of the last
   note is where the note was taken.
   */
  lemma {:induction false} TakenNote(notes: seq<Note>, n: Note, last: nat, offset: nat)
    requires AllEncodable(notes) && Encodable(n)
    requires EndPc(notes) == last && n.delta == offset - last
    ensures AllEncodable(notes + [n]) && Encode(notes + [n]) == Encode(notes) + EncodeNote(n)
    ensures EndPc(notes + [n]) == offset
  {
    hide EncodeNote;
    EndPcAppends(notes, [n]);
    OneNote(n);
    EncodeAppends(notes, n);
  }

  lemma {:induction false} EncodeAppends(notes: seq<Note>, n: Note)
    requires AllEncodable(notes) && Encodable(n)
    ensures Encode(notes + [n]) == Encode(notes) + EncodeNote(n)
  {
    hide EncodeNote;
    if notes == [] {
      assert notes + [n] == [n] && [n][1..] == [];
      assert [] + EncodeNote(n) == EncodeNote(n) == EncodeNote(n) + [];
    } else {
      EncodeAppends(notes[1..], n);
      assert (notes + [n])[1..] == notes[1..] + [n];
      Associate(EncodeNote(notes[0]), Encode(notes[1..]), EncodeNote(n));
    }
  }

  lemma OneNote(n: Note)
    ensures EndPc([n]) == n.delta
  {
    assert [n][..0] == [];
  }

  // ----- The growable vector -----

  lemma Associate(a: seq<Byte>, b: seq<Byte>, c: seq<Byte>)
    ensures a + b + c == a + (b + c)
  {
  }

  lemma MaskTest(i: nat, mask: nat, bits: nat)
    requires mask + 1 == Pow2(bits)
    ensures BitAnd(i, mask) == i % (mask + 1)
    ensures i <= mask + 1 ==> (BitAnd(i, mask) == 0 <==> i == 0 || i == mask + 1)
    ensures i <= mask + 2 && 1 <= mask ==> (BitAnd(i, mask) <= 1 <==> i <= 1 || mask < i)
  {
    AndLowMask(i, bits);
    if i <= mask {
      DivUnique(i, mask + 1, 0, i);
    } else if i <= 2 * mask + 1 {
      DivUnique(i, mask + 1, 1, i - (mask + 1));
    }
  }

  function Zeros(n: nat): (r: seq<nat>)
    ensures |r| == n && forall i :: 0 <= i < n ==> r[i] == 0
  {
    if n == 0 then [] else [0] + Zeros(n - 1)
  }

  lemma {:induction false} ZeroBytes(n: nat)
    ensures |AllOperandBytes(Zeros(n))| == n && forall i :: 0 <= i < n ==> AllOperandBytes(Zeros(n))[i] == 0
  {
    if n > 0 {
      ZeroBytes(n - 1);
      assert Zeros(n)[1..] == Zeros(n - 1);
    }
  }

  lemma XDeltaStep(d: nat)
    requires DELTA_LIMIT <= d
    ensures var x := if d < XDELTA_MASK then d else XDELTA_MASK;
            XDeltas(d) == [MakeXDelta(x)] + XDeltas(d - x) && LastDelta(d) == LastDelta(d - x)
  {
  }

  /** SN_SET_DELTA */
  function SetDelta(b: Byte, d: nat): (r: Byte)
    requires d <= XDELTA_MASK && (!IsXDelta(b) ==> d < DELTA_LIMIT)
    ensures r == b - DeltaOf(b) + d
  {
    if IsXDelta(b) then MakeXDelta(d) else TypeOf(b) * 8 + d
  }

  /** memmove to higher addresses */
  method MoveUp(a: array<Byte>, source: nat, target: nat, n: nat)
    requires source <= target && target + n <= a.Length
    modifies a
    ensures a[..target] == old(a[..target]) && a[target..target + n] == old(a[source..source + n])
  {
    ghost var was := a[..];
    forall j | 0 <= j < n {
      a[target + j] := a[source + j];
    }
    forall k | target <= k < target + n
      ensures a[k] == was[k - target + source]
    {
      assert a[target + (k - target)] == was[source + (k - target)];
    }
    assert a[target..target + n] == was[source..source + n];
  }

  /** The position of an operand of the note at index, among the first n bytes. */
  method FindOperand(notes: array<Byte>, n: nat, index: nat, which: nat) returns (sn: nat)
    requires n <= notes.Length && HasOperand(notes[..n], index, which)
    ensures sn == OperandAt(notes[..n], index + 1, which)
  {
    sn := index + 1;
    var k: nat := which;
    while k > 0
      invariant OperandAt(notes[..n], sn, k) == OperandAt(notes[..n], index + 1, which)
    {
      OperandInside(notes[..n], sn, k);
      OperandBits(notes[sn]);
      if BitAnd(notes[sn], 0x80) != 0 {
        sn := sn + 2;
      }
      sn, k := sn + 1, k - 1;
    }
  }

  /** js_GetSrcNoteOffset */
  method GetSrcNoteOffset(notes: array<Byte>, index: nat, which: nat) returns (v: nat)
    requires HasOperand(notes[..], index, which)
    ensures v == OperandValue(notes[..], OperandAt(notes[..], index + 1, which))
  {
    assert notes[..notes.Length] == notes[..];
    var sn := FindOperand(notes, notes.Length, index, which);
    OperandBits(notes[sn]);
    if BitAnd(notes[sn], 0x80) != 0 {
      WideBits(notes[sn], notes[sn + 1], notes[sn + 2]);
      v := BitOr(BitOr(Shl(BitAnd(notes[sn], 0x7F), 16), Shl(notes[sn + 1], 8)), notes[sn + 2]);
    } else {
      v := notes[sn];
    }
  }

  /** cg->prolog or cg->main: the notes of one stretch of code. */
  class Section {
    var notes: array?<Byte>
    var noteCount: nat
    var noteMask: nat
    var lastNoteOffset: nat
    /** noteMask is one less than this power of two. */
    ghost var bits: nat

    ghost predicate Valid()
      reads this
    {
      && 1 <= noteMask && noteMask + 1 == Pow2(bits)
      && (if notes == null then noteCount == 0 else noteCount <= notes.Length == noteMask + 1)
    }

    ghost function Bytes(): (r: seq<Byte>)
      requires Valid()
      reads this, notes
      ensures |r| == noteCount
    {
      if notes == null then [] else notes[..noteCount]
    }

    constructor ()
      ensures Valid() && notes == null && lastNoteOffset == 0
    {
      Pow2Values();
      assert Pow2(6) == 64;
      notes, noteCount, noteMask, lastNoteOffset, bits := null, 0, 63, 0, 6;
    }

    /** GrowSrcNotes: twice the room. */
    method Grow()
      requires Valid() && notes != null
      modifies this`notes, this`noteMask, this`bits
      ensures Valid() && fresh(notes) && noteMask == 2 * old(noteMask) + 1
      ensures Bytes() == old(Bytes())
    {
      var more := new Byte[2 * (noteMask + 1)];
      forall i | 0 <= i < noteCount {
        more[i] := notes[i];
      }
      assert more[..noteCount] == notes[..noteCount];
      notes, noteMask, bits := more, 2 * noteMask + 1, bits + 1;
    }

    /** AllocSrcNote: one more byte, whose value is not set. */
    method Alloc() returns (index: nat)
      requires Valid()
      modifies this`notes, this`noteMask, this`bits, this`noteCount
      ensures Valid() && notes != null && (fresh(notes) || notes == old(notes))
      ensures index == old(noteCount) && noteCount == index + 1
      ensures Bytes()[..index] == old(Bytes())
      ensures notes == old(notes) <==> old(notes) != null && 0 < index <= old(noteMask)
      ensures noteMask == if old(notes) != null && notes != old(notes) then 2 * old(noteMask) + 1 else old(noteMask)
    {
      index := noteCount;
      MaskTest(index, noteMask, bits);
      if BitAnd(index, noteMask) == 0 {
        if notes == null {
          notes := new Byte[noteMask + 1];
        } else {
          Grow();
        }
      }
      noteCount := index + 1;
    }

    method Put(i: nat, b: Byte)
      requires Valid() && notes != null && i < noteCount
      modifies notes
      ensures Bytes() == old(Bytes())[i := b]
    {
      notes[i] := b;
    }

    /** The loop of js_NewSrcNote: extended deltas from index on, each followed by a new byte. */
    method PutXDeltas(first: nat, d: nat) returns (index: nat, last: nat)
      requires Valid() && notes != null && noteCount == first + 1
      modifies this`notes, this`noteMask, this`bits, this`noteCount, notes
      ensures Valid() && notes != null && (fresh(notes) || notes == old(notes))
      ensures noteCount == index + 1 && last == LastDelta(d)
      ensures Bytes()[..index] == old(Bytes()[..first]) + XDeltas(d)
    {
      index, last := first, d;
      while last >= DELTA_LIMIT
        invariant Valid() && notes != null && (fresh(notes) || notes == old(notes))
        invariant noteCount == index + 1 && LastDelta(last) == LastDelta(d)
        invariant Bytes()[..index] + XDeltas(last) == old(Bytes()[..first]) + XDeltas(d)
      {
        index, last := PutXDelta(index, last);
      }
    }

    method PutXDelta(index: nat, d: nat) returns (next: nat, rest: nat)
      requires Valid() && notes != null && noteCount == index + 1 && DELTA_LIMIT <= d
      modifies this`notes, this`noteMask, this`bits, this`noteCount, notes
      ensures Valid() && notes != null && (fresh(notes) || notes == old(notes))
      ensures noteCount == next + 1 && rest < d && LastDelta(rest) == LastDelta(d)
      ensures Bytes()[..next] + XDeltas(rest) == old(Bytes()[..index]) + XDeltas(d)
    {
      hide XDeltas, LastDelta;
      var x := if d < XDELTA_MASK then d else XDELTA_MASK;
      XDeltaStep(d);
      Put(index, MakeXDelta(x));
      rest := d - x;
      ghost var was := Bytes();
      next := Alloc();
      assert was == old(Bytes()[..index]) + [MakeXDelta(x)];
      Associate(old(Bytes()[..index]), [MakeXDelta(x)], XDeltas(rest));
    }

    /** The note without its operands. */
    method PutNote(t: nat, offset: nat) returns (index: nat)
      requires Valid() && IsType(t) && lastNoteOffset <= offset
      modifies this, notes
      ensures Valid() && notes != null && (fresh(notes) || notes == old(notes))
      ensures lastNoteOffset == offset
      ensures Bytes() == old(Bytes()) + Head(offset - old(lastNoteOffset), t)
      ensures index == old(noteCount) + |XDeltas(offset - old(lastNoteOffset))|
    {
      ghost var was := Bytes();
      index := Alloc();
      var delta := offset - lastNoteOffset;
      lastNoteOffset := offset;
      ghost var before := delta;
      index, delta := PutXDeltas(index, delta);
      Put(index, MakeNote(t, delta));
      assert Bytes() == was + XDeltas(before) + [MakeNote(t, delta)];
    }

    /** js_NewSrcNote; the operands are zero until they are set. */
    method NewSrcNote(t: nat, offset: nat) returns (index: nat)
      requires Valid() && IsType(t) && lastNoteOffset <= offset
      modifies this, notes
      ensures Valid() && notes != null && (fresh(notes) || notes == old(notes))
      ensures lastNoteOffset == offset
      ensures Bytes() == old(Bytes()) + Head(offset - old(lastNoteOffset), t) + AllOperandBytes(Zeros(Arity(t)))
      ensures index == old(noteCount) + |XDeltas(offset - old(lastNoteOffset))|
      decreases t
    {
      hide AllOperandBytes, Zeros, Head, XDeltas, Arity, Pow2;
      index := PutNote(t, offset);
      ghost var head := Bytes();
      var n := Arity(t);
      ZeroHead();
      assert head == head + AllOperandBytes(Zeros(0));
      while n > 0
        invariant 0 <= n <= Arity(t)
        invariant Valid() && notes != null && (fresh(notes) || notes == old(notes))
        invariant lastNoteOffset == offset
        invariant Bytes() == head + AllOperandBytes(Zeros(Arity(t) - n))
      {
        ZeroHead();
        ZeroNext(head, Arity(t) - n);
        var slot := NewSrcNote(0, offset);
        n := n - 1;
      }
    }

    /** Open a gap of k bytes at position i; there is room for them. */
    method OpenGap(i: nat, k: nat)
      requires Valid() && notes != null && i <= noteCount && noteCount + k <= notes.Length
      modifies this`noteCount, notes
      ensures Valid() && noteCount == old(noteCount) + k
      ensures Bytes()[..i] == old(Bytes()[..i]) && Bytes()[i + k..] == old(Bytes()[i..])
    {
      ghost var was := Bytes();
      var n := noteCount - i;
      noteCount := noteCount + k;
      MoveUp(notes, i, i + k, n);
      assert Bytes()[..i] == notes[..i + k][..i] == was[..i];
      assert Bytes()[i + k..] == notes[i + k..i + k + n] == was[i..];
    }

    /** Two more bytes after position sn. */
    method Widen(sn: nat)
      requires Valid() && notes != null && sn < noteCount
      modifies this`notes, this`noteMask, this`bits, this`noteCount, notes
      ensures Valid() && notes != null && (fresh(notes) || notes == old(notes))
      ensures noteCount == old(noteCount) + 2
      ensures Bytes()[..sn + 1] == old(Bytes()[..sn + 1]) && Bytes()[sn + 3..] == old(Bytes()[sn + 1..])
    {
      MaskTest(noteCount + 1, noteMask, bits);
      if BitAnd(noteCount + 1, noteMask) <= 1 {
        Grow();
      }
      OpenGap(sn + 1, 2);
    }

    /** js_SetSrcNoteOffset; a negative offset is a large unsigned one. */
    method SetSrcNoteOffset(index: nat, which: nat, offset: int) returns (ok: bool)
      requires Valid() && notes != null && HasOperand(Bytes(), index, which)
      modifies this`notes, this`noteMask, this`bits, this`noteCount, notes
      ensures Valid() && notes != null && (fresh(notes) || notes == old(notes))
      ensures ok <==> 0 <= offset < OFFSET_LIMIT
      ensures Bytes() == if ok then WithOperand(old(Bytes()), OperandAt(old(Bytes()), index + 1, which), offset)
                         else old(Bytes())
    {
      if offset < 0 || OFFSET_LIMIT <= offset {
        return false;
      }
      var sn := FindOperand(notes, noteCount, index, which);
      if offset <= 0x7F {
        notes[sn] := offset;
      } else {
        SetWide(sn, offset);
      }
      ok := true;
    }

    method Put3(sn: nat, v: nat)
      requires Valid() && notes != null && sn + 3 <= noteCount && 0x7F < v < OFFSET_LIMIT
      modifies notes
      ensures Bytes() == old(Bytes()[..sn]) + OperandBytes(v) + old(Bytes()[sn + 3..])
    {
      notes[sn] := 0x80 + v / 0x1_0000;
      notes[sn + 1] := v / 0x100 % 0x100;
      notes[sn + 2] := v % 0x100;
    }

    method SetWide(sn: nat, v: nat)
      requires Valid() && notes != null && sn < noteCount && sn + OperandSize(Bytes(), sn) <= noteCount
      requires 0x7F < v < OFFSET_LIMIT
      modifies this`notes, this`noteMask, this`bits, this`noteCount, notes
      ensures Valid() && notes != null && (fresh(notes) || notes == old(notes))
      ensures Bytes() == WithOperand(old(Bytes()), sn, v)
    {
      ghost var was := Bytes();
      ghost var end := sn + OperandSize(was, sn);
      OperandBits(notes[sn]);
      if BitAnd(notes[sn], 0x80) == 0 {
        Widen(sn);
      }
      assert Bytes()[..sn] == Bytes()[..sn + 1][..sn] == was[..sn] && Bytes()[sn + 3..] == was[end..];
      Put3(sn, v);
    }

    /** One more byte before position i. */
    method Insert(i: nat)
      requires Valid() && notes != null && i < noteCount
      modifies this`notes, this`noteMask, this`bits, this`noteCount, notes
      ensures Valid() && notes != null && (fresh(notes) || notes == old(notes))
      ensures noteCount == old(noteCount) + 1
      ensures Bytes()[..i] == old(Bytes()[..i]) && Bytes()[i + 1..] == old(Bytes()[i..])
    {
      MaskTest(noteCount, noteMask, bits);
      if BitAnd(noteCount, noteMask) == 0 {
        Grow();
      }
      OpenGap(i, 1);
    }

    /** js_AddToSrcNoteDelta for the note at position i; returns where the note is now. */
    method AddToSrcNoteDelta(i: nat, delta: nat) returns (sn: nat)
      requires Valid() && notes != null && i < noteCount && delta <= XDELTA_MASK
      modifies this`notes, this`noteMask, this`bits, this`noteCount, notes
      ensures Valid() && notes != null && (fresh(notes) || notes == old(notes))
      ensures Bytes() == old(Bytes()[..i] + AddDelta(Bytes()[i..], delta))
      ensures i == 0 ==> Bytes() == AddDelta(old(Bytes()), delta)
      ensures sn == i + |Bytes()| - |old(Bytes())|
      ensures sn == if delta <= old(Room(Bytes()[i])) then i else i + 1
    {
      assert Bytes()[0..] == Bytes();
      ghost var was := Bytes();
      var b: Byte := notes[i];
      var limit := if IsXDelta(b) then XDELTA_MASK + 1 else DELTA_LIMIT;
      if DeltaOf(b) + delta < limit {
        notes[i] := SetDelta(b, DeltaOf(b) + delta);
        assert Bytes() == was[..i] + was[i..][0 := b + delta];
        sn := i;
      } else {
        Insert(i);
        Put(i, MakeXDelta(delta));
        assert Bytes() == was[..i] + ([MakeXDelta(delta)] + was[i..]);
        sn := i + 1;
      }
    }
  }

  /** A note before its operands. */
  ghost function Head(d: nat, t: nat): (r: seq<Byte>)
    requires IsType(t)
    ensures |r| == |XDeltas(d)| + 1
  {
    XDeltas(d) + [MakeNote(t, LastDelta(d))]
  }

  lemma ZeroHead()
    ensures Arity(0) == 0
    ensures Head(0, 0) == [0]
    ensures AllOperandBytes(Zeros(0)) == []
  {
  }

  lemma ZeroNext(head: seq<Byte>, n: nat)
    ensures head + AllOperandBytes(Zeros(n)) + Head(0, 0) + AllOperandBytes(Zeros(Arity(0)))
            == head + AllOperandBytes(Zeros(n + 1))
  {
    hide AllOperandBytes, Zeros, Head, Arity;
    ZeroHead();
    ZeroBytes(n);
    ZeroBytes(n + 1);
    assert AllOperandBytes(Zeros(n)) + [0] == AllOperandBytes(Zeros(n + 1));
    Associate(head, AllOperandBytes(Zeros(n)), [0]);
  }

  lemma {:induction false} OperandAtGrows(s: seq<Byte>, i: nat, which: nat)
    ensures i <= OperandAt(s, i, which)
    decreases which
  {
    if which > 0 && i < |s| {
      OperandAtGrows(s, i + (if 0x80 <= s[i] then 3 else 1), which - 1);
    }
  }

  lemma OperandInside(s: seq<Byte>, i: nat, which: nat)
    requires OperandAt(s, i, which) < |s|
    ensures i < |s|
  {
    OperandAtGrows(s, i, which);
  }

  // ----- Notes with operands -----

  /** An operand that is zero is set, in the last note. */
  lemma OperandSetAtEnd(a: seq<Byte>, vs: seq<nat>, which: nat, v: nat)
    requires a != [] && which < |vs| && forall i :: 0 <= i < |vs| ==> vs[i] < OFFSET_LIMIT
    requires vs[which] == 0 && v < OFFSET_LIMIT
    ensures var s := a + AllOperandBytes(vs);
            && HasOperand(s, |a| - 1, which)
            && WithOperand(s, OperandAt(s, |a|, which), v) == a + AllOperandBytes(vs[which := v])
  {
    hide AllOperandBytes, HasOperand, WithOperand, OperandAt, OperandValue;
    OperandIsSet(a, vs, [], which, v);
    assert a + AllOperandBytes(vs) + [] == a + AllOperandBytes(vs);
    assert a + AllOperandBytes(vs[which := v]) + [] == a + AllOperandBytes(vs[which := v]);
  }

  /** js_NewSrcNote2; None for the failure of an operand that does not fit. */
  method NewSrcNote2(section: Section, t: nat, offset: nat, v: int) returns (r: Option<nat>)
    requires section.Valid() && IsType(t) && 0 < Arity(t) && section.lastNoteOffset <= offset
    modifies section, section.notes
    ensures section.Valid() && section.notes != null
    ensures fresh(section.notes) || section.notes == old(section.notes)
    ensures section.lastNoteOffset == offset
    ensures r.Some? <==> 0 <= v < OFFSET_LIMIT
    ensures r.Some? ==> r.value == old(section.noteCount) + |XDeltas(offset - old(section.lastNoteOffset))|
    ensures r == None ==> section.Bytes() == old(section.Bytes()) + Head(offset - old(section.lastNoteOffset), t)
                                             + AllOperandBytes(Zeros(Arity(t)))
    ensures r.Some? ==> var n := Note(offset - old(section.lastNoteOffset), t, Zeros(Arity(t))[0 := v]);
                        Encodable(n) && section.Bytes() == old(section.Bytes()) + EncodeNote(n)
  {
    hide AllOperandBytes, HasOperand, WithOperand, OperandAt, Head, EncodeNote, Arity;
    ghost var was := section.Bytes();
    ghost var d := offset - section.lastNoteOffset;
    var index := section.NewSrcNote(t, offset);
    ghost var a := was + Head(d, t);
    OperandSetAtEnd(a, Zeros(Arity(t)), 0, if 0 <= v < OFFSET_LIMIT then v else 0);
    var ok := section.SetSrcNoteOffset(index, 0, v);
    if !ok {
      return None;
    }
    r := Some(index);
    EncodedNote(was, d, t, Zeros(Arity(t))[0 := v]);
  }

  /** js_NewSrcNote3 */
  method NewSrcNote3(section: Section, t: nat, offset: nat, v: int, w: int) returns (r: Option<nat>)
    requires section.Valid() && IsType(t) && 1 < Arity(t) && section.lastNoteOffset <= offset
    modifies section, section.notes
    ensures section.Valid() && section.notes != null
    ensures fresh(section.notes) || section.notes == old(section.notes)
    ensures section.lastNoteOffset == offset
    ensures r.Some? <==> 0 <= v < OFFSET_LIMIT && 0 <= w < OFFSET_LIMIT
    ensures r.Some? ==> r.value == old(section.noteCount) + |XDeltas(offset - old(section.lastNoteOffset))|
    ensures r == None ==> var vs := if 0 <= v < OFFSET_LIMIT then Zeros(Arity(t))[0 := v] else Zeros(Arity(t));
                          section.Bytes() == old(section.Bytes()) + Head(offset - old(section.lastNoteOffset), t)
                                             + AllOperandBytes(vs)
    ensures r.Some? ==> var n := Note(offset - old(section.lastNoteOffset), t, Zeros(Arity(t))[0 := v][1 := w]);
                        Encodable(n) && section.Bytes() == old(section.Bytes()) + EncodeNote(n)
  {
    hide AllOperandBytes, HasOperand, WithOperand, OperandAt, Head, EncodeNote, Arity;
    ghost var was := section.Bytes();
    ghost var d := offset - section.lastNoteOffset;
    var index := section.NewSrcNote(t, offset);
    ghost var a := was + Head(d, t);
    OperandSetAtEnd(a, Zeros(Arity(t)), 0, if 0 <= v < OFFSET_LIMIT then v else 0);
    var ok := section.SetSrcNoteOffset(index, 0, v);
    if !ok {
      return None;
    }
    OperandSetAtEnd(a, Zeros(Arity(t))[0 := v], 1, if 0 <= w < OFFSET_LIMIT then w else 0);
    ok := section.SetSrcNoteOffset(index, 1, w);
    if !ok {
      return None;
    }
    r := Some(index);
    EncodedNote(was, d, t, Zeros(Arity(t))[0 := v][1 := w]);
  }

  lemma EncodedNote(was: seq<Byte>, d: nat, t: nat, vs: seq<nat>)
    requires IsType(t) && 0 < t && |vs| == Arity(t) && forall i :: 0 <= i < |vs| ==> vs[i] < OFFSET_LIMIT
    ensures Encodable(Note(d, t, vs))
    ensures was + Head(d, t) + AllOperandBytes(vs) == was + EncodeNote(Note(d, t, vs))
  {
    hide AllOperandBytes, XDeltas;
    assert was + Head(d, t) + AllOperandBytes(vs) == was + (Head(d, t) + AllOperandBytes(vs));
  }

  // ----- Reading -----

  lemma OperandsStep(s: seq<Byte>, i: nat, k: nat)
    requires i <= |s| && 0 < k && Operands(s[i..], k).Some?
    ensures i < |s| && i + OperandSize(s, i) <= |s|
    ensures OperandAt(s, i, k) == OperandAt(s, i + OperandSize(s, i), k - 1)
    ensures var rest := Operands(s[i + OperandSize(s, i)..], k - 1);
            rest.Some? && Operands(s[i..], k).value == ([OperandValue(s, i)] + rest.value.0, rest.value.1)
  {
    assert s[i..][OperandSize(s, i)..] == s[i + OperandSize(s, i)..];
  }

  lemma {:induction false} OperandsEnd(s: seq<Byte>, i: nat, k: nat)
    requires i <= |s| && Operands(s[i..], k).Some?
    ensures OperandAt(s, i, k) <= |s| && Operands(s[i..], k).value.1 == s[OperandAt(s, i, k)..]
    decreases k
  {
    if k > 0 {
      hide Operands, OperandValue, OperandSize, OperandAt;
      OperandsStep(s, i, k);
      OperandsEnd(s, i + OperandSize(s, i), k - 1);
    }
  }

  /** What js_SrcNoteLength and js_GetSrcNoteOffset find is what the vector means. */
  lemma {:induction false} OperandsAt(s: seq<Byte>, i: nat, k: nat, w: nat)
    requires i <= |s| && Operands(s[i..], k).Some? && w <= k
    ensures OperandAt(s, i, k) <= |s| && Operands(s[i..], k).value.1 == s[OperandAt(s, i, k)..]
    ensures w < k ==> var p := OperandAt(s, i, w);
                      p < |s| && p + OperandSize(s, p) <= |s| && OperandValue(s, p) == Operands(s[i..], k).value.0[w]
    decreases k
  {
    hide Operands, OperandValue, OperandSize, OperandAt;
    OperandsEnd(s, i, k);
    if k > 0 {
      OperandsStep(s, i, k);
      OperandAtStep(s, i, w);
      if w > 0 {
        OperandsAt(s, i + OperandSize(s, i), k - 1, w - 1);
      }
    }
  }

  lemma OperandAtStep(s: seq<Byte>, i: nat, w: nat)
    requires i < |s|
    ensures OperandAt(s, i, w) == if w == 0 then i else OperandAt(s, i + OperandSize(s, i), w - 1)
  {
  }

  /** js_SrcNoteLength */
  method SrcNoteLength(notes: array<Byte>, index: nat) returns (n: nat)
    requires index < notes.Length && IsType(TypeOf(notes[index]))
    requires Operands(notes[index + 1..], Arity(TypeOf(notes[index]))).Some?
    ensures index + n == OperandAt(notes[..], index + 1, Arity(TypeOf(notes[index])))
  {
    hide Operands, BitAnd, TypeOf, Arity;
    ghost var s := notes[..];
    assert s[index + 1..] == notes[index + 1..];
    var sn, arity := index + 1, Arity(TypeOf(notes[index]));
    while arity > 0
      invariant 0 <= arity && index < sn <= |s| && Operands(s[sn..], arity).Some?
      invariant OperandAt(s, sn, arity) == OperandAt(s, index + 1, Arity(TypeOf(notes[index])))
    {
      OperandsStep(s, sn, arity);
      OperandBits(notes[sn]);
      if BitAnd(notes[sn], 0x80) != 0 {
        sn := sn + 2;
      }
      sn, arity := sn + 1, arity - 1;
    }
    n := sn - index;
  }

  method ReadOperands(notes: array<Byte>, index: nat) returns (vs: seq<nat>)
    requires index < notes.Length && IsType(TypeOf(notes[index]))
    requires Operands(notes[index + 1..], Arity(TypeOf(notes[index]))).Some?
    ensures vs == Operands(notes[index + 1..], Arity(TypeOf(notes[index]))).value.0
  {
    hide Operands, Arity, OperandAt, OperandValue;
    ghost var s := notes[..];
    assert s[index + 1..] == notes[index + 1..];
    var arity := Arity(TypeOf(notes[index]));
    ghost var all := Operands(notes[index + 1..], arity).value.0;
    vs := [];
    while |vs| < arity
      invariant |vs| <= arity && vs == all[..|vs|]
    {
      OperandsAt(s, index + 1, arity, |vs|);
      var v := GetSrcNoteOffset(notes, index, |vs|);
      vs := vs + [v];
    }
  }

  /** A walk with SN_NEXT, SN_TYPE and SN_DELTA up to the terminator. */
  method ReadNotes(notes: array<Byte>) returns (list: seq<Note>)
    requires Decode(notes[..], 0).Some?
    ensures Decode(notes[..], 0) == Some(list)
  {
    hide Decode, Operands, OperandAt, Arity;
    var i: nat, d: nat := 0, 0;
    list := [];
    assert notes[0..] == notes[..];
    ThenThen([], [], Decode(notes[..], 0));
    ByteRead(notes[..], 0, 0);
    while notes[i] != 0
      invariant i < notes.Length && Decode(notes[i..], d).Some?
      invariant Decode(notes[..], 0) == Then(list, Decode(notes[i..], d))
      decreases notes.Length - i
    {
      var b: Byte := notes[i];
      ByteRead(notes[..], i, d);
      if IsXDelta(b) {
        d, i := d + DeltaOf(b), i + 1;
      } else {
        ghost var next := NoteRead(notes[..], i, d);
        var n := SrcNoteLength(notes, i);
        var vs := ReadOperands(notes, i);
        var note := Note(d + DeltaOf(b), TypeOf(b), vs);
        ThenThen(list, [note], Decode(notes[i + n..], 0));
        list := list + [note];
        d, i := 0, i + n;
      }
      ByteRead(notes[..], i, d);
    }
    ByteRead(notes[..], i, d);
    assert list + [] == list;
  }

  lemma ByteRead(s: seq<Byte>, i: nat, d: nat)
    requires i <= |s| && Decode(s[i..], d).Some?
    ensures i < |s|
    ensures s[i] == 0 ==> Decode(s[i..], d) == Some([])
    ensures s[i] != 0 && IsXDelta(s[i]) ==> Decode(s[i..], d) == Decode(s[i + 1..], d + DeltaOf(s[i]))
  {
    assert i < |s| ==> s[i..][1..] == s[i + 1..];
  }

  lemma NoteRead(s: seq<Byte>, i: nat, d: nat) returns (next: nat)
    requires i < |s| && s[i] != 0 && !IsXDelta(s[i]) && Decode(s[i..], d).Some?
    ensures var t := TypeOf(s[i]);
            && IsType(t) && Operands(s[i + 1..], Arity(t)).Some?
            && next == OperandAt(s, i + 1, Arity(t)) && i < next < |s|
            && Decode(s[i..], d)
               == Then([Note(d + DeltaOf(s[i]), t, Operands(s[i + 1..], Arity(t)).value.0)], Decode(s[next..], 0))
  {
    assert s[i..][1..] == s[i + 1..];
    var t := TypeOf(s[i]);
    next := OperandAt(s, i + 1, Arity(t));
    OperandsAt(s, i + 1, Arity(t), 0);
    OperandAtGrows(s, i + 1, Arity(t));
  }

  // ----- Finishing -----

  /** The bytes js_FinishTakingSrcNotes leaves; line says that a line note is needed in between. */
  function Final(prolog: seq<Byte>, main: seq<Byte>, diff: nat, line: bool, firstLine: nat): seq<Byte>
    requires firstLine < OFFSET_LIMIT
  {
    (if line then prolog + EncodeNote(Note(diff, SRC_SETLINE, [firstLine])) + main
     else prolog + Bumped(main, diff)) + [0]
  }

  /** CG_COUNT_FINAL_SRCNOTES */
  function CountFinal(prolog: seq<Byte>, main: seq<Byte>, diff: nat, line: bool, firstLine: nat): int {
    var cnt := |prolog| + |main| + 1;
    if line then
      cnt + (if diff > 7 then HowMany(diff - 7, XDELTA_MASK) else 0) + 2 + (if firstLine > 0x7F then 2 else 0)
    else if diff > 0 then
      var d := if main != [] then diff - Room(main[0]) else diff;
      if d > 0 then cnt + HowMany(d, XDELTA_MASK) else cnt
    else cnt
  }

  /** The count is enough, and exact unless there are no main notes to move. */
  lemma CountIsEnough(prolog: seq<Byte>, main: seq<Byte>, diff: nat, line: bool, firstLine: nat)
    requires firstLine < OFFSET_LIMIT && (main == [] || main[0] != 0)
    ensures |Final(prolog, main, diff, line, firstLine)| <= CountFinal(prolog, main, diff, line, firstLine)
    ensures |Final(prolog, main, diff, line, firstLine)| == CountFinal(prolog, main, diff, line, firstLine)
            <==> line || main != [] || diff == 0
  {
    hide Bumped;
    if line {
      XDeltaCount(diff);
      assert AllOperandBytes([firstLine]) == OperandBytes(firstLine) + AllOperandBytes([firstLine][1..]);
    } else if main != [] {
      BumpedDecodes(main, diff, 0);
    } else {
      NothingToBump(diff);
    }
  }

  lemma BumpedByNothing(s: seq<Byte>)
    ensures Bumped(s, 0) == s
  {
  }

  lemma NothingToBump(diff: nat)
    ensures Bumped([], diff) == []
    ensures diff > 0 ==> HowMany(diff, XDELTA_MASK) > 0
  {
  }

  /**
   The joined vector means the prolog's notes, the line note if there is one, and the main notes
   behind the prolog.
   */
  lemma FinalMeans(p: seq<Note>, main: seq<Byte>, m: seq<Note>, diff: nat, line: bool, firstLine: nat)
    requires AllEncodable(p) && firstLine < OFFSET_LIMIT
    requires Decode(main + [0], 0) == Some(m) && (main == [] || main[0] != 0)
    ensures Decode(Final(Encode(p), main, diff, line, firstLine), 0)
            == Some(if line then p + [Note(diff, SRC_SETLINE, [firstLine])] + m else p + Later(m, diff))
  {
    hide Decode, Bumped, EncodeNote;
    if line {
      var n := Note(diff, SRC_SETLINE, [firstLine]);
      assert Encode(p) + EncodeNote(n) + main + [0] == Encode(p) + (EncodeNote(n) + (main + [0]));
      DecodeNote(n, main + [0]);
      RoundTrip(p, EncodeNote(n) + (main + [0]));
      assert p + ([n] + m) == p + [n] + m;
    } else {
      BumpedMeans(main, m, diff);
      assert Encode(p) + Bumped(main, diff) + [0] == Encode(p) + (Bumped(main, diff) + [0]);
      RoundTrip(p, Bumped(main, diff) + [0]);
    }
  }

  lemma BumpedMeans(main: seq<Byte>, m: seq<Note>, diff: nat)
    requires Decode(main + [0], 0) == Some(m) && (main == [] || main[0] != 0)
    ensures Decode(Bumped(main, diff) + [0], 0) == Some(Later(m, diff))
  {
    hide Bumped, Decode, Later;
    if main == [] {
      NoNotes(diff);
    } else {
      BumpedAppends(main, [0], diff);
      BumpedDecodes(main + [0], diff, 0);
      DecodeLater(main + [0], 0, diff);
    }
  }

  lemma NoNotes(diff: nat)
    ensures Decode([] + [0], 0) == Some([]) && Decode(Bumped([], diff) + [0], 0) == Some(Later([], diff))
  {
    assert [] + [0] == [0];
  }

  /** Starting later moves the first note. */
  lemma {:induction false} DecodeLater(s: seq<Byte>, c: nat, diff: nat)
    requires Decode(s, c).Some?
    ensures Decode(s, c + diff) == Some(Later(Decode(s, c).value, diff))
    decreases |s|
  {
    if s[0] != 0 && IsXDelta(s[0]) {
      DecodeLater(s[1..], c + DeltaOf(s[0]), diff);
    } else if s[0] != 0 {
      var notes := Decode(s, c).value;
      assert Later(notes, diff) == [notes[0].(delta := notes[0].delta + diff)] + notes[1..];
    }
  }

  lemma CountWithoutLine(prolog: seq<Byte>, main: seq<Byte>, diff: nat, firstLine: nat)
    ensures CountFinal(prolog, main, diff, false, firstLine) == CountFinal(prolog, main, diff, false, 0)
  {
  }

  /** The first round of the loop fills the delta of the first note. */
  lemma FirstBump(s: seq<Byte>, diff: nat)
    requires s != []
    ensures var d := if diff < Room(s[0]) then diff else Room(s[0]);
            var t := AddDelta(s, d);
            t != [] && (diff > d ==> Room(t[0]) == 0) && Prefixed(t, diff - d) == Bumped(s, diff)
  {
  }

  lemma NothingPrefixed(s: seq<Byte>)
    ensures Prefixed(s, 0) == s
  {
  }

  /** The others put extended deltas in front. */
  lemma NextBump(s: seq<Byte>, offset: nat)
    requires s != [] && Room(s[0]) == 0 && offset > 0
    ensures var d := if offset < XDELTA_MASK then offset else XDELTA_MASK;
            var t := AddDelta(s, d);
            t != [] && (offset > d ==> Room(t[0]) == 0) && Prefixed(t, offset - d) == Prefixed(s, offset)
  {
  }

  class CodeGenerator {
    const prolog: Section
    const main: Section
    /** The length of the prolog code, its last line, and the first line of the main code. */
    var prologOffset: nat
    var currentLine: nat
    var firstLine: nat

    ghost predicate Valid()
      reads this, prolog, main
    {
      && prolog != main && prolog.Valid() && main.Valid()
      && (prolog.notes == null || prolog.notes != main.notes)
      && prolog.lastNoteOffset <= prologOffset
    }

    constructor ()
      ensures Valid() && fresh(prolog) && fresh(main)
    {
      prolog := new Section();
      main := new Section();
      prologOffset, currentLine, firstLine := 0, 0, 0;
    }

    method CountFinalSrcNotes() returns (cnt: int)
      requires Valid()
      ensures cnt == CountFinal(prolog.Bytes(), main.Bytes(), prologOffset - prolog.lastNoteOffset,
                                prolog.noteCount > 0 && currentLine != firstLine, firstLine)
    {
      var diff: int := prologOffset - prolog.lastNoteOffset;
      cnt := prolog.noteCount + main.noteCount + 1;
      if prolog.noteCount != 0 && currentLine != firstLine {
        if diff > 7 {
          cnt := cnt + HowMany(diff - 7, XDELTA_MASK);
        }
        cnt := cnt + 2 + if firstLine > 0x7F then 2 else 0;
      } else if diff > 0 {
        if main.noteCount != 0 {
          diff := diff - Room(main.notes[0]);
        }
        if diff > 0 {
          cnt := cnt + HowMany(diff, XDELTA_MASK);
        }
      }
    }

    /** The loop over the delta of the first main note. */
    method BumpMain(diff: nat)
      requires Valid() && main.Bytes() != [] && diff > 0
      modifies main, main.notes
      ensures main.Valid() && main.notes != null && (fresh(main.notes) || main.notes == old(main.notes))
      ensures main.Bytes() == Bumped(old(main.Bytes()), diff)
    {
      hide Prefixed, Bumped, AddDelta;
      var offset: nat, delta: nat := diff, Room(main.notes[0]);
      if offset < delta {
        delta := offset;
      }
      ghost var was := main.Bytes();
      FirstBump(was, diff);
      var _ := main.AddToSrcNoteDelta(0, delta);
      offset := offset - delta;
      while offset != 0
        invariant main.Valid() && main.notes != null && (fresh(main.notes) || main.notes == old(main.notes))
        invariant main.Bytes() != [] && (offset == 0 || Room(main.Bytes()[0]) == 0)
        invariant Prefixed(main.Bytes(), offset) == Bumped(was, diff)
      {
        delta := if offset < XDELTA_MASK then offset else XDELTA_MASK;
        NextBump(main.Bytes(), offset);
        var _ := main.AddToSrcNoteDelta(0, delta);
        offset := offset - delta;
      }
      NothingPrefixed(main.Bytes());
    }

    method FinishWithLine(notes: array<Byte>) returns (ok: bool)
      requires Valid() && notes != prolog.notes && notes != main.notes
      requires firstLine < OFFSET_LIMIT ==>
                 var line := Note(prologOffset - prolog.lastNoteOffset, SRC_SETLINE, [firstLine]);
                 |prolog.Bytes() + EncodeNote(line) + main.Bytes()| < notes.Length
      modifies prolog, prolog.notes, notes
      ensures ok <==> firstLine < OFFSET_LIMIT
      ensures ok ==>
                var line := Note(old(prologOffset - prolog.lastNoteOffset), SRC_SETLINE, [firstLine]);
                old(prolog.Bytes()) + EncodeNote(line) + old(main.Bytes()) + [0] <= notes[..]
    {
      hide EncodeNote;
      ghost var M := main.Bytes();
      var r := NewSrcNote2(prolog, SRC_SETLINE, prologOffset, firstLine);
      if r == None {
        return false;
      }
      assert Zeros(1)[0 := firstLine] == [firstLine];
      assert main.Bytes() == M;
      Join(notes);
      ok := true;
    }

    method FinishWithout(notes: array<Byte>)
      requires Valid() && notes != prolog.notes && notes != main.notes
      requires |prolog.Bytes() + Bumped(main.Bytes(), prologOffset - prolog.lastNoteOffset)| < notes.Length
      modifies main, main.notes, notes
      ensures old(prolog.Bytes() + Bumped(main.Bytes(), prologOffset - prolog.lastNoteOffset)) + [0] <= notes[..]
    {
      hide Bumped;
      ghost var P := prolog.Bytes();
      BumpedByNothing(main.Bytes());
      if prologOffset - prolog.lastNoteOffset > 0 && main.noteCount != 0 {
        BumpMain(prologOffset - prolog.lastNoteOffset);
      } else if main.noteCount == 0 {
        NothingToBump(prologOffset - prolog.lastNoteOffset);
      }
      assert prolog.Bytes() == P;
      Join(notes);
    }

    /** js_FinishTakingSrcNotes */
    method FinishTakingSrcNotes(notes: array<Byte>) returns (ok: bool)
      requires Valid() && (main.Bytes() == [] || main.Bytes()[0] != 0)
      requires notes.Length >= CountFinal(prolog.Bytes(), main.Bytes(), prologOffset - prolog.lastNoteOffset,
                                          prolog.noteCount > 0 && currentLine != firstLine, firstLine)
      requires notes != prolog.notes && notes != main.notes
      modifies prolog, prolog.notes, main, main.notes, notes
      ensures ok <==> (old(prolog.noteCount > 0 && currentLine != firstLine) ==> firstLine < OFFSET_LIMIT)
      ensures ok ==>
                var line := if firstLine < OFFSET_LIMIT then firstLine else 0;
                Final(old(prolog.Bytes()), old(main.Bytes()), old(prologOffset - prolog.lastNoteOffset),
                      old(prolog.noteCount > 0 && currentLine != firstLine), line) <= notes[..]
    {
      hide Bumped, EncodeNote, CountFinal;
      if prolog.noteCount != 0 && currentLine != firstLine {
        if firstLine < OFFSET_LIMIT {
          CountIsEnough(prolog.Bytes(), main.Bytes(), prologOffset - prolog.lastNoteOffset, true, firstLine);
        }
        ok := FinishWithLine(notes);
      } else {
        ghost var diff := prologOffset - prolog.lastNoteOffset;
        CountIsEnough(prolog.Bytes(), main.Bytes(), diff, false, if firstLine < OFFSET_LIMIT then firstLine else 0);
        CountWithoutLine(prolog.Bytes(), main.Bytes(), diff, firstLine);
        FinishWithout(notes);
        ok := true;
      }
    }

    /** The two copies and the terminator. */
    method Join(notes: array<Byte>)
      requires prolog != main && prolog.Valid() && main.Valid() && notes != prolog.notes && notes != main.notes
      requires prolog.noteCount + main.noteCount < notes.Length
      modifies notes
      ensures prolog.Bytes() + main.Bytes() + [0] <= notes[..]
    {
      var p, m := prolog.noteCount, main.noteCount;
      forall i | 0 <= i < p {
        notes[i] := prolog.notes[i];
      }
      forall i | 0 <= i < m {
        notes[p + i] := main.notes[i];
      }
      notes[p + m] := 0;
      assert notes[..p + m + 1] == prolog.Bytes() + main.Bytes() + [0];
    }
  }
}
