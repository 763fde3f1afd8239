/**
 The byte encoding of source notes (jsemit.h, jsemit.c) as a language: what a vector of bytes
 means, and which bytes a list of notes is given.  A note is one byte of type and low delta bits,
 after as many extended-delta bytes as the delta needs and before its operands of one or three
 bytes each.
 */
module SrcNoteCode {
  import opened Options
  import opened Words

  type Byte = b: nat | b < 0x100

  // JSSrcNoteType, without the names that stand for the same number
  const SRC_IF: nat := 1
  const SRC_IF_ELSE: nat := 2
  const SRC_WHILE: nat := 3
  const SRC_FOR: nat := 4
  const SRC_CONTINUE: nat := 5
  const SRC_DECL: nat := 6
  const SRC_PCDELTA: nat := 7
  const SRC_ASSIGNOP: nat := 8
  const SRC_COND: nat := 9
  const SRC_BRACE: nat := 10
  const SRC_HIDDEN: nat := 11
  const SRC_PCBASE: nat := 12
  const SRC_LABEL: nat := 13
  const SRC_LABELBRACE: nat := 14
  const SRC_ENDBRACE: nat := 15
  const SRC_BREAK2LABEL: nat := 16
  const SRC_CONT2LABEL: nat := 17
  const SRC_SWITCH: nat := 18
  const SRC_FUNCDEF: nat := 19
  const SRC_CATCH: nat := 20
  const SRC_EXTENDED := 21
  const SRC_NEWLINE: nat := 22
  const SRC_SETLINE: nat := 23
  const SRC_XDELTA := 24
  const DELTA_LIMIT := 8
  const XDELTA_MASK := 63
  /** The least operand that three bytes cannot hold. */
  const OFFSET_LIMIT := 0x80_0000

  /** The types of notes as asked for; operand slots are made of type zero. */
  predicate IsType(t: nat) {
    t < SRC_XDELTA && t != SRC_EXTENDED
  }

  /** js_SrcNoteSpec[t].arity */
  function Arity(t: nat): (r: nat)
    ensures r > 0 ==> t > 0
  {
    if t == SRC_IF_ELSE || t == SRC_SWITCH then 2
    else if t == SRC_FOR then 3
    else if t == SRC_WHILE || t == SRC_DECL || t == SRC_PCDELTA || t == SRC_COND || t == SRC_BRACE then 1
    else if t == SRC_PCBASE || t == SRC_LABEL || t == SRC_LABELBRACE || t == SRC_BREAK2LABEL then 1
    else if t == SRC_CONT2LABEL || t == SRC_FUNCDEF || t == SRC_CATCH || t == SRC_SETLINE then 1
    else 0
  }

  // ----- Bytes -----

  function MakeNote(t: nat, d: nat): Byte
    requires IsType(t) && d < DELTA_LIMIT
  {
    t * 8 + d
  }

  function MakeXDelta(d: nat): Byte
    requires d <= XDELTA_MASK
  {
    0xC0 + d
  }

  predicate IsXDelta(b: Byte) {
    0xC0 <= b
  }

  function TypeOf(b: Byte): nat {
    if IsXDelta(b) then SRC_XDELTA else b / 8
  }

  function DeltaOf(b: Byte): nat {
    if IsXDelta(b) then b % 64 else b % 8
  }

  /** The delta a note can still take. */
  function Room(b: Byte): nat {
    if IsXDelta(b) then XDELTA_MASK - b % 64 else 7 - b % 8
  }

  /** Adding to a byte adds to its delta, and leaves its type alone, exactly as long as there is room. */
  lemma RoomIsExact(b: Byte, d: nat)
    ensures d <= Room(b) <==>
              && b + d < 0x100 && IsXDelta(b + d) == IsXDelta(b) && TypeOf(b + d) == TypeOf(b)
              && DeltaOf(b + d) == DeltaOf(b) + d
  {
    if !IsXDelta(b) && b + d < 0x100 && (b + d) / 8 == b / 8 {
      assert b + d == b / 8 * 8 + (b + d) % 8;
    }
  }

  /** The shifts and masks of the note macros are these sums, quotients and remainders. */
  lemma NoteBits(b: Byte)
    ensures Shr(b, 3) == b / 8 && BitAnd(b, 7) == b % 8 && BitAnd(b, 0x3F) == b % 64
    ensures IsXDelta(b) <==> Shr(b, 3) >= SRC_XDELTA
  {
    hide BitAnd;
    Pow2Values();
    assert Pow2(6) == 64;
    AndLowMask(b, 3);
    AndLowMask(b, 6);
  }

  lemma OperandBits(b: Byte)
    ensures BitAnd(b, 0x7F) == b % 0x80 && (BitAnd(b, 0x80) != 0 <==> 0x80 <= b)
  {
    hide BitAnd;
    Pow2Values();
    assert Pow2(7) == 0x80;
    AndLowMask(b, 7);
    AndHighMask(b, 7, 1);
  }

  /** The three bytes of a wide operand are read by shifts and disjunctions. */
  lemma WideBits(hi: Byte, mid: Byte, lo: Byte)
    ensures BitOr(BitOr(Shl(BitAnd(hi, 0x7F), 16), Shl(mid, 8)), lo) == hi % 0x80 * 0x1_0000 + mid * 0x100 + lo
  {
    hide BitOr, BitAnd;
    OperandBits(hi);
    Pow2Values();
    assert Pow2(16) == 0x1_0000 && Pow2(8) == 0x100;
    var h: nat, m: nat := hi % 0x80 * 0x1_0000, mid * 0x100;
    OrDisjoint(h, m, 16);
    OrDisjoint(h + m, lo, 8);
  }

  lemma MadeBits(t: nat, d: nat, e: nat)
    requires IsType(t) && d < DELTA_LIMIT && e <= XDELTA_MASK
    ensures BitOr(Shl(t, 3), d) == MakeNote(t, d) && BitOr(Shl(SRC_XDELTA, 3), e) == MakeXDelta(e)
    ensures TypeOf(MakeNote(t, d)) == t && DeltaOf(MakeNote(t, d)) == d
    ensures TypeOf(MakeXDelta(e)) == SRC_XDELTA && DeltaOf(MakeXDelta(e)) == e
  {
    hide BitOr;
    Pow2Values();
    assert Pow2(6) == 64;
    assert Shl(t, 3) == t * 8 && Shl(SRC_XDELTA, 3) == 0xC0;
    OrDisjoint(t * 8, d, 3);
    OrDisjoint(0xC0, e, 6);
  }

  // ----- Meaning -----

  /** A note with its whole delta from the previous one. */
  datatype Note = Note(delta: nat, kind: nat, operands: seq<nat>)

  predicate WideAt(s: seq<Byte>) {
    s != [] && 0x80 <= s[0]
  }

  function ThreeBytes(s: seq<Byte>): nat
    requires |s| >= 3
  {
    var hi: int, mid: int, lo: int := s[0], s[1], s[2];
    hi % 0x80 * 0x1_0000 + mid * 0x100 + lo
  }

  /** k operands and what follows them. */
  function Operands(s: seq<Byte>, k: nat): (r: Option<(seq<nat>, seq<Byte>)>)
    ensures r.Some? ==> |r.value.0| == k && |r.value.1| + k <= |s|
    decreases k
  {
    if k == 0 then Some(([], s))
    else if s == [] || (WideAt(s) && |s| < 3) then None
    else
      var (v, rest) := if WideAt(s) then (ThreeBytes(s), s[3..]) else (s[0], s[1..]);
      match Operands(rest, k - 1)
      case None => None
      case Some((vs, end)) => Some(([v] + vs, end))
  }

  /**
   The notes of a vector that starts delta d after the last note; None if it is cut short or has a
   note of a type that is never made.
   */
  function Decode(s: seq<Byte>, d: nat): Option<seq<Note>>
    decreases |s|
  {
    if s == [] then None
    else if s[0] == 0 then Some([])
    else if IsXDelta(s[0]) then Decode(s[1..], d + DeltaOf(s[0]))
    else if !IsType(TypeOf(s[0])) then None
    else
      match Operands(s[1..], Arity(TypeOf(s[0])))
      case None => None
      case Some((vs, rest)) =>
        match Decode(rest, 0)
        case None => None
        case Some(notes) => Some([Note(d + DeltaOf(s[0]), TypeOf(s[0]), vs)] + notes)
  }

  // ----- Encoding -----

  predicate Encodable(n: Note) {
    && 0 < n.kind && IsType(n.kind) && |n.operands| == Arity(n.kind)
    && forall i :: 0 <= i < |n.operands| ==> n.operands[i] < OFFSET_LIMIT
  }

  predicate AllEncodable(notes: seq<Note>) {
    forall i :: 0 <= i < |notes| ==> Encodable(notes[i])
  }

  function OperandBytes(v: nat): seq<Byte>
    requires v < OFFSET_LIMIT
  {
    if v <= 0x7F then [v] else [0x80 + v / 0x1_0000, v / 0x100 % 0x100, v % 0x100]
  }

  function AllOperandBytes(vs: seq<nat>): seq<Byte>
    requires forall i :: 0 <= i < |vs| ==> vs[i] < OFFSET_LIMIT
  {
    if vs == [] then [] else OperandBytes(vs[0]) + AllOperandBytes(vs[1..])
  }

  /** The extended deltas before a note of delta d, as much as possible in each. */
  function XDeltas(d: nat): seq<Byte> {
    if d < DELTA_LIMIT then []
    else if d <= XDELTA_MASK then [MakeXDelta(d)]
    else [MakeXDelta(XDELTA_MASK)] + XDeltas(d - XDELTA_MASK)
  }

  /** What is left for the note itself. */
  function LastDelta(d: nat): (r: nat)
    ensures r < DELTA_LIMIT && r <= d
  {
    if d < DELTA_LIMIT then d else if d <= XDELTA_MASK then 0 else LastDelta(d - XDELTA_MASK)
  }

  function EncodeNote(n: Note): seq<Byte>
    requires Encodable(n)
  {
    XDeltas(n.delta) + [MakeNote(n.kind, LastDelta(n.delta))] + AllOperandBytes(n.operands)
  }

  function Encode(notes: seq<Note>): seq<Byte>
    requires AllEncodable(notes)
  {
    if notes == [] then [] else EncodeNote(notes[0]) + Encode(notes[1..])
  }

  // ----- Round trip -----

  lemma OneOperand(v: nat, s: seq<Byte>, k: nat)
    requires v < OFFSET_LIMIT && k > 0
    ensures Operands(OperandBytes(v) + s, k) ==
            match Operands(s, k - 1)
            case None => None
            case Some((vs, end)) => Some(([v] + vs, end))
  {
    var t := OperandBytes(v) + s;
    if v <= 0x7F {
      assert t[1..] == s;
    } else {
      assert t[0] == 0x80 + v / 0x1_0000 && t[1] == v / 0x100 % 0x100 && t[2] == v % 0x100;
      assert v == v / 0x1_0000 * 0x1_0000 + v / 0x100 % 0x100 * 0x100 + v % 0x100;
      assert t[3..] == s;
    }
  }

  lemma {:induction false} OperandsRoundTrip(vs: seq<nat>, s: seq<Byte>)
    requires forall i :: 0 <= i < |vs| ==> vs[i] < OFFSET_LIMIT
    ensures Operands(AllOperandBytes(vs) + s, |vs|) == Some((vs, s))
  {
    hide OperandBytes;
    if vs == [] {
      assert AllOperandBytes(vs) + s == s;
    } else {
      OperandsRoundTrip(vs[1..], s);
      OneOperand(vs[0], AllOperandBytes(vs[1..]) + s, |vs|);
      assert OperandBytes(vs[0]) + (AllOperandBytes(vs[1..]) + s) == AllOperandBytes(vs) + s;
      assert [vs[0]] + vs[1..] == vs;
    }
  }

  lemma DecodeXDelta(d: nat, s: seq<Byte>, c: nat)
    requires d <= XDELTA_MASK
    ensures Decode([MakeXDelta(d)] + s, c) == Decode(s, c + d)
  {
    assert ([MakeXDelta(d)] + s)[1..] == s;
  }

  lemma {:induction false} DecodeXDeltas(d: nat, s: seq<Byte>, c: nat)
    ensures Decode(XDeltas(d) + s, c) == Decode(s, c + d - LastDelta(d))
  {
    hide Decode;
    if d < DELTA_LIMIT {
      assert XDeltas(d) + s == s;
    } else if d <= XDELTA_MASK {
      DecodeXDelta(d, s, c);
    } else {
      var rest := XDeltas(d - XDELTA_MASK) + s;
      DecodeXDelta(XDELTA_MASK, rest, c);
      DecodeXDeltas(d - XDELTA_MASK, s, c + XDELTA_MASK);
      assert [MakeXDelta(XDELTA_MASK)] + rest == XDeltas(d) + s;
    }
  }

  function Then(notes: seq<Note>, more: Option<seq<Note>>): Option<seq<Note>> {
    match more
    case None => None
    case Some(rest) => Some(notes + rest)
  }

  /** A byte of a note with its operands, when the rest of the vector decodes to notes. */
  lemma DecodePlain(t: nat, d: nat, vs: seq<nat>, s: seq<Byte>, c: nat)
    requires 0 < t && d < DELTA_LIMIT && Encodable(Note(d, t, vs))
    ensures Decode([MakeNote(t, d)] + AllOperandBytes(vs) + s, c) == Then([Note(c + d, t, vs)], Decode(s, 0))
  {
    hide Operands, AllOperandBytes;
    var bytes := [MakeNote(t, d)] + AllOperandBytes(vs) + s;
    assert MakeNote(t, d) / 8 == t && MakeNote(t, d) % 8 == d;
    OperandsRoundTrip(vs, s);
    assert bytes[1..] == AllOperandBytes(vs) + s;
  }

  lemma DecodeNote(n: Note, s: seq<Byte>)
    requires Encodable(n)
    ensures Decode(EncodeNote(n) + s, 0) == Then([n], Decode(s, 0))
  {
    hide Decode;
    var d := LastDelta(n.delta);
    var plain := [MakeNote(n.kind, d)] + AllOperandBytes(n.operands) + s;
    assert EncodeNote(n) + s == XDeltas(n.delta) + plain;
    DecodeXDeltas(n.delta, plain, 0);
    DecodePlain(n.kind, d, n.operands, s, n.delta - d);
  }

  lemma ThenThen(a: seq<Note>, b: seq<Note>, more: Option<seq<Note>>)
    ensures Then(a, Then(b, more)) == Then(a + b, more) && Then([], more) == more
  {
    if more.Some? {
      assert a + (b + more.value) == a + b + more.value && [] + more.value == more.value;
    }
  }

  /** Decoding what was encoded gives the notes back, before whatever follows them. */
  lemma {:induction false} RoundTrip(notes: seq<Note>, s: seq<Byte>)
    requires AllEncodable(notes)
    ensures Decode(Encode(notes) + s, 0) == Then(notes, Decode(s, 0))
  {
    hide Decode, Then, EncodeNote;
    if notes == [] {
      assert Encode(notes) + s == s;
      ThenThen([], [], Decode(s, 0));
    } else {
      var first, rest := notes[0], notes[1..];
      RoundTrip(rest, s);
      var more := Encode(rest) + s;
      DecodeNote(first, more);
      assert Encode(notes) + s == EncodeNote(first) + more;
      ThenThen([first], rest, Decode(s, 0));
      assert [first] + rest == notes;
    }
  }

  lemma TerminatedRoundTrip(notes: seq<Note>)
    requires AllEncodable(notes)
    ensures Decode(Encode(notes) + [0], 0) == Some(notes)
  {
    RoundTrip(notes, [0]);
    assert notes + [] == notes;
  }

  /** JS_HOWMANY(x, y) */
  function HowMany(x: int, y: int): int
    requires y > 0
  {
    (x + y - 1) / y
  }

  lemma {:induction false} XDeltaCount(d: nat)
    ensures |XDeltas(d)| == if d <= 7 then 0 else HowMany(d - 7, XDELTA_MASK)
  {
    if d > XDELTA_MASK {
      XDeltaCount(d - XDELTA_MASK);
    }
  }

  /** Fewer extended deltas could not carry the delta. */
  lemma XDeltasAreFewest(d: nat, ds: seq<nat>, last: nat)
    requires forall i :: 0 <= i < |ds| ==> ds[i] <= XDELTA_MASK
    requires last < DELTA_LIMIT && Sum(ds) + last == d
    ensures |XDeltas(d)| <= |ds|
  {
    XDeltaCount(d);
    SumBound(ds);
  }

  function Sum(ds: seq<nat>): nat {
    if ds == [] then 0 else ds[0] + Sum(ds[1..])
  }

  lemma {:induction false} SumBound(ds: seq<nat>)
    requires forall i :: 0 <= i < |ds| ==> ds[i] <= XDELTA_MASK
    ensures Sum(ds) <= XDELTA_MASK * |ds|
  {
    if ds != [] {
      SumBound(ds[1..]);
    }
  }
}
