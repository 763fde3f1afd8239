/**
 Source notes by their names (jsemit.h, jsemit.c): how many operands the emitter gives each type of
 note, and that this is what is read back.
 */
module SrcNoteTypes {
  import opened Options
  import opened SrcNoteCode
  import opened SrcNotes

  /** The types the emitter takes with js_NewSrcNote alone. */
  predicate TakenBare(t: nat) {
    t in {SRC_IF, SRC_CONTINUE, SRC_ASSIGNOP, SRC_HIDDEN, SRC_ENDBRACE, SRC_NEWLINE}
  }

  /** Those it takes with one operand: with js_NewSrcNote2, or set when a loop or a condition is done. */
  predicate TakenWithOne(t: nat) {
    || t in {SRC_WHILE, SRC_DECL, SRC_PCDELTA, SRC_COND, SRC_BRACE, SRC_PCBASE, SRC_LABEL, SRC_LABELBRACE}
    || t in {SRC_BREAK2LABEL, SRC_CONT2LABEL, SRC_FUNCDEF, SRC_CATCH, SRC_SETLINE}
  }

  predicate TakenWithTwo(t: nat) {
    t in {SRC_IF_ELSE, SRC_SWITCH}
  }

  /** The operands are what the emitter gives a note of type t. */
  predicate Emitted(t: nat, vs: seq<nat>) {
    && (forall i :: 0 <= i < |vs| ==> vs[i] < OFFSET_LIMIT)
    && match |vs|
       case 0 => TakenBare(t)
       case 1 => TakenWithOne(t)
       case 2 => TakenWithTwo(t)
       case 3 => t == SRC_FOR
       case _ => false
  }

  /** Its byte, followed by those operands, is read back as just that note. */
  lemma EmittedDecodes(t: nat, d: nat, vs: seq<nat>, rest: seq<Byte>)
    requires Emitted(t, vs) && d < DELTA_LIMIT
    ensures Decode([t * 8 + d] + AllOperandBytes(vs) + rest, 0) == Then([Note(d, t, vs)], Decode(rest, 0))
  {
    hide Decode, AllOperandBytes, Then;
    DecodePlain(t, d, vs, rest, 0);
  }

  /** Every type but the reserved ones is taken with one number of operands. */
  lemma EveryTypeIsEmitted(t: nat)
    ensures 0 < t < SRC_XDELTA && t != SRC_EXTENDED <==> exists vs :: Emitted(t, vs)
    ensures forall vs, ws :: Emitted(t, vs) && Emitted(t, ws) ==> |vs| == |ws|
  {
    if TakenBare(t) {
      assert Emitted(t, []);
    } else if TakenWithOne(t) {
      assert Emitted(t, [0]);
    } else if TakenWithTwo(t) {
      assert Emitted(t, [0, 0]);
    } else if t == SRC_FOR {
      assert Emitted(t, [0, 0, 0]);
    }
  }

  /** The section has the notes, the last of which is at lastNoteOffset. */
  ghost predicate Holds(section: Section, notes: seq<Note>)
    reads section, section.notes
  {
    section.Valid() && AllEncodable(notes) && section.Bytes() == Encode(notes) && EndPc(notes) == section.lastNoteOffset
  }

  lemma HoldsMore(section: Section, notes: seq<Note>, n: Note, last: nat)
    requires section.Valid() && AllEncodable(notes) && Encodable(n) && section.Bytes() == Encode(notes) + EncodeNote(n)
    requires EndPc(notes) == last <= section.lastNoteOffset && n.delta == section.lastNoteOffset - last
    ensures Holds(section, notes + [n]) && Decode(section.Bytes() + [0], 0) == Some(notes + [n])
  {
    hide Decode, Encode, EncodeNote, EndPc;
    TakenNote(notes, n, last, section.lastNoteOffset);
    TerminatedRoundTrip(notes + [n]);
  }

  /** What a note taken at offset leaves: the notes and that one, which is what the vector then means. */
  ghost predicate Took(section: Section, notes: seq<Note>, n: Note)
    reads section, section.notes
  {
    Holds(section, notes + [n]) && Decode(section.Bytes() + [0], 0) == Some(notes + [n])
  }

  method TakeBare(section: Section, t: nat, offset: nat, ghost notes: seq<Note>)
    requires Holds(section, notes) && section.lastNoteOffset <= offset && TakenBare(t)
    modifies section, section.notes
    ensures Took(section, notes, Note(offset - old(section.lastNoteOffset), t, []))
  {
    hide Decode, Encode, EndPc;
    ghost var last := section.lastNoteOffset;
    var index := section.NewSrcNote(t, offset);
    EncodedNote(Encode(notes), offset - last, t, []);
    HoldsMore(section, notes, Note(offset - last, t, []), last);
  }

  method TakeWithOne(section: Section, t: nat, offset: nat, v: int, ghost notes: seq<Note>) returns (ok: bool)
    requires Holds(section, notes) && section.lastNoteOffset <= offset && TakenWithOne(t)
    modifies section, section.notes
    ensures ok <==> 0 <= v < OFFSET_LIMIT
    ensures ok ==> Took(section, notes, Note(offset - old(section.lastNoteOffset), t, [v]))
  {
    hide Decode, Encode, EndPc, EncodeNote;
    ghost var last := section.lastNoteOffset;
    var r := NewSrcNote2(section, t, offset, v);
    ok := r.Some?;
    if ok {
      assert Zeros(1)[0 := v] == [v];
      HoldsMore(section, notes, Note(offset - last, t, [v]), last);
    }
  }

  method TakeWithTwo(section: Section, t: nat, offset: nat, v: int, w: int, ghost notes: seq<Note>) returns (ok: bool)
    requires Holds(section, notes) && section.lastNoteOffset <= offset && TakenWithTwo(t)
    modifies section, section.notes
    ensures ok <==> 0 <= v < OFFSET_LIMIT && 0 <= w < OFFSET_LIMIT
    ensures ok ==> Took(section, notes, Note(offset - old(section.lastNoteOffset), t, [v, w]))
  {
    hide Decode, Encode, EndPc, EncodeNote;
    ghost var last := section.lastNoteOffset;
    var r := NewSrcNote3(section, t, offset, v, w);
    ok := r.Some?;
    if ok {
      assert Zeros(2)[0 := v][1 := w] == [v, w];
      HoldsMore(section, notes, Note(offset - last, t, [v, w]), last);
    }
  }

  /** Sets an operand of the last note, which was zero. */
  method SetOperand(section: Section, index: nat, which: nat, v: int, ghost a: seq<Byte>, ghost vs: seq<nat>)
    returns (ok: bool)
    requires section.Valid() && section.notes != null && |a| == index + 1 && which < |vs| && vs[which] == 0
    requires (forall i :: 0 <= i < |vs| ==> vs[i] < OFFSET_LIMIT) && section.Bytes() == a + AllOperandBytes(vs)
    modifies section, section.notes
    ensures section.Valid() && section.notes != null && (fresh(section.notes) || section.notes == old(section.notes))
    ensures section.lastNoteOffset == old(section.lastNoteOffset)
    ensures ok <==> 0 <= v < OFFSET_LIMIT
    ensures ok ==> section.Bytes() == a + AllOperandBytes(vs[which := v])
  {
    hide AllOperandBytes, HasOperand, WithOperand, OperandAt;
    OperandSetAtEnd(a, vs, which, if 0 <= v < OFFSET_LIMIT then v else 0);
    ok := section.SetSrcNoteOffset(index, which, v);
  }

  /** The for loop: the note is taken first, and its operands are set one by one. */
  method TakeFor(section: Section, offset: nat, cond: int, update: int, tail: int, ghost notes: seq<Note>)
    returns (ok: bool)
    requires Holds(section, notes) && section.lastNoteOffset <= offset
    modifies section, section.notes
    ensures ok <==> 0 <= cond < OFFSET_LIMIT && 0 <= update < OFFSET_LIMIT && 0 <= tail < OFFSET_LIMIT
    ensures ok ==> Took(section, notes, Note(offset - old(section.lastNoteOffset), SRC_FOR, [cond, update, tail]))
  {
    hide Decode, Encode, EndPc, EncodeNote, AllOperandBytes, Head;
    ghost var last, d := section.lastNoteOffset, offset - section.lastNoteOffset;
    var index := section.NewSrcNote(SRC_FOR, offset);
    ghost var a := Encode(notes) + Head(d, SRC_FOR);
    assert Zeros(3) == [0, 0, 0];
    ok := SetOperand(section, index, 0, cond, a, [0, 0, 0]);
    if ok {
      assert [0, 0, 0][0 := cond] == [cond, 0, 0];
      ok := SetOperand(section, index, 1, update, a, [cond, 0, 0]);
    }
    if ok {
      assert [cond, 0, 0][1 := update] == [cond, update, 0];
      ok := SetOperand(section, index, 2, tail, a, [cond, update, 0]);
    }
    if ok {
      assert [cond, update, 0][2 := tail] == [cond, update, tail];
      EncodedNote(Encode(notes), d, SRC_FOR, [cond, update, tail]);
      HoldsMore(section, notes, Note(d, SRC_FOR, [cond, update, tail]), last);
    }
  }
}
