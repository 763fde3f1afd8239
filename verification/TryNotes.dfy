/**
 Exception tables: the try notes the emitter takes (jsemit.c), and the searches for a handler that
 read them (jsscript.h, jsscript.c).  A table means what the nesting of the try statements says.
 */
module TryNotes {
  import opened Options
  import opened Words

  /**
   Offsets from the main entry point.  catches tells the code at catchStart: a catch block enters a
   block scope, a finally block does not.
   */
  datatype TryNote = TryNote(start: int, length: int, catchStart: int, catches: bool)

  // ----- Statements and their layout -----

  /**
   Statements as far as their layout matters.  The body of a try includes the jumps behind the
   block, catches all catch blocks and the rethrow code, handler the code of the finally block and
   the call of it.
   */
  datatype Stmt =
    | Code(n: nat)
    | Then(first: Stmt, second: Stmt)
    | Try(body: Stmt, catches: Option<Stmt>, handler: Option<Stmt>)

  function Length(s: Stmt): nat {
    match s
    case Code(n) => n
    case Then(a, b) => Length(a) + Length(b)
    case Try(b, c, f) => 1 + Length(b) + LengthOf(c) + LengthOf(f) + 1
  }

  function LengthOf(s: Option<Stmt>): nat {
    match s
    case None => 0
    case Some(t) => Length(t)
  }

  /** A try has a catch or a finally, and its body ends in a jump. */
  predicate Proper(s: Stmt) {
    match s
    case Code(_) => true
    case Then(a, b) => Proper(a) && Proper(b)
    case Try(b, c, f) =>
      && Proper(b) && 0 < Length(b) && (c.Some? || f.Some?)
      && (c.Some? ==> Proper(c.value)) && (f.Some? ==> Proper(f.value))
  }

  /**
   Where an exception thrown at off goes, for code laid out from at on: to the catch blocks of the
   innermost try whose block it is in, or to the finally of the innermost try whose block or catch
   blocks it is in.  With finallyOnly, as for a generator that is closed, catch blocks are passed by.
   */
  ghost function Handler(s: Stmt, at: int, off: int, finallyOnly: bool): Option<int> {
    match s
    case Code(_) => None
    case Then(a, b) =>
      if off < at + Length(a) then Handler(a, at, off, finallyOnly)
      else Handler(b, at + Length(a), off, finallyOnly)
    case Try(b, c, f) =>
      var start := at + 1;
      var end := start + Length(b);
      var finallyCatch := end + LengthOf(c);
      var outer := if f.Some? then Some(finallyCatch) else None;
      if start <= off < end then
        OrElse(Handler(b, start, off, finallyOnly), if c.Some? && !finallyOnly then Some(end) else outer)
      else if end <= off < finallyCatch then
        OrElse(if c.Some? then Handler(c.value, end, off, finallyOnly) else None, outer)
      else if f.Some? then Handler(f.value, finallyCatch, off, finallyOnly)
      else None
  }

  ghost function OrElse(a: Option<int>, b: Option<int>): Option<int> {
    if a.Some? then a else b
  }

  // ----- The table -----

  ghost function Notes(s: Stmt, at: int): seq<TryNote> {
    match s
    case Code(_) => []
    case Then(a, b) => Notes(a, at) + Notes(b, at + Length(a))
    case Try(b, c, f) =>
      var start := at + 1;
      var end := start + Length(b);
      var finallyCatch := end + LengthOf(c);
      Notes(b, start) + NotesOf(c, end) + NotesOf(f, finallyCatch)
      + Single(c.Some?, TryNote(start, end - start, end, true))
      + Single(f.Some?, TryNote(start, finallyCatch - start, finallyCatch, false))
  }

  ghost function Single(present: bool, n: TryNote): seq<TryNote> {
    if present then [n] else []
  }

  ghost function NotesOf(s: Option<Stmt>, at: int): seq<TryNote> {
    match s
    case None => []
    case Some(t) => Notes(t, at)
  }

  ghost predicate Covers(n: TryNote, off: int) {
    n.start <= off < n.start + n.length
  }

  /** The first note that covers off, among all notes or those of finally blocks. */
  ghost function First(notes: seq<TryNote>, off: int, finallyOnly: bool): Option<int> {
    if notes == [] then None
    else if Covers(notes[0], off) && !(finallyOnly && notes[0].catches) then Some(notes[0].catchStart)
    else First(notes[1..], off, finallyOnly)
  }

  lemma {:induction false} FirstAppends(a: seq<TryNote>, b: seq<TryNote>, off: int, finallyOnly: bool)
    ensures First(a + b, off, finallyOnly) == OrElse(First(a, off, finallyOnly), First(b, off, finallyOnly))
  {
    if a == [] {
      assert a + b == b;
    } else {
      FirstAppends(a[1..], b, off, finallyOnly);
      assert (a + b)[1..] == a[1..] + b;
    }
  }

  ghost predicate Inside(n: TryNote, from_: int, to: int) {
    from_ <= n.start && 0 < n.length && n.start + n.length <= to && 0 < n.catchStart - from_
  }

  ghost predicate AllInside(notes: seq<TryNote>, from_: int, to: int) {
    forall i :: 0 <= i < |notes| ==> Inside(notes[i], from_, to)
  }

  lemma InsideBoth(a: seq<TryNote>, b: seq<TryNote>, from_: int, mid: int, to: int)
    requires AllInside(a, from_, mid) && AllInside(b, mid, to) && from_ <= mid <= to
    ensures AllInside(a + b, from_, to)
  {
    forall i | 0 <= i < |a + b|
      ensures Inside((a + b)[i], from_, to)
    {
      if i < |a| {
        assert Inside(a[i], from_, mid);
      } else {
        assert Inside(b[i - |a|], mid, to);
      }
    }
  }

  lemma InsideWider(a: seq<TryNote>, from_: int, to: int, from': int, to': int)
    requires AllInside(a, from_, to) && from' <= from_ && to <= to'
    ensures AllInside(a, from', to')
  {
    forall i | 0 <= i < |a|
      ensures Inside(a[i], from', to')
    {
      assert Inside(a[i], from_, to);
    }
  }

  lemma {:induction false} NotesAreInside(s: Stmt, at: int)
    requires Proper(s)
    ensures AllInside(Notes(s, at), at, at + Length(s))
    decreases s, 1
  {
    match s
    case Code(_) =>
    case Then(a, b) =>
      NotesAreInside(a, at);
      NotesAreInside(b, at + Length(a));
      InsideBoth(Notes(a, at), Notes(b, at + Length(a)), at, at + Length(a), at + Length(s));
    case Try(b, c, f) =>
      TryNotesInside(b, c, f, at);
  }

  lemma NoneInside(from_: int, to: int)
    ensures AllInside([], from_, to)
  {
  }

  lemma TailInside(b: Stmt, c: Option<Stmt>, f: Option<Stmt>, at: int)
    requires 0 < Length(b)
    ensures var start := at + 1;
            var end := start + Length(b);
            var finallyCatch := end + LengthOf(c);
            var last := finallyCatch + LengthOf(f);
            && AllInside(Single(c.Some?, TryNote(start, end - start, end, true)), at, last + 1)
            && AllInside(Single(f.Some?, TryNote(start, finallyCatch - start, finallyCatch, false)), at, last + 1)
  {
    hide Length, LengthOf, Notes;
  }

  lemma TryNotesInside(b: Stmt, c: Option<Stmt>, f: Option<Stmt>, at: int)
    requires Proper(Try(b, c, f))
    ensures AllInside(Notes(Try(b, c, f), at), at, at + Length(Try(b, c, f)))
    decreases Try(b, c, f), 0
  {
    hide AllInside;
    TailInside(b, c, f, at);
    var start := at + 1;
    var end := start + Length(b);
    var finallyCatch := end + LengthOf(c);
    var last := finallyCatch + LengthOf(f);
    var inner := Notes(b, start) + NotesOf(c, end);
    var d := Single(c.Some?, TryNote(start, end - start, end, true));
    var e := Single(f.Some?, TryNote(start, finallyCatch - start, finallyCatch, false));
    assert AllInside(inner, start, finallyCatch) by {
      NotesAreInside(b, start);
      if c.Some? {
        NotesAreInside(c.value, end);
      } else {
        NoneInside(end, finallyCatch);
      }
      InsideBoth(Notes(b, start), NotesOf(c, end), start, end, finallyCatch);
    }
    assert AllInside(inner + NotesOf(f, finallyCatch), start, last) by {
      if f.Some? {
        NotesAreInside(f.value, finallyCatch);
      } else {
        NoneInside(finallyCatch, last);
      }
      InsideBoth(inner, NotesOf(f, finallyCatch), start, finallyCatch, last);
    }
    InsideWider(inner + NotesOf(f, finallyCatch), start, last, at, last + 1);
    InsideUnion(inner + NotesOf(f, finallyCatch), d, at, last + 1);
    InsideUnion(inner + NotesOf(f, finallyCatch) + d, e, at, last + 1);
  }

  lemma InsideUnion(a: seq<TryNote>, b: seq<TryNote>, from_: int, to: int)
    requires AllInside(a, from_, to) && AllInside(b, from_, to)
    ensures AllInside(a + b, from_, to)
  {
    forall i | 0 <= i < |a + b|
      ensures Inside((a + b)[i], from_, to)
    {
      if i < |a| {
        assert Inside(a[i], from_, to);
      } else {
        assert Inside(b[i - |a|], from_, to);
      }
    }
  }

  lemma {:induction false} OutsideIsNone(notes: seq<TryNote>, from_: int, to: int, off: int, finallyOnly: bool)
    requires AllInside(notes, from_, to) && !(from_ <= off < to)
    ensures First(notes, off, finallyOnly) == None
  {
    if notes != [] {
      assert Inside(notes[0], from_, to);
      OutsideIsNone(notes[1..], from_, to, off, finallyOnly);
    }
  }

  lemma NoNoteOf(s: Option<Stmt>, at: int, off: int, finallyOnly: bool)
    requires s.Some? ==> Proper(s.value)
    requires !(at <= off < at + LengthOf(s))
    ensures First(NotesOf(s, at), off, finallyOnly) == None
  {
    if s.Some? {
      NotesAreInside(s.value, at);
      OutsideIsNone(Notes(s.value, at), at, at + Length(s.value), off, finallyOnly);
    }
  }

  lemma FirstOfOne(n: TryNote, off: int, finallyOnly: bool)
    ensures First([n], off, finallyOnly)
            == if Covers(n, off) && !(finallyOnly && n.catches) then Some(n.catchStart) else None
    ensures First([], off, finallyOnly) == None
  {
  }

  /**
   The first note that covers an offset is the handler the nesting of the statements says, for
   every statement and every offset.
   */
  lemma {:induction false} TableMeansNesting(s: Stmt, at: int, off: int, finallyOnly: bool)
    requires Proper(s)
    ensures First(Notes(s, at), off, finallyOnly) == Handler(s, at, off, finallyOnly)
    decreases s, 1
  {
    match s
    case Code(_) =>
    case Then(a, b) =>
      TableMeansNesting(a, at, off, finallyOnly);
      TableMeansNesting(b, at + Length(a), off, finallyOnly);
      FirstAppends(Notes(a, at), Notes(b, at + Length(a)), off, finallyOnly);
      if off < at + Length(a) {
        NoNoteOf(Some(b), at + Length(a), off, finallyOnly);
      } else {
        NoNoteOf(Some(a), at, off, finallyOnly);
      }
    case Try(b, c, f) =>
      TryMeansNesting(b, c, f, at, off, finallyOnly);
  }

  lemma TryMeansNesting(b: Stmt, c: Option<Stmt>, f: Option<Stmt>, at: int, off: int, finallyOnly: bool)
    requires Proper(Try(b, c, f))
    ensures First(Notes(Try(b, c, f), at), off, finallyOnly) == Handler(Try(b, c, f), at, off, finallyOnly)
    decreases Try(b, c, f), 0
  {
    hide First;
    var start := at + 1;
    var end := start + Length(b);
    var finallyCatch := end + LengthOf(c);
    var d := Single(c.Some?, TryNote(start, end - start, end, true));
    var e := Single(f.Some?, TryNote(start, finallyCatch - start, finallyCatch, false));
    var nb, nc, nf := Notes(b, start), NotesOf(c, end), NotesOf(f, finallyCatch);
    FirstAppends(nb + nc + nf + d, e, off, finallyOnly);
    FirstAppends(nb + nc + nf, d, off, finallyOnly);
    FirstAppends(nb + nc, nf, off, finallyOnly);
    FirstAppends(nb, nc, off, finallyOnly);
    FirstOfOne(TryNote(start, end - start, end, true), off, finallyOnly);
    FirstOfOne(TryNote(start, finallyCatch - start, finallyCatch, false), off, finallyOnly);
    if start <= off < end {
      TableMeansNesting(b, start, off, finallyOnly);
    } else {
      NoNoteOf(Some(b), start, off, finallyOnly);
    }
    if end <= off < finallyCatch && c.Some? {
      TableMeansNesting(c.value, end, off, finallyOnly);
    } else {
      NoNoteOf(c, end, off, finallyOnly);
    }
    if !(start <= off < finallyCatch) && f.Some? {
      TableMeansNesting(f.value, finallyCatch, off, finallyOnly);
    } else {
      NoNoteOf(f, finallyCatch, off, finallyOnly);
    }
  }

  // ----- Innermost first -----

  ghost predicate Within(n: TryNote, m: TryNote) {
    m.start <= n.start && n.start + n.length <= m.start + m.length
  }

  ghost predicate ApartFrom(n: TryNote, m: TryNote) {
    n.start + n.length <= m.start || m.start + m.length <= n.start
  }

  /** Properly nested, inner before outer. */
  ghost predicate Nested(notes: seq<TryNote>) {
    forall i, j :: 0 <= i < j < |notes| ==> ApartFrom(notes[i], notes[j]) || Within(notes[i], notes[j])
  }

  /** In a nested table the note that is selected is the innermost of those that cover the offset. */
  lemma {:induction false} FirstIsInnermost(notes: seq<TryNote>, off: int) returns (k: nat)
    requires Nested(notes) && First(notes, off, false).Some?
    ensures k < |notes| && Covers(notes[k], off) && First(notes, off, false) == Some(notes[k].catchStart)
    ensures forall j :: 0 <= j < |notes| && Covers(notes[j], off) ==> Within(notes[k], notes[j])
  {
    if Covers(notes[0], off) {
      k := 0;
    } else {
      var rest := notes[1..];
      assert forall i :: 0 <= i < |rest| ==> rest[i] == notes[i + 1];
      var l := FirstIsInnermost(rest, off);
      k := l + 1;
      forall j | 0 <= j < |notes| && Covers(notes[j], off)
        ensures Within(notes[k], notes[j])
      {
        assert j > 0 && notes[j] == rest[j - 1];
      }
    }
  }

  lemma NestedBoth(a: seq<TryNote>, b: seq<TryNote>, from_: int, mid: int, to: int)
    requires Nested(a) && Nested(b) && AllInside(a, from_, mid) && AllInside(b, mid, to)
    ensures Nested(a + b)
  {
    var all := a + b;
    forall i, j | 0 <= i < j < |all|
      ensures ApartFrom(all[i], all[j]) || Within(all[i], all[j])
    {
      if i < |a| && j >= |a| {
        assert Inside(a[i], from_, mid) && Inside(b[j - |a|], mid, to);
      } else if i < |a| {
        assert all[i] == a[i] && all[j] == a[j];
      } else {
        assert all[i] == b[i - |a|] && all[j] == b[j - |a|];
      }
    }
  }

  /** n goes around the notes up to mid, and stays clear of those from mid on. */
  lemma NestedLast(a: seq<TryNote>, b: seq<TryNote>, n: TryNote, start: int, mid: int, to: int)
    requires Nested(a + b) && AllInside(a, start, mid) && AllInside(b, mid, to)
    requires n.start == start && n.start + n.length == mid
    ensures Nested(a + b + [n])
  {
    var all := a + b + [n];
    forall i, j | 0 <= i < j < |all|
      ensures ApartFrom(all[i], all[j]) || Within(all[i], all[j])
    {
      if j < |a + b| {
        assert all[i] == (a + b)[i] && all[j] == (a + b)[j];
      } else if i < |a| {
        assert Inside(a[i], start, mid);
      } else {
        assert Inside(b[i - |a|], mid, to);
      }
    }
  }

  /** The notes that are taken are nested, inner before outer. */
  lemma {:induction false} NotesAreNested(s: Stmt, at: int)
    requires Proper(s)
    ensures Nested(Notes(s, at))
    decreases s, 1
  {
    match s
    case Code(_) =>
    case Then(a, b) =>
      NotesAreNested(a, at);
      NotesAreNested(b, at + Length(a));
      NotesAreInside(a, at);
      NotesAreInside(b, at + Length(a));
      NestedBoth(Notes(a, at), Notes(b, at + Length(a)), at, at + Length(a), at + Length(s));
    case Try(b, c, f) =>
      TryIsNested(b, c, f, at);
  }

  lemma PartIsNested(s: Option<Stmt>, at: int)
    requires s.Some? ==> Proper(s.value)
    ensures Nested(NotesOf(s, at)) && AllInside(NotesOf(s, at), at, at + LengthOf(s))
    decreases s, 2
  {
    if s.Some? {
      NotesAreNested(s.value, at);
      NotesAreInside(s.value, at);
    }
  }

  lemma TryIsNested(b: Stmt, c: Option<Stmt>, f: Option<Stmt>, at: int)
    requires Proper(Try(b, c, f))
    ensures Nested(Notes(Try(b, c, f), at))
    decreases Try(b, c, f), 0
  {
    hide Nested, AllInside, Notes, NotesOf;
    var start := at + 1;
    var end := start + Length(b);
    var finallyCatch := end + LengthOf(c);
    var last := finallyCatch + LengthOf(f);
    var nb, nc, nf := Notes(b, start), NotesOf(c, end), NotesOf(f, finallyCatch);
    NotesAreNested(b, start);
    NotesAreInside(b, start);
    PartIsNested(c, end);
    PartIsNested(f, finallyCatch);
    NestedBoth(nb, nc, start, end, finallyCatch);
    InsideBoth(nb, nc, start, end, finallyCatch);
    NestedBoth(nb + nc, nf, start, finallyCatch, last);
    InsideBoth(nc, nf, end, finallyCatch, last);
    assert nb + nc + nf == nb + (nc + nf);
    WithHandlers(nb, nc, nf, c.Some?, f.Some?, start, end, finallyCatch, last);
    TryParts(b, c, f, at);
  }

  lemma WithHandlers(nb: seq<TryNote>, nc: seq<TryNote>, nf: seq<TryNote>, catches: bool, handler: bool,
                     start: int, end: int, finallyCatch: int, last: int)
    requires start < end <= finallyCatch <= last
    requires Nested(nb + (nc + nf)) && AllInside(nb, start, end) && AllInside(nc + nf, end, last)
    requires AllInside(nb + nc, start, finallyCatch) && AllInside(nf, finallyCatch, last)
    ensures Nested(nb + nc + nf + Single(catches, TryNote(start, end - start, end, true))
                   + Single(handler, TryNote(start, finallyCatch - start, finallyCatch, false)))
  {
    hide Nested;
    var d := Single(catches, TryNote(start, end - start, end, true));
    var n := TryNote(start, finallyCatch - start, finallyCatch, false);
    assert nb + nc + nf == nb + (nc + nf);
    if catches {
      NestedLast(nb, nc + nf, d[0], start, end, last);
      NestedAround(nb + nc, nf, d[0], n, start, finallyCatch, last);
    } else {
      assert nb + nc + nf + d == nb + nc + nf;
      NestedLast(nb + nc, nf, n, start, finallyCatch, last);
    }
    assert nb + nc + nf + d + [] == nb + nc + nf + d;
  }

  /** As NestedLast, with one more note inside n taken before it. */
  lemma NestedAround(a: seq<TryNote>, b: seq<TryNote>, x: TryNote, n: TryNote, start: int, mid: int, to: int)
    requires Nested(a + b + [x]) && AllInside(a, start, mid) && AllInside(b, mid, to) && Within(x, n)
    requires n.start == start && n.start + n.length == mid
    ensures Nested(a + b + [x] + [n])
  {
    var all := a + b + [x] + [n];
    forall i, j | 0 <= i < j < |all|
      ensures ApartFrom(all[i], all[j]) || Within(all[i], all[j])
    {
      if j < |a + b + [x]| {
        assert all[i] == (a + b + [x])[i] && all[j] == (a + b + [x])[j];
      } else if i < |a| {
        assert Inside(a[i], start, mid);
      } else if i < |a + b| {
        assert Inside(b[i - |a|], mid, to);
      }
    }
  }

  // ----- Taking the notes -----

  /** What the parser counts: one for each try, and one more for each finally. */
  function TryCount(s: Stmt): nat {
    match s
    case Code(_) => 0
    case Then(a, b) => TryCount(a) + TryCount(b)
    case Try(b, c, f) => TryCount(b) + TryCountOf(c) + TryCountOf(f) + 1 + (if f.Some? then 1 else 0)
  }

  function TryCountOf(s: Option<Stmt>): nat {
    match s
    case None => 0
    case Some(t) => TryCount(t)
  }

  ghost function WithoutCatch(s: Stmt): nat {
    match s
    case Code(_) => 0
    case Then(a, b) => WithoutCatch(a) + WithoutCatch(b)
    case Try(b, c, f) =>
      WithoutCatch(b) + (if c.Some? then WithoutCatch(c.value) else 1) + if f.Some? then WithoutCatch(f.value) else 0
  }

  /** Just one note is counted too many for each try without a catch. */
  lemma {:induction false} CountIsExact(s: Stmt, at: int)
    requires Proper(s)
    ensures |Notes(s, at)| + WithoutCatch(s) == TryCount(s)
  {
    hide Notes, TryCount, Length, LengthOf;
    SimpleParts(s, at);
    match s
    case Code(_) =>
    case Then(a, b) =>
      CountIsExact(a, at);
      CountIsExact(b, at + Length(a));
    case Try(b, c, f) =>
      TryParts(b, c, f, at);
      CountIsExact(b, at + 1);
      if c.Some? {
        CountIsExact(c.value, at + 1 + Length(b));
      }
      if f.Some? {
        CountIsExact(f.value, at + 1 + Length(b) + LengthOf(c));
      }
  }

  lemma Regroup(o: seq<TryNote>, a: seq<TryNote>, b: seq<TryNote>, c: seq<TryNote>)
    ensures o + a + b + c == o + (a + b + c)
  {
  }

  lemma SimpleParts(s: Stmt, at: int)
    ensures s.Code? ==> Notes(s, at) == [] && Length(s) == s.n && TryCount(s) == 0
    ensures s.Then? ==> Notes(s, at) == Notes(s.first, at) + Notes(s.second, at + Length(s.first))
                        && Length(s) == Length(s.first) + Length(s.second)
                        && TryCount(s) == TryCount(s.first) + TryCount(s.second)
  {
  }

  lemma TryParts(b: Stmt, c: Option<Stmt>, f: Option<Stmt>, at: int)
    ensures var start := at + 1;
            var end := start + Length(b);
            var finallyCatch := end + LengthOf(c);
            && Notes(Try(b, c, f), at)
               == Notes(b, start) + NotesOf(c, end) + NotesOf(f, finallyCatch)
                  + Single(c.Some?, TryNote(start, end - start, end, true))
                  + Single(f.Some?, TryNote(start, finallyCatch - start, finallyCatch, false))
            && at + Length(Try(b, c, f)) == finallyCatch + LengthOf(f) + 1
    ensures TryCount(Try(b, c, f)) == TryCount(b) + TryCountOf(c) + TryCountOf(f) + 1 + (if f.Some? then 1 else 0)
  {
  }

  class CodeGenerator {
    /** Room for as many notes as were counted, of which tryNext are taken. */
    var tryBase: array<TryNote>
    var tryNext: nat

    ghost predicate Valid()
      reads this
    {
      tryNext <= tryBase.Length
    }

    ghost function Taken(): seq<TryNote>
      requires Valid()
      reads this, tryBase
    {
      tryBase[..tryNext]
    }

    /** js_AllocTryNotes */
    constructor (tryCount: nat)
      ensures Valid() && tryNext == 0 && tryBase.Length == tryCount && fresh(tryBase)
    {
      tryBase := new TryNote[tryCount](_ => TryNote(0, 0, 0, false));
      tryNext := 0;
    }

    /** js_NewTryNote */
    method NewTryNote(start: int, end: int, catchStart: int, catches: bool)
      requires Valid() && tryNext < tryBase.Length
      modifies this`tryNext, tryBase
      ensures Valid() && tryNext == old(tryNext) + 1
      ensures Taken() == old(Taken()) + [TryNote(start, end - start, catchStart, catches)]
    {
      tryBase[tryNext] := TryNote(start, end - start, catchStart, catches);
      tryNext := tryNext + 1;
    }

    /** js_EmitTree: lay out s from at on and take its notes; those of a try come last. */
    method Emit(s: Stmt, at: int) returns (end: int)
      requires Valid() && tryNext + TryCount(s) <= tryBase.Length
      modifies this`tryNext, tryBase
      ensures Valid() && tryNext <= old(tryNext) + TryCount(s)
      ensures end == at + Length(s)
      ensures Taken() == old(Taken()) + Notes(s, at)
      decreases s, 2
    {
      SimpleParts(s, at);
      hide Notes, Length, TryCount;
      match s
      case Code(n) =>
        end := at + n;
      case Then(a, b) =>
        end := Emit(a, at);
        end := Emit(b, end);
      case Try(b, c, f) =>
        end := EmitTry(b, c, f, at);
    }

    method EmitTry(b: Stmt, c: Option<Stmt>, f: Option<Stmt>, at: int) returns (after: int)
      requires Valid() && tryNext + TryCount(Try(b, c, f)) <= tryBase.Length
      modifies this`tryNext, tryBase
      ensures Valid() && tryNext <= old(tryNext) + TryCount(Try(b, c, f))
      ensures after == at + Length(Try(b, c, f))
      ensures Taken() == old(Taken()) + Notes(Try(b, c, f), at)
      decreases Try(b, c, f), 1
    {
      ghost var was := Taken();
      hide Notes, NotesOf, Length, LengthOf, TryCount, TryCountOf, Single;
      TryParts(b, c, f, at);
      var start := at + 1;
      var end, finallyCatch;
      end, finallyCatch, after := EmitParts(b, c, f, start);
      after := after + 1;
      MaybeNewTryNote(c.Some?, start, end, end, true);
      MaybeNewTryNote(f.Some?, start, finallyCatch, finallyCatch, false);
      Regroup(was, Notes(b, start) + NotesOf(c, end) + NotesOf(f, finallyCatch),
              Single(c.Some?, TryNote(start, end - start, end, true)),
              Single(f.Some?, TryNote(start, finallyCatch - start, finallyCatch, false)));
    }

    method EmitParts(b: Stmt, c: Option<Stmt>, f: Option<Stmt>, start: int)
      returns (end: int, finallyCatch: int, after: int)
      requires Valid() && tryNext + TryCount(b) + TryCountOf(c) + TryCountOf(f) <= tryBase.Length
      modifies this`tryNext, tryBase
      ensures Valid() && tryNext <= old(tryNext) + TryCount(b) + TryCountOf(c) + TryCountOf(f)
      ensures end == start + Length(b) && finallyCatch == end + LengthOf(c) && after == finallyCatch + LengthOf(f)
      ensures Taken() == old(Taken()) + (Notes(b, start) + NotesOf(c, end) + NotesOf(f, finallyCatch))
      decreases Try(b, c, f), 0
    {
      hide Notes, NotesOf, Length, LengthOf, TryCount, TryCountOf;
      ghost var was := Taken();
      end := Emit(b, start);
      finallyCatch := EmitPart(c, end);
      after := EmitPart(f, finallyCatch);
      Regroup(was, Notes(b, start), NotesOf(c, end), NotesOf(f, finallyCatch));
    }

    method MaybeNewTryNote(present: bool, start: int, end: int, catchStart: int, catches: bool)
      requires Valid() && (present ==> tryNext < tryBase.Length)
      modifies this`tryNext, tryBase
      ensures Valid() && tryNext == old(tryNext) + if present then 1 else 0
      ensures Taken() == old(Taken()) + Single(present, TryNote(start, end - start, catchStart, catches))
    {
      if present {
        NewTryNote(start, end, catchStart, catches);
      }
    }

    method EmitPart(s: Option<Stmt>, at: int) returns (end: int)
      requires Valid() && tryNext + TryCountOf(s) <= tryBase.Length
      modifies this`tryNext, tryBase
      ensures Valid() && tryNext <= old(tryNext) + TryCountOf(s)
      ensures end == at + LengthOf(s)
      ensures Taken() == old(Taken()) + NotesOf(s, at)
      decreases s, 1
    {
      end := at;
      if s.Some? {
        end := Emit(s.value, at);
      }
    }

    /** js_FinishTakingTryNotes: the notes and a sentinel that covers all code. */
    method Finish(notes: array<TryNote>, length: int)
      requires Valid() && notes != tryBase && tryNext > 0 && notes.Length == tryNext + 1
      modifies notes
      ensures notes[..] == Taken() + [TryNote(0, length, 0, false)]
    {
      forall i | 0 <= i < tryNext {
        notes[i] := tryBase[i];
      }
      notes[tryNext] := TryNote(0, length, 0, false);
    }
  }

  // ----- Searching -----

  const HALF: int := 0x8000_0000

  /** The comparison as unsigned numbers is the test of both ends, for offsets that are not negative. */
  lemma CoversTest(n: TryNote, off: int)
    requires 0 <= off < HALF && 0 <= n.start < HALF && 0 <= n.length < HALF
    ensures Wrap(off - n.start) >= Wrap(n.length) <==> !Covers(n, off)
  {
    WrapOf(n.length, 0);
    if off < n.start {
      WrapOf(off - n.start, -1);
    } else {
      WrapOf(off - n.start, 0);
    }
  }

  ghost predicate Sane(n: TryNote) {
    0 <= n.start < HALF && 0 <= n.length < HALF
  }

  /** Real notes, with handlers behind the entry point, and a sentinel covering length bytes. */
  ghost predicate Table(notes: seq<TryNote>, length: int) {
    && notes != [] && (forall i :: 0 <= i < |notes| ==> Sane(notes[i]))
    && (forall i :: 0 <= i < |notes| - 1 ==> notes[i].catchStart > 0)
    && notes[|notes| - 1] == TryNote(0, length, 0, false)
  }

  /** SCRIPT_FIND_CATCH_START; off is negative in the prolog. */
  method FindCatchStart(notes: array?<TryNote>, off: int, ghost length: int) returns (r: Option<int>)
    requires notes != null ==> Table(notes[..], length)
    requires off < length
    ensures r == if notes == null || off < 0 then None else First(notes[..notes.Length - 1], off, false)
  {
    if notes == null || off < 0 {
      return None;
    }
    ghost var s := notes[..];
    ghost var proper := notes[..notes.Length - 1];
    var i := 0;
    assert proper[0..] == proper;
    while true
      invariant i < notes.Length && First(proper, off, false) == First(proper[i..], off, false)
      decreases notes.Length - i
    {
      assert s[i] == notes[i] && Sane(s[i]) && Sane(s[|s| - 1]);
      CoversTest(notes[i], off);
      if !(Wrap(off - notes[i].start) >= Wrap(notes[i].length)) {
        break;
      }
      assert i < |proper| ==> proper[i..][1..] == proper[i + 1..];
      i := i + 1;
    }
    r := if notes[i].catchStart != 0 then Some(notes[i].catchStart) else None;
  }

  /** js_FindFinallyHandler */
  method FindFinallyHandler(notes: array?<TryNote>, off: int, ghost length: int) returns (r: Option<int>)
    requires notes != null ==> Table(notes[..], length) && 1 < notes.Length
    requires off < HALF
    ensures r == if notes == null || off < 0 then None else First(notes[..notes.Length - 1], off, true)
  {
    if notes == null || off < 0 {
      return None;
    }
    ghost var s := notes[..];
    ghost var proper := notes[..notes.Length - 1];
    var i := 0;
    assert proper[0..] == proper;
    while notes[i].catchStart != 0
      invariant i < notes.Length && First(proper, off, true) == First(proper[i..], off, true)
      decreases notes.Length - i
    {
      assert s[i] == notes[i] && Sane(s[i]) && Sane(s[|s| - 1]);
      CoversTest(notes[i], off);
      if Wrap(off - notes[i].start) < Wrap(notes[i].length) && !notes[i].catches {
        return Some(notes[i].catchStart);
      }
      assert proper[i..][1..] == proper[i + 1..];
      i := i + 1;
    }
    assert s[i] == notes[i] && i == |proper|;
    r := None;
  }

  /**
   Emitting statements and searching the table for any offset in their code finds the handler their
   nesting says.
   */
  method EmitAndFind(s: Stmt, off: int, closing: bool) returns (r: Option<int>)
    requires Proper(s) && Length(s) < HALF && off < Length(s)
    ensures r == if off < 0 then None else Handler(s, 0, off, closing)
  {
    var cg := new CodeGenerator(TryCount(s));
    var end := cg.Emit(s, 0);
    NotesAreInside(s, 0);
    var table: array?<TryNote> := null;
    if cg.tryNext > 0 {
      var notes := new TryNote[cg.tryNext + 1](_ => TryNote(0, 0, 0, false));
      cg.Finish(notes, end);
      table := notes;
      assert notes[..cg.tryNext] == Notes(s, 0);
    }
    if closing {
      r := FindFinallyHandler(table, off, end);
    } else {
      r := FindCatchStart(table, off, end);
    }
    TableMeansNesting(s, 0, off, closing);
  }

}
