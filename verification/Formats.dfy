/**
 The two format interpreters of the API (jsapi.c): JS_ConvertArguments reads arguments into C
 variables, JS_PushArguments pushes C values, both steered by the same format language.  A format
 letter that is not built in goes to the formatter table.
 */
module Formats {
  import opened Options
  import opened Formatters
  import opened Words

  /** isspace in the C locale. */
  predicate IsSpace(c: char) {
    c == ' ' || '\t' <= c <= '\r'
  }

  predicate IsBuiltin(c: char) {
    || c == 'b' || c == 'c' || c == 'i' || c == 'u' || c == 'j' || c == 'd' || c == 'I'
    || c == 's' || c == 'S' || c == 'W' || c == 'o' || c == 'f' || c == 'v'
  }

  predicate IsCustom(c: char) {
    !IsBuiltin(c) && c != '*'
  }

  /**
   What the interpreters cannot see: whether the conversion of the built-in letter at a position
   succeeds, and by how many slots a formatter called at a position moves on, None if it fails.
   */
  datatype Env = Env(succeeds: nat -> bool, moves: (nat, Formatter) -> Option<nat>)

  /** The specifier at position pos of the format is given the argument slot. */
  datatype Mark = Mark(pos: nat, slot: nat)

  /** sp is the slot after the last one. */
  datatype Outcome = Outcome(ok: bool, marks: seq<Mark>, sp: nat)

  ghost function After(m: Mark, o: Outcome): Outcome {
    o.(marks := [m] + o.marks)
  }

  lemma {:induction false} DispatchAdvances(entries: seq<Entry>, s: string)
    ensures Dispatch(entries, s).Some? ==>
              Dispatch(entries, s).value in entries && Dispatch(entries, s).value.format <= s
  {
    if entries != [] && !(entries[0].format <= s) {
      DispatchAdvances(entries[1..], s);
    }
  }

  /** An iteration that consumes nothing: the empty format is registered and nothing else matches. */
  lemma EmptyFormatIsStuck(entries: seq<Entry>, s: string)
    requires Ordered(entries)
    ensures Dispatch(entries, s).Some? && Dispatch(entries, s).value.format == ""
            <==> "" in AsMap(entries) && forall f :: f in AsMap(entries) && f <= s ==> f == ""
  {
    DispatchIsLongestPrefix(entries, s);
  }

  /**
   What an interpreter does at a position: skip it, make the rest optional, take n characters and
   move on by d slots, do so without taking any, or fail.
   */
  datatype Step = Skip | Optional | Take(n: nat, d: nat) | Stay(d: nat) | Fail

  /** The step at each position of a format; no step goes beyond the end. */
  ghost predicate Program(steps: seq<Step>) {
    forall i :: 0 <= i < |steps| && steps[i].Take? ==> 0 < steps[i].n <= |steps| - i
  }

  ghost function CustomStep(entries: seq<Entry>, format: string, i: nat, env: Env): (r: Step)
    requires i < |format|
    ensures r.Fail? || r.Stay? || (r.Take? && 0 < r.n <= |format| - i)
  {
    DispatchAdvances(entries, format[i..]);
    match Dispatch(entries, format[i..])
    case None => Fail
    case Some(e) =>
      match env.moves(i, e.formatter)
      case None => Fail
      case Some(d) => if e.format == "" then Stay(d) else Take(|e.format|, d)
  }

  ghost function ConvertStep(entries: seq<Entry>, format: string, i: nat, env: Env): (r: Step)
    requires i < |format|
    ensures r.Take? ==> 0 < r.n <= |format| - i
    ensures r == Skip <==> IsSpace(format[i])
    ensures r == Optional <==> format[i] == '/'
  {
    if IsSpace(format[i]) then Skip
    else if format[i] == '/' then Optional
    else if IsBuiltin(format[i]) then if env.succeeds(i) then Take(1, 1) else Fail
    else if format[i] == '*' then Take(1, 1)
    else CustomStep(entries, format, i, env)
  }

  /** Here a '*' has no slot, and a '/' is a letter like any other. */
  ghost function PushStep(entries: seq<Entry>, format: string, i: nat, env: Env): (r: Step)
    requires i < |format|
    ensures r.Take? ==> 0 < r.n <= |format| - i
    ensures r != Optional
  {
    if IsSpace(format[i]) || format[i] == '*' then Skip
    else if IsBuiltin(format[i]) then if env.succeeds(i) then Take(1, 1) else Fail
    else CustomStep(entries, format, i, env)
  }

  /** Blank, tab, newline, vertical tab, form feed and return, and nothing else, are passed over. */
  lemma SpacesAreSkipped(entries: seq<Entry>, format: string, i: nat, env: Env)
    requires i < |format|
    ensures ConvertStep(entries, format, i, env) == Skip
            <==> format[i] in {' ', '\t', '\n', '\U{000B}', '\U{000C}', '\r'}
    ensures PushStep(entries, format, i, env) == Skip
            <==> format[i] in {' ', '\t', '\n', '\U{000B}', '\U{000C}', '\r', '*'}
  {
    Blanks(format[i]);
  }

  lemma Blanks(c: char)
    ensures IsSpace(c) <==> c in {' ', '\t', '\n', '\U{000B}', '\U{000C}', '\r'}
  {
    if '\t' <= c <= '\r' {
      assert c as int == 9 || c as int == 10 || c as int == 11 || c as int == 12 || c as int == 13;
    }
  }

  /** The letters of the built-in specifiers are never looked up. */
  lemma BuiltinsTakeOne(entries: seq<Entry>, format: string, i: nat, env: Env)
    requires i < |format| && format[i] in "bcijudIsSWofv"
    ensures ConvertStep(entries, format, i, env) == if env.succeeds(i) then Take(1, 1) else Fail
    ensures PushStep(entries, format, i, env) == ConvertStep(entries, format, i, env)
  {
    assert "bcijudIsSWofv" == ['b', 'c', 'i', 'j', 'u', 'd', 'I', 's', 'S', 'W', 'o', 'f', 'v'];
  }

  ghost function ConvertProgram(entries: seq<Entry>, format: string, env: Env): (r: seq<Step>)
    ensures |r| == |format| && Program(r)
    ensures forall i :: 0 <= i < |r| ==> r[i] == ConvertStep(entries, format, i, env)
  {
    seq(|format|, i requires 0 <= i < |format| => ConvertStep(entries, format, i, env))
  }

  ghost function PushProgram(entries: seq<Entry>, format: string, env: Env): (r: seq<Step>)
    ensures |r| == |format| && Program(r)
    ensures forall i :: 0 <= i < |r| ==> r[i] == PushStep(entries, format, i, env)
  {
    seq(|format|, i requires 0 <= i < |format| => PushStep(entries, format, i, env))
  }

  // ----- JS_ConvertArguments -----

  /** The loop ends: where the empty format is matched, its formatter gets to argc exactly. */
  ghost predicate ConvertEnds(steps: seq<Step>, i: nat, sp: nat, argc: nat)
    requires Program(steps) && i <= |steps|
    decreases |steps| - i, argc - sp
  {
    i == |steps| ||
    match steps[i]
    case Skip => ConvertEnds(steps, i + 1, sp, argc)
    case Optional => ConvertEnds(steps, i + 1, sp, argc)
    case Fail => true
    case Take(n, d) => sp == argc || ConvertEnds(steps, i + n, sp + d, argc)
    case Stay(d) => sp == argc || (0 < d && sp < argc && ConvertEnds(steps, i, sp + d, argc))
  }

  ghost function Convert(steps: seq<Step>, i: nat, sp: nat, argc: nat, required: bool): Outcome
    requires Program(steps) && i <= |steps| && ConvertEnds(steps, i, sp, argc)
    decreases |steps| - i, argc - sp
  {
    if i == |steps| then Outcome(true, [], sp)
    else match steps[i]
      case Skip => Convert(steps, i + 1, sp, argc, required)
      case Optional => Convert(steps, i + 1, sp, argc, false)
      case Fail => Outcome(sp == argc && !required, [], sp)
      case Take(n, d) =>
        if sp == argc then Outcome(!required, [], sp)
        else After(Mark(i, sp), Convert(steps, i + n, sp + d, argc, required))
      case Stay(d) =>
        if sp == argc then Outcome(!required, [], sp)
        else After(Mark(i, sp), Convert(steps, i, sp + d, argc, required))
  }

  /** Where the loop is after one more turn, None when it has been left. */
  ghost function ConvertTurn(steps: seq<Step>, at: Mark, argc: nat): (r: Option<Mark>)
    requires Program(steps) && at.pos <= |steps|
    ensures r.Some? ==> r.value.pos <= |steps|
  {
    if at.pos == |steps| then None
    else match steps[at.pos]
      case Skip => Some(Mark(at.pos + 1, at.slot))
      case Optional => Some(Mark(at.pos + 1, at.slot))
      case Fail => None
      case Take(n, d) => if at.slot == argc then None else Some(Mark(at.pos + n, at.slot + d))
      case Stay(d) => if at.slot == argc then None else Some(Mark(at.pos, at.slot + d))
  }

  ghost predicate LeftWithin(steps: seq<Step>, at: Mark, argc: nat, turns: nat)
    requires Program(steps) && at.pos <= |steps|
    decreases turns
  {
    turns > 0 &&
    match ConvertTurn(steps, at, argc)
    case None => true
    case Some(next) => LeftWithin(steps, next, argc, turns - 1)
  }

  ghost predicate IsLeft(steps: seq<Step>, at: Mark, argc: nat)
    requires Program(steps) && at.pos <= |steps|
  {
    exists turns: nat :: LeftWithin(steps, at, argc, turns)
  }

  /** Otherwise the loop is never left. */
  lemma ConvertEndsExactly(steps: seq<Step>, i: nat, sp: nat, argc: nat)
    requires Program(steps) && i <= |steps|
    ensures ConvertEnds(steps, i, sp, argc) <==> IsLeft(steps, Mark(i, sp), argc)
  {
    if ConvertEnds(steps, i, sp, argc) {
      var turns := TurnsNeeded(steps, i, sp, argc);
      assert LeftWithin(steps, Mark(i, sp), argc, turns);
    }
    if turns: nat :| LeftWithin(steps, Mark(i, sp), argc, turns) {
      LeftEnds(steps, i, sp, argc, turns);
    }
  }

  lemma {:induction false} TurnsNeeded(steps: seq<Step>, i: nat, sp: nat, argc: nat) returns (turns: nat)
    requires Program(steps) && i <= |steps| && ConvertEnds(steps, i, sp, argc)
    ensures LeftWithin(steps, Mark(i, sp), argc, turns)
    decreases |steps| - i, argc - sp
  {
    match ConvertTurn(steps, Mark(i, sp), argc)
    case None => turns := 1;
    case Some(next) =>
      turns := TurnsNeeded(steps, next.pos, next.slot, argc);
      turns := turns + 1;
  }

  lemma {:induction false} LeftEnds(steps: seq<Step>, i: nat, sp: nat, argc: nat, turns: nat)
    requires Program(steps) && i <= |steps| && LeftWithin(steps, Mark(i, sp), argc, turns)
    ensures ConvertEnds(steps, i, sp, argc)
    decreases turns
  {
    match ConvertTurn(steps, Mark(i, sp), argc)
    case None =>
    case Some(next) => LeftEnds(steps, next.pos, next.slot, argc, turns - 1);
  }

  /** An empty format that is matched from sp on: the loop ends exactly if argc is whole steps away. */
  lemma {:induction false} StayEnds(steps: seq<Step>, i: nat, sp: nat, argc: nat)
    requires Program(steps) && i < |steps| && steps[i].Stay?
    ensures ConvertEnds(steps, i, sp, argc)
            <==> sp == argc || (0 < steps[i].d && sp < argc && (argc - sp) % steps[i].d == 0)
    decreases argc - sp
  {
    var d := steps[i].d;
    if 0 < d && sp < argc {
      StayEnds(steps, i, sp + d, argc);
      if sp + d <= argc {
        ModDown(argc - sp, d);
      } else {
        assert (argc - sp) % d == argc - sp;
      }
    }
  }

  /**
   One that moves on by two slots is called for ever when there is an odd number of arguments; sp
   has no bound here.
   */
  lemma OddIsNeverLeft(f: Formatter, argc: nat, env: Env)
    requires env.moves(0, f) == Some(2) && argc % 2 == 1
    ensures Ordered([Entry("", f)])
    ensures !IsLeft(ConvertProgram([Entry("", f)], "x", env), Mark(0, 0), argc)
  {
    var entries := [Entry("", f)];
    var steps := ConvertProgram(entries, "x", env);
    assert Dispatch(entries, "x"[0..]) == Some(entries[0]);
    assert steps[0] == ConvertStep(entries, "x", 0, env) == Stay(2);
    StayEnds(steps, 0, 0, argc);
    ConvertEndsExactly(steps, 0, 0, argc);
  }

  lemma ModDown(n: nat, d: nat)
    requires 0 < d <= n
    ensures n % d == (n - d) % d
  {
    DivUnique(n, d, (n - d) / d + 1, (n - d) % d);
  }

  /** The same with the marks made so far carried along, as the loop does. */
  ghost function ConvertLoop(steps: seq<Step>, i: nat, sp: nat, argc: nat, required: bool, marks: seq<Mark>): Outcome
    requires Program(steps) && i <= |steps| && ConvertEnds(steps, i, sp, argc)
    decreases |steps| - i, argc - sp
  {
    if i == |steps| then Outcome(true, marks, sp)
    else match steps[i]
      case Skip => ConvertLoop(steps, i + 1, sp, argc, required, marks)
      case Optional => ConvertLoop(steps, i + 1, sp, argc, false, marks)
      case Fail => Outcome(sp == argc && !required, marks, sp)
      case Take(n, d) =>
        if sp == argc then Outcome(!required, marks, sp)
        else ConvertLoop(steps, i + n, sp + d, argc, required, marks + [Mark(i, sp)])
      case Stay(d) =>
        if sp == argc then Outcome(!required, marks, sp)
        else ConvertLoop(steps, i, sp + d, argc, required, marks + [Mark(i, sp)])
  }

  lemma {:induction false} LoopConverts(steps: seq<Step>, i: nat, sp: nat, argc: nat, required: bool, marks: seq<Mark>)
    requires Program(steps) && i <= |steps| && ConvertEnds(steps, i, sp, argc)
    ensures var rest := Convert(steps, i, sp, argc, required);
            ConvertLoop(steps, i, sp, argc, required, marks) == Outcome(rest.ok, marks + rest.marks, rest.sp)
    decreases |steps| - i, argc - sp
  {
    assert marks + [] == marks;
    if i < |steps| {
      match steps[i]
      case Skip => LoopConverts(steps, i + 1, sp, argc, required, marks);
      case Optional => LoopConverts(steps, i + 1, sp, argc, false, marks);
      case Fail =>
      case Take(n, d) =>
        if sp != argc {
          LoopConverts(steps, i + n, sp + d, argc, required, marks + [Mark(i, sp)]);
          var rest := Convert(steps, i + n, sp + d, argc, required).marks;
          assert marks + ([Mark(i, sp)] + rest) == marks + [Mark(i, sp)] + rest;
        }
      case Stay(d) =>
        if sp != argc {
          LoopConverts(steps, i, sp + d, argc, required, marks + [Mark(i, sp)]);
          var rest := Convert(steps, i, sp + d, argc, required).marks;
          assert marks + ([Mark(i, sp)] + rest) == marks + [Mark(i, sp)] + rest;
        }
    }
  }

  /** The formatter's turn: the characters it takes and the slots it moves on by. */
  method CustomOne(cx: Context, format: string, i: nat, env: Env) returns (r: Step)
    requires cx.Valid() && i < |format|
    ensures r == CustomStep(cx.entries, format, i, env)
  {
    var e := cx.TryArgumentFormatter(format[i..]);
    if e == None {
      return Fail;
    }
    var d := env.moves(i, e.value.formatter);
    if d == None {
      return Fail;
    }
    r := if e.value.format == "" then Stay(d.value) else Take(|e.value.format|, d.value);
  }

  /** The switch over the specifier at position i. */
  method ConvertOne(cx: Context, format: string, i: nat, env: Env) returns (r: Step)
    requires cx.Valid() && i < |format| && !IsSpace(format[i]) && format[i] != '/'
    ensures r == ConvertStep(cx.entries, format, i, env)
  {
    if IsBuiltin(format[i]) {
      r := if env.succeeds(i) then Take(1, 1) else Fail;
    } else if format[i] == '*' {
      r := Take(1, 1);
    } else {
      r := CustomOne(cx, format, i, env);
    }
  }

  ghost predicate Lexed(format: string, steps: seq<Step>) {
    && |steps| == |format|
    && forall i :: 0 <= i < |steps| ==>
         (steps[i] == Skip <==> IsSpace(format[i])) && (steps[i] == Optional <==> format[i] == '/')
  }

  method ConvertFrom(cx: Context, format: string, argc: nat, env: Env, ghost steps: seq<Step>) returns (o: Outcome)
    requires cx.Valid() && Program(steps) && Lexed(format, steps) && ConvertEnds(steps, 0, 0, argc)
    requires forall i {:trigger ConvertStep(cx.entries, format, i, env)} ::
               0 <= i < |steps| ==> ConvertStep(cx.entries, format, i, env) == steps[i]
    ensures o == ConvertLoop(steps, 0, 0, argc, true, [])
  {
    var i: nat, sp: nat, required, marks := 0, 0, true, [];
    while i < |format|
      invariant i <= |format| && ConvertEnds(steps, i, sp, argc)
      invariant ConvertLoop(steps, i, sp, argc, required, marks) == ConvertLoop(steps, 0, 0, argc, true, [])
      decreases |format| - i, argc - sp
    {
      if IsSpace(format[i]) {
        i := i + 1;
        continue;
      }
      if format[i] == '/' {
        required, i := false, i + 1;
        continue;
      }
      if sp == argc {
        return Outcome(!required, marks, sp);
      }
      var r := ConvertOne(cx, format, i, env);
      if r.Fail? {
        return Outcome(false, marks, sp);
      }
      assert steps[i] == r;
      var next := marks + [Mark(i, sp)];
      marks, sp, i := next, sp + r.d, if r.Take? then i + r.n else i;
    }
    o := Outcome(true, marks, sp);
  }

  /** The loop must end; otherwise there is nothing to say about its result. */
  method ConvertArguments(cx: Context, format: string, argc: nat, env: Env) returns (o: Outcome)
    requires cx.Valid() && ConvertEnds(ConvertProgram(cx.entries, format, env), 0, 0, argc)
    ensures o == Convert(ConvertProgram(cx.entries, format, env), 0, 0, argc, true)
  {
    ghost var steps := ConvertProgram(cx.entries, format, env);
    LoopConverts(steps, 0, 0, argc, true, []);
    o := ConvertFrom(cx, format, argc, env, steps);
  }

  /** Only built-in letters, '*', '/' and spaces. */
  ghost predicate AllBuiltin(format: string) {
    forall i :: 0 <= i < |format| ==> IsSpace(format[i]) || format[i] == '/' || !IsCustom(format[i])
  }

  /** The positions of the specifiers from position i on. */
  ghost function Specs(format: string, i: nat): (r: seq<nat>)
    requires i <= |format|
    ensures forall k :: 0 <= k < |r| ==> i <= r[k] < |format| && !IsSpace(format[r[k]]) && format[r[k]] != '/'
    ensures forall p :: i <= p < |format| && !IsSpace(format[p]) && format[p] != '/' ==> p in r
    ensures forall j, k :: 0 <= j < k < |r| ==> r[j] < r[k]
    decreases |format| - i
  {
    if i == |format| then []
    else if IsSpace(format[i]) || format[i] == '/' then Specs(format, i + 1)
    else [i] + Specs(format, i + 1)
  }

  /** How many specifiers come before the first '/'. */
  ghost function RequiredFrom(format: string, i: nat): nat
    requires i <= |format|
    decreases |format| - i
  {
    if i == |format| || format[i] == '/' then 0
    else (if IsSpace(format[i]) then 0 else 1) + RequiredFrom(format, i + 1)
  }

  ghost function Numbered(specs: seq<nat>, sp: nat): seq<Mark> {
    if specs == [] then [] else [Mark(specs[0], sp)] + Numbered(specs[1..], sp + 1)
  }

  lemma {:induction false} NumberedAt(specs: seq<nat>, sp: nat, k: nat)
    requires k < |specs|
    ensures |Numbered(specs, sp)| == |specs| && Numbered(specs, sp)[k] == Mark(specs[k], sp + k)
  {
    if |specs| > 1 {
      NumberedAt(specs[1..], sp + 1, if k == 0 then 0 else k - 1);
    }
  }

  ghost function Min(a: int, b: int): int {
    if a < b then a else b
  }

  /** The specifier at p can be converted; a star takes any argument. */
  ghost predicate Convertible(format: string, p: nat, env: Env) {
    p < |format| && (format[p] == '*' || env.succeeds(p))
  }

  /** How many specifiers come before the first that cannot be converted. */
  ghost function Leading(format: string, specs: seq<nat>, env: Env): (r: nat)
    ensures r <= |specs| && forall k :: 0 <= k < r ==> Convertible(format, specs[k], env)
    ensures r < |specs| ==> !Convertible(format, specs[r], env)
  {
    if specs == [] || !Convertible(format, specs[0], env) then 0 else 1 + Leading(format, specs[1..], env)
  }

  /** The steps of a built-in format. */
  ghost predicate Plain(format: string, steps: seq<Step>, env: Env) {
    && |steps| == |format|
    && forall i :: 0 <= i < |format| ==>
         steps[i] == if IsSpace(format[i]) then Skip else if format[i] == '/' then Optional
                     else if Convertible(format, i, env) then Take(1, 1) else Fail
  }

  lemma {:induction false} PlainEnds(format: string, steps: seq<Step>, env: Env, i: nat, sp: nat, argc: nat)
    requires Plain(format, steps, env) && Program(steps) && i <= |steps|
    ensures ConvertEnds(steps, i, sp, argc)
    decreases |steps| - i
  {
    if i < |steps| {
      PlainEnds(format, steps, env, i + 1, if steps[i].Take? then sp + 1 else sp, argc);
    }
  }

  /** The specifiers from position i on for which there are arguments. */
  ghost function Supplied(format: string, i: nat, sp: nat, argc: nat): seq<nat>
    requires i <= |format| && sp <= argc
  {
    Specs(format, i)[..Min(argc - sp, |Specs(format, i)|)]
  }

  lemma SuppliedSame(format: string, i: nat, sp: nat, argc: nat)
    requires i < |format| && sp <= argc && (IsSpace(format[i]) || format[i] == '/')
    ensures Supplied(format, i, sp, argc) == Supplied(format, i + 1, sp, argc)
  {
  }

  lemma NoneSupplied(format: string, i: nat, sp: nat, argc: nat)
    requires i <= |format| && sp <= argc && (i == |format| || sp == argc)
    ensures Supplied(format, i, sp, argc) == []
  {
  }

  lemma SuppliedNext(format: string, i: nat, sp: nat, argc: nat, env: Env)
    requires i < |format| && sp < argc && !IsSpace(format[i]) && format[i] != '/'
    ensures var all, rest := Supplied(format, i, sp, argc), Supplied(format, i + 1, sp + 1, argc);
            && |all| == 1 + |rest| && all[0] == i && all[1..] == rest
            && Leading(format, all, env) == if Convertible(format, i, env) then 1 + Leading(format, rest, env) else 0
  {
    hide Supplied, Specs;
    SuppliedSplits(format, i, sp, argc);
    assert ([i] + Supplied(format, i + 1, sp + 1, argc))[1..] == Supplied(format, i + 1, sp + 1, argc);
  }

  lemma SuppliedSplits(format: string, i: nat, sp: nat, argc: nat)
    requires i < |format| && sp < argc && !IsSpace(format[i]) && format[i] != '/'
    ensures Supplied(format, i, sp, argc) == [i] + Supplied(format, i + 1, sp + 1, argc)
  {
    hide Specs;
    SpecsNext(format, i);
    var n := Min(argc - sp, |Specs(format, i)|);
    assert ([i] + Specs(format, i + 1))[..n] == [i] + Specs(format, i + 1)[..n - 1];
  }

  lemma SpecsNext(format: string, i: nat)
    requires i < |format| && !IsSpace(format[i]) && format[i] != '/'
    ensures Specs(format, i) == [i] + Specs(format, i + 1)
  {
  }

  lemma {:induction false} BuiltinCounts(format: string, steps: seq<Step>, env: Env, i: nat, sp: nat, argc: nat,
                                         required: bool)
    requires Plain(format, steps, env) && Program(steps) && i <= |steps| && sp <= argc
    requires ConvertEnds(steps, i, sp, argc)
    ensures var o, args := Convert(steps, i, sp, argc, required), Supplied(format, i, sp, argc);
            && (o.ok <==> (!required || sp + RequiredFrom(format, i) <= argc) && Leading(format, args, env) == |args|)
            && o.sp == sp + Leading(format, args, env)
    decreases |steps| - i
  {
    hide Leading, Supplied, Specs;
    if i == |steps| || (sp == argc && !steps[i].Skip? && !steps[i].Optional?) {
      NoneSupplied(format, i, sp, argc);
      NoneLeading(format, Supplied(format, i, sp, argc), env);
    } else if IsSpace(format[i]) {
      SuppliedSame(format, i, sp, argc);
      BuiltinCounts(format, steps, env, i + 1, sp, argc, required);
    } else if format[i] == '/' {
      SuppliedSame(format, i, sp, argc);
      BuiltinCounts(format, steps, env, i + 1, sp, argc, false);
    } else {
      SuppliedNext(format, i, sp, argc, env);
      if Convertible(format, i, env) {
        BuiltinCounts(format, steps, env, i + 1, sp + 1, argc, required);
      }
    }
  }

  lemma NoneLeading(format: string, specs: seq<nat>, env: Env)
    requires specs == []
    ensures Leading(format, specs, env) == 0
  {
  }

  lemma {:induction false} BuiltinMarks(format: string, steps: seq<Step>, env: Env, i: nat, sp: nat, argc: nat,
                                        required: bool)
    requires Plain(format, steps, env) && Program(steps) && i <= |steps| && sp <= argc
    requires ConvertEnds(steps, i, sp, argc)
    ensures var args := Supplied(format, i, sp, argc);
            Convert(steps, i, sp, argc, required).marks == Numbered(args[..Leading(format, args, env)], sp)
    decreases |steps| - i
  {
    hide Numbered, Leading, Supplied, Specs;
    var args := Supplied(format, i, sp, argc);
    if i == |steps| || (sp == argc && !steps[i].Skip? && !steps[i].Optional?) {
      NoneSupplied(format, i, sp, argc);
      NumberedNone(args[..Leading(format, args, env)], sp);
    } else if IsSpace(format[i]) {
      SuppliedSame(format, i, sp, argc);
      BuiltinMarks(format, steps, env, i + 1, sp, argc, required);
    } else if format[i] == '/' {
      SuppliedSame(format, i, sp, argc);
      BuiltinMarks(format, steps, env, i + 1, sp, argc, false);
    } else {
      SuppliedNext(format, i, sp, argc, env);
      if Convertible(format, i, env) {
        var rest := Supplied(format, i + 1, sp + 1, argc);
        BuiltinMarks(format, steps, env, i + 1, sp + 1, argc, required);
        assert args == [i] + rest;
        NumberedCons(i, rest, 1 + Leading(format, rest, env), sp);
      } else {
        NumberedNone(args[..Leading(format, args, env)], sp);
      }
    }
  }

  lemma NumberedNone(specs: seq<nat>, sp: nat)
    requires |specs| == 0
    ensures Numbered(specs, sp) == []
  {
  }

  lemma NumberedCons(i: nat, specs: seq<nat>, n: nat, sp: nat)
    requires 0 < n <= |specs| + 1
    ensures Numbered(([i] + specs)[..n], sp) == [Mark(i, sp)] + Numbered(specs[..n - 1], sp + 1)
  {
    assert ([i] + specs)[..n][1..] == specs[..n - 1];
  }

  /**
   With built-in specifiers, whatever their conversions do: the call succeeds exactly when there are
   arguments for all specifiers before the first '/', and every specifier for which there is an
   argument can be converted.  The k-th specifier is given the k-th argument, up to the first that
   cannot be converted.
   */
  lemma BuiltinConversions(entries: seq<Entry>, format: string, argc: nat, env: Env)
    requires AllBuiltin(format)
    ensures ConvertEnds(ConvertProgram(entries, format, env), 0, 0, argc)
    ensures var o, specs := Convert(ConvertProgram(entries, format, env), 0, 0, argc, true), Specs(format, 0);
            && (o.ok <==> RequiredFrom(format, 0) <= argc
                          && forall k :: 0 <= k < |specs| && k < argc ==> Convertible(format, specs[k], env))
            && o.sp == |o.marks| <= argc && |o.marks| <= |specs|
            && (forall k :: 0 <= k < |o.marks| ==>
                  o.marks[k] == Mark(specs[k], k) && Convertible(format, specs[k], env))
            && (|o.marks| < |specs| && |o.marks| < argc ==> !Convertible(format, specs[|o.marks|], env))
  {
    hide Convert, ConvertEnds, Leading, Supplied, Specs, Numbered, RequiredFrom;
    var steps := ConvertProgram(entries, format, env);
    PlainEnds(format, steps, env, 0, 0, argc);
    BuiltinCounts(format, steps, env, 0, 0, argc, true);
    BuiltinMarks(format, steps, env, 0, 0, argc, true);
    SuppliedFirst(format, argc, env);
    var o, args := Convert(steps, 0, 0, argc, true), Supplied(format, 0, 0, argc);
    NumberedAll(args[..o.sp]);
  }

  lemma SuppliedFirst(format: string, argc: nat, env: Env)
    ensures var specs, args := Specs(format, 0), Supplied(format, 0, 0, argc);
            && |args| == Min(argc, |specs|) && args == specs[..|args|]
            && (Leading(format, args, env) == |args|
                <==> forall k :: 0 <= k < |specs| && k < argc ==> Convertible(format, specs[k], env))
  {
    hide Specs;
    var specs, args := Specs(format, 0), Supplied(format, 0, 0, argc);
    assert forall k :: 0 <= k < |args| ==> args[k] == specs[k];
  }

  lemma NumberedAll(specs: seq<nat>)
    ensures |Numbered(specs, 0)| == |specs|
    ensures forall k :: 0 <= k < |specs| ==> Numbered(specs, 0)[k] == Mark(specs[k], k)
  {
    forall k | 0 <= k < |specs|
      ensures |Numbered(specs, 0)| == |specs| && Numbered(specs, 0)[k] == Mark(specs[k], k)
    {
      NumberedAt(specs, 0, k);
    }
  }

  // ----- Where and how the loop is left -----

  /** Where the loop is after n turns, None if it has been left before. */
  ghost function StateAt(steps: seq<Step>, at: Mark, argc: nat, n: nat): (r: Option<Mark>)
    requires Program(steps) && at.pos <= |steps|
    ensures r.Some? ==> r.value.pos <= |steps|
    decreases n
  {
    if n == 0 then Some(at)
    else
      match ConvertTurn(steps, at, argc)
      case None => None
      case Some(next) => StateAt(steps, next, argc, n - 1)
  }

  /** The loop is left in its turn n + 1, at last. */
  ghost predicate LeftAt(steps: seq<Step>, at: Mark, argc: nat, n: nat, last: Mark)
    requires Program(steps) && at.pos <= |steps|
  {
    StateAt(steps, at, argc, n) == Some(last) && ConvertTurn(steps, last, argc) == None
  }

  /** One of the first n turns passes a '/'. */
  ghost predicate PassesSlash(steps: seq<Step>, at: Mark, argc: nat, n: nat)
    requires Program(steps) && at.pos <= |steps|
  {
    exists k: nat :: k < n && IsSlash(steps, StateAt(steps, at, argc, k))
  }

  ghost predicate IsSlash(steps: seq<Step>, m: Option<Mark>) {
    m.Some? && m.value.pos < |steps| && steps[m.value.pos] == Optional
  }

  lemma SlashNow(steps: seq<Step>, at: Mark, argc: nat, n: nat)
    requires Program(steps) && at.pos < |steps| && n > 0 && ConvertTurn(steps, at, argc).Some?
    ensures PassesSlash(steps, at, argc, n) <==>
              steps[at.pos] == Optional || PassesSlash(steps, ConvertTurn(steps, at, argc).value, argc, n - 1)
  {
    var next := ConvertTurn(steps, at, argc).value;
    assert StateAt(steps, at, argc, 0) == Some(at);
    if PassesSlash(steps, next, argc, n - 1) {
      var k: nat :| k < n - 1 && IsSlash(steps, StateAt(steps, next, argc, k));
      assert IsSlash(steps, StateAt(steps, at, argc, k + 1));
    }
    if PassesSlash(steps, at, argc, n) && steps[at.pos] != Optional {
      var k: nat :| k < n && IsSlash(steps, StateAt(steps, at, argc, k));
      assert k > 0 && IsSlash(steps, StateAt(steps, next, argc, k - 1));
    }
  }

  /**
   Whatever the format and the formatters: sp ends where the loop is left, and the call succeeds
   exactly when that is at the end of the format, or when the arguments are used up behind a '/'.
   */
  lemma {:induction false} ConvertLeaves(steps: seq<Step>, at: Mark, argc: nat, required: bool, n: nat, last: Mark)
    requires Program(steps) && at.pos <= |steps| && LeftAt(steps, at, argc, n, last)
    ensures ConvertEnds(steps, at.pos, at.slot, argc)
    ensures var o := Convert(steps, at.pos, at.slot, argc, required);
            && o.sp == last.slot
            && (o.ok <==> last.pos == |steps|
                          || (last.slot == argc && (!required || PassesSlash(steps, at, argc, n))))
    decreases n
  {
    hide PassesSlash;
    if n == 0 {
      NoSlash(steps, at, argc);
    } else {
      var next := ConvertTurn(steps, at, argc).value;
      SlashNow(steps, at, argc, n);
      ConvertLeaves(steps, next, argc, required && steps[at.pos] != Optional, n - 1, last);
    }
  }

  lemma NoSlash(steps: seq<Step>, at: Mark, argc: nat)
    requires Program(steps) && at.pos <= |steps|
    ensures !PassesSlash(steps, at, argc, 0)
  {
  }

  /** Nothing can convert the specifier at p: its conversion fails, or its formatter, or no format matches. */
  ghost predicate Unconvertible(entries: seq<Entry>, format: string, p: nat, env: Env)
    requires p < |format|
  {
    if IsBuiltin(format[p]) then !env.succeeds(p)
    else
      && format[p] != '*' && format[p] != '/' && !IsSpace(format[p])
      && match Dispatch(entries, format[p..])
         case None => true
         case Some(e) => env.moves(p, e.formatter) == None
  }

  /** A specifier that has an argument and cannot be converted makes the call fail there, also behind a '/'. */
  lemma FailureIsReported(entries: seq<Entry>, format: string, argc: nat, env: Env, n: nat, m: Mark)
    requires StateAt(ConvertProgram(entries, format, env), Mark(0, 0), argc, n) == Some(m)
    requires m.pos < |format| && m.slot != argc && Unconvertible(entries, format, m.pos, env)
    ensures ConvertEnds(ConvertProgram(entries, format, env), 0, 0, argc)
    ensures var o := Convert(ConvertProgram(entries, format, env), 0, 0, argc, true);
            !o.ok && o.sp == m.slot
  {
    var steps := ConvertProgram(entries, format, env);
    assert steps[m.pos] == ConvertStep(entries, format, m.pos, env) == Fail;
    assert LeftAt(steps, Mark(0, 0), argc, n, m);
    ConvertLeaves(steps, Mark(0, 0), argc, true, n, m);
  }

  /** Built-in letters take one slot, so only a formatter can make a step of several. */
  ghost predicate Lands(steps: seq<Step>, m: Mark, argc: nat) {
    && m.pos < |steps| && (steps[m.pos].Take? || steps[m.pos].Stay?)
    && (steps[m.pos].d > 1 ==> m.slot + steps[m.pos].d <= argc)
  }

  ghost predicate AllInside(o: Outcome, argc: nat) {
    o.sp <= argc && forall m :: m in o.marks ==> m.slot < argc
  }

  lemma {:induction false} ConvertGrows(steps: seq<Step>, i: nat, sp: nat, argc: nat, required: bool)
    requires Program(steps) && i <= |steps| && ConvertEnds(steps, i, sp, argc)
    ensures sp <= Convert(steps, i, sp, argc, required).sp
    decreases |steps| - i, argc - sp
  {
    if i < |steps| {
      match steps[i]
      case Skip => ConvertGrows(steps, i + 1, sp, argc, required);
      case Optional => ConvertGrows(steps, i + 1, sp, argc, false);
      case Fail =>
      case Take(n, d) =>
        if sp != argc {
          ConvertGrows(steps, i + n, sp + d, argc, required);
        }
      case Stay(d) =>
        if sp != argc {
          ConvertGrows(steps, i, sp + d, argc, required);
        }
    }
  }

  /**
   Also with formatters no argument at or beyond argc is used and sp ends at argc at the latest,
   if and only if no formatter itself moves beyond argc.
   */
  lemma {:induction false} StaysInArguments(steps: seq<Step>, i: nat, sp: nat, argc: nat, required: bool)
    requires Program(steps) && i <= |steps| && sp <= argc && ConvertEnds(steps, i, sp, argc)
    ensures var o := Convert(steps, i, sp, argc, required);
            AllInside(o, argc) <==> forall m :: m in o.marks ==> Lands(steps, m, argc)
    decreases |steps| - i, argc - sp, 0
  {
    if i < |steps| {
      match steps[i]
      case Skip => StaysInArguments(steps, i + 1, sp, argc, required);
      case Optional => StaysInArguments(steps, i + 1, sp, argc, false);
      case Fail =>
      case Take(n, d) =>
        if sp < argc {
          StaysAfter(steps, i, i + n, sp, d, argc, required);
        }
      case Stay(d) =>
        if sp < argc {
          StaysAfter(steps, i, i, sp, d, argc, required);
        }
    }
  }

  /** A step of d slots from sp on leads on to position k. */
  lemma {:induction false} StaysAfter(steps: seq<Step>, i: nat, k: nat, sp: nat, d: nat, argc: nat, required: bool)
    requires Program(steps) && i < |steps| && i <= k <= |steps| && sp < argc && ConvertEnds(steps, k, sp + d, argc)
    requires (steps[i].Take? || steps[i].Stay?) && steps[i].d == d && (i == k ==> 0 < d)
    ensures var o := After(Mark(i, sp), Convert(steps, k, sp + d, argc, required));
            AllInside(o, argc) <==> forall m :: m in o.marks ==> Lands(steps, m, argc)
    decreases |steps| - k, argc - sp - d, 1
  {
    ConvertGrows(steps, k, sp + d, argc, required);
    if sp + d <= argc {
      StaysInArguments(steps, k, sp + d, argc, required);
    }
    FirstMark(steps, Mark(i, sp), Convert(steps, k, sp + d, argc, required), argc);
  }

  lemma FirstMark(steps: seq<Step>, m: Mark, rest: Outcome, argc: nat)
    requires m.slot < argc
    ensures AllInside(After(m, rest), argc) <==> AllInside(rest, argc)
    ensures (forall x :: x in After(m, rest).marks ==> Lands(steps, x, argc))
            <==> Lands(steps, m, argc) && forall x :: x in rest.marks ==> Lands(steps, x, argc)
  {
    var all := After(m, rest).marks;
    assert all[0] == m && forall x :: x in all <==> x == m || x in rest.marks;
  }

  // ----- JS_PushArguments -----

  /** The loop ends: the empty format is never matched, which would go on without an end. */
  ghost predicate PushEnds(steps: seq<Step>, i: nat)
    requires Program(steps) && i <= |steps|
    decreases |steps| - i
  {
    i == |steps| ||
    match steps[i]
    case Skip => PushEnds(steps, i + 1)
    case Take(n, _) => PushEnds(steps, i + n)
    case Stay(_) => false
    case _ => true
  }

  ghost function Push(steps: seq<Step>, i: nat, sp: nat): Outcome
    requires Program(steps) && i <= |steps| && PushEnds(steps, i)
    decreases |steps| - i
  {
    if i == |steps| then Outcome(true, [], sp)
    else match steps[i]
      case Skip => Push(steps, i + 1, sp)
      case Take(n, d) => After(Mark(i, sp), Push(steps, i + n, sp + d))
      case _ => Outcome(false, [], sp)
  }

  ghost predicate PushLeftWithin(steps: seq<Step>, i: nat, turns: nat)
    requires Program(steps) && i <= |steps|
    decreases turns
  {
    turns > 0 &&
    (i == |steps| ||
     match steps[i]
     case Skip => PushLeftWithin(steps, i + 1, turns - 1)
     case Take(n, _) => PushLeftWithin(steps, i + n, turns - 1)
     case Stay(_) => PushLeftWithin(steps, i, turns - 1)
     case _ => true)
  }

  ghost predicate PushIsLeft(steps: seq<Step>, i: nat)
    requires Program(steps) && i <= |steps|
  {
    exists turns: nat :: PushLeftWithin(steps, i, turns)
  }

  /** Otherwise the loop is never left. */
  lemma PushEndsExactly(steps: seq<Step>, i: nat)
    requires Program(steps) && i <= |steps|
    ensures PushEnds(steps, i) <==> PushIsLeft(steps, i)
  {
    if PushEnds(steps, i) {
      PushTurns(steps, i);
      assert PushLeftWithin(steps, i, |steps| - i + 1);
    }
    if turns: nat :| PushLeftWithin(steps, i, turns) {
      PushLeftEnds(steps, i, turns);
    }
  }

  lemma {:induction false} PushTurns(steps: seq<Step>, i: nat)
    requires Program(steps) && i <= |steps| && PushEnds(steps, i)
    ensures PushLeftWithin(steps, i, |steps| - i + 1)
    decreases |steps| - i
  {
    if i < |steps| {
      match steps[i]
      case Skip => PushTurns(steps, i + 1);
      case Take(n, _) =>
        PushTurns(steps, i + n);
        MoreTurns(steps, i + n, |steps| - i - n + 1, |steps| - i);
      case _ =>
    }
  }

  lemma {:induction false} MoreTurns(steps: seq<Step>, i: nat, turns: nat, more: nat)
    requires Program(steps) && i <= |steps| && PushLeftWithin(steps, i, turns) && turns <= more
    ensures PushLeftWithin(steps, i, more)
    decreases turns
  {
    if i < |steps| {
      match steps[i]
      case Skip => MoreTurns(steps, i + 1, turns - 1, more - 1);
      case Take(n, _) => MoreTurns(steps, i + n, turns - 1, more - 1);
      case Stay(_) => MoreTurns(steps, i, turns - 1, more - 1);
      case _ =>
    }
  }

  lemma {:induction false} PushLeftEnds(steps: seq<Step>, i: nat, turns: nat)
    requires Program(steps) && i <= |steps| && PushLeftWithin(steps, i, turns)
    ensures PushEnds(steps, i)
    decreases turns
  {
    if i < |steps| {
      match steps[i]
      case Skip => PushLeftEnds(steps, i + 1, turns - 1);
      case Take(n, _) => PushLeftEnds(steps, i + n, turns - 1);
      case Stay(_) => PushLeftEnds(steps, i, turns - 1);
      case _ =>
    }
  }

  /** The characters that are given a slot in advance. */
  function Weight(s: string): nat {
    if s == "" then 0 else (if IsSpace(s[0]) || s[0] == '*' then 0 else 1) + Weight(s[1..])
  }

  lemma {:induction false} WeightAdds(s: string, n: nat)
    requires n <= |s|
    ensures Weight(s) == Weight(s[..n]) + Weight(s[n..])
    decreases n
  {
    if n == 0 {
      assert s[..n] == "" && s[n..] == s;
    } else {
      WeightAdds(s[1..], n - 1);
      assert s[..n][1..] == s[1..][..n - 1] && s[n..] == s[1..][n - 1..];
    }
  }

  /** A format that can be dispatched to: it begins with a character that is not handled before. */
  ghost predicate Dispatchable(e: Entry) {
    e.format != "" && IsCustom(e.format[0]) && !IsSpace(e.format[0])
  }

  /** No such formatter pushes more slots than its format has characters other than spaces and stars. */
  ghost predicate Frugal(entries: seq<Entry>, env: Env) {
    forall e, i :: e in entries && Dispatchable(e) ==>
      match env.moves(i, e.formatter)
      case None => true
      case Some(d) => d <= Weight(e.format)
  }

  ghost predicate StepFits(format: string, steps: seq<Step>, i: nat)
    requires Program(steps) && |steps| == |format| && i < |steps|
  {
    match steps[i]
    case Take(n, d) => d + Weight(format[i + n..]) <= Weight(format[i..])
    case Skip => Weight(format[i + 1..]) == Weight(format[i..])
    case _ => true
  }

  /** A step then moves on by at most the weight of what it consumes. */
  lemma StepIsFrugal(entries: seq<Entry>, format: string, env: Env, i: nat)
    requires Frugal(entries, env) && i < |format|
    ensures StepFits(format, PushProgram(entries, format, env), i)
  {
    var rest := format[i..];
    assert rest[1..] == format[i + 1..];
    if IsCustom(format[i]) && !IsSpace(format[i]) {
      DispatchAdvances(entries, rest);
      var e := Dispatch(entries, rest);
      if e.Some? {
        var n := |e.value.format|;
        WeightAdds(rest, n);
        assert rest[..n] == e.value.format && rest[n..] == format[i + n..];
        assert n > 0 ==> e.value.format[0] == format[i];
      }
    }
  }

  lemma {:induction false} PushFitsFrom(format: string, steps: seq<Step>, i: nat, sp: nat)
    requires Program(steps) && |steps| == |format| && i <= |steps| && PushEnds(steps, i)
    requires forall k :: 0 <= k < |steps| ==> StepFits(format, steps, k)
    ensures Push(steps, i, sp).sp <= sp + Weight(format[i..])
    decreases |steps| - i
  {
    if i < |steps| {
      assert StepFits(format, steps, i);
      match steps[i]
      case Take(n, d) => PushFitsFrom(format, steps, i + n, sp + d);
      case Skip => PushFitsFrom(format, steps, i + 1, sp);
      case _ =>
    }
  }

  /** With frugal formatters the slots set aside are enough: the assertion after the loop holds. */
  lemma PushFits(entries: seq<Entry>, format: string, env: Env)
    requires Frugal(entries, env) && PushEnds(PushProgram(entries, format, env), 0)
    ensures Push(PushProgram(entries, format, env), 0, 0).sp <= Weight(format)
  {
    forall k | 0 <= k < |format|
      ensures StepFits(format, PushProgram(entries, format, env), k)
    {
      StepIsFrugal(entries, format, env, k);
    }
    PushFitsFrom(format, PushProgram(entries, format, env), 0, 0);
    assert format[0..] == format;
  }

  ghost function Stars(n: nat): (r: string)
    ensures |r| == n && forall i :: 0 <= i < n ==> r[i] == '*'
  {
    if n == 0 then "" else "*" + Stars(n - 1)
  }

  lemma {:induction false} StarsWeighNothing(n: nat)
    ensures Weight(Stars(n)) == 0
  {
    if n > 0 {
      StarsWeighNothing(n - 1);
      assert Stars(n)[1..] == Stars(n - 1);
    }
  }

  /** In an ordered table each format is dispatched to its own entry. */
  lemma DispatchesItself(entries: seq<Entry>, e: Entry)
    requires Ordered(entries) && e in entries
    ensures Dispatch(entries, e.format) == Some(e)
  {
    MapLists(entries);
    DispatchIsLongestPrefix(entries, e.format);
    DispatchAdvances(entries, e.format);
  }

  lemma {:induction false} SkipsStars(steps: seq<Step>, k: nat, i: nat, sp: nat)
    requires Program(steps) && k <= i <= |steps| && forall j :: k <= j < i ==> steps[j] == Skip
    ensures PushEnds(steps, k) <==> PushEnds(steps, i)
    ensures PushEnds(steps, i) ==> Push(steps, k, sp) == Push(steps, i, sp)
    decreases i - k
  {
    if k < i {
      SkipsStars(steps, k + 1, i, sp);
    }
  }

  /** Stars in front of a format bring it to any position; its formatter is the only one called. */
  lemma PushesOnlyThis(entries: seq<Entry>, e: Entry, env: Env, i: nat)
    requires Ordered(entries) && e in entries && Dispatchable(e) && env.moves(i, e.formatter).Some?
    ensures var format := Stars(i) + e.format;
            && PushEnds(PushProgram(entries, format, env), 0) && Weight(format) == Weight(e.format)
            && Push(PushProgram(entries, format, env), 0, 0)
               == Outcome(true, [Mark(i, 0)], env.moves(i, e.formatter).value)
  {
    var format := Stars(i) + e.format;
    var steps := PushProgram(entries, format, env);
    assert format[i..] == e.format && format[..i] == Stars(i);
    DispatchesItself(entries, e);
    StarsWeighNothing(i);
    WeightAdds(format, i);
    assert steps[i] == Take(|e.format|, env.moves(i, e.formatter).value);
    assert steps[i].n == |steps| - i;
    SkipsStars(steps, 0, i, 0);
  }

  /** If pushing ends without a failure, it took no more than the slots set aside. */
  ghost predicate Fits(format: string, steps: seq<Step>)
    requires Program(steps)
  {
    PushEnds(steps, 0) && Push(steps, 0, 0).ok ==> Push(steps, 0, 0).sp <= Weight(format)
  }

  ghost predicate AlwaysFits(entries: seq<Entry>, env: Env) {
    forall format :: Fits(format, PushProgram(entries, format, env))
  }

  /** Nothing less will do: a formatter that is not frugal breaks the assertion for some format. */
  lemma FrugalExactly(entries: seq<Entry>, env: Env)
    requires Ordered(entries)
    ensures AlwaysFits(entries, env) <==> Frugal(entries, env)
  {
    if Frugal(entries, env) {
      forall format | PushEnds(PushProgram(entries, format, env), 0)
        ensures Push(PushProgram(entries, format, env), 0, 0).sp <= Weight(format)
      {
        PushFits(entries, format, env);
      }
    } else {
      var e, i: nat :| e in entries && Dispatchable(e) && env.moves(i, e.formatter).Some?
                       && env.moves(i, e.formatter).value > Weight(e.format);
      PushesOnlyThis(entries, e, env, i);
      assert !Fits(Stars(i) + e.format, PushProgram(entries, Stars(i) + e.format, env));
    }
  }

  /** Every character has a slot. */
  ghost predicate Dense(s: string) {
    forall i :: 0 <= i < |s| ==> !IsSpace(s[i]) && s[i] != '*'
  }

  lemma {:induction false} WeightIsLength(s: string)
    ensures Weight(s) <= |s|
    ensures Weight(s) == |s| <==> Dense(s)
  {
    if s != "" {
      WeightIsLength(s[1..]);
      assert s == [s[0]] + s[1..];
    }
  }

  /**
   Formatters that push one slot for each character of their format are safe exactly if no such
   format has a space or a star in it.
   */
  lemma SlotPerCharacter(entries: seq<Entry>, env: Env)
    requires Ordered(entries)
    requires forall e, i :: e in entries ==> env.moves(i, e.formatter) == Some(|e.format|)
    ensures AlwaysFits(entries, env) <==> forall e :: e in entries && Dispatchable(e) ==> Dense(e.format)
  {
    FrugalExactly(entries, env);
    forall e | e in entries && Dispatchable(e)
      ensures Dense(e.format) <==> |e.format| <= Weight(e.format)
      ensures Dense(e.format) <==> forall i: nat :: env.moves(i, e.formatter).value <= Weight(e.format)
    {
      WeightIsLength(e.format);
      assert env.moves(0, e.formatter) == Some(|e.format|);
    }
  }

  lemma {:induction false} SameSlots(steps: seq<Step>, i: nat, sp: nat, argc: nat, required: bool)
    requires Program(steps) && i <= |steps| && PushEnds(steps, i)
    requires Push(steps, i, sp).ok && forall m :: m in Push(steps, i, sp).marks ==> m.slot < argc
    ensures ConvertEnds(steps, i, sp, argc)
    ensures Convert(steps, i, sp, argc, required) == Push(steps, i, sp)
    decreases |steps| - i
  {
    if i < |steps| {
      match steps[i]
      case Skip => SameSlots(steps, i + 1, sp, argc, required);
      case Take(n, d) =>
        var o, rest := Push(steps, i, sp), Push(steps, i + n, sp + d);
        assert o.marks[0] == Mark(i, sp) && forall m :: m in rest.marks ==> m in o.marks;
        SameSlots(steps, i + n, sp + d, argc, required);
      case _ =>
    }
  }

  /**
   Without '*' and '/' both interpreters give a specifier the same slot, as long as there are more
   arguments than the last slot used.
   */
  lemma SlotsAgree(entries: seq<Entry>, format: string, argc: nat, env: Env)
    requires forall k :: 0 <= k < |format| ==> format[k] != '*' && format[k] != '/'
    requires PushEnds(PushProgram(entries, format, env), 0)
    requires var o := Push(PushProgram(entries, format, env), 0, 0);
             o.ok && forall m :: m in o.marks ==> m.slot < argc
    ensures ConvertEnds(ConvertProgram(entries, format, env), 0, 0, argc)
    ensures Convert(ConvertProgram(entries, format, env), 0, 0, argc, true)
            == Push(PushProgram(entries, format, env), 0, 0)
  {
    assert ConvertProgram(entries, format, env) == PushProgram(entries, format, env);
    SameSlots(PushProgram(entries, format, env), 0, 0, argc, true);
  }

  ghost predicate IsStar(format: string, m: Mark) {
    m.pos < |format| && format[m.pos] == '*'
  }

  /** Stars are marked where no formatter took them. */
  ghost function StarMarks(format: string, marks: seq<Mark>): nat {
    if marks == [] then 0 else (if IsStar(format, marks[0]) then 1 else 0) + StarMarks(format, marks[1..])
  }

  /** c is p with stars put in, of which each raises the slots behind it by one, as k earlier ones do. */
  ghost predicate Shifted(format: string, c: seq<Mark>, p: seq<Mark>, k: nat) {
    if c == [] then p == []
    else if IsStar(format, c[0]) then Shifted(format, c[1..], p, k + 1)
    else p != [] && c[0] == Mark(p[0].pos, p[0].slot + k) && Shifted(format, c[1..], p[1..], k)
  }

  /** Position by position. */
  lemma {:induction false} ShiftedAt(format: string, c: seq<Mark>, p: seq<Mark>, k: nat, j: nat)
    requires Shifted(format, c, p, k) && j < |c| && !IsStar(format, c[j])
    ensures exists m :: m in p && c[j] == Mark(m.pos, m.slot + k + StarMarks(format, c[..j]))
  {
    if j > 0 {
      assert c[..j][1..] == c[1..][..j - 1];
      if IsStar(format, c[0]) {
        ShiftedAt(format, c[1..], p, k + 1, j - 1);
      } else {
        ShiftedAt(format, c[1..], p[1..], k, j - 1);
        var m :| m in p[1..] && c[1..][j - 1] == Mark(m.pos, m.slot + k + StarMarks(format, c[1..][..j - 1]));
        assert m in p;
      }
    } else {
      assert p[0] in p && StarMarks(format, c[..0]) == 0;
    }
  }

  /** The two interpreters differ only at stars. */
  ghost predicate StarsApart(format: string, cs: seq<Step>, ps: seq<Step>) {
    && Program(cs) && Program(ps) && |cs| == |ps| == |format|
    && forall i :: 0 <= i < |format| ==>
         if format[i] == '*' then cs[i] == Take(1, 1) && ps[i] == Skip else cs[i] == ps[i] != Optional
  }

  /** A conversion from argument sp + k on that succeeds. */
  ghost predicate Converts(cs: seq<Step>, i: nat, sp: nat, argc: nat)
    requires Program(cs) && i <= |cs|
  {
    ConvertEnds(cs, i, sp, argc) && Convert(cs, i, sp, argc, true).ok
  }

  lemma Unshifted(format: string, k: nat)
    ensures Shifted(format, [], [], k) && StarMarks(format, []) == 0
  {
  }

  lemma StarIn(format: string, m: Mark, c: seq<Mark>, p: seq<Mark>, k: nat)
    requires IsStar(format, m) && Shifted(format, c, p, k + 1)
    ensures Shifted(format, [m] + c, p, k) && StarMarks(format, [m] + c) == 1 + StarMarks(format, c)
  {
    assert ([m] + c)[1..] == c;
  }

  lemma MarkIn(format: string, m: Mark, c: seq<Mark>, p: seq<Mark>, k: nat)
    requires !IsStar(format, m) && Shifted(format, c, p, k)
    ensures var m' := Mark(m.pos, m.slot + k);
            Shifted(format, [m'] + c, [m] + p, k) && StarMarks(format, [m'] + c) == StarMarks(format, c)
  {
    var m' := Mark(m.pos, m.slot + k);
    assert ([m'] + c)[1..] == c && ([m] + p)[1..] == p;
  }

  lemma {:induction false} StarsShift(format: string, cs: seq<Step>, ps: seq<Step>, i: nat, sp: nat, k: nat, argc: nat)
    requires StarsApart(format, cs, ps) && i <= |format| && Converts(cs, i, sp + k, argc)
    ensures PushEnds(ps, i)
    ensures var c, p := Convert(cs, i, sp + k, argc, true), Push(ps, i, sp);
            p.ok && Shifted(format, c.marks, p.marks, k) && c.sp == p.sp + k + StarMarks(format, c.marks)
    decreases |format| - i
  {
    hide Shifted, StarMarks;
    Unshifted(format, k);
    if i < |format| {
      match cs[i]
      case Skip => StarsShift(format, cs, ps, i + 1, sp, k, argc);
      case Take(n, d) =>
        if format[i] == '*' {
          StarsShift(format, cs, ps, i + 1, sp, k + 1, argc);
          var c, p := Convert(cs, i + 1, sp + k + 1, argc, true), Push(ps, i + 1, sp);
          StarIn(format, Mark(i, sp + k), c.marks, p.marks, k);
        } else {
          StarsShift(format, cs, ps, i + n, sp + d, k, argc);
          var c, p := Convert(cs, i + n, sp + d + k, argc, true), Push(ps, i + n, sp + d);
          MarkIn(format, Mark(i, sp), c.marks, p.marks, k);
        }
      case Stay(d) => NeverOk(cs, i, sp + k, argc);
      case _ =>
    }
  }

  /** A required specifier for which the empty format is matched fails when the arguments are used up. */
  lemma {:induction false} NeverOk(cs: seq<Step>, i: nat, sp: nat, argc: nat)
    requires Program(cs) && i < |cs| && cs[i].Stay? && ConvertEnds(cs, i, sp, argc)
    ensures !Convert(cs, i, sp, argc, true).ok
    decreases argc - sp
  {
    if sp != argc {
      NeverOk(cs, i, sp + cs[i].d, argc);
    }
  }

  ghost function StarsIn(format: string, i: nat): nat
    requires i <= |format|
    decreases |format| - i
  {
    if i == |format| then 0 else (if format[i] == '*' then 1 else 0) + StarsIn(format, i + 1)
  }

  lemma {:induction false} FewerStars(format: string, i: nat, j: nat)
    requires i <= j <= |format|
    ensures StarsIn(format, j) <= StarsIn(format, i)
    decreases j - i
  {
    if i < j {
      FewerStars(format, i + 1, j);
    }
  }

  lemma {:induction false} EnoughConverts(format: string, cs: seq<Step>, ps: seq<Step>, i: nat,
                                            sp: nat, k: nat, argc: nat)
    requires StarsApart(format, cs, ps) && i <= |format| && PushEnds(ps, i) && Push(ps, i, sp).ok
    requires Push(ps, i, sp).sp + k + StarsIn(format, i) < argc
    ensures Converts(cs, i, sp + k, argc) && sp <= Push(ps, i, sp).sp
    decreases |format| - i
  {
    if i < |format| {
      match cs[i]
      case Skip => EnoughConverts(format, cs, ps, i + 1, sp, k, argc);
      case Take(n, d) =>
        if format[i] == '*' {
          EnoughConverts(format, cs, ps, i + 1, sp, k + 1, argc);
        } else {
          FewerStars(format, i, i + n);
          EnoughConverts(format, cs, ps, i + n, sp + d, k, argc);
        }
      case _ =>
    }
  }

  lemma ProgramsApart(entries: seq<Entry>, format: string, env: Env)
    requires forall k :: 0 <= k < |format| ==> format[k] != '/'
    ensures StarsApart(format, ConvertProgram(entries, format, env), PushProgram(entries, format, env))
  {
  }

  /**
   With '*' and without '/': where reading succeeds, pushing does, and reading gives each specifier
   the slot of pushing plus one for every star before it that no formatter took.
   */
  lemma StarsShiftSlots(entries: seq<Entry>, format: string, argc: nat, env: Env)
    requires forall k :: 0 <= k < |format| ==> format[k] != '/'
    requires Converts(ConvertProgram(entries, format, env), 0, 0, argc)
    ensures PushEnds(PushProgram(entries, format, env), 0)
    ensures var c := Convert(ConvertProgram(entries, format, env), 0, 0, argc, true);
            var p := Push(PushProgram(entries, format, env), 0, 0);
            && p.ok && Shifted(format, c.marks, p.marks, 0) && c.sp == p.sp + StarMarks(format, c.marks)
            && forall j :: 0 <= j < |c.marks| && !IsStar(format, c.marks[j]) ==>
                 exists m :: m in p.marks && c.marks[j] == Mark(m.pos, m.slot + StarMarks(format, c.marks[..j]))
  {
    hide Convert, Push, ConvertEnds, PushEnds, StarsApart;
    ProgramsApart(entries, format, env);
    var cs, ps := ConvertProgram(entries, format, env), PushProgram(entries, format, env);
    StarsShift(format, cs, ps, 0, 0, 0, argc);
    var c, p := Convert(cs, 0, 0, argc, true).marks, Push(ps, 0, 0).marks;
    forall j | 0 <= j < |c| && !IsStar(format, c[j])
      ensures exists m :: m in p && c[j] == Mark(m.pos, m.slot + StarMarks(format, c[..j]))
    {
      ShiftedAt(format, c, p, 0, j);
      var m :| m in p && c[j] == Mark(m.pos, m.slot + 0 + StarMarks(format, c[..j]));
    }
  }

  /** And reading succeeds, given enough arguments, exactly where pushing does. */
  lemma SameFormatsSucceed(entries: seq<Entry>, format: string, env: Env)
    requires forall k :: 0 <= k < |format| ==> format[k] != '/'
    ensures (exists argc: nat :: Converts(ConvertProgram(entries, format, env), 0, 0, argc))
            <==> PushEnds(PushProgram(entries, format, env), 0) && Push(PushProgram(entries, format, env), 0, 0).ok
  {
    hide Convert, Push, ConvertEnds, PushEnds, StarsApart, Converts;
    ProgramsApart(entries, format, env);
    var cs, ps := ConvertProgram(entries, format, env), PushProgram(entries, format, env);
    if argc: nat :| Converts(cs, 0, 0, argc) {
      StarsShift(format, cs, ps, 0, 0, 0, argc);
    }
    if PushEnds(ps, 0) && Push(ps, 0, 0).ok {
      var argc := Push(ps, 0, 0).sp + StarsIn(format, 0) + 1;
      EnoughConverts(format, cs, ps, 0, 0, 0, argc);
      assert Converts(cs, 0, 0, argc);
    }
  }

  // ----- The argument stack -----

  /** A segment of jsvals the collector scans. */
  datatype Segment = Segment(start: nat, nslots: nat)

  /** avail is the first free address; the innermost segment comes first. */
  datatype Pool = Pool(avail: nat, headers: seq<Segment>)

  /** Addresses count jsvals; there are 2^30 of them in a 32-bit address space. */
  const SLOTS := 0x4000_0000

  ghost predicate ValidPool(p: Pool) {
    p.avail <= SLOTS && (p.headers != [] ==> p.headers[0].start + p.headers[0].nslots <= p.avail)
  }

  /** The innermost segment ends where the next allocation starts. */
  ghost predicate CanExtend(p: Pool) {
    p.headers != [] && p.headers[0].start + p.headers[0].nslots == p.avail
  }

  /** The address of n slots allocated next; a new segment has a header of two slots. */
  ghost function NextSlots(p: Pool): nat {
    if CanExtend(p) then p.avail else p.avail + 2
  }

  ghost function Allocated(p: Pool, n: nat): Pool {
    if CanExtend(p) then
      Pool(p.avail + n, [Segment(p.headers[0].start, p.headers[0].nslots + n)] + p.headers[1..])
    else
      Pool(p.avail + 2 + n, [Segment(p.avail + 2, n)] + p.headers)
  }

  /** The last k slots of the innermost segment are returned. */
  ghost function GivenBack(p: Pool, k: nat): Pool
    requires p.headers != [] && k <= p.headers[0].nslots && k <= p.avail
  {
    Pool(p.avail - k, [Segment(p.headers[0].start, p.headers[0].nslots - k)] + p.headers[1..])
  }

  /** The distance of mark from the segment is unsigned. */
  ghost function Freed(p: Pool, mark: nat): Pool
    requires p.headers != []
  {
    var distance := (mark - p.headers[0].start) % SLOTS;
    Pool(mark, if distance < p.headers[0].nslots then [Segment(p.headers[0].start, distance)] + p.headers[1..]
               else p.headers[1..])
  }

  lemma AllocatedFits(p: Pool, n: nat)
    requires ValidPool(p) && p.avail + 2 + n <= SLOTS
    ensures var a := Allocated(p, n);
            ValidPool(a) && CanExtend(a) && n <= a.headers[0].nslots && a.avail == NextSlots(p) + n
  {
  }

  /** Every segment has a header of two slots before it, and no two of them overlap. */
  ghost predicate Laid(p: Pool) {
    && (forall i :: 0 <= i < |p.headers| ==> Inside(p.headers[i], p.avail))
    && forall i, j :: 0 <= i < j < |p.headers| ==> Below(p.headers[j], p.headers[i])
  }

  ghost predicate Inside(s: Segment, avail: nat) {
    2 <= s.start && s.start + s.nslots <= avail
  }

  ghost predicate Below(s: Segment, t: Segment) {
    s.start + s.nslots + 2 <= t.start
  }

  /** New slots are above all that is in use, at the end of the innermost segment, and the layout is kept. */
  lemma AllocatedIsLaid(p: Pool, n: nat)
    requires ValidPool(p) && Laid(p) && p.avail + 2 + n <= SLOTS
    ensures var a := Allocated(p, n);
            && Laid(a) && p.avail <= NextSlots(p) && a.headers != []
            && a.headers[0].start <= NextSlots(p) && NextSlots(p) + n == a.headers[0].start + a.headers[0].nslots
            && forall i :: 0 <= i < |p.headers| ==> p.headers[i].start + p.headers[i].nslots <= NextSlots(p)
  {
    var a := Allocated(p, n);
    forall i | 0 <= i < |p.headers|
      ensures Inside(p.headers[i], p.avail)
    {
    }
    forall i, j | 0 <= i < j < |a.headers|
      ensures Below(a.headers[j], a.headers[i])
    {
      if CanExtend(p) {
        assert Below(p.headers[j], p.headers[i]);
      } else if i > 0 {
        assert Below(p.headers[j - 1], p.headers[i - 1]);
      }
    }
  }

  lemma GivenBackIsLaid(p: Pool, k: nat)
    requires Laid(p) && CanExtend(p) && k <= p.headers[0].nslots
    ensures k <= p.avail && Laid(GivenBack(p, k))
  {
    assert Inside(p.headers[0], p.avail);
    forall i | 0 < i < |p.headers|
      ensures Below(p.headers[i], p.headers[0]) && Inside(p.headers[i], p.avail)
    {
    }
  }

  /** A mark that is not inside an outer segment can be freed. */
  lemma FreedIsLaid(p: Pool, mark: nat)
    requires Laid(p) && p.headers != [] && mark <= p.avail <= SLOTS
    requires forall i :: 0 < i < |p.headers| ==> p.headers[i].start + p.headers[i].nslots <= mark
    ensures Laid(Freed(p, mark))
  {
    assert Inside(p.headers[0], p.avail);
    forall i | 0 < i < |p.headers|
      ensures Below(p.headers[i], p.headers[0]) && Inside(p.headers[i], p.avail)
    {
    }
    var start := p.headers[0].start;
    if start <= mark {
      DivUnique(mark - start, SLOTS, 0, mark - start);
    } else {
      assert (mark - start) % SLOTS == mark - start + SLOTS;
    }
  }

  /** What JS_PushArguments leaves when n slots were set aside and sp of them used. */
  ghost function Pushed(p: Pool, n: nat, sp: nat): Pool
    requires ValidPool(p) && p.avail + 2 + n <= SLOTS
  {
    AllocatedFits(p, n);
    if n == 0 then p else if sp < n then GivenBack(Allocated(p, n), n - sp) else Allocated(p, n)
  }

  /**
   The innermost segment ends with the slots that were pushed, and so do the slots in use, exactly
   when no more were pushed than set aside.
   */
  lemma HeaderCoversPushed(p: Pool, n: nat, sp: nat)
    requires ValidPool(p) && p.avail + 2 + n <= SLOTS && 0 < n
    ensures var q := Pushed(p, n, sp);
            && CanExtend(q) && q.headers[0].start <= NextSlots(p)
            && (q.avail == NextSlots(p) + sp <==> sp <= n)
            && q.headers[1..] == if CanExtend(p) then p.headers[1..] else p.headers
  {
    AllocatedFits(p, n);
  }

  /**
   Popping what was pushed restores the pool unless nothing is left of an allocation that extended
   a segment: then the header of that segment, which is in use, is popped.
   */
  lemma PopUndoesPush(p: Pool, n: nat, sp: nat)
    requires ValidPool(p) && p.avail + 2 + n <= SLOTS && 0 < n
    ensures Pushed(p, n, sp).headers != []
    ensures Freed(Pushed(p, n, sp), p.avail) == p <==> 0 < sp || !CanExtend(p)
    ensures sp == 0 && CanExtend(p) ==> Freed(Pushed(p, n, sp), p.avail) == Pool(p.avail, p.headers[1..])
  {
    AllocatedFits(p, n);
    HeaderCoversPushed(p, n, sp);
    if CanExtend(p) {
      assert p.headers == [p.headers[0]] + p.headers[1..];
      assert (p.avail - p.headers[0].start) % SLOTS == p.headers[0].nslots;
    } else {
      assert (-2) % SLOTS == SLOTS - 2;
    }
  }

  /**
   That does happen: the formatter of any format may push nothing, and then all the slots set aside
   for the format are given back.
   */
  lemma PopsOneTooMany(entries: seq<Entry>, e: Entry, env: Env, p: Pool)
    requires Ordered(entries) && e in entries && Dispatchable(e) && env.moves(0, e.formatter) == Some(0)
    requires ValidPool(p) && CanExtend(p) && p.avail + 2 + Weight(e.format) <= SLOTS
    ensures PushEnds(PushProgram(entries, e.format, env), 0)
    ensures var n, o := Weight(e.format), Push(PushProgram(entries, e.format, env), 0, 0);
            && 0 < n && o.ok && o.sp == 0
            && Pushed(p, n, o.sp).headers != []
            && Freed(Pushed(p, n, o.sp), p.avail) == Pool(p.avail, p.headers[1..]) != p
  {
    PushesOnlyThis(entries, e, env, 0);
    assert Stars(0) + e.format == e.format;
    PopUndoesPush(p, Weight(e.format), 0);
  }

  class Stack {
    var avail: nat
    var headers: seq<Segment>
    const limit: nat

    ghost function P(): Pool
      reads this
    {
      Pool(avail, headers)
    }

    ghost predicate Valid()
      reads this
    {
      avail <= limit <= SLOTS && ValidPool(P())
    }

    constructor (limit: nat)
      requires limit <= SLOTS
      ensures Valid() && P() == Pool(0, [])
    {
      avail, headers, this.limit := 0, [], limit;
    }

    /** js_AllocStack.  An allocation of no slots has no mark. */
    method Alloc(n: nat) returns (sp: Option<nat>, mark: Option<nat>)
      requires Valid()
      modifies this
      ensures Valid()
      ensures mark == if n == 0 then None else Some(old(avail))
      ensures n == 0 ==> sp == Some(avail)
      ensures n > 0 ==> sp == if old(avail) + 2 + n > limit then None else Some(NextSlots(old(P())))
      ensures P() == if n == 0 || sp == None then old(P()) else Allocated(old(P()), n)
    {
      if n == 0 {
        return Some(avail), None;
      }
      mark := Some(avail);
      if avail + 2 + n > limit {
        return None, mark;
      }
      AllocatedFits(P(), n);
      var start := avail;
      avail := avail + 2 + n;
      if headers != [] && headers[0].start + headers[0].nslots == start {
        headers := [Segment(headers[0].start, headers[0].nslots + n)] + headers[1..];
        avail := avail - 2;
        sp := Some(start);
      } else {
        headers := [Segment(start + 2, n)] + headers;
        sp := Some(start + 2);
      }
    }

    /** js_FreeStack */
    method Free(mark: Option<nat>)
      requires mark.Some? ==> headers != []
      modifies this
      ensures P() == if mark == None then old(P()) else Freed(old(P()), mark.value)
    {
      if mark.Some? {
        var top := headers[0];
        var distance := (mark.value - top.start) % SLOTS;
        headers := if distance < top.nslots then [Segment(top.start, distance)] + headers[1..] else headers[1..];
        avail := mark.value;
      }
    }

    /** The end of JS_PushArguments: return the slots of [argv, argv + argc) from sp on. */
    method GiveBack(argv: nat, argc: nat, sp: nat)
      requires Valid() && headers != [] && argc <= headers[0].nslots && argv + argc == avail && CanExtend(P())
      modifies this
      ensures P() == if sp < argc then GivenBack(old(P()), argc - sp) else old(P())
    {
      if sp < argc {
        avail := argv + sp;
        headers := [Segment(headers[0].start, headers[0].nslots - (argc - sp))] + headers[1..];
      }
    }
  }

  /** The number of slots to set aside. */
  method CountSlots(format: string) returns (n: nat)
    ensures n == Weight(format)
  {
    n := 0;
    var i := 0;
    while i < |format|
      invariant i <= |format| && n + Weight(format[i..]) == Weight(format)
    {
      assert format[i..][1..] == format[i + 1..];
      if !(IsSpace(format[i]) || format[i] == '*') {
        n := n + 1;
      }
      i := i + 1;
    }
  }

  /** The same as Push with the marks made so far carried along, as the loop does. */
  ghost function PushLoop(steps: seq<Step>, i: nat, sp: nat, marks: seq<Mark>): Outcome
    requires Program(steps) && i <= |steps| && PushEnds(steps, i)
    decreases |steps| - i
  {
    if i == |steps| then Outcome(true, marks, sp)
    else match steps[i]
      case Skip => PushLoop(steps, i + 1, sp, marks)
      case Take(n, d) => PushLoop(steps, i + n, sp + d, marks + [Mark(i, sp)])
      case _ => Outcome(false, marks, sp)
  }

  lemma {:induction false} LoopPushes(steps: seq<Step>, i: nat, sp: nat, marks: seq<Mark>)
    requires Program(steps) && i <= |steps| && PushEnds(steps, i)
    ensures var rest := Push(steps, i, sp);
            PushLoop(steps, i, sp, marks) == Outcome(rest.ok, marks + rest.marks, rest.sp)
    decreases |steps| - i
  {
    assert marks + [] == marks;
    if i < |steps| {
      match steps[i]
      case Skip => LoopPushes(steps, i + 1, sp, marks);
      case Take(n, d) =>
        LoopPushes(steps, i + n, sp + d, marks + [Mark(i, sp)]);
        var rest := Push(steps, i + n, sp + d).marks;
        assert marks + ([Mark(i, sp)] + rest) == marks + [Mark(i, sp)] + rest;
      case _ =>
    }
  }

  /** The switch over the character at position i. */
  method PushOne(cx: Context, format: string, i: nat, env: Env) returns (r: Step)
    requires cx.Valid() && i < |format| && !IsSpace(format[i]) && format[i] != '*'
    ensures r == PushStep(cx.entries, format, i, env)
  {
    if IsBuiltin(format[i]) {
      r := if env.succeeds(i) then Take(1, 1) else Fail;
    } else {
      r := CustomOne(cx, format, i, env);
    }
  }

  /** The loop of JS_PushArguments; slots are counted from argv. */
  method PushFrom(cx: Context, format: string, env: Env, ghost steps: seq<Step>) returns (o: Outcome)
    requires cx.Valid() && Program(steps) && |steps| == |format| && PushEnds(steps, 0)
    requires forall i :: 0 <= i < |steps| ==> (steps[i] == Skip <==> IsSpace(format[i]) || format[i] == '*')
    requires forall i {:trigger PushStep(cx.entries, format, i, env)} ::
               0 <= i < |steps| ==> PushStep(cx.entries, format, i, env) == steps[i]
    ensures o == PushLoop(steps, 0, 0, [])
  {
    var i: nat, sp: nat, marks := 0, 0, [];
    while i < |format|
      invariant i <= |format| && PushEnds(steps, i)
      invariant PushLoop(steps, i, sp, marks) == PushLoop(steps, 0, 0, [])
    {
      if IsSpace(format[i]) || format[i] == '*' {
        i := i + 1;
        continue;
      }
      var r := PushOne(cx, format, i, env);
      if r.Fail? {
        return Outcome(false, marks, sp);
      }
      var n, d, next := r.n, r.d, marks + [Mark(i, sp)];
      assert steps[i] == Take(n, d);
      marks, sp, i := next, sp + d, i + n;
    }
    o := Outcome(true, marks, sp);
  }

  /** argv is None for failure, which leaves the stack as it was. */
  method PushArguments(cx: Context, stack: Stack, format: string, env: Env)
    returns (argv: Option<nat>, mark: Option<nat>, marks: seq<Mark>)
    requires cx.Valid() && stack.Valid() && PushEnds(PushProgram(cx.entries, format, env), 0)
    modifies stack
    ensures var n, o, before := Weight(format), Push(PushProgram(cx.entries, format, env), 0, 0), old(stack.P());
            var fits := n == 0 || before.avail + 2 + n <= stack.limit;
            && mark == (if n == 0 then None else Some(before.avail))
            && argv == (if !fits || !o.ok then None else Some(if n == 0 then before.avail else NextSlots(before)))
            && (argv.Some? ==> marks == o.marks)
            && stack.P() == if argv == None || n == 0 then before else Pushed(before, n, o.sp)
  {
    ghost var before := stack.P();
    marks := [];
    var argc := CountSlots(format);
    argv, mark := stack.Alloc(argc);
    if argv == None {
      return;
    }
    ghost var steps := PushProgram(cx.entries, format, env);
    LoopPushes(steps, 0, 0, []);
    var o := PushFrom(cx, format, env, steps);
    if argc > 0 {
      AllocatedFits(before, argc);
    }
    if !o.ok {
      if argc > 0 {
        PopUndoesPush(before, argc, argc);
      }
      stack.Free(mark);
      return None, mark, [];
    }
    marks := o.marks;
    if argc > 0 {
      stack.GiveBack(argv.value, argc, o.sp);
    }
  }
}
