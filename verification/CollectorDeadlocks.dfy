/**
 Deadlock between the collector and a thread with two contexts (jsapi.c, jsgc.c): by which steps
 it begins, that it never ends, and how a thread avoids it.
 */
module CollectorDeadlocks {
  import opened Interlock
  import opened Options

  /** The thread that takes the step, or that is notified. */
  ghost function Actor(s: State, a: Action): Thread
    requires WellFormed(s) && Enabled(s, a)
  {
    match a
    case Begin(c) => s.thread[c]
    case End(c) => s.thread[c]
    case Yield(c) => s.thread[c]
    case YieldAgain(t) => t
    case StartGC(c) => s.thread[c]
    case FinishGC(_) => s.gcThread.value
    case AwaitScope(c) => s.thread[c]
    case Wake(t) => t
    case Notify(t) => t
  }

  /** Only thread u and its contexts change, except that others may be notified. */
  ghost predicate OnlyMoves(s: State, s': State, u: Thread)
    requires WellFormed(s)
  {
    && WellFormed(s') && s'.thread == s.thread
    && (forall t :: t in s'.pc <==> t in s.pc)
    && (forall t :: t in s.pc && t != u ==> s'.pc[t] == s.pc[t] || s'.pc[t] == NotifyPc(s.pc[t]))
    && (forall c :: c in s.depth && s.thread[c] != u ==> s'.depth[c] == s.depth[c])
  }

  lemma DecrementMoves(s: State, k: nat, u: Thread)
    requires WellFormed(s)
    ensures OnlyMoves(s, Decrement(s, k), u)
  {
  }

  lemma SleepMoves(s: State, u: Thread, w: Wait)
    requires WellFormed(s) && u in s.pc
    ensures OnlyMoves(s, Sleep(s, u, w), u)
  {
  }

  lemma EnterMoves(s: State, u: Thread, c: Ctx, depth: nat)
    requires WellFormed(s) && u in s.pc && c in s.depth && s.thread[c] == u
    ensures OnlyMoves(s, Enter(s, u, c, depth), u)
  {
  }

  lemma CollectMoves(s: State, u: Thread)
    requires WellFormed(s) && u in s.pc
    ensures OnlyMoves(s, Collect(s, u), u)
  {
  }

  lemma StartGCMoves(s: State, c: Ctx)
    requires WellFormed(s) && Enabled(s, StartGC(c))
    ensures OnlyMoves(s, Next(s, StartGC(c)), s.thread[c])
  {
    hide Decrement, Sleep, Collect, Open;
    var t := s.thread[c];
    if s.gcThread != Some(t) {
      var d := |Open(s, t)|;
      DecrementMoves(s, d, t);
      JoinMoves(s, if d > 0 then Decrement(s, d) else s, t, d);
    }
  }

  lemma JoinMoves(s: State, s1: State, t: Thread, d: nat)
    requires WellFormed(s) && t in s.pc && OnlyMoves(s, s1, t)
    ensures OnlyMoves(s, RaisedLevel(Sleep(s1, t, ForOtherGC(d))), t)
    ensures OnlyMoves(s, Collect(s1.(gcLevel := 1, gcThread := Some(t), debit := d), t), t)
  {
    hide Sleep, Collect;
    SleepMoves(s1, t, ForOtherGC(d));
    var s2 := s1.(gcLevel := 1, gcThread := Some(t), debit := d);
    CollectMoves(s2, t);
  }

  lemma WakeMoves(s: State, t: Thread)
    requires WellFormed(s) && Enabled(s, Wake(t)) && PcOk(s, t)
    ensures OnlyMoves(s, Next(s, Wake(t)), t)
  {
    hide Sleep, Enter, Collect, Open;
    match s.pc[t].wait
    case ForBegin(c) =>
      SleepMoves(s, t, ForBegin(c));
      EnterMoves(s, t, c, 1);
    case ForYield(c) =>
      SleepMoves(s, t, ForYield(c));
      EnterMoves(s, t, c, s.depth[c]);
    case ForOtherGC(d) => SleepMoves(s, t, ForOtherGC(d));
    case ForRequests => CollectMoves(s, t);
    case ForScope(c, save) =>
      SleepMoves(s, t, ForScopeGC(c, save));
      EnterMoves(s, t, c, save);
    case ForScopeGC(c, save) =>
      SleepMoves(s, t, ForScopeGC(c, save));
      EnterMoves(s, t, c, save);
  }

  lemma BeginMoves(s: State, c: Ctx)
    requires WellFormed(s) && Enabled(s, Begin(c))
    ensures OnlyMoves(s, Next(s, Begin(c)), s.thread[c])
  {
    hide Sleep, Enter;
    SleepMoves(s, s.thread[c], ForBegin(c));
    EnterMoves(s, s.thread[c], c, 1);
  }

  /** Leaving a request, or stepping out of it, and counting down. */
  lemma LeaveMoves(s: State, c: Ctx, d: nat, p: Pc)
    requires WellFormed(s) && Runs(s, c)
    ensures var s1 := s.(depth := s.depth[c := d], pc := s.pc[s.thread[c] := p]);
            && OnlyMoves(s, s1, s.thread[c]) && OnlyMoves(s, Decrement(s1, 1), s.thread[c])
  {
    hide Decrement;
    var s1 := s.(depth := s.depth[c := d], pc := s.pc[s.thread[c] := p]);
    DecrementMoves(s1, 1, s.thread[c]);
  }

  lemma EndMoves(s: State, c: Ctx)
    requires WellFormed(s) && Enabled(s, End(c))
    ensures OnlyMoves(s, Next(s, End(c)), s.thread[c])
  {
    hide Decrement, OnlyMoves;
    LeaveMoves(s, c, s.depth[c] - 1, Running);
    assert s.pc[s.thread[c] := Running] == s.pc;
  }

  lemma YieldMoves(s: State, c: Ctx)
    requires WellFormed(s) && Enabled(s, Yield(c))
    ensures OnlyMoves(s, Next(s, Yield(c)), s.thread[c])
  {
    hide Decrement, OnlyMoves;
    LeaveMoves(s, c, s.depth[c], Yielding(c));
    assert s.depth[c := s.depth[c]] == s.depth;
  }

  lemma AwaitScopeMoves(s: State, c: Ctx)
    requires WellFormed(s) && Enabled(s, AwaitScope(c))
    ensures OnlyMoves(s, Next(s, AwaitScope(c)), s.thread[c])
  {
    hide Decrement, Sleep;
    var t, w := s.thread[c], ForScope(c, s.depth[c]);
    LeaveMoves(s, c, 0, Running);
    assert s.pc[t := Running] == s.pc;
    var s1 := Decrement(s.(depth := s.depth[c := 0]), 1);
    SleepMoves(s1, t, w);
    SleepMoves(s, t, w);
  }

  /** All that can happen to a thread by another one's step is that it is notified. */
  lemma StepMoves(s: State, a: Action)
    requires Inv(s) && Enabled(s, a)
    ensures Actor(s, a) in s.pc && OnlyMoves(s, Next(s, a), Actor(s, a))
  {
    hide Conserved, CollectorOk, Sleep, Enter, Decrement, Collect;
    match a
    case Begin(c) => BeginMoves(s, c);
    case End(c) => EndMoves(s, c);
    case Yield(c) => YieldMoves(s, c);
    case AwaitScope(c) => AwaitScopeMoves(s, c);
    case StartGC(c) => StartGCMoves(s, c);
    case Wake(t) => WakeMoves(s, t);
    case YieldAgain(t) =>
      assert PcOk(s, t);
      SleepMoves(s, t, ForYield(s.pc[t].c));
      EnterMoves(s, t, s.pc[t].c, s.depth[s.pc[t].c]);
    case FinishGC(_) =>
    case Notify(_) =>
  }

  /** The contexts of t that the collector has to wait for. */
  ghost function BusyOn(s: State, t: Thread): set<Ctx>
    requires WellFormed(s)
  {
    set c | c in Open(s, t) && !Released(s, c)
  }

  /** Another thread has begun a collection, and waits for requests to end. */
  ghost predicate Pending(s: State, t: Thread) {
    s.gcThread.Some? && s.gcThread != Some(t) && !s.gcRunning
  }

  /** t waits on gcDone before it enters a request, or will do so before anything else. */
  ghost predicate Halted(s: State, t: Thread) {
    && t in s.pc
    && match s.pc[t]
       case Running => false
       case Yielding(_) => true
       case Asleep(w, _) => w.ForBegin? || w.ForYield? || w.ForScopeGC? || (w.ForScope? && w.save > 0)
  }

  /** t waits for the collector, and the collector for t. */
  ghost predicate Stuck(s: State, t: Thread)
    requires WellFormed(s)
  {
    Pending(s, t) && Halted(s, t) && BusyOn(s, t) != {}
  }

  lemma OthersKeep(s: State, s': State, u: Thread, t: Thread)
    requires WellFormed(s) && t in s.pc && OnlyMoves(s, s', u) && t != u
    ensures Open(s', t) == Open(s, t) && BusyOn(s', t) == BusyOn(s, t)
    ensures Halted(s', t) <==> Halted(s, t)
    ensures OneOpen(s', t) <==> OneOpen(s, t)
  {
    OpenFrame(s, s', t);
  }

  /** A busy context on a thread that does not collect counts as a request. */
  lemma BusyIsCounted(s: State, t: Thread)
    requires Inv(s) && BusyOn(s, t) != {} && s.gcThread != Some(t) && !s.gcRunning
    ensures s.requestCount > 0
  {
    var c :| c in BusyOn(s, t);
    if s.gcThread.Some? {
      var u := s.gcThread.value;
      assert PcOk(s, u);
      assert Open(s, u) <= Busy(s) - {c};
      CardinalityMonotone(Open(s, u), Busy(s) - {c});
    } else {
      assert c in Busy(s);
    }
  }

  /** A collection goes on waiting for as long as requests are counted. */
  lemma PendingStays(s: State, a: Action, t: Thread)
    requires Inv(s) && Enabled(s, a) && Pending(s, t) && s.requestCount > 0 && WellFormed(Next(s, a))
    ensures Pending(Next(s, a), t) && Next(s, a).gcThread == s.gcThread
  {
    if a.Wake? {
      assert PcOk(s, a.t);
    }
  }

  /** Whatever happens, the two go on waiting for each other: the collection never runs. */
  lemma StuckStays(s: State, a: Action, t: Thread)
    requires Inv(s) && Enabled(s, a) && Stuck(s, t)
    ensures Inv(Next(s, a)) && Stuck(Next(s, a), t) && Next(s, a).gcThread == s.gcThread
  {
    StepKeepsInv(s, a);
    BusyIsCounted(s, t);
    PendingStays(s, a, t);
    if Actor(s, a) != t {
      StepMoves(s, a);
      OthersKeep(s, Next(s, a), Actor(s, a), t);
    }
  }

  /**
   The steps by which t gets stuck: it starts, yields or suspends one request while another one is
   open and a collection is pending, or is already halted with one open when a collection starts.
   */
  ghost predicate Closes(s: State, a: Action, t: Thread)
    requires WellFormed(s)
  {
    match a
    case Begin(c) => Runs(s, c) && s.thread[c] == t && s.depth[c] == 0 && Pending(s, t) && Open(s, t) != {}
    case Yield(c) => Runs(s, c) && s.thread[c] == t && Pending(s, t) && Open(s, t) != {c}
    case AwaitScope(c) => Runs(s, c) && s.thread[c] == t && s.depth[c] > 0 && Pending(s, t) && Open(s, t) != {c}
    case StartGC(c) => Runs(s, c) && s.thread[c] != t && s.gcThread == None && Halted(s, t) && BusyOn(s, t) != {}
    case _ => false
  }

  /** A thread does not get stuck by another one's step, unless that begins a collection. */
  lemma StuckByOther(s: State, a: Action, t: Thread)
    requires Inv(s) && Enabled(s, a) && t in s.pc && !Stuck(s, t) && Actor(s, a) != t && Inv(Next(s, a))
    ensures Stuck(Next(s, a), t) <==> Closes(s, a, t)
  {
    hide BusyOn, Halted, Conserved, OnlyMoves, Open, OneOpen;
    StepMoves(s, a);
    OthersKeep(s, Next(s, a), Actor(s, a), t);
    if a.StartGC? && s.gcThread == None && BusyOn(s, t) != {} {
      StartsPending(s, a.c, t);
    }
  }

  lemma StartsPending(s: State, c: Ctx, t: Thread)
    requires Inv(s) && Enabled(s, StartGC(c)) && s.gcThread == None && s.thread[c] != t && BusyOn(s, t) != {}
    requires Inv(Next(s, StartGC(c))) && BusyOn(Next(s, StartGC(c)), t) != {}
    ensures Pending(Next(s, StartGC(c)), t)
  {
    var s' := Next(s, StartGC(c));
    var x :| x in BusyOn(s', t);
    assert x in Busy(s');
  }

  lemma StuckByStarting(s: State, c: Ctx)
    requires Inv(s) && Enabled(s, Begin(c)) && WellFormed(Next(s, Begin(c)))
    ensures Stuck(Next(s, Begin(c)), s.thread[c]) <==> Closes(s, Begin(c), s.thread[c])
  {
    var t, s' := s.thread[c], Next(s, Begin(c));
    if s.depth[c] == 0 && s.gcThread != Some(t) && s.gcLevel > 0 {
      assert BusyOn(s', t) == Open(s, t);
    }
  }

  lemma StuckByReleasing(s: State, a: Action, c: Ctx)
    requires Inv(s) && Enabled(s, a) && (a == Yield(c) || a == AwaitScope(c)) && WellFormed(Next(s, a))
    ensures Stuck(Next(s, a), s.thread[c]) <==> Closes(s, a, s.thread[c])
  {
    var t, s' := s.thread[c], Next(s, a);
    if s.depth[c] > 0 {
      assert BusyOn(s', t) == Open(s, t) - {c};
      assert c in Open(s, t);
    }
  }

  lemma StuckByItself(s: State, a: Action, t: Thread)
    requires Inv(s) && Enabled(s, a) && t in s.pc && !Stuck(s, t) && Actor(s, a) == t && Inv(Next(s, a))
    ensures Stuck(Next(s, a), t) <==> Closes(s, a, t)
  {
    match a
    case Begin(c) => StuckByStarting(s, c);
    case Yield(c) => StuckByReleasing(s, a, c);
    case AwaitScope(c) => StuckByReleasing(s, a, c);
    case Wake(_) => NotStuckByWaking(s, t);
    case _ => NotStuckOtherwise(s, a, t);
  }

  lemma NotStuckByWaking(s: State, t: Thread)
    requires Inv(s) && Enabled(s, Wake(t)) && !Stuck(s, t) && WellFormed(Next(s, Wake(t)))
    ensures !Stuck(Next(s, Wake(t)), t)
  {
    var s' := Next(s, Wake(t));
    assert PcOk(s, t);
    if Halted(s', t) {
      assert Halted(s, t) && BusyOn(s', t) == BusyOn(s, t);
    }
  }

  lemma NotStuckOtherwise(s: State, a: Action, t: Thread)
    requires Inv(s) && Enabled(s, a) && !Stuck(s, t) && Actor(s, a) == t && WellFormed(Next(s, a))
    requires a.End? || a.YieldAgain? || a.StartGC? || a.FinishGC? || a.Notify?
    ensures !Stuck(Next(s, a), t)
  {
    hide Conserved;
    var s' := Next(s, a);
    if a.StartGC? {
      CollectorNotHalted(s, a.c);
    } else if Halted(s', t) {
      assert Halted(s, t) && BusyOn(s', t) == BusyOn(s, t);
    }
  }

  lemma CollectorNotHalted(s: State, c: Ctx)
    requires WellFormed(s) && Enabled(s, StartGC(c))
    ensures var s', t := Next(s, StartGC(c)), s.thread[c];
            && !Halted(s', t) && s'.depth == s.depth && s'.thread == s.thread
            && (t in s'.pc ==> !(s'.pc[t].Asleep? && s'.pc[t].wait.ForScope?))
  {
    hide Open;
  }

  /** And by no other step, and by each of these. */
  lemma StuckBegins(s: State, a: Action, t: Thread)
    requires Inv(s) && Enabled(s, a) && t in s.pc && !Stuck(s, t)
    ensures Inv(Next(s, a)) && (Stuck(Next(s, a), t) <==> Closes(s, a, t))
  {
    StepKeepsInv(s, a);
    if Actor(s, a) == t {
      StuckByItself(s, a, t);
    } else {
      StuckByOther(s, a, t);
    }
  }

  lemma {:induction false} StuckForEver(states: seq<State>, acts: seq<Action>, i: nat, j: nat, t: Thread)
    requires IsRun(states, acts) && i <= j < |states| && WellFormed(states[i]) && Stuck(states[i], t)
    ensures WellFormed(states[j]) && Stuck(states[j], t) && states[j].gcThread == states[i].gcThread
  {
    hide Stuck, Enabled, Next, Conserved, CollectorOk, PcOk;
    if i < j {
      StuckForEver(states, acts, i, j - 1, t);
      RunKeepsInv(states, acts, j - 1);
      StuckStays(states[j - 1], acts[j - 1], t);
    }
  }

  lemma NoneStuck(s: State, t: Thread)
    requires WellFormed(s) && s.gcThread == None
    ensures !Stuck(s, t)
  {
  }

  /** A thread is stuck at some point of a run exactly if it took, or suffered, such a step before. */
  lemma {:induction false} StuckExactly(states: seq<State>, acts: seq<Action>, i: nat, t: Thread)
    requires IsRun(states, acts) && i < |states| && t in states[0].pc
    ensures WellFormed(states[i]) && t in states[i].pc
    ensures Stuck(states[i], t) <==> exists j :: 0 <= j < i && WellFormed(states[j]) && Closes(states[j], acts[j], t)
  {
    hide Stuck, Closes, Enabled, Next, Conserved, CollectorOk, PcOk;
    if i == 0 {
      NoneStuck(states[0], t);
    } else {
      StuckExactly(states, acts, i - 1, t);
      RunKeepsInv(states, acts, i - 1);
      StepMoves(states[i - 1], acts[i - 1]);
      if Stuck(states[i - 1], t) {
        StuckStays(states[i - 1], acts[i - 1], t);
      } else {
        StuckBegins(states[i - 1], acts[i - 1], t);
      }
    }
  }

  // ----- One request per thread -----

  /** t can take a step without anybody else's help. */
  ghost predicate CanMove(s: State, t: Thread) {
    t in s.pc && (s.pc[t].Asleep? ==> s.pc[t].notified)
  }

  /** A context starts a request only when no other context of its thread is in one. */
  ghost predicate Disciplined(s: State, a: Action)
    requires WellFormed(s)
  {
    && (a.Begin? && a.c in s.depth ==> Open(s, s.thread[a.c]) <= {a.c})
    && (a.AwaitScope? && a.c in s.depth ==> Open(s, s.thread[a.c]) <= {a.c})
  }

  ghost predicate AtMostOne(a: set<Ctx>) {
    forall x, y :: x in a && y in a ==> x == y
  }

  /** t has at most one context in a request, and none while it waits to enter one. */
  ghost predicate OneOpen(s: State, t: Thread)
    requires WellFormed(s) && t in s.pc
  {
    if s.pc[t].Asleep? && (s.pc[t].wait.ForBegin? || s.pc[t].wait.ForScope? || s.pc[t].wait.ForScopeGC?)
    then Open(s, t) == {}
    else AtMostOne(Open(s, t))
  }

  ghost predicate OneRequest(s: State) {
    WellFormed(s) && forall t :: t in s.pc ==> OneOpen(s, t)
  }

  /** A thread's own steps open one request at most, and only where none is open. */
  lemma OwnStepKeepsOneOpen(s: State, a: Action, t: Thread)
    requires Inv(s) && Enabled(s, a) && Disciplined(s, a) && Actor(s, a) == t && OneOpen(s, t)
    requires WellFormed(Next(s, a)) && t in Next(s, a).pc
    ensures OneOpen(Next(s, a), t)
  {
    hide Conserved, CollectorOk;
    assert PcOk(s, t);
    match a
    case Begin(c) => OwnBeginKeepsOneOpen(s, c);
    case Wake(_) => OwnWakeKeepsOneOpen(s, t);
    case AwaitScope(c) => OwnAwaitKeepsOneOpen(s, c);
    case StartGC(c) => OwnStartGCKeepsOneOpen(s, c);
    case _ => OwnOtherKeepsOneOpen(s, a, t);
  }

  lemma OwnBeginKeepsOneOpen(s: State, c: Ctx)
    requires WellFormed(s) && Enabled(s, Begin(c)) && Open(s, s.thread[c]) <= {c} && WellFormed(Next(s, Begin(c)))
    ensures OneOpen(Next(s, Begin(c)), s.thread[c])
  {
    assert s.depth[c] == 0 ==> c !in Open(s, s.thread[c]);
    assert Open(Next(s, Begin(c)), s.thread[c]) <= Open(s, s.thread[c]) + {c};
  }

  lemma OwnAwaitKeepsOneOpen(s: State, c: Ctx)
    requires WellFormed(s) && Enabled(s, AwaitScope(c)) && Open(s, s.thread[c]) <= {c}
    requires WellFormed(Next(s, AwaitScope(c)))
    ensures OneOpen(Next(s, AwaitScope(c)), s.thread[c])
  {
    assert Open(Next(s, AwaitScope(c)), s.thread[c]) <= Open(s, s.thread[c]) - {c};
  }

  lemma OwnWakeKeepsOneOpen(s: State, t: Thread)
    requires WellFormed(s) && Enabled(s, Wake(t)) && PcOk(s, t) && OneOpen(s, t)
    requires WellFormed(Next(s, Wake(t))) && t in Next(s, Wake(t)).pc
    ensures OneOpen(Next(s, Wake(t)), t)
  {
    var s' := Next(s, Wake(t));
    match s.pc[t].wait
    case ForBegin(c) => assert Open(s', t) <= Open(s, t) + {c};
    case ForScope(c, _) => assert Open(s', t) <= Open(s, t) + {c};
    case ForScopeGC(c, _) => assert Open(s', t) <= Open(s, t) + {c};
    case _ => assert Open(s', t) <= Open(s, t);
  }

  lemma OwnOtherKeepsOneOpen(s: State, a: Action, t: Thread)
    requires WellFormed(s) && Enabled(s, a) && Actor(s, a) == t && t in s.pc && PcOk(s, t) && OneOpen(s, t)
    requires a.End? || a.Yield? || a.YieldAgain? || a.FinishGC? || a.Notify?
    requires WellFormed(Next(s, a)) && t in Next(s, a).pc
    ensures OneOpen(Next(s, a), t)
  {
    assert Open(Next(s, a), t) <= Open(s, t);
  }

  lemma OwnStartGCKeepsOneOpen(s: State, c: Ctx)
    requires WellFormed(s) && Enabled(s, StartGC(c)) && OneOpen(s, s.thread[c])
    requires WellFormed(Next(s, StartGC(c))) && s.thread[c] in Next(s, StartGC(c)).pc
    ensures OneOpen(Next(s, StartGC(c)), s.thread[c])
  {
    hide Next;
    CollectorNotHalted(s, c);
    assert Open(Next(s, StartGC(c)), s.thread[c]) == Open(s, s.thread[c]);
  }

  lemma StepKeepsOneRequest(s: State, a: Action)
    requires Inv(s) && OneRequest(s) && Enabled(s, a) && Disciplined(s, a)
    ensures OneRequest(Next(s, a))
  {
    hide Next, Enabled, Disciplined, OneOpen, Conserved, CollectorOk, PcOk;
    StepKeepsInv(s, a);
    StepMoves(s, a);
    forall t | t in Next(s, a).pc
      ensures OneOpen(Next(s, a), t)
    {
      if t == Actor(s, a) {
        OwnStepKeepsOneOpen(s, a, t);
      } else {
        OthersKeep(s, Next(s, a), Actor(s, a), t);
      }
    }
  }

  ghost predicate IsDisciplinedRun(states: seq<State>, acts: seq<Action>) {
    IsRun(states, acts) &&
    forall i :: 0 <= i < |acts| ==> WellFormed(states[i]) && Disciplined(states[i], acts[i])
  }

  lemma {:induction false} DisciplineKeepsOneRequest(states: seq<State>, acts: seq<Action>, i: nat)
    requires IsDisciplinedRun(states, acts) && i < |states|
    ensures OneRequest(states[i])
  {
    if i == 0 {
      assert WellFormed(states[0]) && forall t :: t in states[0].pc ==> Open(states[0], t) == {};
    } else {
      DisciplineKeepsOneRequest(states, acts, i - 1);
      RunKeepsInv(states, acts, i - 1);
      StepKeepsOneRequest(states[i - 1], acts[i - 1]);
    }
  }

  /**
   In a disciplined run the collector only ever waits for threads that are running, so a
   pending collection never leaves every thread asleep.
   */
  lemma CollectorWaitsForRunningThreads(states: seq<State>, acts: seq<Action>, i: nat)
    requires IsDisciplinedRun(states, acts) && i < |states| && WellFormed(states[i])
    ensures var s := states[i];
            s.gcThread.Some? && !s.gcRunning ==>
              (forall c :: c in Busy(s) && s.thread[c] != s.gcThread.value ==> Runs(s, c))
    ensures states[i].gcThread.Some? ==> exists t :: CanMove(states[i], t)
  {
    var s := states[i];
    RunKeepsInv(states, acts, i);
    DisciplineKeepsOneRequest(states, acts, i);
    if s.gcThread.Some? && !s.gcRunning {
      var t0 := s.gcThread.value;
      assert PcOk(s, t0);
      forall c | c in Busy(s) && s.thread[c] != t0
        ensures Runs(s, c)
      {
        var t := s.thread[c];
        assert PcOk(s, t) && OneOpen(s, t) && c in Open(s, t);
        YielderIsOpen(s, t);
      }
      if s.pc[t0].notified {
        assert CanMove(s, t0);
      } else {
        var c := SomeOther(s, t0);
        assert CanMove(s, s.thread[c]);
      }
    } else if s.gcThread.Some? {
      assert PcOk(s, s.gcThread.value);
      assert CanMove(s, s.gcThread.value);
    }
  }

  lemma YielderIsOpen(s: State, t: Thread)
    requires WellFormed(s) && t in s.pc && PcOk(s, t)
    ensures s.pc[t].Yielding? ==> s.pc[t].c in Open(s, t)
    ensures s.pc[t].Asleep? && s.pc[t].wait.ForYield? ==> s.pc[t].wait.c in Open(s, t)
  {
  }

  /** A positive count means that somebody other than the waiting collector is busy. */
  lemma SomeOther(s: State, t0: Thread) returns (c: Ctx)
    requires Inv(s) && s.gcThread == Some(t0) && !s.gcRunning && s.requestCount > 0
    ensures c in Busy(s) && s.thread[c] != t0
  {
    if Busy(s) <= Open(s, t0) {
      CardinalityMonotone(Busy(s), Open(s, t0));
      assert false;
    } else {
      c :| c in Busy(s) && c !in Open(s, t0);
    }
  }

  /** In a disciplined run no thread is ever stuck. */
  lemma DisciplinePreventsDeadlock(states: seq<State>, acts: seq<Action>, i: nat, t: Thread)
    requires IsDisciplinedRun(states, acts) && i < |states|
    ensures WellFormed(states[i]) && !Stuck(states[i], t)
  {
    var s := states[i];
    RunKeepsInv(states, acts, i);
    DisciplineKeepsOneRequest(states, acts, i);
    if Stuck(s, t) {
      assert PcOk(s, t) && OneOpen(s, t);
      YielderIsOpen(s, t);
    }
  }

  /**
   Without the discipline one can be: thread 1 has context 11 in a request when thread 0 starts to
   collect, and then begins a request on its second context 12.  The collector sleeps until 11
   leaves, thread 1 sleeps until the collection is over, and neither is ever going to happen.
   */
  lemma TwoContextsDeadlock() returns (states: seq<State>, acts: seq<Action>)
    ensures IsRun(states, acts) && |acts| == 3
    ensures states[3].gcThread == Some(0) && (forall t :: !CanMove(states[3], t))
    ensures WellFormed(states[3]) && Stuck(states[3], 1)
  {
    FirstStages();
    LastStage();
    states, acts := ThreeSteps(Stage(0), Stage(1), Stage(2), Stage(3), Begin(11), StartGC(0), Begin(12));
  }

  lemma ThreeSteps(s0: State, s1: State, s2: State, s3: State, a0: Action, a1: Action, a2: Action)
    returns (states: seq<State>, acts: seq<Action>)
    requires Init(s0) && Enabled(s0, a0) && s1 == Next(s0, a0)
    requires WellFormed(s1) && Enabled(s1, a1) && s2 == Next(s1, a1)
    requires WellFormed(s2) && Enabled(s2, a2) && s3 == Next(s2, a2)
    ensures IsRun(states, acts) && |acts| == 3 && states[3] == s3
  {
    hide Next;
    states, acts := [s0, s1, s2, s3], [a0, a1, a2];
  }

  ghost function Stage(n: nat): State {
    var pc := if n < 2 then map[0 := Running, 1 := Running]
              else map[0 := Asleep(ForRequests, false),
                       1 := if n == 2 then Running else Asleep(ForBegin(12), false)];
    State(map[0 := 0, 11 := 1, 12 := 1], map[0 := 0, 11 := if n == 0 then 0 else 1, 12 := 0], pc,
          if n == 0 then 0 else 1, if n < 2 then 0 else 1, if n < 2 then None else Some(0), false, 0)
  }

  lemma FirstStages()
    ensures Init(Stage(0)) && Enabled(Stage(0), Begin(11)) && Stage(1) == Next(Stage(0), Begin(11))
    ensures WellFormed(Stage(1)) && Enabled(Stage(1), StartGC(0)) && Stage(2) == Next(Stage(1), StartGC(0))
  {
    assert Open(Stage(1), 0) == {};
  }

  lemma LastStage()
    ensures WellFormed(Stage(2)) && Enabled(Stage(2), Begin(12)) && Stage(3) == Next(Stage(2), Begin(12))
    ensures Stage(3).gcThread == Some(0) && (forall t :: !CanMove(Stage(3), t))
    ensures WellFormed(Stage(3)) && Stuck(Stage(3), 1)
  {
    assert 11 in BusyOn(Stage(3), 1);
  }
}
