/**
 The interlock between requests and the garbage collector: JS_BeginRequest, JS_EndRequest and
 JS_YieldRequest (jsapi.c), the entry and exit of js_GC (jsgc.c), and the request suspension
 that ClaimScope inlines (jslock.c).  One step is what a thread does between acquiring gcLock
 and releasing it or going to sleep on a condition variable.
 */
module Interlock {
  import opened Options

  type Thread = nat
  type Ctx = nat

  /** Why a thread sleeps.  All but ForRequests and ForScope wait on gcDone. */
  datatype Wait =
    | ForBegin(c: Ctx)
    | ForYield(c: Ctx)
    | ForOtherGC(debit: nat)
    | ForRequests
    | ForScope(c: Ctx, save: nat)
    | ForScopeGC(c: Ctx, save: nat)

  datatype Pc =
    | Running
    | Yielding(c: Ctx)                      // between the two critical sections of JS_YieldRequest
    | Asleep(wait: Wait, notified: bool)

  datatype State = State(
    thread: map<Ctx, Thread>,               // cx->thread
    depth: map<Ctx, nat>,                   // cx->requestDepth
    pc: map<Thread, Pc>,
    requestCount: int,
    gcLevel: nat,
    gcThread: Option<Thread>,
    gcRunning: bool,
    debit: nat)                             // the collector's local requestDebit

  datatype Action =
    | Begin(c: Ctx)
    | End(c: Ctx)
    | Yield(c: Ctx)
    | YieldAgain(t: Thread)
    | StartGC(c: Ctx)
    | FinishGC(poke: bool)
    | AwaitScope(c: Ctx)
    | Wake(t: Thread)
    | Notify(t: Thread)                     // scopeSharingDone, or a spurious wakeup

  ghost predicate WellFormed(s: State) {
    && s.depth.Keys == s.thread.Keys
    && (forall c :: c in s.thread ==> s.thread[c] in s.pc)
    && (s.gcThread.Some? ==> s.gcThread.value in s.pc)
  }

  /** The contexts of thread t that are in a request. */
  ghost function Open(s: State, t: Thread): set<Ctx>
    requires WellFormed(s)
  {
    set c | c in s.depth && s.depth[c] > 0 && s.thread[c] == t
  }

  /** c has stepped out of its request: it yields, or its thread waits for another GC. */
  ghost predicate Released(s: State, c: Ctx)
    requires WellFormed(s) && c in s.depth
  {
    match s.pc[s.thread[c]]
    case Yielding(c') => c == c'
    case Asleep(ForYield(c'), _) => c == c'
    case Asleep(ForOtherGC(_), _) => true
    case _ => false
  }

  /** The contexts that are in a request and have not stepped out of it. */
  ghost function Busy(s: State): set<Ctx>
    requires WellFormed(s)
  {
    set c | c in s.depth && s.depth[c] > 0 && !Released(s, c)
  }

  ghost predicate Runs(s: State, c: Ctx)
    requires WellFormed(s)
  {
    c in s.depth && s.pc[s.thread[c]] == Running
  }

  ghost predicate OnGCThread(s: State, c: Ctx)
    requires WellFormed(s) && c in s.depth
  {
    s.gcThread == Some(s.thread[c])
  }

  /** What the code demands of its callers: the running thread, and its own assertions. */
  ghost predicate Enabled(s: State, a: Action)
    requires WellFormed(s)
  {
    match a
    case Begin(c) => Runs(s, c)
    case End(c) => Runs(s, c) && s.depth[c] > 0 && (s.depth[c] == 1 ==> s.requestCount > 0)
    case Yield(c) => Runs(s, c) && s.depth[c] > 0 && s.requestCount > 0
    case YieldAgain(t) => t in s.pc && s.pc[t].Yielding? && s.pc[t].c in s.depth
    case StartGC(c) => Runs(s, c)
    case FinishGC(_) => s.gcRunning && s.gcThread.Some? && s.pc[s.gcThread.value] == Running
    case AwaitScope(c) => Runs(s, c) && !OnGCThread(s, c) && (s.depth[c] > 0 ==> s.requestCount > 0)
    case Wake(t) => t in s.pc && s.pc[t].Asleep? && s.pc[t].notified
                    && (s.pc[t].wait.ForYield? ==> s.pc[t].wait.c in s.depth)
    case Notify(t) => t in s.pc && s.pc[t].Asleep?
  }

  ghost predicate OnGCDone(w: Wait) {
    !w.ForRequests? && !w.ForScope?
  }

  ghost function NotifyPc(p: Pc): Pc {
    if p.Asleep? then p.(notified := true) else p
  }

  /** rt->requestCount -= k, notifying requestDone when it reaches zero. */
  ghost function Decrement(s: State, k: nat): State
    requires WellFormed(s)
  {
    var n := s.requestCount - k;
    var pc := if n == 0 && s.gcThread.Some? && s.pc[s.gcThread.value].Asleep?
              then s.pc[s.gcThread.value := NotifyPc(s.pc[s.gcThread.value])] else s.pc;
    s.(requestCount := n, pc := pc)
  }

  /** Re-enter a request: count it and go on. */
  ghost function Enter(s: State, t: Thread, c: Ctx, depth: nat): State {
    s.(requestCount := s.requestCount + 1, depth := s.depth[c := depth], pc := s.pc[t := Running])
  }

  ghost function Sleep(s: State, t: Thread, w: Wait): State {
    s.(pc := s.pc[t := Asleep(w, false)])
  }

  /** The tail of JS_YieldRequest and the loop in JS_BeginRequest: wait while a GC is on. */
  ghost function EnterOrSleep(s: State, t: Thread, c: Ctx, depth: nat, w: Wait): State {
    if s.gcThread != Some(t) && s.gcLevel > 0 then Sleep(s, t, w) else Enter(s, t, c, depth)
  }

  ghost function RaisedLevel(s: State): State {
    s.(gcLevel := s.gcLevel + 1)
  }

  ghost function Collect(s: State, t: Thread): State {
    if s.requestCount > 0 then Sleep(s, t, ForRequests)
    else s.(gcRunning := true, pc := s.pc[t := Running])
  }

  ghost function Next(s: State, a: Action): State
    requires WellFormed(s) && Enabled(s, a)
  {
    match a
    case Begin(c) =>
      if s.depth[c] > 0 then s.(depth := s.depth[c := s.depth[c] + 1])
      else EnterOrSleep(s, s.thread[c], c, 1, ForBegin(c))
    case End(c) =>
      if s.depth[c] == 1 then Decrement(s.(depth := s.depth[c := 0]), 1)
      else s.(depth := s.depth[c := s.depth[c] - 1])
    case Yield(c) =>
      Decrement(s.(pc := s.pc[s.thread[c] := Yielding(c)]), 1)
    case YieldAgain(t) =>
      var c := s.pc[t].c;
      EnterOrSleep(s, t, c, s.depth[c], ForYield(c))
    case StartGC(c) =>
      var t := s.thread[c];
      if s.gcThread == Some(t) then RaisedLevel(s)
      else
        var d := |Open(s, t)|;
        var s' := if d > 0 then Decrement(s, d) else s;
        if s'.gcLevel > 0 then RaisedLevel(Sleep(s', t, ForOtherGC(d)))
        else Collect(s'.(gcLevel := 1, gcThread := Some(t), debit := d), t)
    case FinishGC(poke) =>
      if s.gcLevel > 1 || poke then s.(gcLevel := 1)
      else s.(gcLevel := 0, gcRunning := false, gcThread := None, debit := 0,
              requestCount := s.requestCount + s.debit,
              pc := map t | t in s.pc :: if s.pc[t].Asleep? && OnGCDone(s.pc[t].wait)
                                         then NotifyPc(s.pc[t]) else s.pc[t])
    case AwaitScope(c) =>
      var t := s.thread[c];
      var s' := if s.depth[c] > 0 then Decrement(s.(depth := s.depth[c := 0]), 1) else s;
      Sleep(s', t, ForScope(c, s.depth[c]))
    case Wake(t) =>
      (match s.pc[t].wait
       case ForBegin(c) =>
         if s.gcLevel > 0 then Sleep(s, t, ForBegin(c)) else Enter(s, t, c, 1)
       case ForYield(c) =>
         if s.gcLevel > 0 then Sleep(s, t, ForYield(c)) else Enter(s, t, c, s.depth[c])
       case ForOtherGC(d) =>
         if s.gcLevel > 0 then Sleep(s, t, ForOtherGC(d))
         else s.(requestCount := s.requestCount + d, pc := s.pc[t := Running])
       case ForRequests => Collect(s, t)
       case ForScope(c, save) =>
         if save == 0 then s.(pc := s.pc[t := Running])
         else EnterOrSleep(s, t, c, save, ForScopeGC(c, save))
       case ForScopeGC(c, save) =>
         if s.gcLevel > 0 then Sleep(s, t, ForScopeGC(c, save)) else Enter(s, t, c, save))
    case Notify(t) => s.(pc := s.pc[t := NotifyPc(s.pc[t])])
  }

  ghost predicate Init(s: State) {
    && WellFormed(s)
    && (forall c :: c in s.depth ==> s.depth[c] == 0)
    && (forall t :: t in s.pc ==> s.pc[t] == Running)
    && s.requestCount == 0 && s.gcLevel == 0 && s.gcThread == None && !s.gcRunning && s.debit == 0
  }

  // ----- The inductive invariant -----

  /** Each thread's position agrees with the contexts it is working for. */
  ghost predicate PcOk(s: State, t: Thread)
    requires WellFormed(s) && t in s.pc
  {
    match s.pc[t]
    case Running => true
    case Yielding(c) => c in s.depth && s.thread[c] == t && s.depth[c] > 0
    case Asleep(w, notified) =>
      && (w.ForRequests? <==> s.gcThread == Some(t))
      && (!notified && OnGCDone(w) ==> s.gcLevel > 0)
      && (!notified && w.ForRequests? ==> s.requestCount > 0)
      && (match w
          case ForBegin(c) => c in s.depth && s.thread[c] == t && s.depth[c] == 0
          case ForYield(c) => c in s.depth && s.thread[c] == t && s.depth[c] > 0
          case ForOtherGC(d) => d == |Open(s, t)|
          case ForRequests => !s.gcRunning
          case ForScope(c, save) => c in s.depth && s.thread[c] == t && s.depth[c] == 0
          case ForScopeGC(c, save) => c in s.depth && s.thread[c] == t && s.depth[c] == 0 && save > 0)
  }

  ghost predicate PcsOk(s: State) {
    WellFormed(s) && forall t :: t in s.pc ==> PcOk(s, t)
  }

  /** Conservation: every busy context is counted, except those the collector has debited. */
  ghost predicate Conserved(s: State)
    requires WellFormed(s)
  {
    s.requestCount >= 0 && s.requestCount + s.debit == |Busy(s)|
  }

  /** The collector's own bookkeeping, and the guarantee it relies on while it runs. */
  ghost predicate CollectorOk(s: State)
    requires WellFormed(s)
  {
    match s.gcThread
    case None => s.gcLevel == 0 && !s.gcRunning && s.debit == 0
    case Some(t) =>
      && s.gcLevel > 0
      && (if s.gcRunning then forall c :: c in Busy(s) ==> s.thread[c] == t
          else s.pc[t].Asleep? && s.debit == |Open(s, t)|)
  }

  ghost predicate Inv(s: State) {
    PcsOk(s) && Conserved(s) && CollectorOk(s)
  }

  /** Thread t is running, or its wait or yield concerns context c of its own. */
  ghost predicate WorksFor(s: State, t: Thread, c: Ctx)
    requires WellFormed(s)
  {
    && c in s.depth && s.thread[c] == t
    && match s.pc[t]
       case Running => true
       case Yielding(c') => c == c'
       case Asleep(w, _) => !w.ForRequests? && !w.ForOtherGC? && w.c == c
  }

  lemma OpenFrame(s: State, s': State, t: Thread)
    requires WellFormed(s) && WellFormed(s') && s'.thread == s.thread
    requires forall c :: c in s.thread && s.thread[c] == t ==> (s'.depth[c] > 0 <==> s.depth[c] > 0)
    ensures Open(s', t) == Open(s, t)
  {
  }

  lemma EnterBusy(s: State, t: Thread, c: Ctx, depth: nat)
    requires WellFormed(s) && WorksFor(s, t, c) && depth > 0
    ensures WellFormed(Enter(s, t, c, depth))
    ensures Busy(Enter(s, t, c, depth)) == Busy(s) + {c}
  {
    var s' := Enter(s, t, c, depth);
    forall x | x in s.depth && x != c
      ensures Released(s', x) <==> Released(s, x)
    {
    }
    assert !Released(s', c);
  }

  lemma EnterPcs(s: State, t: Thread, c: Ctx, depth: nat)
    requires PcsOk(s) && WorksFor(s, t, c) && depth > 0
    ensures PcsOk(Enter(s, t, c, depth))
  {
    var s' := Enter(s, t, c, depth);
    forall u | u in s'.pc
      ensures PcOk(s', u)
    {
      assert PcOk(s, u);
      if u != t {
        OpenFrame(s, s', u);
      }
    }
  }

  /** Entering a request adds exactly one busy context. */
  lemma EnterKeepsInv(s: State, t: Thread, c: Ctx, depth: nat)
    requires Inv(s) && WorksFor(s, t, c) && depth > 0 && c !in Busy(s)
    requires s.gcThread == Some(t) || s.gcLevel == 0
    ensures Inv(Enter(s, t, c, depth))
  {
    EnterBusy(s, t, c, depth);
    EnterPcs(s, t, c, depth);
    assert PcOk(s, t);
  }

  lemma SleepKeepsInv(s: State, t: Thread, w: Wait)
    requires Inv(s) && t in s.pc && s.gcThread != Some(t) && !w.ForRequests?
    requires PcOk(Sleep(s, t, w), t)
    requires forall c :: c in s.depth && s.thread[c] == t && s.depth[c] > 0 ==>
               (Released(Sleep(s, t, w), c) <==> Released(s, c))
    ensures Inv(Sleep(s, t, w))
  {
    var s' := Sleep(s, t, w);
    assert Busy(s') == Busy(s);
    SleepPcs(s, t, w);
    if s.gcThread.Some? {
      OpenFrame(s, s', s.gcThread.value);
    }
  }

  lemma SleepPcs(s: State, t: Thread, w: Wait)
    requires PcsOk(s) && t in s.pc && PcOk(Sleep(s, t, w), t)
    ensures PcsOk(Sleep(s, t, w))
  {
    var s' := Sleep(s, t, w);
    forall u | u in s'.pc
      ensures PcOk(s', u)
    {
      if u != t {
        assert PcOk(s, u);
        OpenFrame(s, s', u);
      }
    }
  }

  /** Everything but the count is in order, and the count is k too high. */
  ghost predicate Owing(s: State, k: nat) {
    && PcsOk(s) && CollectorOk(s)
    && s.requestCount >= k && s.requestCount - k + s.debit == |Busy(s)|
  }

  lemma DecrementKeepsInv(s: State, k: nat)
    requires Owing(s, k)
    ensures Inv(Decrement(s, k))
  {
    var s' := Decrement(s, k);
    assert Busy(s') == Busy(s);
    forall u | u in s'.pc
      ensures PcOk(s', u)
    {
      assert PcOk(s, u);
      OpenFrame(s, s', u);
    }
    if s.gcThread.Some? {
      OpenFrame(s, s', s.gcThread.value);
    }
  }

  /** Nested requests leave everything but the depth alone. */
  lemma NestingKeepsInv(s: State, c: Ctx, depth: nat)
    requires Inv(s) && c in s.depth && s.depth[c] > 0 && depth > 0
    ensures Inv(s.(depth := s.depth[c := depth]))
  {
    var s' := s.(depth := s.depth[c := depth]);
    assert Busy(s') == Busy(s);
    forall u | u in s'.pc
      ensures PcOk(s', u) && Open(s', u) == Open(s, u)
    {
      assert PcOk(s, u);
      OpenFrame(s, s', u);
    }
  }

  lemma BeginKeepsInv(s: State, c: Ctx)
    requires Inv(s) && Enabled(s, Begin(c))
    ensures Inv(Next(s, Begin(c)))
  {
    var t := s.thread[c];
    var s' := Next(s, Begin(c));
    if s.depth[c] > 0 {
      NestingKeepsInv(s, c, s.depth[c] + 1);
    } else if s.gcThread != Some(t) && s.gcLevel > 0 {
      SleepKeepsInv(s, t, ForBegin(c));
    } else {
      EnterKeepsInv(s, t, c, 1);
    }
  }

  /** Leaving a request: c stops being busy. */
  lemma LeaveOwes(s: State, c: Ctx)
    requires Inv(s) && Runs(s, c) && s.depth[c] > 0 && s.requestCount > 0
    ensures Owing(s.(depth := s.depth[c := 0]), 1)
  {
    var s' := s.(depth := s.depth[c := 0]);
    var t := s.thread[c];
    assert Busy(s') == Busy(s) - {c};
    forall u | u in s'.pc
      ensures PcOk(s', u)
    {
      assert PcOk(s, u);
      if u != t {
        OpenFrame(s, s', u);
      }
    }
    if s.gcThread.Some? && !s.gcRunning {
      OpenFrame(s, s', s.gcThread.value);
    }
  }

  lemma EndKeepsInv(s: State, c: Ctx)
    requires Inv(s) && Enabled(s, End(c))
    ensures Inv(Next(s, End(c)))
  {
    if s.depth[c] == 1 {
      LeaveOwes(s, c);
      DecrementKeepsInv(s.(depth := s.depth[c := 0]), 1);
    } else {
      NestingKeepsInv(s, c, s.depth[c] - 1);
    }
  }

  lemma YieldKeepsInv(s: State, c: Ctx)
    requires Inv(s) && Enabled(s, Yield(c))
    ensures Inv(Next(s, Yield(c)))
  {
    var t := s.thread[c];
    var s' := s.(pc := s.pc[t := Yielding(c)]);
    assert Busy(s') == Busy(s) - {c};
    forall u | u in s'.pc
      ensures PcOk(s', u) && Open(s', u) == Open(s, u)
    {
      assert PcOk(s, u);
      OpenFrame(s, s', u);
    }
    DecrementKeepsInv(s', 1);
  }

  lemma AwaitScopeKeepsInv(s: State, c: Ctx)
    requires Inv(s) && Enabled(s, AwaitScope(c))
    ensures Inv(Next(s, AwaitScope(c)))
  {
    var t := s.thread[c];
    var w := ForScope(c, s.depth[c]);
    if s.depth[c] > 0 {
      var s' := s.(depth := s.depth[c := 0]);
      LeaveOwes(s, c);
      DecrementKeepsInv(s', 1);
      SleepKeepsInv(Decrement(s', 1), t, w);
    } else {
      SleepKeepsInv(s, t, w);
    }
  }

  lemma YieldAgainKeepsInv(s: State, t: Thread)
    requires Inv(s) && Enabled(s, YieldAgain(t))
    ensures Inv(Next(s, YieldAgain(t)))
  {
    var c := s.pc[t].c;
    assert PcOk(s, t);
    if s.gcThread != Some(t) && s.gcLevel > 0 {
      SleepKeepsInv(s, t, ForYield(c));
    } else {
      EnterKeepsInv(s, t, c, s.depth[c]);
    }
  }

  /** A running thread that does not collect: all its open requests are busy and counted. */
  lemma OpenIsCounted(s: State, t: Thread)
    requires Inv(s) && t in s.pc && s.pc[t] == Running && s.gcThread != Some(t)
    ensures Open(s, t) <= Busy(s) && |Open(s, t)| <= s.requestCount
    ensures s.gcRunning ==> Open(s, t) == {}
  {
    if s.gcThread.Some? && !s.gcRunning {
      var u := s.gcThread.value;
      assert PcOk(s, u);
      assert Open(s, t) !! Open(s, u) && Open(s, t) + Open(s, u) <= Busy(s);
      CardinalityMonotone(Open(s, t) + Open(s, u), Busy(s));
    } else {
      CardinalityMonotone(Open(s, t), Busy(s));
    }
  }

  lemma CardinalityMonotone<T>(a: set<T>, b: set<T>)
    requires a <= b
    ensures |a| <= |b|
    ensures |a| == |b| ==> a == b
  {
    var d := b - a;
    assert b == a + d && a !! d;
  }

  /** The collector starts, or finds the runtime idle and runs at once. */
  lemma CollectKeepsInv(s: State, t: Thread)
    requires PcsButCollector(s, t) && Conserved(s)
    requires s.gcThread == Some(t) && s.gcLevel > 0 && !s.gcRunning && s.debit == |Open(s, t)|
    requires Open(s, t) <= Busy(s)
    ensures Inv(Collect(s, t))
  {
    var s' := Collect(s, t);
    assert Busy(s') == Busy(s);
    forall u | u in s'.pc
      ensures PcOk(s', u) && Open(s', u) == Open(s, u)
    {
      OpenFrame(s, s', u);
    }
    if s.requestCount == 0 {
      CardinalityMonotone(Open(s, t), Busy(s));
    }
  }

  /** Every thread but the collector t, whose contexts are not released, is in order. */
  ghost predicate PcsButCollector(s: State, t: Thread) {
    && WellFormed(s) && t in s.pc
    && (s.pc[t] == Running || (s.pc[t].Asleep? && s.pc[t].wait.ForRequests?))
    && forall u :: u in s.pc && u != t ==> PcOk(s, u)
  }

  lemma StartGCKeepsInv(s: State, c: Ctx)
    requires Inv(s) && Enabled(s, StartGC(c))
    ensures Inv(Next(s, StartGC(c)))
  {
    var t := s.thread[c];
    var d := |Open(s, t)|;
    if s.gcThread == Some(t) {
      RaiseLevel(s);
    } else {
      OpenIsCounted(s, t);
      if s.gcLevel > 0 {
        JoinOtherGC(s, t);
      } else {
        var s1 := (if d > 0 then Decrement(s, d) else s).(gcLevel := 1, gcThread := Some(t), debit := d);
        assert Busy(s1) == Busy(s) && s1.pc == s.pc;
        forall u | u in s.pc
          ensures Open(s1, u) == Open(s, u) && (u != t ==> PcOk(s1, u))
        {
          assert PcOk(s, u);
          OpenFrame(s, s1, u);
        }
        CollectKeepsInv(s1, t);
      }
    }
  }

  /** Nesting on the collector's thread, or joining another thread's GC, only raises gcLevel. */
  lemma RaiseLevel(s: State)
    requires Inv(s) && s.gcLevel > 0
    ensures Inv(RaisedLevel(s))
  {
    var s' := RaisedLevel(s);
    assert Busy(s') == Busy(s);
    forall u | u in s.pc
      ensures Open(s', u) == Open(s, u) && PcOk(s', u)
    {
      assert PcOk(s, u);
      OpenFrame(s, s', u);
    }
  }

  lemma JoinOtherGC(s: State, t: Thread)
    requires Inv(s) && s.gcLevel > 0 && s.gcThread != Some(t)
    requires t in s.pc && s.pc[t] == Running && Open(s, t) <= Busy(s) && |Open(s, t)| <= s.requestCount
    ensures var d := |Open(s, t)|;
            var s' := if d > 0 then Decrement(s, d) else s;
            Inv(RaisedLevel(Sleep(s', t, ForOtherGC(d))))
  {
    var d := |Open(s, t)|;
    var s1 := Sleep(s, t, ForOtherGC(d));
    JoinOwes(s, t);
    if d > 0 {
      DecrementKeepsInv(s1, d);
      SleepAfterDecrement(s, t, ForOtherGC(d), d);
      RaiseLevel(Decrement(s1, d));
    } else {
      RaiseLevel(s1);
    }
  }

  lemma SleepAfterDecrement(s: State, t: Thread, w: Wait, k: nat)
    requires WellFormed(s) && t in s.pc && s.gcThread != Some(t)
    ensures WellFormed(Sleep(s, t, w)) && Sleep(Decrement(s, k), t, w) == Decrement(Sleep(s, t, w), k)
  {
    assert Sleep(Decrement(s, k), t, w).pc == Decrement(Sleep(s, t, w), k).pc;
  }

  lemma JoinBusy(s: State, t: Thread, d: nat)
    requires WellFormed(s) && t in s.pc && Open(s, t) <= Busy(s)
    ensures WellFormed(Sleep(s, t, ForOtherGC(d)))
    ensures Busy(Sleep(s, t, ForOtherGC(d))) == Busy(s) - Open(s, t)
    ensures |Busy(s)| == |Busy(s) - Open(s, t)| + |Open(s, t)|
  {
    assert Busy(s) == (Busy(s) - Open(s, t)) + Open(s, t);
  }

  /** Going to sleep as a second collector releases all of the thread's contexts. */
  lemma JoinOwes(s: State, t: Thread)
    requires Inv(s) && s.gcLevel > 0 && s.gcThread != Some(t)
    requires t in s.pc && s.pc[t] == Running && Open(s, t) <= Busy(s) && |Open(s, t)| <= s.requestCount
    ensures Owing(Sleep(s, t, ForOtherGC(|Open(s, t)|)), |Open(s, t)|)
    ensures Open(s, t) == {} ==> Inv(Sleep(s, t, ForOtherGC(0)))
  {
    var d := |Open(s, t)|;
    var s' := Sleep(s, t, ForOtherGC(d));
    JoinBusy(s, t, d);
    OpenFrame(s, s', t);
    OpenFrame(s, s', s.gcThread.value);
    SleepPcs(s, t, ForOtherGC(d));
  }

  lemma FinishGCKeepsInv(s: State, poke: bool)
    requires Inv(s) && Enabled(s, FinishGC(poke))
    ensures Inv(Next(s, FinishGC(poke)))
  {
    var s' := Next(s, FinishGC(poke));
    assert Busy(s') == Busy(s);
    forall u | u in s.pc
      ensures Open(s', u) == Open(s, u) && PcOk(s', u)
    {
      assert PcOk(s, u);
      OpenFrame(s, s', u);
    }
  }

  lemma WakeKeepsInv(s: State, t: Thread)
    requires Inv(s) && Enabled(s, Wake(t))
    ensures Inv(Next(s, Wake(t)))
  {
    hide Conserved;
    assert PcOk(s, t);
    match s.pc[t].wait
    case ForBegin(c) => WakeEntersKeepsInv(s, t, c, 1, ForBegin(c));
    case ForYield(c) => WakeEntersKeepsInv(s, t, c, s.depth[c], ForYield(c));
    case ForScopeGC(c, save) => WakeEntersKeepsInv(s, t, c, save, ForScopeGC(c, save));
    case ForScope(c, save) =>
      if save == 0 {
        ResumeKeepsInv(s, t);
      } else {
        WakeEntersKeepsInv(s, t, c, save, ForScopeGC(c, save));
      }
    case ForRequests => CollectKeepsInv(s, t);
    case ForOtherGC(d) =>
      if s.gcLevel > 0 {
        OpenFrame(s, Sleep(s, t, ForOtherGC(d)), t);
        SleepKeepsInv(s, t, ForOtherGC(d));
      } else {
        RepayKeepsInv(s, t, d);
      }
  }

  /** A woken thread enters its request, or goes back to sleep while a GC is on. */
  lemma WakeEntersKeepsInv(s: State, t: Thread, c: Ctx, depth: nat, w: Wait)
    requires Inv(s) && WorksFor(s, t, c) && s.pc[t].Asleep? && c !in Busy(s) && depth > 0
    requires w == ForBegin(c) || w == ForYield(c) || w == ForScopeGC(c, depth)
    requires w.ForYield? <==> s.pc[t].wait.ForYield?
    requires w.ForYield? <==> s.depth[c] > 0
    ensures Inv(if s.gcLevel > 0 then Sleep(s, t, w) else Enter(s, t, c, depth))
    ensures s.gcThread != Some(t)
  {
    assert PcOk(s, t);
    if s.gcLevel > 0 {
      SleepKeepsInv(s, t, w);
    } else {
      EnterKeepsInv(s, t, c, depth);
    }
  }

  /** Waking after another thread's GC: the debit is paid back and the requests are busy again. */
  lemma RepayKeepsInv(s: State, t: Thread, d: nat)
    requires Inv(s) && t in s.pc && s.pc[t].Asleep? && s.pc[t].wait == ForOtherGC(d) && s.gcLevel == 0
    ensures Inv(s.(requestCount := s.requestCount + d, pc := s.pc[t := Running]))
  {
    hide Busy, Released;
    var s' := s.(requestCount := s.requestCount + d, pc := s.pc[t := Running]);
    assert PcOk(s, t);
    RepaidBusy(s, t, d);
  }

  lemma RepaidBusy(s: State, t: Thread, d: nat)
    requires WellFormed(s) && t in s.pc && s.pc[t].Asleep? && s.pc[t].wait == ForOtherGC(d)
    ensures var s' := s.(requestCount := s.requestCount + d, pc := s.pc[t := Running]);
            Busy(s') == Busy(s) + Open(s, t) && Busy(s) !! Open(s, t) && |Busy(s')| == |Busy(s)| + |Open(s, t)|
  {
    var s' := s.(requestCount := s.requestCount + d, pc := s.pc[t := Running]);
    assert forall c :: c in s.depth && s.thread[c] != t ==> (Released(s', c) <==> Released(s, c));
    assert Busy(s') == Busy(s) + Open(s, t);
  }

  lemma ResumeKeepsInv(s: State, t: Thread)
    requires Inv(s) && t in s.pc && s.pc[t].Asleep? && s.pc[t].wait.ForScope?
    ensures Inv(s.(pc := s.pc[t := Running]))
  {
    var s' := s.(pc := s.pc[t := Running]);
    assert PcOk(s, t);
    assert s' == s.(requestCount := s.requestCount + 0, pc := s.pc[t := Running]);
    assert Busy(s') == Busy(s);
  }

  lemma NotifyKeepsInv(s: State, t: Thread)
    requires Inv(s) && Enabled(s, Notify(t))
    ensures Inv(Next(s, Notify(t)))
  {
    NotifyPcs(s, t);
    NotifyKeepsCounts(s, t);
  }

  lemma NotifyKeepsCounts(s: State, t: Thread)
    requires Inv(s) && Enabled(s, Notify(t))
    ensures var s' := Next(s, Notify(t));
            WellFormed(s') && Conserved(s') && CollectorOk(s')
  {
    hide PcOk, Open;
    var s' := Next(s, Notify(t));
    assert Busy(s') == Busy(s);
    if s.gcThread.Some? {
      OpenFrame(s, s', s.gcThread.value);
    }
  }

  lemma NotifyPcs(s: State, t: Thread)
    requires Inv(s) && Enabled(s, Notify(t))
    ensures var s' := Next(s, Notify(t));
            PcsOk(s') && forall u :: u in s.pc ==> Open(s', u) == Open(s, u)
  {
    hide Conserved, CollectorOk;
    var s' := Next(s, Notify(t));
    forall u | u in s.pc
      ensures Open(s', u) == Open(s, u) && PcOk(s', u)
    {
      assert PcOk(s, u);
      OpenFrame(s, s', u);
    }
  }

  lemma StepKeepsInv(s: State, a: Action)
    requires Inv(s) && Enabled(s, a)
    ensures Inv(Next(s, a))
  {
    hide Inv, Enabled, Next;
    match a
    case Begin(c) => BeginKeepsInv(s, c);
    case End(c) => EndKeepsInv(s, c);
    case Yield(c) => YieldKeepsInv(s, c);
    case YieldAgain(t) => YieldAgainKeepsInv(s, t);
    case StartGC(c) => StartGCKeepsInv(s, c);
    case FinishGC(poke) => FinishGCKeepsInv(s, poke);
    case AwaitScope(c) => AwaitScopeKeepsInv(s, c);
    case Wake(t) => WakeKeepsInv(s, t);
    case Notify(t) => NotifyKeepsInv(s, t);
  }

  // ----- Whole runs -----

  /** states[i] leads to states[i+1] by an enabled acts[i], starting with no request and no GC. */
  ghost predicate IsRun(states: seq<State>, acts: seq<Action>) {
    && |states| == |acts| + 1 && Init(states[0])
    && forall i :: 0 <= i < |acts| ==>
         WellFormed(states[i]) && Enabled(states[i], acts[i]) && states[i + 1] == Next(states[i], acts[i])
  }

  lemma {:induction false} RunKeepsInv(states: seq<State>, acts: seq<Action>, i: nat)
    requires IsRun(states, acts) && i < |states|
    ensures Inv(states[i])
  {
    if i > 0 {
      RunKeepsInv(states, acts, i - 1);
      StepKeepsInv(states[i - 1], acts[i - 1]);
    }
  }

  /** While the collector runs, no context of another thread is inside a request. */
  lemma CollectorIsAlone(states: seq<State>, acts: seq<Action>, i: nat, c: Ctx)
    requires IsRun(states, acts) && i < |states|
    ensures var s := states[i];
            WellFormed(s) &&
            (s.gcRunning && c in s.depth && s.depth[c] > 0 ==> OnGCThread(s, c) || Released(s, c))
  {
    RunKeepsInv(states, acts, i);
    var s := states[i];
    if s.gcRunning && c in s.depth && s.depth[c] > 0 && !Released(s, c) {
      assert c in Busy(s);
    }
  }

  /** With no GC on, requestCount is exactly the number of contexts inside a request. */
  lemma CountIsExact(states: seq<State>, acts: seq<Action>, i: nat)
    requires IsRun(states, acts) && i < |states|
    ensures var s := states[i];
            WellFormed(s) && 0 <= s.requestCount <= |Busy(s)| && (s.gcLevel == 0 ==> s.requestCount == |Busy(s)|)
  {
    RunKeepsInv(states, acts, i);
  }

  /**
   The assertions that requestCount is positive before JS_EndRequest, JS_YieldRequest or
   ClaimScope lowers it never fail on a thread that is not collecting, and js_GC never debits
   more than the count.
   */
  lemma CountersNeverUnderflow(states: seq<State>, acts: seq<Action>, i: nat, c: Ctx)
    requires IsRun(states, acts) && i < |states|
    requires WellFormed(states[i]) && Runs(states[i], c) && !OnGCThread(states[i], c)
    ensures states[i].depth[c] > 0 ==> states[i].requestCount > 0
    ensures |Open(states[i], states[i].thread[c])| <= states[i].requestCount
  {
    RunKeepsInv(states, acts, i);
    var s := states[i];
    OpenIsCounted(s, s.thread[c]);
    if s.depth[c] > 0 {
      assert c in Open(s, s.thread[c]);
    }
  }

  /**
   On the collector's own thread the assertion holds exactly as long as more contexts are in a
   request than were when the collection began, which is what was debited.
   */
  lemma CollectorCounts(states: seq<State>, acts: seq<Action>, i: nat, c: Ctx)
    requires IsRun(states, acts) && i < |states|
    requires WellFormed(states[i]) && Runs(states[i], c) && OnGCThread(states[i], c)
    ensures var s := states[i];
            s.gcRunning && (s.requestCount > 0 <==> |Open(s, s.thread[c])| > s.debit)
  {
    RunKeepsInv(states, acts, i);
    var s := states[i];
    assert PcOk(s, s.thread[c]);
    assert Busy(s) == Open(s, s.thread[c]);
  }

  /** It does fail for the very context that collects inside its request: that one was debited. */
  lemma CollectorCannotEnd() returns (states: seq<State>, acts: seq<Action>)
    ensures IsRun(states, acts) && acts == [Begin(0), StartGC(0)]
    ensures var s := states[2];
            && WellFormed(s) && s.gcRunning && Runs(s, 0) && s.depth[0] == 1 && s.requestCount == 0
            && !Enabled(s, End(0)) && !Enabled(s, Yield(0))
  {
    var s0 := State(map[0 := 0], map[0 := 0], map[0 := Running], 0, 0, None, false, 0);
    var s1 := Next(s0, Begin(0));
    assert s1 == s0.(depth := map[0 := 1], requestCount := 1);
    assert Open(s1, 0) == {0};
    states, acts := [s0, s1, Next(s1, StartGC(0))], [Begin(0), StartGC(0)];
  }

  /** No wakeup is lost: whoever sleeps without having been notified still has to wait. */
  lemma NoLostWakeup(states: seq<State>, acts: seq<Action>, i: nat, t: Thread)
    requires IsRun(states, acts) && i < |states| && t in states[i].pc
    requires states[i].pc[t].Asleep? && !states[i].pc[t].notified
    ensures states[i].pc[t].wait.ForRequests? ==> states[i].requestCount > 0
    ensures OnGCDone(states[i].pc[t].wait) ==> states[i].gcLevel > 0
  {
    RunKeepsInv(states, acts, i);
    assert PcOk(states[i], t);
  }
}
