/**
 What the calls made so far say about a state of the request interlock (Interlock.dfy): requests
 nest, a collection excludes every request that has begun and not ended, and each collection asked
 for is followed by a whole pass of the collector.
 */
module RequestHistory {
  import opened Options
  import opened Interlock
  import C = CollectorDeadlocks

  // ----- Requests -----

  /** Without waiting: the context is in a request already, or no other thread's collection is on. */
  ghost predicate EntersAtOnce(s: State, c: Ctx)
    requires WellFormed(s) && c in s.depth
  {
    s.depth[c] > 0 || s.gcThread == Some(s.thread[c]) || s.gcLevel == 0
  }

  /** One for a JS_BeginRequest of c that gets in, at once or after a wait, minus one for a JS_EndRequest. */
  ghost function Counted(s: State, a: Action, c: Ctx): int
    requires WellFormed(s) && Enabled(s, a)
  {
    match a
    case Begin(x) => if x == c && EntersAtOnce(s, c) then 1 else 0
    case End(x) => if x == c then -1 else 0
    case Wake(t) => if s.pc[t].wait == ForBegin(c) && s.gcLevel == 0 then 1 else 0
    case _ => 0
  }

  /** The requests of c that have begun and not ended. */
  ghost function Unmatched(states: seq<State>, acts: seq<Action>, c: Ctx, i: nat): int
    requires IsRun(states, acts) && i < |states|
  {
    if i == 0 then 0 else Unmatched(states, acts, c, i - 1) + Counted(states[i - 1], acts[i - 1], c)
  }

  /** The depth that c has set aside while its thread waits in ClaimScope. */
  ghost function SetAside(p: Pc, c: Ctx): nat {
    match p
    case Asleep(ForScope(x, save), _) => if x == c then save else 0
    case Asleep(ForScopeGC(x, save), _) => if x == c then save else 0
    case _ => 0
  }

  ghost function Nesting(s: State, c: Ctx): nat
    requires WellFormed(s) && c in s.depth
  {
    s.depth[c] + SetAside(s.pc[s.thread[c]], c)
  }

  lemma OthersCount(s: State, a: Action, c: Ctx)
    requires Inv(s) && Enabled(s, a) && c in s.depth && C.Actor(s, a) != s.thread[c]
    requires C.OnlyMoves(s, Next(s, a), C.Actor(s, a))
    ensures Nesting(Next(s, a), c) == Nesting(s, c) && Counted(s, a, c) == 0
  {
    hide Next, Conserved, CollectorOk;
    if a.Wake? {
      assert PcOk(s, a.t);
    }
  }

  lemma WakeCounts(s: State, t: Thread, c: Ctx)
    requires WellFormed(s) && Enabled(s, Wake(t)) && PcOk(s, t) && c in s.depth && s.thread[c] == t
    ensures var s' := Next(s, Wake(t));
            && t in s'.pc && c in s'.depth
            && s'.depth[c] + SetAside(s'.pc[t], c) == Nesting(s, c) + Counted(s, Wake(t), c)
  {
    hide Open, Busy, Next;
    if s.pc[t].wait.ForRequests? || s.pc[t].wait.ForOtherGC? {
      CollectorWakes(s, t);
    } else {
      EntrantWakes(s, t);
    }
  }

  lemma CollectorWakes(s: State, t: Thread)
    requires WellFormed(s) && Enabled(s, Wake(t)) && (s.pc[t].wait.ForRequests? || s.pc[t].wait.ForOtherGC?)
    ensures var s' := Next(s, Wake(t));
            && t in s'.pc && s'.depth == s.depth && forall c :: SetAside(s'.pc[t], c) == SetAside(s.pc[t], c)
  {
    hide Open, Busy;
  }

  lemma EntrantWakes(s: State, t: Thread)
    requires WellFormed(s) && Enabled(s, Wake(t)) && PcOk(s, t)
    requires !s.pc[t].wait.ForRequests? && !s.pc[t].wait.ForOtherGC?
    ensures var s', x := Next(s, Wake(t)), s.pc[t].wait.c;
            && t in s'.pc && x in s.depth
            && s'.depth ==
                 s.depth[x := s.depth[x] + SetAside(s.pc[t], x) - SetAside(s'.pc[t], x) + Counted(s, Wake(t), x)]
            && forall c :: c != x ==> SetAside(s'.pc[t], c) == SetAside(s.pc[t], c)
  {
    hide Open, Busy;
    var x := s.pc[t].wait.c;
    assert s.depth[x := s.depth[x]] == s.depth;
  }

  lemma EnteringCounts(s: State, a: Action, c: Ctx)
    requires Inv(s) && Enabled(s, a) && c in s.depth && C.Actor(s, a) == s.thread[c] && (a.Begin? || a.YieldAgain?)
    ensures var s', t := Next(s, a), s.thread[c];
            && t in s'.pc && c in s'.depth
            && s'.depth[c] + SetAside(s'.pc[t], c) == Nesting(s, c) + Counted(s, a, c)
  {
    hide Conserved, CollectorOk, Open, Busy;
    if a.YieldAgain? {
      assert PcOk(s, a.t);
    }
  }

  lemma LeavingCounts(s: State, a: Action, c: Ctx)
    requires WellFormed(s) && Enabled(s, a) && c in s.depth && C.Actor(s, a) == s.thread[c]
    requires a.End? || a.Yield? || a.AwaitScope? || a.Notify?
    ensures var s', t := Next(s, a), s.thread[c];
            && t in s'.pc && c in s'.depth
            && s'.depth[c] + SetAside(s'.pc[t], c) == Nesting(s, c) + Counted(s, a, c)
  {
    hide Open, Busy;
  }

  lemma CollectingCounts(s: State, a: Action, c: Ctx)
    requires WellFormed(s) && Enabled(s, a) && c in s.depth && C.Actor(s, a) == s.thread[c]
    requires a.StartGC? || a.FinishGC?
    ensures var s', t := Next(s, a), s.thread[c];
            t in s'.pc && s'.depth == s.depth && SetAside(s'.pc[t], c) == SetAside(s.pc[t], c)
  {
    hide Open, Busy;
  }

  lemma OwnPc(s: State, a: Action)
    requires Inv(s) && Enabled(s, a) && a.Wake?
    ensures PcOk(s, a.t)
  {
  }

  lemma StepCounts(s: State, a: Action, c: Ctx)
    requires Inv(s) && WellFormed(s) && Enabled(s, a)
    ensures var s' := Next(s, a);
            && WellFormed(s') && s'.thread == s.thread
            && (c in s.depth ==> c in s'.depth && Nesting(s', c) == Nesting(s, c) + Counted(s, a, c))
  {
    hide Inv, Next, Enabled;
    C.StepMoves(s, a);
    if c in s.depth {
      if C.Actor(s, a) != s.thread[c] {
        OthersCount(s, a, c);
      } else if a.Wake? {
        OwnPc(s, a);
        WakeCounts(s, a.t, c);
      } else if a.Begin? || a.YieldAgain? {
        EnteringCounts(s, a, c);
      } else if a.StartGC? || a.FinishGC? {
        CollectingCounts(s, a, c);
      } else {
        LeavingCounts(s, a, c);
      }
    }
  }

  /** In every run the depth of c, or what is set aside of it, is the number of its unmatched calls. */
  lemma {:induction false} DepthIsCounted(states: seq<State>, acts: seq<Action>, i: nat, c: Ctx)
    requires IsRun(states, acts) && i < |states| && c in states[0].thread
    ensures var s := states[i];
            && WellFormed(s) && s.thread == states[0].thread
            && s.depth[c] + SetAside(s.pc[s.thread[c]], c) == Unmatched(states, acts, c, i)
  {
    hide Inv, Next, Enabled, Counted;
    if i > 0 {
      RunKeepsInv(states, acts, i - 1);
      DepthIsCounted(states, acts, i - 1, c);
      StepCounts(states[i - 1], acts[i - 1], c);
    }
  }

  /**
   While the collector runs, a context with an unmatched JS_BeginRequest is on the collector's thread,
   or has released its request: in JS_YieldRequest, in a wait for another collection, or in ClaimScope.
   */
  lemma NoRequestWhileCollecting(states: seq<State>, acts: seq<Action>, i: nat, c: Ctx)
    requires IsRun(states, acts) && i < |states| && c in states[0].thread && Unmatched(states, acts, c, i) > 0
    ensures var s := states[i];
            && WellFormed(s) && c in s.thread
            && (s.gcRunning ==> OnGCThread(s, c) || Released(s, c) || SetAside(s.pc[s.thread[c]], c) > 0)
  {
    DepthIsCounted(states, acts, i, c);
    CollectorIsAlone(states, acts, i, c);
  }

  // ----- Collections -----

  lemma LevelStep(s: State, a: Action)
    requires WellFormed(s) && Enabled(s, a) && s.gcThread.Some? && s.gcLevel > 0
    ensures var s' := Next(s, a);
            match a
            case FinishGC(poke) => s'.gcThread == (if s.gcLevel > 1 || poke then s.gcThread else None)
                                   && (s'.gcThread.Some? ==> s'.gcLevel == 1)
            case StartGC(_) => s'.gcThread == s.gcThread && s'.gcLevel == s.gcLevel + 1
            case _ => s'.gcThread == s.gcThread && s'.gcLevel == s.gcLevel
  {
    hide Open, Busy;
  }

  /** How often js_GC was called by steps j to k - 1. */
  ghost function Asked(acts: seq<Action>, j: nat, k: nat): nat
    requires j <= k <= |acts|
    decreases k
  {
    if j == k then 0 else Asked(acts, j, k - 1) + if acts[k - 1].StartGC? then 1 else 0
  }

  lemma {:induction false} LevelCounts(states: seq<State>, acts: seq<Action>, j: nat, k: nat)
    requires IsRun(states, acts) && j <= k < |states| && states[j].gcThread.Some? && states[j].gcLevel > 0
    requires forall i :: j <= i < k ==> !acts[i].FinishGC?
    ensures states[k].gcThread == states[j].gcThread && states[k].gcLevel == states[j].gcLevel + Asked(acts, j, k)
    decreases k
  {
    hide Next, Enabled;
    if j < k {
      LevelCounts(states, acts, j, k - 1);
      LevelStep(states[k - 1], acts[k - 1]);
    }
  }

  /** Step j begins a pass: it starts a collection, or goes on with one. */
  ghost predicate BeginsPass(states: seq<State>, acts: seq<Action>, j: nat)
    requires IsRun(states, acts) && j < |acts|
  {
    (acts[j].StartGC? && states[j].gcThread == None) || (acts[j].FinishGC? && states[j + 1].gcThread.Some?)
  }

  lemma FirstLevel(states: seq<State>, acts: seq<Action>, j: nat)
    requires IsRun(states, acts) && j < |acts| && BeginsPass(states, acts, j)
    ensures states[j + 1].gcThread.Some? && states[j + 1].gcLevel == 1
  {
    RunKeepsInv(states, acts, j);
    hide Open, Busy, Conserved;
    assert states[j + 1] == Next(states[j], acts[j]);
  }

  /**
   At the end of a pass the collection is over exactly if nobody called js_GC during the pass and
   nothing else asks for another one; otherwise the same thread makes another pass.
   */
  lemma PassesAreExact(states: seq<State>, acts: seq<Action>, j: nat, k: nat)
    requires IsRun(states, acts) && j < k < |acts| && BeginsPass(states, acts, j) && acts[k].FinishGC?
    requires forall i :: j < i < k ==> !acts[i].FinishGC?
    ensures states[k].gcThread == states[j + 1].gcThread
    ensures states[k + 1].gcThread == if acts[k].poke || Asked(acts, j + 1, k) > 0 then states[k].gcThread else None
  {
    hide Next, Enabled;
    FirstLevel(states, acts, j);
    LevelCounts(states, acts, j + 1, k);
    LevelStep(states[k], acts[k]);
  }

  /** t waits for another thread's collection. */
  ghost predicate WaitsForOther(s: State, t: Thread) {
    && t in s.pc && s.pc[t].Asleep? && s.pc[t].wait.ForOtherGC?
    && s.gcThread.Some? && s.gcThread != Some(t) && s.gcLevel > 0
  }

  lemma WaitGoesOn(s: State, a: Action, t: Thread)
    requires Inv(s) && WellFormed(s) && Enabled(s, a) && WaitsForOther(s, t) && !a.FinishGC?
    ensures WaitsForOther(Next(s, a), t)
  {
    hide Inv, Open, Busy;
    LevelStep(s, a);
    C.StepMoves(s, a);
    if C.Actor(s, a) == t {
      OwnWait(s, a, t);
    }
  }

  lemma OwnWait(s: State, a: Action, t: Thread)
    requires WellFormed(s) && Enabled(s, a) && WaitsForOther(s, t) && C.Actor(s, a) == t && !a.FinishGC?
    ensures t in Next(s, a).pc && Next(s, a).pc[t].Asleep? && Next(s, a).pc[t].wait.ForOtherGC?
  {
    hide Open, Busy;
  }

  lemma Joins(s: State, c: Ctx)
    requires Inv(s) && Enabled(s, StartGC(c)) && s.gcThread.Some? && s.gcThread != Some(s.thread[c])
    ensures WaitsForOther(Next(s, StartGC(c)), s.thread[c])
  {
    hide Conserved, PcOk, Open, Busy;
  }

  /**
   A thread that asks for a collection while another one's is on sleeps until a pass is over that ended
   after it asked; one that asks first becomes the collector, and runs only as that.
   */
  lemma CallsWaitForAPass(states: seq<State>, acts: seq<Action>, j: nat, i: nat, c: Ctx)
    requires IsRun(states, acts) && j < i < |states| && acts[j] == StartGC(c)
    requires c in states[j].thread && states[j].gcThread != Some(states[j].thread[c])
    requires forall k :: j < k < i ==> !acts[k].FinishGC?
    ensures var s, t := states[i], states[j].thread[c];
            if states[j].gcThread.Some? then WaitsForOther(s, t)
            else s.gcThread == Some(t) && t in s.pc && (s.pc[t].Asleep? || s.gcRunning)
    decreases i
  {
    var t := states[j].thread[c];
    RunKeepsInv(states, acts, j);
    if states[j].gcThread.Some? {
      Joined(states, acts, j, i, c);
    } else {
      hide Next, Enabled;
      FirstLevel(states, acts, j);
      StartsAs(states[j], c);
      LevelCounts(states, acts, j + 1, i);
      RunKeepsInv(states, acts, i);
    }
  }

  lemma StartsAs(s: State, c: Ctx)
    requires Inv(s) && Enabled(s, StartGC(c)) && s.gcThread == None
    ensures Next(s, StartGC(c)).gcThread == Some(s.thread[c])
  {
    hide Conserved, PcOk, Open, Busy;
  }

  lemma {:induction false} Joined(states: seq<State>, acts: seq<Action>, j: nat, i: nat, c: Ctx)
    requires IsRun(states, acts) && j < i < |states| && acts[j] == StartGC(c)
    requires c in states[j].thread && states[j].gcThread.Some? && states[j].gcThread != Some(states[j].thread[c])
    requires forall k :: j < k < i ==> !acts[k].FinishGC?
    ensures WaitsForOther(states[i], states[j].thread[c])
    decreases i
  {
    hide Inv, Next, Enabled;
    RunKeepsInv(states, acts, i - 1);
    if i == j + 1 {
      Joins(states[j], c);
    } else {
      Joined(states, acts, j, i - 1, c);
      WaitGoesOn(states[i - 1], acts[i - 1], states[j].thread[c]);
    }
  }

  // ----- What the code lets its callers do -----

  /** A running thread may call what it likes, but only the collector's own may fail an assertion. */
  lemma RunningMayCall(s: State, c: Ctx)
    requires Inv(s) && Runs(s, c)
    ensures Enabled(s, Begin(c)) && Enabled(s, StartGC(c))
    ensures !OnGCThread(s, c) ==> Enabled(s, AwaitScope(c))
    ensures !OnGCThread(s, c) && s.depth[c] > 0 ==> Enabled(s, End(c)) && Enabled(s, Yield(c))
    ensures OnGCThread(s, c) ==> forall poke :: Enabled(s, FinishGC(poke))
  {
    if OnGCThread(s, c) {
      assert PcOk(s, s.thread[c]);
    } else {
      OpenIsCounted(s, s.thread[c]);
      if s.depth[c] > 0 {
        assert c in Open(s, s.thread[c]);
      }
    }
  }

  /** A thread between two critical sections goes on, and one that sleeps can be woken and then goes on. */
  lemma OthersMayGoOn(s: State, t: Thread)
    requires Inv(s) && t in s.pc && s.pc[t] != Running
    ensures if s.pc[t].Yielding? then Enabled(s, YieldAgain(t))
            else Enabled(s, Notify(t)) && Enabled(Next(s, Notify(t)), Wake(t))
  {
    hide Conserved, CollectorOk;
    assert PcOk(s, t);
  }

  /** Which of them run on at once, and which go to sleep. */
  lemma EntrantRuns(s: State, a: Action)
    requires Inv(s) && Enabled(s, a) && (a.Begin? || a.YieldAgain?)
    ensures var t, s' := C.Actor(s, a), Next(s, a);
            && t in s'.pc
            && if (a.Begin? && s.depth[a.c] > 0) || s.gcThread == Some(t) || s.gcLevel == 0 then s'.pc[t] == Running
               else s'.pc[t].Asleep? && !s'.pc[t].notified
  {
    hide Conserved, CollectorOk, Open, Busy;
    if a.YieldAgain? {
      assert PcOk(s, a.t);
    }
  }

  /** A thread that is woken runs on, unless what it waits for has not come. */
  lemma WokenRuns(s: State, t: Thread)
    requires WellFormed(s) && Enabled(s, Wake(t)) && PcOk(s, t)
    ensures var s', w := Next(s, Wake(t)), s.pc[t].wait;
            var waits := match w
                         case ForRequests => s.requestCount > 0
                         case ForScope(_, save) => save > 0 && s.gcLevel > 0
                         case _ => s.gcLevel > 0;
            t in s'.pc && if waits then s'.pc[t].Asleep? && !s'.pc[t].notified else s'.pc[t] == Running
  {
    hide Open, Busy;
  }
}
