/**
 Deadlock among threads in ClaimScope (jslock.c).  The test for deadlock follows contexts, but it
 is threads that sleep, and a thread may have several contexts.
 */
module ScopeDeadlocks {
  import opened Options
  import opened ScopeClaims
  import opened WaitGraphs

  /** t sleeps on behalf of x for a scope that is still owned. */
  ghost predicate SleepsFor(st: State, t: Thread, x: Ctx)
    requires WellFormed(st)
  {
    x in st.waiting && st.thread[x] == t && st.owner[st.waiting[x]].Some?
  }

  ghost function OwnerThread(st: State, s: Scope): Thread
    requires WellFormed(st) && s in st.owner && st.owner[s].Some?
  {
    st.thread[st.owner[s].value]
  }

  ghost predicate Sleeping(st: State, t: Thread)
    requires WellFormed(st)
  {
    exists x :: SleepsFor(st, t, x)
  }

  /** The thread that t waits for: t sleeps for a scope whose owner runs there. */
  ghost function Blocker(st: State, t: Thread): Thread
    requires WellFormed(st) && Sleeping(st, t)
  {
    var x :| SleepsFor(st, t, x); OwnerThread(st, st.waiting[x])
  }

  /** Which thread waits for which. */
  ghost function Waits(st: State): map<Thread, Thread>
    requires WellFormed(st)
  {
    map t | t in st.thread.Values && Sleeping(st, t) :: Blocker(st, t)
  }

  /** A thread sleeps on behalf of one context only, so the graph is what it should be. */
  lemma WaitsOf(st: State, x: Ctx)
    requires WellFormed(st) && ThreadsOk(st) && x in st.waiting
    ensures st.thread[x] in Waits(st) <==> st.owner[st.waiting[x]].Some?
    ensures st.owner[st.waiting[x]].Some? ==> Waits(st)[st.thread[x]] == OwnerThread(st, st.waiting[x])
  {
    if st.owner[st.waiting[x]].Some? {
      assert st.thread[x] in st.thread.Values && SleepsFor(st, st.thread[x], x);
    }
  }

  lemma WaitsBy(st: State, t: Thread) returns (x: Ctx)
    requires WellFormed(st) && ThreadsOk(st) && t in Waits(st)
    ensures SleepsFor(st, t, x) && Waits(st)[t] == OwnerThread(st, st.waiting[x])
  {
    x :| SleepsFor(st, t, x);
    WaitsOf(st, x);
  }

  /**
   In every run, a wait whose chain ends is served: the last owner on the chain is in a request it
   can end now, or its thread sleeps for a scope that is shared already.
   */
  lemma WaitersAreServed(states: seq<State>, acts: seq<Action>, i: nat, c: Ctx) returns (x: Ctx)
    requires IsRun(states, acts) && i < |states| && WellFormed(states[i])
    requires c in states[i].waiting && states[i].owner[states[i].waiting[c]].Some?
    requires states[i].thread[c] !in Doomed(Waits(states[i]))
    ensures var st := states[i];
            && x in st.waiting && LeadsTo(Waits(st), st.thread[c], st.thread[x]) && st.owner[st.waiting[x]].Some?
            && var o := st.owner[st.waiting[x]].value;
               if AwakeThread(st, st.thread[o]) then Enabled(st, End(o))
               else exists y :: y in st.waiting && st.thread[y] == st.thread[o] && st.owner[st.waiting[y]].None?
  {
    var st := states[i];
    RunKeepsInv(states, acts, i);
    WaitsOf(st, c);
    x := LastWaiter(st, st.thread[c]);
    LastOwner(st, x);
  }

  lemma LastWaiter(st: State, t: Thread) returns (x: Ctx)
    requires Inv(st) && t in Waits(st) && Served(Waits(st), t)
    ensures x in st.waiting && LeadsTo(Waits(st), t, st.thread[x]) && st.owner[st.waiting[x]].Some?
    ensures OwnerThread(st, st.waiting[x]) !in Waits(st)
  {
    var w := Waits(st);
    var u: Thread :| u !in w && LeadsTo(w, t, u);
    var n: nat :| Ahead(w, t, n) == Some(u);
    var v := Penultimate(w, t, n);
    x := WaitsBy(st, v);
  }

  lemma {:induction false} Penultimate(w: map<Thread, Thread>, t: Thread, n: nat) returns (v: Thread)
    requires t in w && Ahead(w, t, n).Some? && Ahead(w, t, n).value !in w
    ensures LeadsTo(w, t, v) && v in w && w[v] !in w
    decreases n
  {
    if w[t] in w {
      v := Penultimate(w, w[t], n - 1);
    } else {
      v := t;
    }
    LeadsOn(w, t, v);
  }

  lemma LastOwner(st: State, x: Ctx)
    requires Inv(st) && x in st.waiting && st.owner[st.waiting[x]].Some?
    requires OwnerThread(st, st.waiting[x]) !in Waits(st)
    ensures var o := st.owner[st.waiting[x]].value;
            if AwakeThread(st, st.thread[o]) then Enabled(st, End(o))
            else exists y :: y in st.waiting && st.thread[y] == st.thread[o] && st.owner[st.waiting[y]].None?
  {
    var o := st.owner[st.waiting[x]].value;
    if !AwakeThread(st, st.thread[o]) {
      var y :| y in st.waiting && st.thread[y] == st.thread[o];
      WaitsOf(st, y);
    }
  }

  // ----- How a deadlock begins, and whether it ends -----

  /** A finalizer run by the collector wants a scope that a thread of K sleeps for. */
  ghost predicate Rescues(st: State, a: Action, K: set<Thread>)
    requires WellFormed(st)
  {
    && a.Claim? && a.c in st.thread && st.gcThread == Some(st.thread[a.c])
    && exists x :: x in st.waiting && st.thread[x] in K && st.waiting[x] == a.s
  }

  /** The chain of owners from a scope that a deadlocked thread waits for stays among these threads. */
  lemma {:induction false} OwnersInDeadlock(st: State, K: set<Thread>, x: Ctx, n: nat)
    requires WellFormed(st) && ThreadsOk(st) && Deadlocked(Waits(st), K) && x in st.waiting && st.thread[x] in K
    requires ChainOwner(st, st.waiting[x], n).Some?
    ensures ChainOwner(st, st.waiting[x], n).value in st.thread
    ensures st.thread[ChainOwner(st, st.waiting[x], n).value] in K
    decreases n
  {
    hide Waits, ThreadsOk;
    WaitsOf(st, x);
    if n > 0 {
      OwnersInDeadlock(st, K, st.owner[st.waiting[x]].value, n - 1);
    }
  }

  lemma NoneAwake(st: State, K: set<Thread>, t: Thread)
    requires WellFormed(st) && ThreadsOk(st) && Deadlocked(Waits(st), K) && t in K
    ensures !AwakeThread(st, t)
  {
    var x := WaitsBy(st, t);
  }

  /** Of the claims of such a scope only the collector's does anything to it. */
  lemma ClaimInDeadlock(st: State, c: Ctx, K: set<Thread>, x: Ctx)
    requires Inv(st) && Deadlocked(Waits(st), K) && x in st.waiting && st.thread[x] in K
    requires Enabled(st, Claim(c, st.waiting[x])) && st.owner[st.waiting[x]].Some?
    ensures var o := st.owner[st.waiting[x]].value;
            !Claimable(st, c, st.waiting[x], o) && (MustShare(st, c, o) <==> st.gcThread == Some(st.thread[c]))
  {
    var o := st.owner[st.waiting[x]].value;
    WaitsOf(st, x);
    if o in st.waiting && OnChain(st, st.waiting[o], c) {
      var n: nat :| ChainOwner(st, st.waiting[o], n) == Some(c);
      OwnersInDeadlock(st, K, o, n);
      NoneAwake(st, K, st.thread[c]);
    }
  }

  /** A step leaves a deadlocked thread asleep, and its scope owned as it is unless the collector shares it. */
  lemma DeadlockedSleeps(st: State, a: Action, K: set<Thread>, x: Ctx)
    requires Inv(st) && Enabled(st, a) && Deadlocked(Waits(st), K) && x in st.waiting && st.thread[x] in K
    ensures var st', s := Next(st, a), st.waiting[x];
            && st'.thread == st.thread && x in st'.waiting && st'.waiting[x] == s && s in st'.owner
            && st'.owner[s] == if a.Claim? && a.s == s && st.gcThread == Some(st.thread[a.c]) then None else st.owner[s]
  {
    hide Waits, Acyclic, ListsOk, Claimable, MustShare, ThreadsOk;
    WaitsOf(st, x);
    NoneAwake(st, K, OwnerThread(st, st.waiting[x]));
    NoneAwake(st, K, st.thread[x]);
    match a
    case Wake(c) =>
      if st.owner[st.waiting[c]].Some? {
        WakeAgain(st, c);
      } else {
        assert Next(st, a) == Resumed(st, c);
      }
    case Claim(c, s) =>
      if s == st.waiting[x] {
        ClaimInDeadlock(st, c, K, x);
      }
    case _ =>
  }

  lemma DeadlockedWait(st: State, a: Action, K: set<Thread>, x: Ctx)
    requires Inv(st) && Enabled(st, a) && Deadlocked(Waits(st), K) && x in st.waiting && st.thread[x] in K
    requires Inv(Next(st, a))
    ensures var w, w', t := Waits(st), Waits(Next(st, a)), st.thread[x];
            && (t in w' <==> !(a.Claim? && a.s == st.waiting[x] && st.gcThread == Some(st.thread[a.c])))
            && (t in w' ==> w'[t] == w[t])
  {
    DeadlockedSleeps(st, a, K, x);
    hide Next, Acyclic, ListsOk, Waits, ThreadsOk;
    WaitsOf(st, x);
    WaitsOf(Next(st, a), x);
  }

  lemma Unrescued(st: State, a: Action, K: set<Thread>)
    requires Inv(st) && Enabled(st, a) && Deadlocked(Waits(st), K) && Inv(Next(st, a)) && !Rescues(st, a, K)
    ensures Deadlocked(Waits(Next(st, a)), K)
  {
    hide Next, Acyclic, ListsOk, Waits;
    var w, w' := Waits(st), Waits(Next(st, a));
    forall t | t in K
      ensures t in w' && w'[t] == w[t]
    {
      var x := WaitsBy(st, t);
      DeadlockedWait(st, a, K, x);
    }
  }

  lemma Rescued(st: State, a: Action, K: set<Thread>)
    requires Inv(st) && Enabled(st, a) && Deadlocked(Waits(st), K) && Inv(Next(st, a)) && Rescues(st, a, K)
    ensures !Deadlocked(Waits(Next(st, a)), K)
  {
    hide Next, Enabled, Acyclic, ListsOk, Waits;
    var x :| x in st.waiting && st.thread[x] in K && st.waiting[x] == a.s;
    DeadlockedWait(st, a, K, x);
  }

  /** Once threads wait for each other they do so for ever, unless a finalizer comes to their help. */
  lemma DeadlockStays(st: State, a: Action, K: set<Thread>)
    requires Inv(st) && Enabled(st, a) && Deadlocked(Waits(st), K)
    ensures Inv(Next(st, a))
    ensures Deadlocked(Waits(Next(st, a)), K) <==> !Rescues(st, a, K)
  {
    StepKeepsInv(st, a);
    assert WellFormed(st) && WellFormed(Next(st, a));
    if Rescues(st, a, K) {
      Rescued(st, a, K);
    } else {
      Unrescued(st, a, K);
    }
  }

  /** In every run: threads in a deadlock are still in it any number of steps later, unless rescued. */
  lemma {:induction false} DeadlockForEver(states: seq<State>, acts: seq<Action>, i: nat, j: nat, K: set<Thread>)
    requires IsRun(states, acts) && i <= j < |states|
    requires WellFormed(states[i]) && Deadlocked(Waits(states[i]), K)
    requires forall k :: i <= k < j ==> WellFormed(states[k]) && !Rescues(states[k], acts[k], K)
    ensures WellFormed(states[j]) && Deadlocked(Waits(states[j]), K)
  {
    hide Waits, Rescues, Deadlocked, Enabled, Next, ThreadsOk, ListsOk, Acyclic, Init;
    RunKeepsInv(states, acts, j);
    if i < j {
      DeadlockForEver(states, acts, i, j - 1, K);
      RunKeepsInv(states, acts, j - 1);
      DeadlockStays(states[j - 1], acts[j - 1], K);
    }
  }

  /**
   The guard under which a claim closes a cycle of threads: it is going to wait, and the owner's
   thread waits, possibly through others, for the claimant's thread, or is that thread itself.
   */
  ghost predicate Closes(st: State, a: Action)
    requires WellFormed(st)
  {
    && a.Claim? && a.c in st.thread && a.s in st.owner && st.owner[a.s].Some?
    && var o := st.owner[a.s].value;
       !Claimable(st, a.c, a.s, o) && !MustShare(st, a.c, o) && LeadsTo(Waits(st), st.thread[o], st.thread[a.c])
  }

  /** A scope that is waited for and still owned after a step has the owner it had. */
  lemma OwnerWasThere(st: State, a: Action, x: Ctx)
    requires Inv(st) && Enabled(st, a) && x in Next(st, a).waiting && WellFormed(Next(st, a))
    requires Next(st, a).owner[Next(st, a).waiting[x]].Some?
    ensures var s := Next(st, a).waiting[x];
            s in st.owner && Next(st, a).owner[s] == st.owner[s]
    ensures !a.Claim? || a.c != x ==> x in st.waiting && st.waiting[x] == Next(st, a).waiting[x]
  {
    hide Acyclic, ThreadsOk, MustShare;
    match a
    case Wake(c) =>
      if st.owner[st.waiting[c]].Some? {
        WakeAgain(st, c);
      }
    case _ =>
  }

  lemma WaitsGrow(st: State, a: Action)
    requires Inv(st) && Enabled(st, a) && Inv(Next(st, a)) && Next(st, a).thread == st.thread
    requires a.Claim? ==> a.c !in Next(st, a).waiting
    ensures FewerWaits(Waits(st), Waits(Next(st, a)))
  {
    hide Next, Enabled, Acyclic, ListsOk, Waits, ThreadsOk;
    var st' := Next(st, a);
    forall t | t in Waits(st')
      ensures t in Waits(st) && Waits(st)[t] == Waits(st')[t]
    {
      var x := WaitsBy(st', t);
      OwnerWasThere(st, a, x);
      WaitsOf(st, x);
    }
  }

  /** A claim that waits adds its own wait to the graph, and nothing else. */
  lemma ClaimWaits(st: State, st': State, c: Ctx, s: Scope)
    requires WellFormed(st) && WellFormed(st') && ThreadsOk(st) && ThreadsOk(st') && Awake(st, c) && s in st.owner
    requires st'.thread == st.thread && st'.owner == st.owner && st'.waiting == st.waiting[c := s] && st.owner[s].Some?
    ensures st.thread[c] !in Waits(st) && Waits(st') == Waits(st)[st.thread[c] := OwnerThread(st, s)]
  {
    hide Waits, ThreadsOk, WellFormed;
    ClaimWaitsKeys(st, st', c, s);
    WaitsOf(st', c);
    forall t | t in Waits(st)
      ensures Waits(st')[t] == Waits(st)[t]
    {
      var x := WaitsBy(st, t);
      OtherWaits(st, st', c, x);
    }
  }

  lemma OtherWaits(st: State, st': State, c: Ctx, x: Ctx)
    requires WellFormed(st) && WellFormed(st') && ThreadsOk(st) && ThreadsOk(st') && Awake(st, c)
    requires st'.thread == st.thread && st'.owner == st.owner
    requires c in st'.waiting && st'.waiting - {c} == st.waiting - {c}
    requires x in st.waiting
    ensures st.thread[x] in Waits(st') <==> st.thread[x] in Waits(st)
    ensures st.thread[x] in Waits(st) ==> Waits(st')[st.thread[x]] == Waits(st)[st.thread[x]]
  {
    hide Waits, ThreadsOk;
    assert x in st.waiting - {c};
    WaitsOf(st, x);
    WaitsOf(st', x);
  }

  lemma ClaimWaitsKeys(st: State, st': State, c: Ctx, s: Scope)
    requires WellFormed(st) && WellFormed(st') && ThreadsOk(st) && ThreadsOk(st') && Awake(st, c) && s in st.owner
    requires st'.thread == st.thread && st'.owner == st.owner && st'.waiting == st.waiting[c := s] && st.owner[s].Some?
    ensures st.thread[c] !in Waits(st) && Waits(st').Keys == Waits(st).Keys + {st.thread[c]}
  {
    hide Waits, ThreadsOk;
    WaitingThreads(st);
    WaitingThreads(st');
  }

  lemma WaitingThreads(st: State)
    requires WellFormed(st) && ThreadsOk(st)
    ensures forall x :: x in st.waiting && st.owner[st.waiting[x]].Some? ==> st.thread[x] in Waits(st)
    ensures forall t :: t in Waits(st) ==> exists x :: SleepsFor(st, t, x)
  {
    forall x | x in st.waiting && st.owner[st.waiting[x]].Some?
      ensures st.thread[x] in Waits(st)
    {
      WaitsOf(st, x);
    }
  }

  /** From a state in which every chain of waits ends, only such a claim leads to one where it does not. */
  lemma DeadlockBegins(st: State, a: Action)
    requires Inv(st) && Enabled(st, a) && Doomed(Waits(st)) == {}
    ensures Inv(Next(st, a)) && (Doomed(Waits(Next(st, a))) != {} <==> Closes(st, a))
  {
    StepKeepsInv(st, a);
    if a.Claim? && a.c in Next(st, a).waiting {
      WaitingClaim(st, a.c, a.s);
      hide Next, Enabled, Acyclic, ListsOk, Waits, Closes;
      ClaimWaits(st, Next(st, a), a.c, a.s);
      CycleCloses(Waits(st), st.thread[a.c], OwnerThread(st, a.s));
    } else {
      NotClosing(st, a);
      hide Next, Enabled, Acyclic, ListsOk, Waits, Closes;
      WaitsGrow(st, a);
      FewerIsSafer(Waits(st), Waits(Next(st, a)));
    }
  }

  lemma WaitingClaim(st: State, c: Ctx, s: Scope)
    requires WellFormed(st) && Enabled(st, Claim(c, s)) && c in Next(st, Claim(c, s)).waiting
    ensures Awake(st, c) && s in st.owner && st.owner[s].Some?
    ensures var st' := Next(st, Claim(c, s));
            st'.thread == st.thread && st'.owner == st.owner && st'.waiting == st.waiting[c := s]
    ensures Closes(st, Claim(c, s)) <==> LeadsTo(Waits(st), OwnerThread(st, s), st.thread[c])
  {
  }

  lemma NotClosing(st: State, a: Action)
    requires Inv(st) && Enabled(st, a) && (a.Claim? ==> a.c !in Next(st, a).waiting)
    ensures !Closes(st, a) && Next(st, a).thread == st.thread
  {
    hide Acyclic, ThreadsOk, ListsOk, Waits;
  }

  /** So a run in which no claim closes a cycle never deadlocks. */
  lemma {:induction false} NoDeadlock(states: seq<State>, acts: seq<Action>, i: nat)
    requires IsRun(states, acts) && i < |states|
    requires forall j :: 0 <= j < i ==> WellFormed(states[j]) && !Closes(states[j], acts[j])
    ensures WellFormed(states[i]) && Doomed(Waits(states[i])) == {}
  {
    RunKeepsInv(states, acts, i);
    if i == 0 {
      assert Waits(states[0]) == map[];
    } else {
      NoDeadlock(states, acts, i - 1);
      RunKeepsInv(states, acts, i - 1);
      DeadlockBegins(states[i - 1], acts[i - 1]);
    }
  }

  // ----- Two contexts on one thread -----

  /** Two contexts of one thread are both in a request, one of them asleep in ClaimScope. */
  ghost predicate Entangled(st: State, x: Ctx, y: Ctx)
    requires WellFormed(st)
  {
    x in st.waiting && y in st.thread && x != y && st.thread[x] == st.thread[y] && WillEnd(st, y)
  }

  /** Threads that use one context at a time never deadlock: the test on contexts is then enough. */
  lemma DeadlockIsEntangled(st: State, K: set<Thread>) returns (x: Ctx, y: Ctx)
    requires Inv(st) && Deadlocked(Waits(st), K)
    ensures Entangled(st, x, y) && st.thread[x] in K
  {
    var rank :| Ranked(st, rank);
    var t :| t in K;
    x := WaitsBy(st, t);
    x, y := FollowChain(st, K, x, rank);
  }

  lemma {:induction false} FollowChain(st: State, K: set<Thread>, c: Ctx, rank: Ctx -> nat) returns (x: Ctx, y: Ctx)
    requires Inv(st) && Deadlocked(Waits(st), K) && Ranked(st, rank) && c in st.waiting && st.thread[c] in K
    ensures Entangled(st, x, y) && st.thread[x] in K
    decreases rank(c)
  {
    WaitsOf(st, c);
    y := st.owner[st.waiting[c]].value;
    assert WaitsFor(st, c, y);
    x := WaitsBy(st, st.thread[y]);
    if x == y {
      x, y := FollowChain(st, K, x, rank);
    }
  }

  /**
   A run that deadlocks: context 11 owns a scope that thread 0 waits for, and context 12 of the
   same thread then wants that scope too.  It may no longer be claimed, although its owner runs
   on the claimant's thread, and context 11 can never end its request.
   */
  lemma SameThreadStuck() returns (states: seq<State>, acts: seq<Action>)
    ensures IsRun(states, acts) && |acts| == 6
    ensures Inv(states[6]) && Deadlocked(Waits(states[6]), {1}) && LeadsTo(Waits(states[6]), 0, 1)
    ensures WellFormed(states[5]) && Closes(states[5], acts[5]) && states[6].gcThread == None
  {
    states, acts := SixSteps();
    assert |states| == 7;
    hide *;
    RunKeepsInv(states, acts, 6);
    LastCloses();
  }

  lemma SixSteps() returns (states: seq<State>, acts: seq<Action>)
    ensures IsRun(states, acts) && |acts| == 6 && states[5] == Stage(5) && states[6] == Stage(6)
    ensures acts[5] == Claim(12, 5) && Stage(6).gcThread == None && WellFormed(Stage(5))
  {
    hide Next, Enabled, Stage, WellFormed;
    FirstStages();
    BeginStage();
    SecondBeginStage();
    ClaimStage();
    LastStage();
    states, acts := [Stage(0)], [];
    states, acts := ExtendRun(states, acts, NewScope(11, 5), Stage(1));
    states, acts := ExtendRun(states, acts, Begin(11), Stage(2));
    states, acts := ExtendRun(states, acts, Begin(0), Stage(3));
    states, acts := ExtendRun(states, acts, Begin(12), Stage(4));
    states, acts := ExtendRun(states, acts, Claim(0, 5), Stage(5));
    states, acts := ExtendRun(states, acts, Claim(12, 5), Stage(6));
  }

  lemma LastCloses()
    requires Inv(Stage(6)) && WellFormed(Stage(5))
    ensures Deadlocked(Waits(Stage(6)), {1}) && LeadsTo(Waits(Stage(6)), 0, 1) && Closes(Stage(5), Claim(12, 5))
  {
    hide Waits, ThreadsOk, ListsOk, Acyclic;
    WaitsOf(Stage(6), 0);
    WaitsOf(Stage(6), 12);
    LeadsOn(Waits(Stage(6)), 0, 1);
    LeadsOn(Waits(Stage(6)), 1, 1);
    LeadsOn(Waits(Stage(5)), 1, 1);
  }

  lemma ExtendRun(states: seq<State>, acts: seq<Action>, a: Action, st: State)
    returns (states': seq<State>, acts': seq<Action>)
    requires IsRun(states, acts) && WellFormed(states[|acts|]) && Enabled(states[|acts|], a)
    requires st == Next(states[|acts|], a)
    ensures IsRun(states', acts') && states' == states + [st] && acts' == acts + [a]
    ensures |acts'| == |acts| + 1 && states'[|acts'|] == st
  {
    states', acts' := states + [st], acts + [a];
  }

  ghost function Stage(n: nat): State {
    State(map[0 := 0, 11 := 1, 12 := 1],
          map[0 := if n == 3 || n == 4 then 1 else 0, 11 := if n < 2 then 0 else 1,
              12 := if n == 4 || n == 5 then 1 else 0],
          map[0 := if n < 5 then 0 else 1, 11 := 0, 12 := if n < 6 then 0 else 1],
          if n < 5 then map[] else if n == 5 then map[0 := 5] else map[0 := 5, 12 := 5],
          if n == 0 then map[] else map[5 := Some(11)], if n < 5 then {} else {5}, None)
  }

  lemma FirstStages()
    ensures Init(Stage(0)) && Enabled(Stage(0), NewScope(11, 5)) && Stage(1) == Next(Stage(0), NewScope(11, 5))
    ensures WellFormed(Stage(1)) && Enabled(Stage(1), Begin(11)) && Stage(2) == Next(Stage(1), Begin(11))
  {
  }

  lemma BeginStage()
    ensures WellFormed(Stage(2)) && Enabled(Stage(2), Begin(0)) && Stage(3) == Next(Stage(2), Begin(0))
  {
  }

  lemma SecondBeginStage()
    ensures WellFormed(Stage(3)) && Enabled(Stage(3), Begin(12)) && Stage(4) == Next(Stage(3), Begin(12))
  {
  }

  lemma ClaimStage()
    ensures WellFormed(Stage(4)) && Enabled(Stage(4), Claim(0, 5)) && Stage(5) == Next(Stage(4), Claim(0, 5))
  {
  }

  lemma LastStage()
    ensures WellFormed(Stage(5)) && Enabled(Stage(5), Claim(12, 5)) && Stage(6) == Next(Stage(5), Claim(12, 5))
    ensures WellFormed(Stage(6)) && Stage(6).gcThread == None
  {
  }
}
