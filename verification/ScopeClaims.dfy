/**
 Claiming single-threaded scopes (jslock.c): ClaimScope, WillDeadlock and ShareScope, together
 with the hand-over at the end of a request (jsapi.c).  A context that wants a scope owned by a
 context in another thread's request puts it on the sharing list, suspends its own request and
 sleeps.  One step is one critical section under gcLock.
 */
module ScopeClaims {
  import opened Options
  import opened WaitGraphs

  type Ctx = nat
  type Scope = nat

  datatype State = State(
    thread: map<Ctx, Thread>,
    depth: map<Ctx, nat>,              // cx->requestDepth
    save: map<Ctx, nat>,               // ClaimScope's local saveDepth
    waiting: map<Ctx, Scope>,          // cx->scopeToShare, for the contexts that have one
    owner: map<Scope, Option<Ctx>>,    // scope->ownercx; None once the scope is shared
    todo: set<Scope>,                  // the scopes with a non-null u.link
    gcThread: Option<Thread>)

  datatype Action =
    | NewScope(c: Ctx, s: Scope)
    | Begin(c: Ctx)
    | End(c: Ctx)
    | Claim(c: Ctx, s: Scope)
    | Wake(c: Ctx)
    | StartGC(c: Ctx)
    | FinishGC

  ghost predicate WellFormed(st: State) {
    && st.depth.Keys == st.thread.Keys == st.save.Keys && st.waiting.Keys <= st.thread.Keys
    && st.todo <= st.owner.Keys
    && (forall c :: c in st.waiting ==> st.waiting[c] in st.owner)
    && (forall s :: s in st.owner && st.owner[s].Some? ==> st.owner[s].value in st.thread)
  }

  /** No context of t sleeps in ClaimScope. */
  ghost predicate AwakeThread(st: State, t: Thread)
    requires WellFormed(st)
  {
    forall x :: x in st.waiting ==> st.thread[x] != t
  }

  /** A context can only act while its thread does not sleep on behalf of any context. */
  ghost predicate Awake(st: State, c: Ctx)
    requires WellFormed(st)
  {
    c in st.thread && AwakeThread(st, st.thread[c])
  }

  // ----- The wait-for graph -----

  /** c waits for o: the scope c wants is owned by o. */
  ghost predicate WaitsFor(st: State, c: Ctx, o: Ctx)
    requires WellFormed(st)
  {
    c in st.waiting && st.waiting[c] in st.owner && st.owner[st.waiting[c]] == Some(o)
  }

  /** The n-th owner on the chain that starts at scope s. */
  ghost function ChainOwner(st: State, s: Scope, n: nat): Option<Ctx>
    requires WellFormed(st)
    decreases n
  {
    if s !in st.owner || st.owner[s].None? then None
    else
      var o := st.owner[s].value;
      if n == 0 then Some(o) else if o in st.waiting then ChainOwner(st, st.waiting[o], n - 1) else None
  }

  /** Whoever waits for s waits, possibly through others, for c. */
  ghost predicate OnChain(st: State, s: Scope, c: Ctx)
    requires WellFormed(st)
  {
    exists n: nat :: ChainOwner(st, s, n) == Some(c)
  }

  /** x is c, or waits for it through any number of others. */
  ghost predicate Reaches(st: State, x: Ctx, c: Ctx)
    requires WellFormed(st)
  {
    x == c || (x in st.waiting && OnChain(st, st.waiting[x], c))
  }

  ghost predicate Ranked(st: State, rank: Ctx -> nat)
    requires WellFormed(st)
  {
    forall c, o {:trigger WaitsFor(st, c, o)} :: WaitsFor(st, c, o) ==> rank(o) < rank(c)
  }

  ghost predicate Acyclic(st: State)
    requires WellFormed(st)
  {
    exists rank :: Ranked(st, rank)
  }

  /** A chain is its first owner and the chain of the scope that owner waits for. */
  lemma ChainUnfold(st: State, s: Scope, c: Ctx)
    requires WellFormed(st) && s in st.owner
    ensures OnChain(st, s, c) <==> (st.owner[s].Some? && Reaches(st, st.owner[s].value, c))
  {
    if st.owner[s].Some? {
      var o := st.owner[s].value;
      if o == c {
        assert ChainOwner(st, s, 0) == Some(c);
      } else if o in st.waiting && OnChain(st, st.waiting[o], c) {
        var n: nat :| ChainOwner(st, st.waiting[o], n) == Some(c);
        assert ChainOwner(st, s, n + 1) == Some(c);
      }
      if OnChain(st, s, c) && o != c {
        var n: nat :| ChainOwner(st, s, n) == Some(c);
        assert n > 0 && ChainOwner(st, st.waiting[o], n - 1) == Some(c);
      }
    }
  }

  /**
   The deadlock test of jslock.c.  It follows owners and the scopes they wait for, under the
   lock, and returns only because the wait-for graph has no cycle.
   */
  method WillDeadlock(st: State, s: Scope, cx: Ctx, ghost rank: Ctx -> nat) returns (b: bool)
    requires WellFormed(st) && Ranked(st, rank) && s in st.owner
    ensures b <==> OnChain(st, s, cx)
  {
    var scope := s;
    var ownercx := st.owner[scope];
    ChainUnfold(st, scope, cx);
    while ownercx != Some(cx) && ownercx.Some? && ownercx.value in st.waiting
      invariant scope in st.owner && ownercx == st.owner[scope]
      invariant OnChain(st, s, cx) <==> OnChain(st, scope, cx)
      decreases if ownercx.Some? then rank(ownercx.value) + 1 else 0
    {
      ChainUnfold(st, scope, cx);
      var next := st.waiting[ownercx.value];
      assert st.owner[next].Some? ==> WaitsFor(st, ownercx.value, st.owner[next].value);
      scope := next;
      ownercx := st.owner[scope];
    }
    ChainUnfold(st, scope, cx);
    b := ownercx == Some(cx);
  }

  // ----- Steps -----

  /** The owner has left its request, or runs on the claimant's own thread. */
  ghost predicate Claimable(st: State, c: Ctx, s: Scope, o: Ctx)
    requires WellFormed(st) && c in st.thread && o in st.thread
  {
    s !in st.todo && (st.depth[o] == 0 || st.thread[o] == st.thread[c])
  }

  ghost predicate MustShare(st: State, c: Ctx, o: Ctx)
    requires WellFormed(st) && c in st.thread
  {
    st.gcThread == Some(st.thread[c]) || (o in st.waiting && OnChain(st, st.waiting[o], c))
  }

  ghost predicate Enabled(st: State, a: Action)
    requires WellFormed(st)
  {
    match a
    case NewScope(c, s) => Awake(st, c) && s !in st.owner
    case Begin(c) => Awake(st, c)
    case End(c) => Awake(st, c) && st.depth[c] > 0
    case Claim(c, s) => Awake(st, c) && s in st.owner && st.owner[s] != Some(c)
    case Wake(c) => c in st.waiting
    case StartGC(c) => Awake(st, c) && st.gcThread == None
    case FinishGC => st.gcThread.Some?
  }

  ghost function Share(st: State, gone: set<Scope>): State {
    st.(owner := map s | s in st.owner :: if s in gone then None else st.owner[s], todo := st.todo - gone)
  }

  /** The listed scopes that c owns; the end of its request shares them. */
  ghost function Owned(st: State, c: Ctx): set<Scope>
    requires WellFormed(st)
  {
    set s | s in st.todo && st.owner[s] == Some(c)
  }

  ghost function Lowered(st: State, c: Ctx): State
    requires c in st.depth && st.depth[c] > 0
  {
    st.(depth := st.depth[c := st.depth[c] - 1])
  }

  /** c suspends its request and sleeps until s is shared. */
  ghost function Waiting(st: State, c: Ctx, s: Scope): State
    requires c in st.depth
  {
    st.(todo := st.todo + {s}, waiting := st.waiting[c := s],
        save := st.save[c := st.depth[c]], depth := st.depth[c := 0])
  }

  /** One turn of the loop in ClaimScope. */
  ghost function ClaimOnce(st: State, c: Ctx, s: Scope): State
    requires WellFormed(st) && c in st.thread && s in st.owner
  {
    if st.owner[s].None? then st
    else
      var o := st.owner[s].value;
      if Claimable(st, c, s, o) then st.(owner := st.owner[s := Some(c)])
      else if MustShare(st, c, o) then Share(st, {s})
      else Waiting(st, c, s)
  }

  /** The request is resumed, and nothing is waited for any more. */
  ghost function Resumed(st: State, c: Ctx): State
    requires WellFormed(st) && c in st.waiting
  {
    st.(waiting := st.waiting - {c}, depth := st.depth[c := st.save[c]])
  }

  /** A thread that wakes up in ClaimScope goes round the loop once more before it does anything else. */
  ghost function Next(st: State, a: Action): State
    requires WellFormed(st) && Enabled(st, a)
  {
    match a
    case NewScope(c, s) => st.(owner := st.owner[s := Some(c)])
    case Begin(c) => st.(depth := st.depth[c := st.depth[c] + 1])
    case End(c) =>
      if st.depth[c] > 1 then Lowered(st, c) else Lowered(Share(st, Owned(st, c)), c)
    case Claim(c, s) => ClaimOnce(st, c, s)
    case Wake(c) => ClaimOnce(Resumed(st, c), c, st.waiting[c])
    case StartGC(c) => st.(gcThread := Some(st.thread[c]))
    case FinishGC => st.(gcThread := None)
  }

  ghost predicate Init(st: State) {
    WellFormed(st) && st.waiting == map[] && st.todo == {} && st.owner == map[]
    && forall c :: c in st.depth ==> st.depth[c] == 0
  }

  // ----- The invariant -----

  /** o is in a request, or has suspended one while it waits. */
  ghost predicate WillEnd(st: State, o: Ctx)
    requires WellFormed(st) && o in st.thread
  {
    st.depth[o] > 0 || (o in st.waiting && st.save[o] > 0)
  }

  /** A thread sleeps on behalf of one context at most, and never while it collects. */
  ghost predicate ThreadsOk(st: State)
    requires WellFormed(st)
  {
    && (forall x, y :: x in st.waiting && y in st.waiting && st.thread[x] == st.thread[y] ==> x == y)
    && (st.gcThread.Some? ==> AwakeThread(st, st.gcThread.value))
  }

  ghost predicate Inv(st: State) {
    && WellFormed(st) && ThreadsOk(st) && ListsOk(st) && Acyclic(st)
  }

  ghost predicate ListsOk(st: State)
    requires WellFormed(st)
  {
    && (forall s :: s in st.todo ==> st.owner[s].Some? && WillEnd(st, st.owner[s].value))
    && (forall c :: c in st.waiting ==> st.depth[c] == 0)
    && (forall c :: c in st.waiting && st.owner[st.waiting[c]].Some? ==> st.waiting[c] in st.todo)
  }

  /** Taking edges away keeps the graph acyclic. */
  lemma FewerEdges(st: State, st': State)
    requires WellFormed(st) && WellFormed(st') && Acyclic(st) && st'.thread == st.thread
    requires forall c, o :: WaitsFor(st', c, o) ==> WaitsFor(st, c, o)
    ensures Acyclic(st')
  {
    var rank :| Ranked(st, rank);
    assert Ranked(st', rank);
  }

  lemma ReachesThrough(st: State, x: Ctx, y: Ctx, c: Ctx)
    requires WellFormed(st) && WaitsFor(st, x, y) && x != c
    ensures Reaches(st, x, c) <==> Reaches(st, y, c)
  {
    ChainUnfold(st, st.waiting[x], c);
  }

  /** Waiting for an owner that does not wait for us, even indirectly, closes no cycle. */
  lemma WaitKeepsAcyclic(st: State, st': State, c: Ctx, s: Scope, o: Ctx)
    requires WellFormed(st) && WellFormed(st') && Acyclic(st)
    requires Awake(st, c) && s in st.owner && st.owner[s] == Some(o) && !Reaches(st, o, c)
    requires st'.thread == st.thread && st'.owner == st.owner && st'.waiting == st.waiting[c := s]
    ensures Acyclic(st')
  {
    hide Reaches, OnChain;
    var rank :| Ranked(st, rank);
    ReachesItself(st, c);
    forall x, y | WaitsFor(st', x, y)
      ensures Raised(st, rank, c, rank(o) + 1, y) < Raised(st, rank, c, rank(o) + 1, x)
    {
      if x != c {
        assert WaitsFor(st, x, y);
        ReachesThrough(st, x, y, c);
      }
    }
    assert Ranked(st', x => Raised(st, rank, c, rank(o) + 1, x));
  }

  /** The rank of those who wait for c goes up with that of c. */
  ghost function Raised(st: State, rank: Ctx -> nat, c: Ctx, up: nat, x: Ctx): nat
    requires WellFormed(st)
  {
    rank(x) + if Reaches(st, x, c) then up else 0
  }

  lemma ReachesItself(st: State, c: Ctx)
    requires WellFormed(st)
    ensures Reaches(st, c, c)
  {
  }

  lemma ClaimKeepsInv(st: State, c: Ctx, s: Scope)
    requires Inv(st) && Enabled(st, Claim(c, s))
    ensures Inv(Next(st, Claim(c, s)))
  {
    var st' := Next(st, Claim(c, s));
    ClaimKeepsLists(st, c, s);
    if st.owner[s].Some? {
      var o := st.owner[s].value;
      if Claimable(st, c, s, o) || MustShare(st, c, o) {
        FewerEdges(st, st');
      } else {
        WaitKeepsAcyclic(st, st', c, s, o);
      }
    }
  }

  lemma ClaimKeepsLists(st: State, c: Ctx, s: Scope)
    requires Inv(st) && Enabled(st, Claim(c, s))
    ensures var st' := Next(st, Claim(c, s));
            WellFormed(st') && ListsOk(st') && ThreadsOk(st')
  {
    hide Acyclic, OnChain;
    if st.owner[s].Some? {
      var o := st.owner[s].value;
      if Claimable(st, c, s, o) {
        assert Next(st, Claim(c, s)) == st.(owner := st.owner[s := Some(c)]);
      } else if MustShare(st, c, o) {
        ShareKeepsLists(st, {s});
      } else {
        WaitKeepsLists(st, c, s);
      }
    }
  }

  lemma ShareKeepsLists(st: State, gone: set<Scope>)
    requires WellFormed(st) && ListsOk(st) && ThreadsOk(st)
    ensures var st' := Share(st, gone);
            WellFormed(st') && ListsOk(st') && ThreadsOk(st')
  {
    var st' := Share(st, gone);
    forall s | s in st'.todo
      ensures st'.owner[s].Some? && WillEnd(st', st'.owner[s].value)
    {
      assert s in st.todo && st'.owner[s] == st.owner[s];
    }
  }

  /** The owner of s is in a request or waits with one suspended, or else s could be claimed. */
  lemma WaitKeepsLists(st: State, c: Ctx, s: Scope)
    requires WellFormed(st) && ListsOk(st) && ThreadsOk(st) && Enabled(st, Claim(c, s)) && st.owner[s].Some?
    requires !Claimable(st, c, s, st.owner[s].value) && st.gcThread != Some(st.thread[c])
    ensures var st' := Waiting(st, c, s);
            WellFormed(st') && ListsOk(st') && ThreadsOk(st')
  {
    hide ThreadsOk;
    WaitKeepsThreads(st, c, s);
  }

  lemma WaitKeepsThreads(st: State, c: Ctx, s: Scope)
    requires WellFormed(st) && ThreadsOk(st) && Awake(st, c) && s in st.owner && st.gcThread != Some(st.thread[c])
    ensures WellFormed(Waiting(st, c, s)) && ThreadsOk(Waiting(st, c, s))
  {
  }

  lemma EndKeepsInv(st: State, c: Ctx)
    requires Inv(st) && Enabled(st, End(c))
    ensures Inv(Next(st, End(c)))
  {
    EndKeepsLists(st, c);
    FewerEdges(st, Next(st, End(c)));
  }

  lemma EndKeepsLists(st: State, c: Ctx)
    requires Inv(st) && Enabled(st, End(c))
    ensures var st' := Next(st, End(c));
            WellFormed(st') && ListsOk(st') && ThreadsOk(st')
  {
    hide Acyclic;
    if st.depth[c] > 1 {
      LowerKeepsLists(st, c);
    } else {
      ShareKeepsLists(st, Owned(st, c));
      LowerKeepsLists(Share(st, Owned(st, c)), c);
    }
  }

  /** No scope is listed any more that is owned by the context whose request ends. */
  lemma LowerKeepsLists(st: State, c: Ctx)
    requires WellFormed(st) && ListsOk(st) && ThreadsOk(st) && Awake(st, c) && st.depth[c] > 0
    requires st.depth[c] > 1 || forall s :: s in st.todo ==> st.owner[s] != Some(c)
    ensures var st' := Lowered(st, c);
            WellFormed(st') && ListsOk(st') && ThreadsOk(st')
  {
  }

  /** The chain of owners from o is the same whether c waits or not, up to where it meets c. */
  lemma {:induction false} ResumedChain(st: State, c: Ctx, s: Scope, n: nat)
    requires WellFormed(st) && c in st.waiting && ChainOwner(Resumed(st, c), s, n) == Some(c)
    ensures ChainOwner(st, s, n) == Some(c)
    decreases n
  {
    if n > 0 {
      ResumedChain(st, c, st.waiting[st.owner[s].value], n - 1);
    }
  }

  /** No owner on the chain from a scope that c waits for waits for c in turn. */
  lemma NotOnOwnChain(st: State, c: Ctx)
    requires Inv(st) && c in st.waiting
    ensures !OnChain(st, st.waiting[c], c)
  {
    var rank :| Ranked(st, rank);
    forall n: nat | ChainOwner(st, st.waiting[c], n).Some?
      ensures ChainOwner(st, st.waiting[c], n) != Some(c)
    {
      ChainDescends(st, c, n, rank);
    }
  }

  lemma ResumedIsShared(st: State, c: Ctx)
    requires Inv(st) && c in st.waiting && st.owner[st.waiting[c]].Some?
    ensures var st1, o := Resumed(st, c), st.owner[st.waiting[c]].value;
            && WellFormed(st1) && !Claimable(st1, c, st.waiting[c], o) && !MustShare(st1, c, o)
  {
    var o := st.owner[st.waiting[c]].value;
    var st1 := Resumed(st, c);
    if o in st1.waiting && OnChain(st1, st1.waiting[o], c) {
      var n: nat :| ChainOwner(st1, st1.waiting[o], n) == Some(c);
      ResumedChain(st, c, st1.waiting[o], n);
      assert ChainOwner(st, st.waiting[c], n + 1) == Some(c);
    }
    NotOnOwnChain(st, c);
  }

  lemma WaitingAgain(st: State, c: Ctx)
    requires WellFormed(st) && ListsOk(st) && c in st.waiting && st.owner[st.waiting[c]].Some?
    ensures Waiting(Resumed(st, c), c, st.waiting[c]) == st
  {
    var st' := Waiting(Resumed(st, c), c, st.waiting[c]);
    assert st'.waiting == st.waiting && st'.todo == st.todo && st'.save == st.save && st'.depth == st.depth;
  }

  /** A thread that wakes up before its scope was shared goes back to sleep, and nothing changes. */
  lemma WakeAgain(st: State, c: Ctx)
    requires Inv(st) && c in st.waiting && st.owner[st.waiting[c]].Some?
    ensures Next(st, Wake(c)) == st
  {
    hide Claimable, MustShare, Acyclic, Waiting, ListsOk, ThreadsOk;
    ResumedIsShared(st, c);
    WaitingAgain(st, c);
  }

  lemma WakeKeepsInv(st: State, c: Ctx)
    requires Inv(st) && Enabled(st, Wake(c))
    ensures Inv(Next(st, Wake(c)))
  {
    if st.owner[st.waiting[c]].Some? {
      WakeAgain(st, c);
    } else {
      FewerEdges(st, Next(st, Wake(c)));
    }
  }

  lemma QuietStepKeepsInv(st: State, a: Action)
    requires Inv(st) && Enabled(st, a) && (a.NewScope? || a.Begin? || a.StartGC? || a.FinishGC?)
    ensures Inv(Next(st, a))
  {
    hide Acyclic, ListsOk, ThreadsOk;
    QuietStepKeepsLists(st, a);
    FewerEdges(st, Next(st, a));
  }

  lemma QuietStepKeepsLists(st: State, a: Action)
    requires Inv(st) && Enabled(st, a) && (a.NewScope? || a.Begin? || a.StartGC? || a.FinishGC?)
    ensures var st' := Next(st, a);
            WellFormed(st') && ListsOk(st') && ThreadsOk(st')
  {
    hide Acyclic;
    if a.NewScope? {
      NewScopeKeepsLists(st, a.c, a.s);
    }
  }

  lemma NewScopeKeepsLists(st: State, c: Ctx, s: Scope)
    requires WellFormed(st) && ListsOk(st) && ThreadsOk(st) && Enabled(st, NewScope(c, s))
    ensures var st' := Next(st, NewScope(c, s));
            WellFormed(st') && ListsOk(st') && ThreadsOk(st')
  {
  }

  lemma StepKeepsInv(st: State, a: Action)
    requires Inv(st) && Enabled(st, a)
    ensures Inv(Next(st, a))
  {
    match a
    case Claim(c, s) => ClaimKeepsInv(st, c, s);
    case End(c) => EndKeepsInv(st, c);
    case Wake(c) => WakeKeepsInv(st, c);
    case NewScope(_, _) => QuietStepKeepsInv(st, a);
    case Begin(_) => QuietStepKeepsInv(st, a);
    case StartGC(_) => QuietStepKeepsInv(st, a);
    case FinishGC => QuietStepKeepsInv(st, a);
  }

  /**
   A scope leaves its owner o only when the outermost request of o ends and somebody waits for it, or
   by a claim: of somebody else when o is out of all requests and nobody waits, or on the same thread,
   or, to be shared, of the collector or of whom o waits for.
   */
  lemma OwnerChanges(st: State, a: Action, s: Scope, o: Ctx)
    requires Inv(st) && Enabled(st, a) && s in st.owner && st.owner[s] == Some(o)
    ensures s in Next(st, a).owner
    ensures Next(st, a).owner[s] ==
              match a
              case End(c) => if c == o && st.depth[c] == 1 && s in st.todo then None else Some(o)
              case Claim(c, x) =>
                if x != s then Some(o)
                else if s !in st.todo && (st.depth[o] == 0 || st.thread[o] == st.thread[c]) then Some(c)
                else if st.gcThread == Some(st.thread[c]) then None
                else if o in st.waiting && OnChain(st, st.waiting[o], c) then None
                else Some(o)
              case _ => Some(o)
  {
    hide Acyclic, ListsOk, ThreadsOk, OnChain;
    if a.Wake? {
      if st.owner[st.waiting[a.c]].Some? {
        WakeAgain(st, a.c);
      }
    }
  }

  ghost predicate IsRun(states: seq<State>, acts: seq<Action>) {
    && |states| == |acts| + 1 && Init(states[0])
    && forall i :: 0 <= i < |acts| ==>
         WellFormed(states[i]) && Enabled(states[i], acts[i]) && states[i + 1] == Next(states[i], acts[i])
  }

  lemma {:induction false} RunKeepsInv(states: seq<State>, acts: seq<Action>, i: nat)
    requires IsRun(states, acts) && i < |states|
    ensures Inv(states[i])
  {
    if i == 0 {
      assert Ranked(states[0], c => 0);
    } else {
      RunKeepsInv(states, acts, i - 1);
      StepKeepsInv(states[i - 1], acts[i - 1]);
    }
  }

  /** In every run, no context ever waits for itself, directly or through others. */
  lemma NobodyWaitsForItself(states: seq<State>, acts: seq<Action>, i: nat, c: Ctx)
    requires IsRun(states, acts) && i < |states|
    ensures WellFormed(states[i]) && !(c in states[i].waiting && OnChain(states[i], states[i].waiting[c], c))
  {
    RunKeepsInv(states, acts, i);
    if c in states[i].waiting {
      NotOnOwnChain(states[i], c);
    }
  }

  lemma {:induction false} ChainDescends(st: State, c: Ctx, n: nat, rank: Ctx -> nat)
    requires WellFormed(st) && Ranked(st, rank) && c in st.waiting && ChainOwner(st, st.waiting[c], n).Some?
    ensures rank(ChainOwner(st, st.waiting[c], n).value) < rank(c)
    decreases n
  {
    var o := st.owner[st.waiting[c]].value;
    assert WaitsFor(st, c, o);
    if n > 0 {
      ChainDescends(st, o, n - 1, rank);
    }
  }

  /** e waits for nothing itself: it is in a request and not waiting, or its scope has been shared. */
  ghost predicate Unblocked(st: State, e: Ctx)
    requires WellFormed(st) && e in st.thread
  {
    if e in st.waiting then st.owner[st.waiting[e]].None? else st.depth[e] > 0
  }

  /**
   As far as contexts go waiting is safe: the chain of owners from any waited-for scope ends at a
   context that waits for nothing itself, and every context on the way will end its request.
   Whether the threads they run on are awake is another matter.
   */
  lemma {:induction false} SafeToWait(st: State, s: Scope, rank: Ctx -> nat) returns (e: Ctx)
    requires Inv(st) && s in st.todo && Ranked(st, rank)
    ensures OnChain(st, s, e) && e in st.thread && WillEnd(st, e) && Unblocked(st, e)
    decreases rank(st.owner[s].value)
  {
    var o := st.owner[s].value;
    ChainUnfold(st, s, o);
    e := o;
    if o in st.waiting && st.owner[st.waiting[o]].Some? {
      assert WaitsFor(st, o, st.owner[st.waiting[o]].value);
      e := SafeToWait(st, st.waiting[o], rank);
      ChainUnfold(st, s, e);
    }
  }
}
