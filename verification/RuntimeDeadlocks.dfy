/**
 The request interlock (Interlock.dfy) and the claims of scopes (ScopeClaims.dfy) run together: the
 same threads wait for the collector, for requests to end, and for scopes.
 */
module RuntimeDeadlocks {
  import opened Options
  import I = Interlock
  import S = ScopeClaims
  import C = CollectorDeadlocks

  type Thread = nat
  type Ctx = nat

  datatype Both = Both(s: I.State, q: S.State)

  /** The context for which a thread sleeps in ClaimScope, or resumes its request there. */
  ghost function Claimant(p: I.Pc): Option<Ctx> {
    match p
    case Asleep(ForScope(c, _), _) => Some(c)
    case Asleep(ForScopeGC(c, _), _) => Some(c)
    case _ => None
  }

  /** Both have the same contexts, requests and collector, and the same contexts wait for scopes. */
  ghost predicate Agree(b: Both) {
    && I.WellFormed(b.s) && S.WellFormed(b.q)
    && b.s.thread == b.q.thread && b.s.depth == b.q.depth && b.s.gcThread == b.q.gcThread
    && (forall c :: c in b.q.waiting <==> c in b.s.thread && Claimant(b.s.pc[b.s.thread[c]]) == Some(c))
    && forall c :: c in b.q.waiting ==> b.s.pc[b.s.thread[c]].wait.save == b.q.save[c]
  }

  ghost predicate Inv(b: Both) {
    I.Inv(b.s) && S.Inv(b.q) && Agree(b)
  }

  // ----- Steps -----

  /** A step of the interlock, other than the wait in ClaimScope, or one of ClaimScope. */
  datatype Action = NewScope(c: Ctx, scope: S.Scope) | Claim(c: Ctx, scope: S.Scope) | Other(a: I.Action)

  ghost predicate Enabled(b: Both, act: Action)
    requires Inv(b)
  {
    match act
    case NewScope(c, scope) => I.Runs(b.s, c) && S.Enabled(b.q, S.NewScope(c, scope))
    case Claim(c, scope) => I.Runs(b.s, c) && S.Enabled(b.q, S.Claim(c, scope))
    case Other(a) => I.Enabled(b.s, a) && !a.AwaitScope?
  }

  /** A running context may make a scope, and claim any that it does not own. */
  lemma RunningMayClaim(b: Both, c: Ctx, scope: S.Scope)
    requires Inv(b) && I.Runs(b.s, c)
    ensures if scope in b.q.owner then b.q.owner[scope] == Some(c) || Enabled(b, Claim(c, scope))
            else Enabled(b, NewScope(c, scope))
  {
    RunsIsAwake(b, c);
  }

  lemma MayAwait(s: I.State, c: Ctx)
    requires I.Inv(s) && I.Runs(s, c) && !I.OnGCThread(s, c)
    ensures I.Enabled(s, I.AwaitScope(c))
  {
    I.OpenIsCounted(s, s.thread[c]);
    if s.depth[c] > 0 {
      assert c in I.Open(s, s.thread[c]);
    }
  }

  lemma RunsIsAwake(b: Both, c: Ctx)
    requires Agree(b) && c in b.s.thread && Claimant(b.s.pc[b.s.thread[c]]) == None
    ensures S.Awake(b.q, c)
  {
  }

  /** Only a thread that does not collect waits. */
  lemma ClaimWaits(q: S.State, c: Ctx, scope: S.Scope)
    requires S.Inv(q) && S.Enabled(q, S.Claim(c, scope))
    ensures var q' := S.Next(q, S.Claim(c, scope));
            if c in q'.waiting then q' == S.Waiting(q, c, scope) && q.gcThread != Some(q.thread[c])
            else q' == q.(owner := q'.owner, todo := q'.todo)
  {
  }

  /** A turn of the loop in ClaimScope puts the thread to sleep if the context has to wait. */
  ghost function Parked(s: I.State, q: S.State, c: Ctx): Both
    requires I.Inv(s) && I.Runs(s, c) && (c in q.waiting ==> !I.OnGCThread(s, c))
  {
    if c in q.waiting then
      MayAwait(s, c);
      Both(I.Next(s, I.AwaitScope(c)), q)
    else Both(s, q)
  }

  /** The step of the claims that goes with one of the interlock, other than a wakeup in ClaimScope. */
  ghost function Noticed(b: Both, a: I.Action): Option<S.Action>
    requires Inv(b) && I.Enabled(b.s, a)
  {
    match a
    case Begin(c) => if I.Next(b.s, a).depth[c] > b.s.depth[c] then Some(S.Begin(c)) else None
    case End(c) => Some(S.End(c))
    case StartGC(c) => if b.s.gcThread == None then Some(S.StartGC(c)) else None
    case FinishGC(_) => if I.Next(b.s, a).gcThread == None then Some(S.FinishGC) else None
    case Wake(t) =>
      assert I.PcOk(b.s, t);
      if b.s.pc[t].wait.ForBegin? && I.Next(b.s, a).pc[t].Running? then Some(S.Begin(b.s.pc[t].wait.c)) else None
    case _ => None
  }

  lemma NoticedIsEnabled(b: Both, a: I.Action)
    requires Inv(b) && I.Enabled(b.s, a)
    ensures Noticed(b, a).Some? ==> S.Enabled(b.q, Noticed(b, a).value)
  {
    match a
    case Begin(c) => RunsIsAwake(b, c);
    case End(c) => RunsIsAwake(b, c);
    case StartGC(c) => RunsIsAwake(b, c);
    case Wake(t) =>
      assert I.PcOk(b.s, t);
      if b.s.pc[t].wait.ForBegin? {
        RunsIsAwake(b, b.s.pc[t].wait.c);
      }
    case _ =>
  }

  lemma WokenRuns(b: Both, t: Thread, c: Ctx)
    requires Inv(b) && I.Enabled(b.s, I.Wake(t)) && Claimant(b.s.pc[t]) == Some(c)
    ensures var s := I.Next(b.s, I.Wake(t));
            && I.Inv(s) && t in s.pc && S.Enabled(b.q, S.Wake(c))
            && (s.pc[t].Running? ==> I.Runs(s, c) && !I.OnGCThread(s, c))
  {
    hide I.Inv, S.Inv, I.Next, I.Enabled;
    I.StepKeepsInv(b.s, I.Wake(t));
    OwnWake(b.s, t, c);
    OthersGCThread(b.s, I.Wake(t));
    WakeKeepsThreads(b.s, t);
  }

  lemma WakeKeepsThreads(s: I.State, t: Thread)
    requires I.Inv(s) && I.Enabled(s, I.Wake(t))
    ensures var s' := I.Next(s, I.Wake(t));
            I.WellFormed(s') && s'.thread == s.thread
  {
    hide C.OnlyMoves, I.PcOk, I.Conserved, I.CollectorOk;
    C.StepMoves(s, I.Wake(t));
    MovesKeepThreads(s, I.Next(s, I.Wake(t)), t);
  }

  lemma MovesKeepThreads(s: I.State, s': I.State, t: Thread)
    requires I.WellFormed(s) && C.OnlyMoves(s, s', t)
    ensures I.WellFormed(s') && s'.thread == s.thread
  {
  }

  /** A wakeup in ClaimScope: the request may have to wait for the collector before it is resumed. */
  ghost function Woken(b: Both, t: Thread, c: Ctx): Both
    requires Inv(b) && I.Enabled(b.s, I.Wake(t)) && Claimant(b.s.pc[t]) == Some(c)
  {
    WokenRuns(b, t, c);
    var s := I.Next(b.s, I.Wake(t));
    if s.pc[t].Running? then Parked(s, S.Next(b.q, S.Wake(c)), c) else Both(s, b.q)
  }

  ghost function Next(b: Both, act: Action): Both
    requires Inv(b) && Enabled(b, act)
  {
    match act
    case NewScope(c, scope) => Both(b.s, S.Next(b.q, S.NewScope(c, scope)))
    case Claim(c, scope) =>
      ClaimWaits(b.q, c, scope);
      Parked(b.s, S.Next(b.q, S.Claim(c, scope)), c)
    case Other(a) =>
      if a.Wake? && Claimant(b.s.pc[a.t]).Some? then Woken(b, a.t, Claimant(b.s.pc[a.t]).value)
      else
        NoticedIsEnabled(b, a);
        Both(I.Next(b.s, a), if Noticed(b, a).Some? then S.Next(b.q, Noticed(b, a).value) else b.q)
  }

  // ----- The invariant -----

  ghost predicate SameClaimants(s: I.State, s': I.State) {
    && I.WellFormed(s') && s'.thread == s.thread
    && forall t :: t in s.pc ==> t in s'.pc && SameClaim(s.pc[t], s'.pc[t])
  }

  ghost predicate SameClaim(p: I.Pc, p': I.Pc) {
    Claimant(p') == Claimant(p) && (Claimant(p).Some? ==> p'.wait.save == p.wait.save)
  }

  lemma EnteringKeepsClaim(s: I.State, a: I.Action)
    requires I.Inv(s) && I.Enabled(s, a) && (a.Begin? || a.YieldAgain? || a.Wake?)
    requires a.Wake? ==> Claimant(s.pc[a.t]) == None
    ensures var u := C.Actor(s, a);
            u in s.pc && u in I.Next(s, a).pc && SameClaim(s.pc[u], I.Next(s, a).pc[u])
  {
    hide I.Conserved, I.CollectorOk, I.Open, I.Busy;
    if !a.Begin? {
      assert I.PcOk(s, a.t);
    }
  }

  lemma LeavingKeepsClaim(s: I.State, a: I.Action)
    requires I.Inv(s) && I.Enabled(s, a) && !a.AwaitScope? && !a.Begin? && !a.YieldAgain? && !a.Wake?
    ensures var u := C.Actor(s, a);
            u in s.pc && u in I.Next(s, a).pc && SameClaim(s.pc[u], I.Next(s, a).pc[u])
  {
    hide I.PcOk, I.Conserved, I.CollectorOk, I.Open, I.Busy;
  }

  /** Other steps neither begin nor end a wait in ClaimScope. */
  lemma OthersKeepClaimants(s: I.State, a: I.Action)
    requires I.Inv(s) && I.Enabled(s, a) && !a.AwaitScope? && !(a.Wake? && Claimant(s.pc[a.t]).Some?)
    ensures SameClaimants(s, I.Next(s, a))
  {
    hide I.Inv, I.Next, I.Enabled;
    C.StepMoves(s, a);
    if a.Begin? || a.YieldAgain? || a.Wake? {
      EnteringKeepsClaim(s, a);
    } else {
      LeavingKeepsClaim(s, a);
    }
  }

  /** What changes when the claims follow. */
  lemma NoticedEffect(q: S.State, a: S.Action)
    requires S.WellFormed(q) && S.Enabled(q, a) && (a.Begin? || a.End? || a.StartGC? || a.FinishGC?)
    ensures var q' := S.Next(q, a);
            && q'.thread == q.thread && q'.waiting == q.waiting && q'.save == q.save
            && q'.depth == (match a
                            case Begin(c) => q.depth[c := q.depth[c] + 1]
                            case End(c) => q.depth[c := q.depth[c] - 1]
                            case _ => q.depth)
            && q'.gcThread == match a
                              case StartGC(c) => Some(q.thread[c])
                              case FinishGC => None
                              case _ => q.gcThread
  {
  }

  lemma WakeDepth(s: I.State, t: Thread)
    requires I.Inv(s) && I.Enabled(s, I.Wake(t)) && Claimant(s.pc[t]) == None
    ensures var s' := I.Next(s, I.Wake(t));
            && I.PcOk(s, t)
            && if s.pc[t].wait.ForBegin? && s'.pc[t].Running?
               then s.depth[s.pc[t].wait.c] == 0 && s'.depth == s.depth[s.pc[t].wait.c := 1]
               else s'.depth == s.depth
  {
    hide I.Conserved, I.CollectorOk, I.Open, I.Busy;
    assert I.PcOk(s, t);
  }

  lemma OthersDepth(s: I.State, a: I.Action)
    requires I.Inv(s) && I.Enabled(s, a) && !a.AwaitScope? && !a.Wake?
    ensures var s' := I.Next(s, a);
            match a
            case Begin(c) =>
              s'.depth == if s.depth[c] > 0 || s'.depth[c] > 0 then s.depth[c := s.depth[c] + 1] else s.depth
            case End(c) => s'.depth == s.depth[c := s.depth[c] - 1]
            case _ => s'.depth == s.depth
  {
    hide I.PcOk, I.Conserved, I.CollectorOk, I.Open, I.Busy;
  }

  lemma OthersGCThread(s: I.State, a: I.Action)
    requires I.Inv(s) && I.Enabled(s, a)
    ensures var s' := I.Next(s, a);
            match a
            case StartGC(c) => s'.gcThread == if s.gcThread == None then Some(s.thread[c]) else s.gcThread
            case FinishGC(_) => s'.gcThread == None || s'.gcThread == s.gcThread
            case _ => s'.gcThread == s.gcThread
  {
    hide I.PcsOk, I.Conserved, I.Open, I.Busy;
  }

  lemma OthersKeepInv(b: Both, a: I.Action)
    requires Inv(b) && I.Enabled(b.s, a) && !a.AwaitScope? && !(a.Wake? && Claimant(b.s.pc[a.t]).Some?)
    ensures Inv(Next(b, Other(a)))
  {
    hide I.Inv, S.Inv, I.Next, S.Next, I.Enabled, S.Enabled, I.PcOk, SameClaimants;
    I.StepKeepsInv(b.s, a);
    NoticedIsEnabled(b, a);
    if Noticed(b, a).Some? {
      S.StepKeepsInv(b.q, Noticed(b, a).value);
      NoticedEffect(b.q, Noticed(b, a).value);
    }
    OthersKeepClaimants(b.s, a);
    if a.Wake? {
      WakeDepth(b.s, a.t);
    } else {
      OthersDepth(b.s, a);
    }
    OthersGCThread(b.s, a);
    SameClaimantsAgree(b, Next(b, Other(a)));
  }

  lemma SameClaimantsAgree(b: Both, b': Both)
    requires Agree(b) && SameClaimants(b.s, b'.s) && S.WellFormed(b'.q)
    requires b'.s.depth == b'.q.depth && b'.s.gcThread == b'.q.gcThread && b'.q.thread == b.q.thread
    requires b'.q.waiting == b.q.waiting && b'.q.save == b.q.save
    ensures Agree(b')
  {
    forall c | c in b.s.thread
      ensures SameClaim(b.s.pc[b.s.thread[c]], b'.s.pc[b.s.thread[c]])
    {
    }
  }

  lemma OnlyMovesClaims(s: I.State, s': I.State, t: Thread)
    requires I.WellFormed(s) && C.OnlyMoves(s, s', t) && s'.gcThread == s.gcThread && t in s.pc
    ensures OnlyClaims(s, s', t)
  {
  }

  /** Only t's own wait in ClaimScope may be another one afterwards. */
  ghost predicate OnlyClaims(s: I.State, s': I.State, t: Thread) {
    && I.WellFormed(s') && s'.thread == s.thread && s'.gcThread == s.gcThread && t in s'.pc
    && forall u :: u in s.pc && u != t ==> u in s'.pc && SameClaim(s.pc[u], s'.pc[u])
  }

  lemma AwaitEffect(s: I.State, c: Ctx)
    requires I.Inv(s) && I.Enabled(s, I.AwaitScope(c))
    ensures var s', t := I.Next(s, I.AwaitScope(c)), s.thread[c];
            && OnlyClaims(s, s', t) && s'.depth == s.depth[c := 0]
            && s'.pc[t] == I.Asleep(I.ForScope(c, s.depth[c]), false)
  {
    hide I.PcOk, I.Conserved, I.CollectorOk, I.Open, I.Busy;
  }

  lemma WakeEffect(s: I.State, t: Thread, c: Ctx)
    requires I.Inv(s) && I.WellFormed(s) && t in s.pc && I.Enabled(s, I.Wake(t)) && Claimant(s.pc[t]) == Some(c)
    ensures var s' := I.Next(s, I.Wake(t));
            && c in s.thread && s.thread[c] == t && s.gcThread != Some(t) && OnlyClaims(s, s', t)
            && if s'.pc[t].Running? then s'.depth == s.depth[c := s.pc[t].wait.save]
               else s'.depth == s.depth && SameClaim(s.pc[t], s'.pc[t])
  {
    hide I.Inv, I.Next, I.Enabled, C.OnlyMoves, OnlyClaims;
    C.StepMoves(s, I.Wake(t));
    OthersGCThread(s, I.Wake(t));
    OnlyMovesClaims(s, I.Next(s, I.Wake(t)), t);
    OwnWake(s, t, c);
  }

  lemma OwnWake(s: I.State, t: Thread, c: Ctx)
    requires I.Inv(s) && I.Enabled(s, I.Wake(t)) && Claimant(s.pc[t]) == Some(c)
    ensures var s' := I.Next(s, I.Wake(t));
            && t in s'.pc && c in s.thread && s.thread[c] == t && s.gcThread != Some(t)
            && if s'.pc[t].Running? then s'.depth == s.depth[c := s.pc[t].wait.save]
               else s'.depth == s.depth && SameClaim(s.pc[t], s'.pc[t])
  {
    hide I.Conserved, I.CollectorOk, I.Open, I.Busy;
    assert I.PcOk(s, t);
    assert s.depth[c := 0] == s.depth;
  }

  lemma ParkedAgrees(s: I.State, q: S.State, c: Ctx, scope: S.Scope)
    requires I.Inv(s) && Agree(Both(s, q)) && I.Runs(s, c) && !I.OnGCThread(s, c)
    requires S.WellFormed(S.Waiting(q, c, scope))
    ensures var b := Parked(s, S.Waiting(q, c, scope), c);
            I.Inv(b.s) && Agree(b)
  {
    hide I.Inv, I.Next, I.Enabled;
    MayAwait(s, c);
    I.StepKeepsInv(s, I.AwaitScope(c));
    AwaitEffect(s, c);
    WaitingAgrees(s, I.Next(s, I.AwaitScope(c)), q, c, scope);
  }

  lemma WaitingAgrees(s: I.State, s': I.State, q: S.State, c: Ctx, scope: S.Scope)
    requires Agree(Both(s, q)) && I.Runs(s, c) && S.WellFormed(S.Waiting(q, c, scope))
    requires OnlyClaims(s, s', s.thread[c]) && s'.depth == s.depth[c := 0]
    requires s'.pc[s.thread[c]] == I.Asleep(I.ForScope(c, s.depth[c]), false)
    ensures Agree(Both(s', S.Waiting(q, c, scope)))
  {
    var t := s.thread[c];
    forall x | x in s.thread && x != c
      ensures x in q.waiting <==> Claimant(s'.pc[s'.thread[x]]) == Some(x)
      ensures x in q.waiting ==> s'.pc[s'.thread[x]].wait.save == q.save[x]
    {
      if s.thread[x] != t {
        assert SameClaim(s.pc[s.thread[x]], s'.pc[s'.thread[x]]);
      }
    }
  }

  lemma ResumedAgrees(s: I.State, s': I.State, q: S.State, c: Ctx)
    requires Agree(Both(s, q)) && c in q.waiting && OnlyClaims(s, s', s.thread[c]) && s'.pc[s.thread[c]].Running?
    requires s'.depth == s.depth[c := q.save[c]]
    ensures Agree(Both(s', S.Resumed(q, c)))
  {
    var q' := S.Resumed(q, c);
    forall x | x in s.thread && x != c
      ensures x in q'.waiting <==> Claimant(s'.pc[s'.thread[x]]) == Some(x)
      ensures x in q'.waiting ==> s'.pc[s'.thread[x]].wait.save == q'.save[x]
    {
      if s.thread[x] != s.thread[c] {
        assert SameClaim(s.pc[s.thread[x]], s'.pc[s'.thread[x]]);
      }
    }
  }

  /** After a wakeup the context runs on with the scope shared, or goes back to sleep. */
  lemma WakeTurn(q: S.State, c: Ctx)
    requires S.Inv(q) && c in q.waiting
    ensures var q' := S.Next(q, S.Wake(c));
            && S.Enabled(q, S.Wake(c)) && S.Inv(q')
            && if c in q'.waiting then q' == S.Waiting(S.Resumed(q, c), c, q.waiting[c]) else q' == S.Resumed(q, c)
  {
    S.StepKeepsInv(q, S.Wake(c));
    if q.owner[q.waiting[c]].Some? {
      S.WakeAgain(q, c);
      S.WaitingAgain(q, c);
    }
  }

  lemma WokenKeepsInv(b: Both, t: Thread, c: Ctx)
    requires Inv(b) && I.Enabled(b.s, I.Wake(t)) && Claimant(b.s.pc[t]) == Some(c)
    ensures Inv(Woken(b, t, c))
  {
    hide I.Inv, S.Inv, I.Next, S.Next, I.Enabled, S.Enabled, S.Waiting, S.Resumed, Agree;
    I.StepKeepsInv(b.s, I.Wake(t));
    ClaimantIsOwn(b, t, c);
    ClaimantWaits(b, t, c);
    WakeEffect(b.s, t, c);
    var s' := I.Next(b.s, I.Wake(t));
    if s'.pc[t].Running? {
      ResumedAgrees(b.s, s', b.q, c);
      WakeTurn(b.q, c);
      if c in S.Next(b.q, S.Wake(c)).waiting {
        ParkedAgrees(s', S.Resumed(b.q, c), c, b.q.waiting[c]);
      }
    } else {
      SameClaimantsAgree(b, Both(s', b.q));
    }
  }

  lemma ClaimantIsOwn(b: Both, t: Thread, c: Ctx)
    requires Inv(b) && I.Enabled(b.s, I.Wake(t)) && Claimant(b.s.pc[t]) == Some(c)
    ensures I.WellFormed(b.s) && t in b.s.pc && c in b.s.thread && b.s.thread[c] == t
  {
    assert I.PcOk(b.s, t);
  }

  lemma ClaimantWaits(b: Both, t: Thread, c: Ctx)
    requires Agree(b) && c in b.s.thread && b.s.thread[c] == t && Claimant(b.s.pc[t]) == Some(c)
    ensures c in b.q.waiting && b.s.pc[t].wait.save == b.q.save[c] && b.s.depth == b.q.depth
    ensures b.s.gcThread == b.q.gcThread && b.s.thread == b.q.thread && I.WellFormed(b.s) && S.WellFormed(b.q)
  {
  }

  lemma ClaimKeepsInv(b: Both, c: Ctx, scope: S.Scope)
    requires Inv(b) && Enabled(b, Claim(c, scope))
    ensures Inv(Next(b, Claim(c, scope)))
  {
    hide I.Inv, S.Inv, I.Next, S.Next, I.Enabled, S.Enabled, S.Waiting;
    S.StepKeepsInv(b.q, S.Claim(c, scope));
    ClaimWaits(b.q, c, scope);
    if c in S.Next(b.q, S.Claim(c, scope)).waiting {
      ParkedAgrees(b.s, b.q, c, scope);
    }
  }

  lemma NewScopeKeepsInv(b: Both, c: Ctx, scope: S.Scope)
    requires Inv(b) && Enabled(b, NewScope(c, scope))
    ensures Inv(Next(b, NewScope(c, scope)))
  {
    hide I.Inv, S.Inv;
    S.StepKeepsInv(b.q, S.NewScope(c, scope));
  }

  /** In all that the threads do the two parts stay in step, and each keeps its invariant. */
  lemma StepKeepsInv(b: Both, act: Action)
    requires Inv(b) && Enabled(b, act)
    ensures Inv(Next(b, act))
  {
    hide I.Inv, S.Inv, I.Next, S.Next, Agree;
    match act
    case NewScope(c, scope) => NewScopeKeepsInv(b, c, scope);
    case Claim(c, scope) => ClaimKeepsInv(b, c, scope);
    case Other(a) =>
      if a.Wake? && Claimant(b.s.pc[a.t]).Some? {
        WokenKeepsInv(b, a.t, Claimant(b.s.pc[a.t]).value);
      } else {
        OthersKeepInv(b, a);
      }
  }

  // ----- Runs -----

  ghost predicate Init(b: Both) {
    I.Init(b.s) && S.Init(b.q) && Agree(b)
  }

  ghost predicate IsStep(b: Both, act: Action, b': Both) {
    Inv(b) ==> Enabled(b, act) && b' == Next(b, act)
  }

  ghost predicate IsRun(states: seq<Both>, acts: seq<Action>) {
    && |states| == |acts| + 1 && Init(states[0])
    && forall i :: 0 <= i < |acts| ==> IsStep(states[i], acts[i], states[i + 1])
  }

  lemma InitialInv(b: Both)
    requires Init(b)
    ensures Inv(b)
  {
    assert I.Busy(b.s) == {};
    assert S.Ranked(b.q, c => 0);
  }

  lemma {:induction false} RunKeepsInv(states: seq<Both>, acts: seq<Action>, i: nat)
    requires IsRun(states, acts) && i < |states|
    ensures Inv(states[i])
  {
    hide Inv, Enabled, Next, Init;
    if i == 0 {
      InitialInv(states[0]);
    } else {
      RunKeepsInv(states, acts, i - 1);
      assert IsStep(states[i - 1], acts[i - 1], states[i]);
      StepKeepsInv(states[i - 1], acts[i - 1]);
    }
  }

  // ----- One request per thread -----

  /** A context starts a request, and claims a scope, only when no other one of its thread is in a request. */
  ghost predicate Disciplined(b: Both, act: Action)
    requires Inv(b) && Enabled(b, act)
  {
    match act
    case NewScope(_, _) => true
    case Claim(c, _) => C.Disciplined(b.s, I.AwaitScope(c))
    case Other(a) => C.Disciplined(b.s, a)
  }

  lemma ParkedKeepsOneRequest(s: I.State, q: S.State, c: Ctx)
    requires I.Inv(s) && I.Runs(s, c) && (c in q.waiting ==> !I.OnGCThread(s, c))
    requires C.OneRequest(s) && I.Open(s, s.thread[c]) <= {c}
    ensures C.OneRequest(Parked(s, q, c).s)
  {
    hide I.Next, C.OneRequest;
    if c in q.waiting {
      MayAwait(s, c);
      C.StepKeepsOneRequest(s, I.AwaitScope(c));
    }
  }

  lemma OpenAfterWake(s: I.State, s': I.State, t: Thread, c: Ctx)
    requires C.OneRequest(s) && t in s.pc && Claimant(s.pc[t]).Some? && c in s.depth && OnlyClaims(s, s', t)
    requires s'.depth == s.depth[c := s.pc[t].wait.save]
    ensures I.Open(s', t) <= {c}
  {
    assert C.OneOpen(s, t);
    forall x | x in I.Open(s', t) && x != c
      ensures x in I.Open(s, t)
    {
    }
  }

  lemma WokenKeepsOneRequest(b: Both, t: Thread, c: Ctx)
    requires Inv(b) && I.Enabled(b.s, I.Wake(t)) && Claimant(b.s.pc[t]) == Some(c) && C.OneRequest(b.s)
    ensures C.OneRequest(Woken(b, t, c).s)
  {
    hide I.Inv, S.Inv, I.Next, S.Next, I.Enabled, C.OneRequest, I.Open;
    I.StepKeepsInv(b.s, I.Wake(t));
    ClaimantIsOwn(b, t, c);
    ClaimantWaits(b, t, c);
    WakeEffect(b.s, t, c);
    C.StepKeepsOneRequest(b.s, I.Wake(t));
    var s' := I.Next(b.s, I.Wake(t));
    if s'.pc[t].Running? {
      OpenAfterWake(b.s, s', t, c);
      ParkedKeepsOneRequest(s', S.Next(b.q, S.Wake(c)), c);
    }
  }

  lemma StepKeepsOneRequest(b: Both, act: Action)
    requires Inv(b) && Enabled(b, act) && Disciplined(b, act) && C.OneRequest(b.s)
    ensures C.OneRequest(Next(b, act).s)
  {
    hide I.Inv, S.Inv, I.Next, S.Next, C.OneRequest;
    match act
    case NewScope(_, _) =>
    case Claim(c, scope) =>
      ClaimWaits(b.q, c, scope);
      ParkedKeepsOneRequest(b.s, S.Next(b.q, S.Claim(c, scope)), c);
    case Other(a) =>
      if a.Wake? && Claimant(b.s.pc[a.t]).Some? {
        WokenKeepsOneRequest(b, a.t, Claimant(b.s.pc[a.t]).value);
      } else {
        C.StepKeepsOneRequest(b.s, a);
      }
  }

  ghost predicate IsDisciplinedRun(states: seq<Both>, acts: seq<Action>) {
    IsRun(states, acts) &&
    forall i :: 0 <= i < |acts| ==>
      Inv(states[i]) && Enabled(states[i], acts[i]) ==> Disciplined(states[i], acts[i])
  }

  lemma {:induction false} DisciplineKeepsOneRequest(states: seq<Both>, acts: seq<Action>, i: nat)
    requires IsDisciplinedRun(states, acts) && i < |states|
    ensures Inv(states[i]) && C.OneRequest(states[i].s)
  {
    hide Inv, Next, Enabled, Disciplined, C.OneRequest;
    RunKeepsInv(states, acts, i);
    if i == 0 {
      InitialOneRequest(states[0]);
    } else {
      DisciplineKeepsOneRequest(states, acts, i - 1);
      assert IsStep(states[i - 1], acts[i - 1], states[i]);
      StepKeepsOneRequest(states[i - 1], acts[i - 1]);
    }
  }

  lemma InitialOneRequest(b: Both)
    requires Init(b)
    ensures C.OneRequest(b.s)
  {
    assert forall t :: t in b.s.pc ==> I.Open(b.s, t) == {};
  }

  // ----- Who waits for whom -----

  /** t sleeps until u ends a request, ends its collection, or hands over a scope. */
  ghost predicate WaitsFor(b: Both, t: Thread, u: Thread)
    requires Agree(b)
  {
    && t in b.s.pc
    && match b.s.pc[t]
       case Asleep(ForScope(c, _), _) =>
         c in b.q.waiting && b.q.owner[b.q.waiting[c]].Some? && b.q.thread[b.q.owner[b.q.waiting[c]].value] == u
       case Asleep(ForRequests, _) =>
         b.s.requestCount > 0 && u != t && exists c :: c in I.Busy(b.s) && b.s.thread[c] == u
       case Asleep(_, _) => b.s.gcLevel > 0 && b.s.gcThread == Some(u)
       case _ => false
  }

  ghost predicate Ordered(b: Both, rank: Thread -> nat)
    requires Agree(b)
  {
    forall t, u {:trigger WaitsFor(b, t, u)} :: WaitsFor(b, t, u) ==> rank(u) < rank(t)
  }

  /** Those who wait for scopes come above those who wait for the collector, and it above the others. */
  ghost function Rank(b: Both, r: Ctx -> nat, t: Thread): nat {
    if t !in b.s.pc then 0
    else
      match b.s.pc[t]
      case Asleep(ForScope(c, _), _) => 3 + r(c)
      case Asleep(ForRequests, _) => 1
      case Asleep(_, _) => 2
      case _ => 0
  }

  lemma NoRequestOpen(s: I.State, u: Thread, o: Ctx)
    requires C.OneRequest(s) && u in s.pc && Claimant(s.pc[u]).Some? && o in s.depth && s.thread[o] == u
    ensures s.depth[o] == 0
  {
    assert C.OneOpen(s, u) && o !in I.Open(s, u);
  }

  lemma ClaimantIs(b: Both, u: Thread, x: Ctx)
    requires Agree(b) && x in b.q.waiting && b.q.thread[x] == u && u in b.s.pc
    ensures Claimant(b.s.pc[u]) == Some(x)
  {
  }

  /** The owner of a scope somebody sleeps for is in a request, or its thread sleeps for that very owner. */
  lemma OwnerSleeps(b: Both, c: Ctx, c': Ctx)
    requires Inv(b) && C.OneRequest(b.s) && c in b.q.waiting && b.q.owner[b.q.waiting[c]].Some?
    requires var u := b.q.thread[b.q.owner[b.q.waiting[c]].value];
             u in b.s.pc && Claimant(b.s.pc[u]) == Some(c')
    ensures b.q.owner[b.q.waiting[c]] == Some(c') && S.WaitsFor(b.q, c, c')
  {
    hide I.Inv, C.OneRequest, S.Acyclic, S.ThreadsOk;
    var o := b.q.owner[b.q.waiting[c]].value;
    var u := b.q.thread[o];
    assert S.WillEnd(b.q, o);
    NoRequestOpen(b.s, u, o);
    ClaimantIs(b, u, o);
  }

  /** The collector waits for threads that are awake. */
  lemma BusyIsAwake(s: I.State, c: Ctx)
    requires I.Inv(s) && C.OneRequest(s) && c in I.Busy(s) && s.gcThread != Some(s.thread[c])
    ensures !s.pc[s.thread[c]].Asleep?
  {
    hide I.Conserved, I.CollectorOk;
    var t := s.thread[c];
    assert I.PcOk(s, t) && C.OneOpen(s, t) && c in I.Open(s, t);
    C.YielderIsOpen(s, t);
  }

  lemma WaitsDescend(b: Both, r: Ctx -> nat, t: Thread, u: Thread)
    requires Inv(b) && C.OneRequest(b.s) && S.Ranked(b.q, r) && WaitsFor(b, t, u)
    ensures Rank(b, r, u) < Rank(b, r, t)
  {
    hide S.Inv, C.OneRequest, I.Conserved, S.Ranked;
    assert I.PcOk(b.s, t) && u in b.s.pc && I.PcOk(b.s, u);
    match b.s.pc[t]
    case Asleep(ForScope(c, _), _) =>
      if b.s.pc[u].Asleep? && b.s.pc[u].wait.ForScope? {
        var c' := b.s.pc[u].wait.c;
        OwnerSleeps(b, c, c');
        RankOf(b.q, r, c, c');
      }
    case Asleep(ForRequests, _) =>
      var c :| c in I.Busy(b.s) && b.s.thread[c] == u;
      BusyIsAwake(b.s, c);
    case _ =>
  }

  lemma RankOf(q: S.State, r: Ctx -> nat, c: Ctx, o: Ctx)
    requires S.WellFormed(q) && S.Ranked(q, r) && S.WaitsFor(q, c, o)
    ensures r(o) < r(c)
  {
  }

  ghost predicate NoDeadlock(b: Both)
    requires Agree(b)
  {
    exists rank :: Ordered(b, rank)
  }

  /**
   With one request per thread, no threads ever wait for each other, be it for the collector, for
   requests to end, or for scopes.
   */
  lemma DisciplinePreventsDeadlock(states: seq<Both>, acts: seq<Action>, i: nat)
    requires IsDisciplinedRun(states, acts) && i < |states|
    ensures Agree(states[i]) && NoDeadlock(states[i])
  {
    hide C.OneRequest, I.Inv, S.ThreadsOk, S.ListsOk, Agree, S.Ranked;
    DisciplineKeepsOneRequest(states, acts, i);
    var b := states[i];
    var r :| S.Ranked(b.q, r);
    forall t, u | WaitsFor(b, t, u)
      ensures Rank(b, r, u) < Rank(b, r, t)
    {
      WaitsDescend(b, r, t, u);
    }
    assert Ordered(b, t => Rank(b, r, t));
  }

  /** A thread that sleeps waits for somebody, or has been woken, or its scope is shared. */
  lemma FreeToMove(b: Both, t: Thread)
    requires Inv(b) && t in b.s.pc && b.s.pc[t].Asleep?
    ensures (exists u :: WaitsFor(b, t, u)) || b.s.pc[t].notified
            || (b.s.pc[t].wait.ForScope? && b.q.owner[b.q.waiting[b.s.pc[t].wait.c]].None?)
  {
    hide S.Inv, I.Conserved;
    assert I.PcOk(b.s, t);
    match b.s.pc[t].wait
    case ForRequests =>
      if b.s.requestCount > 0 {
        var c := C.SomeOther(b.s, t);
        assert WaitsFor(b, t, b.s.thread[c]);
      }
    case ForScope(c, _) =>
      if b.q.owner[b.q.waiting[c]].Some? {
        assert WaitsFor(b, t, b.q.thread[b.q.owner[b.q.waiting[c]].value]);
      }
    case _ =>
      if b.s.gcThread.Some? {
        assert b.s.gcLevel > 0 ==> WaitsFor(b, t, b.s.gcThread.value);
      }
  }
}
