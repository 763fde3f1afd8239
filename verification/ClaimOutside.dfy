/**
 Why RuntimeDeadlocks.dfy asks that scopes are claimed inside the request: a run that ends in a
 deadlock of collector, scope and request, with one request per thread.
 */
module ClaimOutside {
  import opened Options
  import opened RuntimeDeadlocks
  import I = Interlock
  import S = ScopeClaims
  import C = CollectorDeadlocks
  import D = ScopeDeadlocks
  import W = WaitGraphs

  lemma EnterStep(b: Both, c: Ctx)
    requires Agree(b) && I.Runs(b.s, c) && b.s.depth[c] == 0 && b.s.gcLevel == 0
    ensures IsStep(b, Other(I.Begin(c)),
                   Both(I.Enter(b.s, b.s.thread[c], c, 1), b.q.(depth := b.q.depth[c := 1])))
  {
    hide I.Inv, S.Inv;
    if Inv(b) {
      NoticedIsEnabled(b, I.Begin(c));
    }
  }

  lemma NewScopeStep(b: Both, c: Ctx, scope: S.Scope)
    requires Agree(b) && I.Runs(b.s, c) && scope !in b.q.owner
    ensures IsStep(b, NewScope(c, scope), Both(b.s, b.q.(owner := b.q.owner[scope := Some(c)])))
  {
    hide I.Inv, S.Inv;
    RunsIsAwake(b, c);
  }

  /** A claim that has to wait, while no collection is on. */
  lemma ClaimStep(b: Both, c: Ctx, scope: S.Scope, o: Ctx)
    requires Agree(b) && I.Runs(b.s, c) && scope in b.q.owner && b.q.owner[scope] == Some(o)
    requires o in b.s.thread && b.s.thread[o] != b.s.thread[c] && b.s.depth[o] > 0 && o !in b.q.waiting
    requires b.s.gcThread == None && (b.s.depth[c] > 0 ==> b.s.requestCount > 1)
    ensures IsStep(b, Claim(c, scope),
                   Both(b.s.(depth := b.s.depth[c := 0],
                             requestCount := b.s.requestCount - (if b.s.depth[c] > 0 then 1 else 0),
                             pc := b.s.pc[b.s.thread[c] := I.Asleep(I.ForScope(c, b.s.depth[c]), false)]),
                        S.Waiting(b.q, c, scope)))
  {
    hide I.Inv, S.Inv;
    RunsIsAwake(b, c);
    assert b.s.depth[c] == 0 ==> b.s.depth[c := 0] == b.s.depth;
    if Inv(b) {
      ClaimWaits(b.q, c, scope);
      MayAwait(b.s, c);
    }
  }

  /** The end of a request that is not the last one counted. */
  lemma EndStep(b: Both, c: Ctx)
    requires Agree(b) && I.Runs(b.s, c) && b.s.depth[c] == 1 && b.s.requestCount > 1
    ensures IsStep(b, Other(I.End(c)),
                   Both(b.s.(depth := b.s.depth[c := 0], requestCount := b.s.requestCount - 1),
                        S.Share(b.q, S.Owned(b.q, c)).(depth := b.q.depth[c := 0])))
  {
    hide I.Inv, S.Inv, S.Owned;
    if Inv(b) {
      NoticedIsEnabled(b, I.End(c));
      assert S.Lowered(S.Share(b.q, S.Owned(b.q, c)), c).depth == b.q.depth[c := 0];
    }
  }

  /** A collection begins that has to wait for requests of others. */
  lemma StartStep(b: Both, c: Ctx)
    requires Agree(b) && I.Runs(b.s, c) && I.Open(b.s, b.s.thread[c]) == {}
    requires b.s.gcThread == None && b.s.gcLevel == 0 && b.s.debit == 0 && b.s.requestCount > 0
    ensures var t := b.s.thread[c];
            IsStep(b, Other(I.StartGC(c)),
                   Both(b.s.(gcLevel := 1, gcThread := Some(t), pc := b.s.pc[t := I.Asleep(I.ForRequests, false)]),
                        b.q.(gcThread := Some(t))))
  {
    hide I.Inv, S.Inv, I.Open;
    if Inv(b) {
      NoticedIsEnabled(b, I.StartGC(c));
    }
  }

  /** A thread is notified, and has to wait for the collection before it resumes its request. */
  lemma HaltSteps(b: Both, t: Thread, c: Ctx, save: nat)
    requires Agree(b) && t in b.s.pc && b.s.pc[t] == I.Asleep(I.ForScope(c, save), false) && save > 0
    requires b.s.gcThread.Some? && b.s.gcThread != Some(t) && b.s.gcLevel > 0
    ensures var b' := Both(b.s.(pc := b.s.pc[t := I.Asleep(I.ForScope(c, save), true)]), b.q);
            IsStep(b, Other(I.Notify(t)), b') &&
            IsStep(b', Other(I.Wake(t)), Both(b.s.(pc := b.s.pc[t := I.Asleep(I.ForScopeGC(c, save), false)]), b.q))
  {
    hide I.Inv, S.Inv;
  }

  lemma Extend(states: seq<Both>, acts: seq<Action>, act: Action, b: Both)
    returns (states': seq<Both>, acts': seq<Action>)
    requires IsRun(states, acts) && IsStep(states[|acts|], act, b)
    ensures IsRun(states', acts') && |acts'| == |acts| + 1 && |states'| == |states| + 1
    ensures states'[|acts'|] == b && Inv(b)
  {
    hide IsStep, Init, Inv;
    states', acts' := states + [b], acts + [act];
    forall i | 0 <= i < |acts'|
      ensures IsStep(states'[i], acts'[i], states'[i + 1])
    {
      if i < |acts| {
        assert IsStep(states[i], acts[i], states[i + 1]);
      }
    }
    RunKeepsInv(states', acts', |acts'|);
  }

  /** Thread 1 has two contexts. */
  ghost function Stage(depth: map<Ctx, nat>, pc: map<Thread, I.Pc>, count: int, waiting: map<Ctx, S.Scope>,
                       save: map<Ctx, nat>, owner: map<S.Scope, Option<Ctx>>, todo: set<S.Scope>): Both
  {
    var thread := map[31 := 0, 11 := 1, 12 := 1, 21 := 2];
    Both(I.State(thread, depth, pc, count, 0, None, false, 0), S.State(thread, depth, save, waiting, owner, todo, None))
  }

  ghost function Depths(d31: nat, d11: nat, d21: nat): map<Ctx, nat> {
    map[31 := d31, 11 := d11, 12 := 0, 21 := d21]
  }

  ghost function Pcs(p1: I.Pc, p2: I.Pc): map<Thread, I.Pc> {
    map[0 := I.Running, 1 := p1, 2 := p2]
  }

  ghost function Begun(d31: nat, d21: nat, d11: nat, owner: map<S.Scope, Option<Ctx>>): Both {
    Stage(Depths(d31, d11, d21), Pcs(I.Running, I.Running), d31 + d21 + d11, map[], Depths(0, 0, 0), owner, {})
  }

  lemma BeforeBegun() returns (states: seq<Both>, acts: seq<Action>)
    ensures IsRun(states, acts) && acts == [] && |states| == 1 && states[0] == Begun(0, 0, 0, map[]) && Inv(states[0])
  {
    states, acts := [Begun(0, 0, 0, map[])], [];
    InitialInv(states[0]);
  }

  /** Contexts 31, 21 and 11 begin requests, and scope 6 belongs to 31 and 5 to 21. */
  lemma Beginning() returns (states: seq<Both>, acts: seq<Action>)
    ensures IsRun(states, acts) && |states| == 6 && |acts| == 5
    ensures states[5] == Begun(1, 1, 1, map[6 := Some(31), 5 := Some(21)]) && Inv(states[5])
  {
    hide IsStep, IsRun, I.Inv, S.Inv, Agree, Begun;
    states, acts := BeforeBegun();
    BeginAt(0, 0, 0, map[], 31);
    states, acts := Extend(states, acts, Other(I.Begin(31)), Begun(1, 0, 0, map[]));
    NewScopeAt(1, 0, 0, map[], 31, 6);
    states, acts := Extend(states, acts, NewScope(31, 6), Begun(1, 0, 0, map[6 := Some(31)]));
    BeginAt(1, 0, 0, map[6 := Some(31)], 21);
    states, acts := Extend(states, acts, Other(I.Begin(21)), Begun(1, 1, 0, map[6 := Some(31)]));
    NewScopeAt(1, 1, 0, map[6 := Some(31)], 21, 5);
    states, acts := Extend(states, acts, NewScope(21, 5), Begun(1, 1, 0, map[6 := Some(31), 5 := Some(21)]));
    BeginAt(1, 1, 0, map[6 := Some(31), 5 := Some(21)], 11);
    states, acts := Extend(states, acts, Other(I.Begin(11)), Begun(1, 1, 1, map[6 := Some(31), 5 := Some(21)]));
  }

  lemma NewScopeAt(d31: nat, d21: nat, d11: nat, owner: map<S.Scope, Option<Ctx>>, c: Ctx, scope: S.Scope)
    requires Agree(Begun(d31, d21, d11, owner)) && (c == 31 || c == 21) && scope !in owner
    ensures IsStep(Begun(d31, d21, d11, owner), NewScope(c, scope), Begun(d31, d21, d11, owner[scope := Some(c)]))
  {
    hide IsStep, Agree;
    NewScopeStep(Begun(d31, d21, d11, owner), c, scope);
  }

  lemma BeginAt(d31: nat, d21: nat, d11: nat, owner: map<S.Scope, Option<Ctx>>, c: Ctx)
    requires Agree(Begun(d31, d21, d11, owner))
    requires (c == 31 && d31 == 0) || (c == 21 && d21 == 0) || (c == 11 && d11 == 0)
    ensures IsStep(Begun(d31, d21, d11, owner), Other(I.Begin(c)),
                   Begun(if c == 31 then 1 else d31, if c == 21 then 1 else d21, if c == 11 then 1 else d11, owner))
  {
    hide IsStep, Agree;
    var b := Begun(d31, d21, d11, owner);
    EnterStep(b, c);
    var b' := Begun(if c == 31 then 1 else d31, if c == 21 then 1 else d21, if c == 11 then 1 else d11, owner);
    assert b.s.depth[c := 1] == b'.s.depth && b.s.pc[b.s.thread[c] := I.Running] == b'.s.pc;
  }

  /** For 12, whose thread has 11 in a request, and for 21 there are scopes to wait for. */
  lemma Claiming() returns (states: seq<Both>, acts: seq<Action>)
    ensures IsRun(states, acts) && |states| == 8 && |acts| == 7 && Inv(states[7])
    ensures states[7] == Stage(Depths(1, 1, 0),
                               Pcs(I.Asleep(I.ForScope(12, 0), false), I.Asleep(I.ForScope(21, 1), false)),
                               2, map[12 := 5, 21 := 6], map[31 := 0, 11 := 0, 12 := 0, 21 := 1],
                               map[6 := Some(31), 5 := Some(21)], {5, 6})
  {
    hide IsStep, IsRun, I.Inv, S.Inv, Agree;
    states, acts := Beginning();
    var owner := map[6 := Some(31), 5 := Some(21)];
    var p := I.Asleep(I.ForScope(12, 0), false);
    ClaimStep(states[5], 12, 5, 21);
    var b := Stage(Depths(1, 1, 1), Pcs(p, I.Running), 3, map[12 := 5], Depths(0, 0, 0), owner, {5});
    assert Depths(1, 1, 1)[12 := 0] == Depths(1, 1, 1) && Depths(0, 0, 0)[12 := 0] == Depths(0, 0, 0);
    assert Pcs(I.Running, I.Running)[1 := p] == Pcs(p, I.Running) && {} + {5} == {5};
    states, acts := Extend(states, acts, Claim(12, 5), b);
    ClaimStep(b, 21, 6, 31);
    var q := I.Asleep(I.ForScope(21, 1), false);
    var save := map[31 := 0, 11 := 0, 12 := 0, 21 := 1];
    assert Depths(1, 1, 1)[21 := 0] == Depths(1, 1, 0) && Depths(0, 0, 0)[21 := 1] == save;
    assert Pcs(p, I.Running)[2 := q] == Pcs(p, q) && {5} + {6} == {5, 6};
    assert map[12 := 5][21 := 6] == map[12 := 5, 21 := 6];
    states, acts := Extend(states, acts, Claim(21, 6),
                           Stage(Depths(1, 1, 0), Pcs(p, q), 2, map[12 := 5, 21 := 6], save, owner, {5, 6}));
  }

  ghost function Parkings(d31: nat, count: int, owner: map<S.Scope, Option<Ctx>>, todo: set<S.Scope>): Both {
    Stage(Depths(d31, 1, 0), Pcs(I.Asleep(I.ForScope(12, 0), false), I.Asleep(I.ForScope(21, 1), false)), count,
          map[12 := 5, 21 := 6], map[31 := 0, 11 := 0, 12 := 0, 21 := 1], owner, todo)
  }

  /** Context 31 ends its request, so scope 6 is shared. */
  lemma EndingAt()
    requires Agree(Parkings(1, 2, map[6 := Some(31), 5 := Some(21)], {5, 6}))
    ensures IsStep(Parkings(1, 2, map[6 := Some(31), 5 := Some(21)], {5, 6}), Other(I.End(31)),
                   Parkings(0, 1, map[6 := None, 5 := Some(21)], {5}))
  {
    hide IsStep, Agree;
    var b := Parkings(1, 2, map[6 := Some(31), 5 := Some(21)], {5, 6});
    var b' := Parkings(0, 1, map[6 := None, 5 := Some(21)], {5});
    EndStep(b, 31);
    SharedIsSix(b.q);
    assert b.s.depth[31 := 0] == b'.s.depth;
  }

  lemma SharedIsSix(q: S.State)
    requires S.WellFormed(q) && q.todo == {5, 6} && q.owner == map[6 := Some(31), 5 := Some(21)]
    ensures S.Share(q, S.Owned(q, 31)) == q.(owner := map[6 := None, 5 := Some(21)], todo := {5})
  {
    assert S.Owned(q, 31) == {6};
    assert S.Share(q, {6}).owner == map[6 := None, 5 := Some(21)];
  }

  ghost function Collecting(p: I.Pc): Both {
    var b := Parkings(0, 1, map[6 := None, 5 := Some(21)], {5});
    Both(b.s.(gcLevel := 1, gcThread := Some(0), pc := b.s.pc[0 := I.Asleep(I.ForRequests, false)][2 := p]),
         b.q.(gcThread := Some(0)))
  }

  /** Thread 0 starts to collect. */
  lemma StartingAt()
    requires Agree(Parkings(0, 1, map[6 := None, 5 := Some(21)], {5}))
    ensures IsStep(Parkings(0, 1, map[6 := None, 5 := Some(21)], {5}), Other(I.StartGC(31)),
                   Collecting(I.Asleep(I.ForScope(21, 1), false)))
  {
    hide IsStep, Agree;
    var b, b' := Parkings(0, 1, map[6 := None, 5 := Some(21)], {5}), Collecting(I.Asleep(I.ForScope(21, 1), false));
    assert I.Open(b.s, 0) == {};
    StartStep(b, 31);
    assert b.s.pc[0 := I.Asleep(I.ForRequests, false)] == b'.s.pc;
  }

  lemma HaltingAt()
    requires Agree(Collecting(I.Asleep(I.ForScope(21, 1), false)))
    ensures IsStep(Collecting(I.Asleep(I.ForScope(21, 1), false)), Other(I.Notify(2)),
                   Collecting(I.Asleep(I.ForScope(21, 1), true)))
    ensures IsStep(Collecting(I.Asleep(I.ForScope(21, 1), true)), Other(I.Wake(2)),
                   Collecting(I.Asleep(I.ForScopeGC(21, 1), false)))
  {
    hide IsStep, Agree;
    var b := Collecting(I.Asleep(I.ForScope(21, 1), false));
    var p, q := I.Asleep(I.ForScope(21, 1), true), I.Asleep(I.ForScopeGC(21, 1), false);
    HaltSteps(b, 2, 21, 1);
    assert b.s.pc[2 := p] == Collecting(p).s.pc && b.s.pc[2 := q] == Collecting(q).s.pc;
  }

  /** No thread has two contexts in a request, or with a suspended one. */
  ghost predicate OneEach(q: S.State)
    requires S.WellFormed(q)
  {
    forall x, y :: x in q.thread && y in q.thread && S.WillEnd(q, x) && S.WillEnd(q, y) && q.thread[x] == q.thread[y]
      ==> x == y
  }

  lemma Closed()
    requires Agree(Collecting(I.Asleep(I.ForScopeGC(21, 1), false)))
    ensures var b := Collecting(I.Asleep(I.ForScopeGC(21, 1), false));
            && WaitsFor(b, 0, 1) && WaitsFor(b, 1, 2) && WaitsFor(b, 2, 0)
            && (forall t :: !C.CanMove(b.s, t)) && OneEach(b.q)
  {
    hide Agree;
    var b := Collecting(I.Asleep(I.ForScopeGC(21, 1), false));
    assert 11 in I.Busy(b.s);
  }

  /** It is neither of the two deadlocks that each part has by itself. */
  lemma NoneStuck()
    requires Agree(Collecting(I.Asleep(I.ForScopeGC(21, 1), false)))
    ensures forall t :: !C.Stuck(Collecting(I.Asleep(I.ForScopeGC(21, 1), false)).s, t)
  {
    hide Agree;
    var b := Collecting(I.Asleep(I.ForScopeGC(21, 1), false));
    assert C.BusyOn(b.s, 2) == {};
  }

  lemma NoneDoomed()
    requires Agree(Collecting(I.Asleep(I.ForScopeGC(21, 1), false)))
    ensures W.Doomed(D.Waits(Collecting(I.Asleep(I.ForScopeGC(21, 1), false)).q)) == {}
  {
    hide Agree;
    var q := Collecting(I.Asleep(I.ForScopeGC(21, 1), false)).q;
    var w := D.Waits(q);
    forall t | t in w
      ensures t == 1 && w[t] == 2
    {
      OnlyTwelveSleeps(q, t);
    }
    W.DoomedIsDeadlocked(w);
  }

  lemma OnlyTwelveSleeps(q: S.State, t: Thread)
    requires S.WellFormed(q) && q.waiting == map[12 := 5, 21 := 6] && q.owner == map[6 := None, 5 := Some(21)]
    requires q.thread == map[31 := 0, 11 := 1, 12 := 1, 21 := 2] && t in D.Waits(q)
    ensures t == 1 && D.Waits(q)[t] == 2
  {
    var x :| D.SleepsFor(q, t, x);
    assert forall y :: D.SleepsFor(q, t, y) ==> y == 12;
    assert x == 12 && D.OwnerThread(q, 5) == 2;
  }

  /**
   If a context outside any request may claim a scope while another one of its thread is in one, one
   request per thread is not enough: the collector waits for thread 1, that one for a scope of thread
   2, and thread 2 for the collector.
   */
  lemma ClaimOutsideDeadlocks() returns (states: seq<Both>, acts: seq<Action>)
    ensures IsRun(states, acts) && |acts| == 11
    ensures var b := states[11];
            && Agree(b) && WaitsFor(b, 0, 1) && WaitsFor(b, 1, 2) && WaitsFor(b, 2, 0) && !NoDeadlock(b)
            && (forall t :: !C.CanMove(b.s, t)) && OneEach(b.q)
            && (forall t :: !C.Stuck(b.s, t)) && W.Doomed(D.Waits(b.q)) == {}
  {
    hide IsStep, IsRun, I.Inv, S.Inv, Agree, Collecting, Parkings, OneEach;
    states, acts := Claiming();
    ParkingsAre();
    EndingAt();
    states, acts := Extend(states, acts, Other(I.End(31)), Parkings(0, 1, map[6 := None, 5 := Some(21)], {5}));
    StartingAt();
    states, acts := Extend(states, acts, Other(I.StartGC(31)), Collecting(I.Asleep(I.ForScope(21, 1), false)));
    HaltingAt();
    states, acts := Extend(states, acts, Other(I.Notify(2)), Collecting(I.Asleep(I.ForScope(21, 1), true)));
    states, acts := Extend(states, acts, Other(I.Wake(2)), Collecting(I.Asleep(I.ForScopeGC(21, 1), false)));
    Closed();
    NoneStuck();
    NoneDoomed();
    NoOrder(states[11]);
  }

  lemma ParkingsAre()
    ensures Parkings(1, 2, map[6 := Some(31), 5 := Some(21)], {5, 6}) ==
            Stage(Depths(1, 1, 0), Pcs(I.Asleep(I.ForScope(12, 0), false), I.Asleep(I.ForScope(21, 1), false)),
                  2, map[12 := 5, 21 := 6], map[31 := 0, 11 := 0, 12 := 0, 21 := 1],
                  map[6 := Some(31), 5 := Some(21)], {5, 6})
  {
  }

  lemma NoOrder(b: Both)
    requires Agree(b) && WaitsFor(b, 0, 1) && WaitsFor(b, 1, 2) && WaitsFor(b, 2, 0)
    ensures !NoDeadlock(b)
  {
  }
}
