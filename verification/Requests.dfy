/**
 The request functions of jsapi.c on the structures they update in place: a context's
 requestDepth, the runtime's requestCount, and the linked list of scopes that wait to be
 shared.  Interlock.dfy proves what any interleaving of these sections keeps; here each section
 is proved against its effect on memory.
 */
module Requests {
  import opened Options
  import opened Sequences

  class Context {
    const thread: nat
    var requestDepth: nat

    constructor (t: nat)
      ensures thread == t && requestDepth == 0
    {
      thread, requestDepth := t, 0;
    }
  }

  /** The union in a scope: a link of the sharing list, whose terminator is not null, or a lock count. */
  datatype Union = Null | EndOfTodo | Next(scope: Scope) | Count(n: nat)

  datatype Fields = Fields(ownercx: Context?, nrefs: nat, u: Union, lockReady: bool, destroyed: bool)

  class Scope {
    var ownercx: Context?
    var nrefs: nat
    var u: Union
    var lockReady: bool
    var destroyed: bool

    constructor (owner: Context)
      ensures ownercx == owner && nrefs == 1 && u == Null && !lockReady && !destroyed
    {
      ownercx, nrefs, u, lockReady, destroyed := owner, 1, Null, false, false;
    }

    ghost function Get(): Fields
      reads this
    {
      Fields(ownercx, nrefs, u, lockReady, destroyed)
    }

    /** js_DropObjectMap: true unless the last reference went and the scope was destroyed. */
    method Drop() returns (alive: bool)
      requires nrefs > 0
      modifies this
      ensures Get() == old(Get()).(nrefs := old(nrefs) - 1, destroyed := if alive then old(destroyed) else true)
      ensures alive <==> old(nrefs) > 1
    {
      nrefs := nrefs - 1;
      if nrefs == 0 {
        destroyed := true;
        return false;
      }
      return true;
    }
  }

  /** What other threads have made of the shared counters when a sleeper wakes up. */
  datatype Wakeup = Wakeup(requestCount: nat, gcLevel: nat, gcThread: Option<nat>)

  /** The first wakeup that finds no GC on; |wakes| when there is none. */
  function FirstIdle(wakes: seq<Wakeup>): (k: nat)
    ensures k <= |wakes|
    ensures k < |wakes| ==> wakes[k].gcLevel == 0
    ensures forall i :: 0 <= i < k ==> wakes[i].gcLevel > 0
  {
    if wakes == [] || wakes[0].gcLevel == 0 then 0 else 1 + FirstIdle(wakes[1..])
  }

  /** The counters a context finds once it may enter a request: now, or at the first idle wakeup. */
  function OnEntry(blocked: bool, now: Wakeup, wakes: seq<Wakeup>): Wakeup
    requires blocked ==> FirstIdle(wakes) < |wakes|
  {
    if blocked then wakes[FirstIdle(wakes)] else now
  }

  /** One more request is counted than were found, and nothing else has changed. */
  ghost predicate Entered(after: Wakeup, found: Wakeup) {
    after == found.(requestCount := found.requestCount + 1)
  }

  // ----- The sharing list -----

  ghost function LinkTo(xs: seq<Scope>, i: nat): Union {
    if i < |xs| then Next(xs[i]) else EndOfTodo
  }

  /** The list from head links exactly the scopes xs, in order and without repetition. */
  ghost predicate Links(head: Union, xs: seq<Scope>)
    reads xs
  {
    && head == LinkTo(xs, 0)
    && (forall i :: 0 <= i < |xs| ==> xs[i].u == LinkTo(xs, i + 1))
    && Distinct(xs)
  }

  lemma RemovedIndex(kept: seq<Scope>, scope: Scope, rest: seq<Scope>, i: nat)
    requires i < |kept + rest|
    ensures (kept + rest)[i] == (kept + [scope] + rest)[if i < |kept| then i else i + 1]
    ensures (kept + [scope] + rest)[|kept|] == scope
  {
  }

  lemma DistinctAt<T>(xs: seq<T>, i: nat, j: nat)
    requires Distinct(xs) && i < |xs| && j < |xs| && i != j
    ensures xs[i] != xs[j]
  {
  }

  lemma RemovedHere(kept: seq<Scope>, scope: Scope, rest: seq<Scope>)
    ensures (kept + [scope] + rest)[|kept|] == scope
    ensures LinkTo(kept + [scope] + rest, |kept| + 1) == LinkTo(kept + rest, |kept|)
    ensures kept != [] ==> LinkTo(kept + rest, 0) == LinkTo(kept + [scope] + rest, 0)
    ensures kept != [] ==> (kept + rest)[|kept| - 1] == kept[|kept| - 1]
  {
  }

  lemma RemovedLink(kept: seq<Scope>, scope: Scope, rest: seq<Scope>, i: nat)
    requires i < |kept + rest|
    ensures var all, xs := kept + [scope] + rest, kept + rest;
            && (i < |kept| ==> xs[i] == all[i] == kept[i])
            && (i + 1 < |kept| ==> LinkTo(xs, i + 1) == LinkTo(all, i + 1))
            && (i >= |kept| ==> xs[i] == all[i + 1] && LinkTo(xs, i + 1) == LinkTo(all, i + 2))
  {
  }

  lemma RemoveDistinct(kept: seq<Scope>, scope: Scope, rest: seq<Scope>)
    requires Distinct(kept + [scope] + rest)
    ensures Distinct(kept + rest) && scope !in kept + rest
  {
    var all, xs := kept + [scope] + rest, kept + rest;
    forall i, j | 0 <= i < j < |xs|
      ensures xs[i] != xs[j]
    {
      RemovedIndex(kept, scope, rest, i);
      RemovedIndex(kept, scope, rest, j);
    }
    forall i | 0 <= i < |xs|
      ensures xs[i] != scope
    {
      RemovedIndex(kept, scope, rest, i);
    }
  }

  function Without<T(==)>(xs: seq<T>, gone: set<T>): (r: seq<T>)
    ensures forall i :: 0 <= i < |r| ==> r[i] in xs && r[i] !in gone
    ensures forall i :: 0 <= i < |xs| && xs[i] !in gone ==> xs[i] in r
  {
    if xs == [] then [] else (if xs[0] in gone then [] else [xs[0]]) + Without(xs[1..], gone)
  }

  lemma {:induction false} WithoutSnoc<T>(xs: seq<T>, x: T, gone: set<T>)
    ensures Without(xs + [x], gone) == Without(xs, gone) + (if x in gone then [] else [x])
  {
    if xs == [] {
      assert [x][1..] == [];
    } else {
      assert (xs + [x])[1..] == xs[1..] + [x];
      WithoutSnoc(xs[1..], x, gone);
    }
  }

  /** What stays on the list stays in its order. */
  lemma {:induction false} WithoutKeepsOrder<T>(xs: seq<T>, gone: set<T>, i: nat, j: nat) returns (p: nat, q: nat)
    requires i < j < |xs| && xs[i] !in gone && xs[j] !in gone
    ensures p < q < |Without(xs, gone)| && Without(xs, gone)[p] == xs[i] && Without(xs, gone)[q] == xs[j]
  {
    if i > 0 {
      p, q := WithoutKeepsOrder(xs[1..], gone, i - 1, j - 1);
      if xs[0] !in gone {
        p, q := p + 1, q + 1;
      }
    } else {
      assert xs[j] == xs[1..][j - 1] && xs[j] in Without(xs[1..], gone);
      var k :| 0 <= k < |Without(xs[1..], gone)| && Without(xs[1..], gone)[k] == xs[j];
      p, q := 0, k + 1;
    }
  }

  /** A scope taken off the list lost one reference; it is shared now, or destroyed with its last one. */
  ghost predicate Handed(before: Fields, after: Fields) {
    && after.nrefs == before.nrefs - 1
    && (if before.nrefs > 1
        then after == Fields(null, after.nrefs, Count(0), true, before.destroyed)
        else after == Fields(before.ownercx, after.nrefs, Null, before.lockReady, true))
  }

  /** Nothing but the link may have changed. */
  ghost predicate Kept(before: Fields, after: Fields) {
    after == before.(u := after.u)
  }

  /** What becomes of a scope on the list when cx ends its last request. */
  ghost predicate Settled(cx: Context, before: Fields, after: Fields) {
    if before.ownercx == cx then Handed(before, after) else Kept(before, after)
  }

  /** Field by field: shared, ready to be locked and off the list, or destroyed, or still waiting with its owner. */
  ghost predicate HandedOver(cx: Context, before: Fields, after: Fields) {
    && after.nrefs == before.nrefs - (if before.ownercx == cx then 1 else 0)
    && after.ownercx == (if Survives(before, cx) then null else before.ownercx)
    && (Survives(before, cx) ==> after.u == Count(0))
    && after.lockReady == (before.lockReady || Survives(before, cx))
    && after.destroyed == (before.destroyed || (before.ownercx == cx && before.nrefs == 1))
  }

  /** cx owns the scope, and somebody else refers to it too. */
  ghost predicate Survives(f: Fields, cx: Context) {
    f.ownercx == cx && f.nrefs > 1
  }

  ghost function Snapshot(xs: seq<Scope>): (r: seq<Fields>)
    reads xs
    ensures |r| == |xs| && forall i :: 0 <= i < |xs| ==> r[i] == xs[i].Get()
  {
    seq(|xs|, i requires 0 <= i < |xs| reads xs => xs[i].Get())
  }

  class Runtime {
    var requestCount: nat
    var gcLevel: nat
    var gcThread: Option<nat>
    var scopeSharingTodo: Union

    constructor ()
      ensures requestCount == 0 && gcLevel == 0 && gcThread == None && scopeSharingTodo == EndOfTodo
    {
      requestCount, gcLevel, gcThread, scopeSharingTodo := 0, 0, None, EndOfTodo;
    }

    /** Writes the link that *todop denotes. */
    method Unlink(prev: Scope?, scope: Scope, ghost kept: seq<Scope>, ghost rest: seq<Scope>)
      requires Links(scopeSharingTodo, kept + [scope] + rest)
      requires prev == if kept == [] then null else kept[|kept| - 1]
      modifies `scopeSharingTodo, kept`u
      ensures Links(scopeSharingTodo, kept + rest)
      ensures scope !in kept + rest && scope.u == old(scope.u)
    {
      hide Distinct, LinkTo;
      ghost var all, xs := kept + [scope] + rest, kept + rest;
      RemoveDistinct(kept, scope, rest);
      RemovedHere(kept, scope, rest);
      assert all[|kept|].u == LinkTo(all, |kept| + 1);
      if prev == null {
        scopeSharingTodo := scope.u;
      } else {
        prev.u := scope.u;
      }
      forall i | 0 <= i < |xs|
        ensures xs[i].u == LinkTo(xs, i + 1)
      {
        RemovedLink(kept, scope, rest, i);
        if i != |kept| - 1 && kept != [] {
          DistinctAt(xs, i, |kept| - 1);
        }
      }
    }

    /** Takes one scope off the list and hands it to whoever waits for it. */
    method ShareOne(prev: Scope?, scope: Scope, ghost kept: seq<Scope>, ghost rest: seq<Scope>)
      returns (alive: bool)
      requires Links(scopeSharingTodo, kept + [scope] + rest) && scope.nrefs > 0
      requires prev == if kept == [] then null else kept[|kept| - 1]
      modifies `scopeSharingTodo, kept`u, scope
      ensures Links(scopeSharingTodo, kept + rest)
      ensures alive <==> old(scope.nrefs) > 1
      ensures Handed(old(scope.Get()), scope.Get())
    {
      assert (kept + [scope] + rest)[|kept|] == scope;
      Unlink(prev, scope, kept, rest);
      scope.u := Null;
      alive := scope.Drop();
      if alive {
        scope.lockReady := true;
        scope.u := Count(0);
        scope.ownercx := null;
      }
    }

    /** Shares the i-th scope; the others only have their links adjusted, the removed ones not even that. */
    method ShareNth(prev: Scope?, scope: Scope, ghost xs: seq<Scope>, ghost i: nat,
                    ghost kept: seq<Scope>, ghost gone: set<Scope>) returns (alive: bool)
      requires i < |xs| && scope == xs[i] && Distinct(xs) && scope.nrefs > 0
      requires forall k :: 0 <= k < |kept| ==> kept[k] in xs && kept[k] !in gone
      requires Links(scopeSharingTodo, kept + [scope] + xs[i + 1..])
      requires prev == if kept == [] then null else kept[|kept| - 1]
      modifies `scopeSharingTodo, kept`u, scope
      ensures Links(scopeSharingTodo, kept + xs[i + 1..])
      ensures alive <==> old(scope.nrefs) > 1
      ensures Handed(old(scope.Get()), scope.Get())
      ensures forall k :: 0 <= k < |xs| && k != i ==>
                Kept(old(xs[k].Get()), xs[k].Get()) && (xs[k] in gone ==> xs[k].Get() == old(xs[k].Get()))
    {
      alive := ShareOne(prev, scope, kept, xs[i + 1..]);
      forall k | 0 <= k < |xs| && k != i
        ensures Kept(old(xs[k].Get()), xs[k].Get()) && (xs[k] in gone ==> xs[k].Get() == old(xs[k].Get()))
      {
        assert xs[k] != xs[i];
        assert xs[k] in gone ==> xs[k] !in kept;
      }
    }

    /** The first i scopes are settled, and the list links the survivors among them before the rest. */
    ghost predicate Progress(cx: Context, xs: seq<Scope>, i: nat, kept: seq<Scope>, pre: seq<Fields>,
                             gone: set<Scope>, cur: Union, prev: Scope?)
      reads `scopeSharingTodo, xs, kept
    {
      && i <= |xs| == |pre| && Distinct(xs)
      && kept == Without(xs[..i], gone)
      && Links(scopeSharingTodo, kept + xs[i..]) && cur == LinkTo(xs, i)
      && prev == (if kept == [] then null else kept[|kept| - 1])
      && (forall k :: 0 <= k < i ==> Settled(cx, pre[k], xs[k].Get()))
      && (forall k :: i <= k < |xs| ==> Kept(pre[k], xs[k].Get()))
    }

    /** Stepping over a scope of another context. */
    lemma Advance(cx: Context, prev: Scope?, xs: seq<Scope>, i: nat, kept: seq<Scope>, pre: seq<Fields>,
                  gone: set<Scope>) returns (kept': seq<Scope>)
      requires i < |xs| && Progress(cx, xs, i, kept, pre, gone, Next(xs[i]), prev)
      requires xs[i].ownercx != cx && xs[i] !in gone
      ensures pre[i].ownercx != cx && Progress(cx, xs, i + 1, kept', pre, gone, xs[i].u, xs[i])
    {
      kept' := StepList(xs, i, kept, gone);
    }

    lemma ProgressLink(cx: Context, xs: seq<Scope>, i: nat, kept: seq<Scope>, pre: seq<Fields>,
                       gone: set<Scope>, prev: Scope?)
      requires i < |xs| && Progress(cx, xs, i, kept, pre, gone, Next(xs[i]), prev)
      ensures xs[i].u == LinkTo(xs, i + 1)
    {
      var next := StepList(xs, i, kept, gone);
    }

    /** Handing over a scope of cx; todop stays where it is. */
    method HandOver(cx: Context, prev: Scope?, scope: Scope, ghost xs: seq<Scope>, ghost i: nat,
                    ghost kept: seq<Scope>, ghost pre: seq<Fields>, ghost gone: set<Scope>)
      returns (cur: Union, alive: bool)
      requires i < |xs| && scope == xs[i] && scope.ownercx == cx && scope.nrefs > 0
      requires Progress(cx, xs, i, kept, pre, gone, Next(scope), prev)
      requires forall k :: 0 <= k < |xs| ==> (xs[k] in gone <==> pre[k].ownercx == cx)
      modifies `scopeSharingTodo, xs
      ensures Progress(cx, xs, i + 1, kept, pre, gone, cur, prev)
      ensures pre[i].ownercx == cx && (alive <==> pre[i].nrefs > 1)
    {
      hide Without, Distinct, Links, LinkTo;
      ghost var next := StepList(xs, i, kept, gone);
      ProgressLink(cx, xs, i, kept, pre, gone, prev);
      cur := scope.u;
      alive := ShareNth(prev, scope, xs, i, kept, gone);
    }

    method Visit(cx: Context, prev: Scope?, scope: Scope, ghost xs: seq<Scope>, ghost i: nat,
                 ghost kept: seq<Scope>, ghost pre: seq<Fields>, ghost gone: set<Scope>)
      returns (cur: Union, prev': Scope?, shared: nat, ghost kept': seq<Scope>)
      requires i < |xs| && scope == xs[i]
      requires Progress(cx, xs, i, kept, pre, gone, Next(scope), prev) && pre[i].nrefs > 0
      requires forall k :: 0 <= k < |xs| ==> (xs[k] in gone <==> pre[k].ownercx == cx)
      modifies `scopeSharingTodo, xs
      ensures Progress(cx, xs, i + 1, kept', pre, gone, cur, prev')
      ensures shared == if pre[i].ownercx == cx && pre[i].nrefs > 1 then 1 else 0
    {
      if scope.ownercx != cx {
        kept' := Advance(cx, prev, xs, i, kept, pre, gone);
        cur, prev', shared := scope.u, scope, 0;
      } else {
        var alive;
        cur, alive := HandOver(cx, prev, scope, xs, i, kept, pre, gone);
        prev', shared, kept' := prev, if alive then 1 else 0, kept;
      }
    }

    /**
     The loop of JS_EndRequest: todop is the address of the link under inspection, the list
     head when prev is null and prev's link otherwise.
     */
    method ShareLoop(cx: Context, ghost xs: seq<Scope>, ghost pre: seq<Fields>, ghost gone: set<Scope>)
      returns (nshares: nat)
      requires |xs| == |pre| && Progress(cx, xs, 0, [], pre, gone, scopeSharingTodo, null)
      requires forall k :: 0 <= k < |xs| ==> pre[k].nrefs > 0 && (xs[k] in gone <==> pre[k].ownercx == cx)
      modifies `scopeSharingTodo, xs
      ensures Links(scopeSharingTodo, Without(xs, gone))
      ensures forall i :: 0 <= i < |xs| ==> Settled(cx, pre[i], xs[i].Get())
      ensures nshares == Survivors(pre, cx, |xs|)
    {
      hide Progress, Links, Settled, Without, Survivors;
      NoSurvivors(pre, cx);
      ghost var kept: seq<Scope> := [];
      ghost var i := 0;
      var prev: Scope? := null;
      var cur := scopeSharingTodo;
      nshares := 0;
      while cur.Next?
        invariant Progress(cx, xs, i, kept, pre, gone, cur, prev)
        invariant i <= |xs| && nshares == Survivors(pre, cx, i)
        decreases |xs| - i
      {
        ProgressNext(cx, xs, i, kept, pre, gone, cur, prev);
        SurvivorsStep(pre, cx, i);
        var shared;
        cur, prev, shared, kept := Visit(cx, prev, cur.scope, xs, i, kept, pre, gone);
        nshares, i := nshares + shared, i + 1;
      }
      ProgressDone(cx, xs, i, kept, pre, gone, cur, prev);
    }

    lemma ProgressNext(cx: Context, xs: seq<Scope>, i: nat, kept: seq<Scope>, pre: seq<Fields>,
                       gone: set<Scope>, cur: Union, prev: Scope?)
      requires Progress(cx, xs, i, kept, pre, gone, cur, prev) && cur.Next?
      ensures i < |xs| && cur.scope == xs[i]
    {
    }

    lemma ProgressDone(cx: Context, xs: seq<Scope>, i: nat, kept: seq<Scope>, pre: seq<Fields>,
                       gone: set<Scope>, cur: Union, prev: Scope?)
      requires Progress(cx, xs, i, kept, pre, gone, cur, prev) && !cur.Next?
      ensures i == |xs| && Links(scopeSharingTodo, Without(xs, gone))
      ensures forall i :: 0 <= i < |xs| ==> Settled(cx, pre[i], xs[i].Get())
    {
      assert xs[..i] == xs && kept + xs[i..] == kept;
    }

    /** cx has handed over every scope it owned that somebody waited for. */
    ghost predicate Left(cx: Context, xs: seq<Scope>, pre: seq<Fields>)
      requires |xs| == |pre|
      reads `scopeSharingTodo, xs
    {
      && Links(scopeSharingTodo, Without(xs, OwnedIn(xs, pre, cx)))
      && forall i :: 0 <= i < |xs| ==> Settled(cx, pre[i], xs[i].Get())
    }

    method ShareOwned(cx: Context, ghost xs: seq<Scope>) returns (nshares: nat)
      requires Links(scopeSharingTodo, xs)
      requires forall i :: 0 <= i < |xs| ==> xs[i].nrefs > 0
      modifies `scopeSharingTodo, xs
      ensures Left(cx, xs, old(Snapshot(xs)))
      ensures nshares == Survivors(old(Snapshot(xs)), cx, |xs|)
    {
      ghost var pre := Snapshot(xs);
      assert [] + xs[0..] == xs;
      nshares := ShareLoop(cx, xs, pre, OwnedIn(xs, pre, cx));
    }

    /** Only the outermost JS_EndRequest does anything but count down. */
    method EndRequest(cx: Context, ghost xs: seq<Scope>) returns (sharingDone: bool, requestDone: bool)
      requires cx.requestDepth > 0
      requires cx.requestDepth == 1 ==> requestCount > 0
      requires Links(scopeSharingTodo, xs) && forall i :: 0 <= i < |xs| ==> xs[i].nrefs > 0
      modifies `requestCount, `scopeSharingTodo, cx`requestDepth, xs
      ensures cx.requestDepth == old(cx.requestDepth) - 1
      ensures if old(cx.requestDepth) > 1
              then Untouched(xs, old(Snapshot(xs)), old(scopeSharingTodo)) && !sharingDone
              else Left(cx, xs, old(Snapshot(xs))) &&
                   (sharingDone <==> exists i :: 0 <= i < |xs| && Survives(old(Snapshot(xs))[i], cx))
      ensures cx.requestDepth == 0 ==> forall i :: 0 <= i < |xs| ==> HandedOver(cx, old(Snapshot(xs))[i], xs[i].Get())
      ensures requestCount == old(requestCount) - if cx.requestDepth == 0 then 1 else 0
      ensures requestDone <==> cx.requestDepth == 0 && requestCount == 0
    {
      hide Left, Links, Survivors;
      sharingDone, requestDone := false, false;
      if cx.requestDepth == 1 {
        ghost var pre := Snapshot(xs);
        cx.requestDepth := 0;
        assert Snapshot(xs) == pre;
        var nshares := ShareOwned(cx, xs);
        SurvivorsExist(pre, cx, |xs|);
        LeftMeans(cx, xs, pre);
        sharingDone := nshares > 0;
        requestCount := requestCount - 1;
        assert Left(cx, xs, pre);
        requestDone := requestCount == 0;
        return;
      }
      cx.requestDepth := cx.requestDepth - 1;
    }

    lemma LeftMeans(cx: Context, xs: seq<Scope>, pre: seq<Fields>)
      requires |xs| == |pre| && Left(cx, xs, pre)
      ensures forall i :: 0 <= i < |xs| ==> HandedOver(cx, pre[i], xs[i].Get())
    {
      hide Links;
    }

    ghost predicate Untouched(xs: seq<Scope>, pre: seq<Fields>, head: Union)
      reads `scopeSharingTodo, xs
    {
      |xs| == |pre| && scopeSharingTodo == head && forall i :: 0 <= i < |xs| ==> xs[i].Get() == pre[i]
    }

    /** The counters that all threads share. */
    function Shared(): Wakeup
      reads `requestCount, `gcLevel, `gcThread
    {
      Wakeup(requestCount, gcLevel, gcThread)
    }

    predicate Blocked(cx: Context)
      reads `gcThread, `gcLevel
    {
      gcThread != Some(cx.thread) && gcLevel > 0
    }

    /** Waiting on gcDone: each wakeup shows what the others did meanwhile. */
    method AwaitNoGC(cx: Context, wakes: seq<Wakeup>)
      requires Blocked(cx) ==> FirstIdle(wakes) < |wakes|
      modifies `requestCount, `gcLevel, `gcThread
      ensures !Blocked(cx)
      ensures if old(Blocked(cx)) then Shared() == wakes[FirstIdle(wakes)] else Shared() == old(Shared())
    {
      if gcThread != Some(cx.thread) {
        var k := 0;
        while gcLevel > 0
          invariant gcLevel > 0 ==> k <= FirstIdle(wakes) < |wakes|
          invariant k == 0 ==> Shared() == old(Shared())
          invariant k > 0 ==> old(Blocked(cx))
          invariant k > 0 && gcLevel == 0 ==> FirstIdle(wakes) < |wakes| && Shared() == wakes[FirstIdle(wakes)]
          decreases |wakes| - k, gcLevel
        {
          assert wakes[k].gcLevel == 0 ==> k == FirstIdle(wakes);
          requestCount, gcLevel, gcThread := wakes[k].requestCount, wakes[k].gcLevel, wakes[k].gcThread;
          k := k + 1;
        }
      }
    }

    /** The outermost JS_BeginRequest waits until no other thread collects, and then counts. */
    method BeginRequest(cx: Context, wakes: seq<Wakeup>)
      requires cx.requestDepth == 0 && Blocked(cx) ==> FirstIdle(wakes) < |wakes|
      modifies `requestCount, `gcLevel, `gcThread, cx`requestDepth
      ensures cx.requestDepth == old(cx.requestDepth) + 1
      ensures if old(cx.requestDepth) > 0 then Shared() == old(Shared())
              else !Blocked(cx) && Entered(Shared(), OnEntry(old(Blocked(cx)), old(Shared()), wakes))
    {
      if cx.requestDepth == 0 {
        AwaitNoGC(cx, wakes);
        requestCount := requestCount + 1;
        cx.requestDepth := 1;
        return;
      }
      cx.requestDepth := cx.requestDepth + 1;
    }

    /** Steps out of the request and back in; between the two critical sections others may act. */
    method YieldRequest(cx: Context, between: Wakeup, wakes: seq<Wakeup>) returns (requestDone: bool)
      requires cx.requestDepth > 0 && requestCount > 0
      requires between.gcThread != Some(cx.thread) && between.gcLevel > 0 ==> FirstIdle(wakes) < |wakes|
      modifies `requestCount, `gcLevel, `gcThread
      ensures requestDone <==> old(requestCount) == 1
      ensures !Blocked(cx)
      ensures var blocked := between.gcThread != Some(cx.thread) && between.gcLevel > 0;
              Entered(Shared(), OnEntry(blocked, between, wakes))
    {
      requestCount := requestCount - 1;
      requestDone := requestCount == 0;
      requestCount, gcLevel, gcThread := between.requestCount, between.gcLevel, between.gcThread;
      AwaitNoGC(cx, wakes);
      requestCount := requestCount + 1;
    }

    /** Leaves the request whatever its depth, which the caller keeps for JS_ResumeRequest. */
    method SuspendRequest(cx: Context, ghost xs: seq<Scope>) returns (saveDepth: nat)
      requires cx.requestDepth > 0 ==> requestCount > 0
      requires Links(scopeSharingTodo, xs) && forall i :: 0 <= i < |xs| ==> xs[i].nrefs > 0
      modifies `requestCount, `scopeSharingTodo, cx`requestDepth, xs
      ensures saveDepth == old(cx.requestDepth) && cx.requestDepth == 0
      ensures requestCount == old(requestCount) - if saveDepth > 0 then 1 else 0
      ensures if saveDepth > 0 then Left(cx, xs, old(Snapshot(xs)))
              else Untouched(xs, old(Snapshot(xs)), old(scopeSharingTodo))
    {
      saveDepth := cx.requestDepth;
      ghost var pre := Snapshot(xs);
      while cx.requestDepth != 0
        invariant cx.requestDepth <= saveDepth
        invariant cx.requestDepth > 0 || saveDepth == 0 ==>
                    requestCount == old(requestCount) && Untouched(xs, pre, old(scopeSharingTodo))
        invariant cx.requestDepth == 0 && saveDepth > 0 ==>
                    requestCount == old(requestCount) - 1 && Left(cx, xs, pre)
        decreases cx.requestDepth
      {
        assert Snapshot(xs) == pre;
        var _, _ := EndRequest(cx, xs);
      }
    }

    /** Restores the depth; only the first JS_BeginRequest can wait and count. */
    method ResumeRequest(cx: Context, saveDepth: int, wakes: seq<Wakeup>)
      requires cx.requestDepth == 0
      requires saveDepth > 0 && Blocked(cx) ==> FirstIdle(wakes) < |wakes|
      modifies `requestCount, `gcLevel, `gcThread, cx`requestDepth
      ensures cx.requestDepth == if saveDepth > 0 then saveDepth else 0
      ensures if saveDepth <= 0 then Shared() == old(Shared())
              else !Blocked(cx) && Entered(Shared(), OnEntry(old(Blocked(cx)), old(Shared()), wakes))
    {
      var left := saveDepth - 1;
      while left >= 0
        invariant cx.requestDepth == (if saveDepth > 0 then saveDepth - 1 - left else 0)
        invariant saveDepth > 0 ==> -1 <= left < saveDepth
        invariant cx.requestDepth == 0 ==> Shared() == old(Shared())
        invariant cx.requestDepth > 0 ==>
                    !Blocked(cx) && Entered(Shared(), OnEntry(old(Blocked(cx)), old(Shared()), wakes))
        decreases left
      {
        BeginRequest(cx, wakes);
        left := left - 1;
      }
    }

    /** Suspending and resuming while no other thread acts: everything counted is as it was. */
    method SuspendAndResume(cx: Context, ghost xs: seq<Scope>)
      requires cx.requestDepth > 0 ==> requestCount > 0
      requires !Blocked(cx)
      requires Links(scopeSharingTodo, xs) && forall i :: 0 <= i < |xs| ==> xs[i].nrefs > 0
      modifies this, cx`requestDepth, xs
      ensures cx.requestDepth == old(cx.requestDepth) && Shared() == old(Shared())
    {
      hide Left, Links, Untouched;
      var saveDepth := SuspendRequest(cx, xs);
      ResumeRequest(cx, saveDepth, []);
    }

    /** A request that begins and ends in the same way. */
    method BeginAndEnd(cx: Context, ghost xs: seq<Scope>)
      requires !Blocked(cx)
      requires Links(scopeSharingTodo, xs) && forall i :: 0 <= i < |xs| ==> xs[i].nrefs > 0
      modifies this, cx`requestDepth, xs
      ensures cx.requestDepth == old(cx.requestDepth) && Shared() == old(Shared())
    {
      hide Left, Untouched;
      BeginRequest(cx, []);
      var _, _ := EndRequest(cx, xs);
    }
  }

  /** The scopes that cx owned when the snapshot was taken. */
  ghost function OwnedIn(xs: seq<Scope>, pre: seq<Fields>, cx: Context): set<Scope>
    requires |xs| == |pre|
  {
    set i | 0 <= i < |xs| && pre[i].ownercx == cx :: xs[i]
  }

  /** How many of the first n scopes cx owned and others still referred to. */
  ghost function Survivors(pre: seq<Fields>, cx: Context, n: nat): nat
    requires n <= |pre|
  {
    if n == 0 then 0
    else Survivors(pre, cx, n - 1) + (if pre[n - 1].ownercx == cx && pre[n - 1].nrefs > 1 then 1 else 0)
  }

  ghost function Surviving(pre: seq<Fields>, cx: Context, n: nat): set<nat>
    requires n <= |pre|
  {
    set i: nat | i < n && Survives(pre[i], cx)
  }

  lemma SurvivingNext(pre: seq<Fields>, cx: Context, n: nat)
    requires n < |pre|
    ensures n !in Surviving(pre, cx, n)
    ensures Surviving(pre, cx, n + 1) == Surviving(pre, cx, n) + if Survives(pre[n], cx) then {n} else {}
  {
  }

  /** They are as many as the scopes that cx owns and others refer to. */
  lemma {:induction false} SurvivorsAreCounted(pre: seq<Fields>, cx: Context, n: nat)
    requires n <= |pre|
    ensures Survivors(pre, cx, n) == |Surviving(pre, cx, n)|
  {
    if n > 0 {
      hide Surviving;
      SurvivorsAreCounted(pre, cx, n - 1);
      SurvivingNext(pre, cx, n - 1);
    }
  }

  lemma SurvivorsExist(pre: seq<Fields>, cx: Context, n: nat)
    requires n <= |pre|
    ensures Survivors(pre, cx, n) > 0 <==> exists i :: 0 <= i < n && Survives(pre[i], cx)
  {
    SurvivorsAreCounted(pre, cx, n);
    if Surviving(pre, cx, n) != {} {
      var i :| i in Surviving(pre, cx, n);
    }
  }

  lemma NoSurvivors(pre: seq<Fields>, cx: Context)
    ensures Survivors(pre, cx, 0) == 0
  {
  }

  lemma SurvivorsStep(pre: seq<Fields>, cx: Context, i: nat)
    requires i < |pre|
    ensures Survivors(pre, cx, i + 1) ==
              Survivors(pre, cx, i) + if pre[i].ownercx == cx && pre[i].nrefs > 1 then 1 else 0
  {
  }

  lemma SplitAt<T>(xs: seq<T>, i: nat)
    requires i < |xs|
    ensures xs[i..] == [xs[i]] + xs[i + 1..] && xs[..i + 1] == xs[..i] + [xs[i]]
  {
  }

  lemma StepList(xs: seq<Scope>, i: nat, kept: seq<Scope>, gone: set<Scope>) returns (next: seq<Scope>)
    requires i < |xs| && kept == Without(xs[..i], gone)
    ensures next == Without(xs[..i + 1], gone)
    ensures next == if xs[i] in gone then kept else kept + [xs[i]]
    ensures kept + xs[i..] == kept + [xs[i]] + xs[i + 1..]
    ensures (kept + xs[i..])[|kept|] == xs[i]
    ensures LinkTo(kept + xs[i..], |kept| + 1) == LinkTo(xs, i + 1)
    ensures forall k :: 0 <= k < |kept| ==> kept[k] in xs && kept[k] !in gone
  {
    WithoutSnoc(xs[..i], xs[i], gone);
    SplitAt(xs, i);
    next := Without(xs[..i + 1], gone);
  }
}
