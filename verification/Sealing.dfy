/**
 JS_SealObject (jsapi.c): sealing an object, or every object reachable from it.  The traversal
 is a depth-first search over a graph that may be cyclic, with the sealed flag as its only mark.
 The flag belongs to the scope, and objects may share a scope.
 */
module Sealing {

  /** The part of a scope that sealing looks at: the object that owns it, and SCOPE_SEALED. */
  class Scope {
    const holder: Obj?
    var sealed: bool

    constructor (o: Obj?)
      ensures holder == o && !sealed
    {
      holder, sealed := o, false;
    }
  }

  class Obj {
    const native: bool
    const enumerates: bool           // JS_Enumerate succeeds
    const allocates: bool            // js_NewScope succeeds
    const slots: seq<Obj?>           // the first MIN(freeslot, nslots) slots; null for a primitive
    var scope: Scope

    constructor Owner(n: bool, e: bool, a: bool, vs: seq<Obj?>)
      ensures native == n && enumerates == e && allocates == a && slots == vs
      ensures fresh(scope) && scope.holder == this && !scope.sealed
    {
      native, enumerates, allocates, slots := n, e, a, vs;
      scope := new Scope(null);
      new;
      scope := new Scope(this);
    }

    constructor Heir(n: bool, e: bool, a: bool, vs: seq<Obj?>, s: Scope)
      ensures native == n && enumerates == e && allocates == a && slots == vs && scope == s
    {
      native, enumerates, allocates, slots, scope := n, e, a, vs, s;
    }
  }

  // ----- The search as a function -----

  /** The objects there are, what their slots hold, and which scope each has when the search begins. */
  datatype World = World(slots: map<Obj, seq<Obj?>>, share: map<Obj, Scope>)

  ghost predicate Valid(w: World) {
    && w.share.Keys == w.slots.Keys
    && forall o, i :: o in w.slots && 0 <= i < |w.slots[o]| && w.slots[o][i] != null ==> w.slots[o][i] in w.slots
  }

  ghost predicate Owns(w: World, o: Obj) {
    o in w.share && w.share[o].holder == o
  }

  /** What becomes sealed with o: all that share the scope it owns, or o alone with a scope made for it. */
  ghost function Falls(w: World, o: Obj): (r: set<Obj>)
    requires o in w.share
    ensures o in r
  {
    if Owns(w, o) then set x | x in w.share && w.share[x] == w.share[o] else {o}
  }

  ghost function Fallen(w: World, walked: set<Obj>): (r: set<Obj>)
    ensures r <= w.share.Keys
  {
    set x | x in w.share && exists v :: v in walked && v in w.share && x in Falls(w, v)
  }

  /** o can be sealed itself. */
  ghost predicate CanSeal(w: World, o: Obj) {
    o.native && o.enumerates && (Owns(w, o) || o.allocates)
  }

  /** The objects sealed in the end, and those whose slots were gone through. */
  datatype Outcome = Outcome(ok: bool, sealed: set<Obj>, walked: set<Obj>)

  ghost function Deep(w: World, sealed: set<Obj>, x: Obj): (r: Outcome)
    requires Valid(w) && x in w.slots && sealed <= w.slots.Keys
    ensures sealed <= r.sealed <= w.slots.Keys
    decreases w.slots.Keys - sealed, 0, 0
  {
    if x.native && x in sealed then Outcome(true, sealed, {})
    else if !CanSeal(w, x) then Outcome(false, sealed, {})
    else
      var r := DeepSlots(w, sealed + Falls(w, x), x, 0);
      r.(walked := {x} + r.walked)
  }

  ghost function DeepSlots(w: World, sealed: set<Obj>, x: Obj, i: nat): (r: Outcome)
    requires Valid(w) && x in w.slots && sealed <= w.slots.Keys && i <= |w.slots[x]|
    ensures sealed <= r.sealed <= w.slots.Keys
    decreases w.slots.Keys - sealed, 1, |w.slots[x]| - i
  {
    if i == |w.slots[x]| then Outcome(true, sealed, {})
    else if w.slots[x][i] == null then DeepSlots(w, sealed, x, i + 1)
    else
      var c := Deep(w, sealed, w.slots[x][i]);
      if !c.ok then c
      else
        var r := DeepSlots(w, c.sealed, x, i + 1);
        r.(walked := c.walked + r.walked)
  }

  /**
   When the search through the slots fails, it is at one of them, with all earlier ones sealed; later
   ones are not looked at.
   */
  lemma {:induction false} FailsAtSlot(w: World, sealed: set<Obj>, x: Obj, i: nat) returns (k: nat, S: set<Obj>)
    requires Valid(w) && x in w.slots && sealed <= w.slots.Keys && i <= |w.slots[x]| && !DeepSlots(w, sealed, x, i).ok
    ensures i <= k < |w.slots[x]| && w.slots[x][k] != null && sealed <= S <= w.slots.Keys
    ensures forall j :: i <= j < k && w.slots[x][j] != null ==> w.slots[x][j] in S
    ensures !Deep(w, S, w.slots[x][k]).ok && DeepSlots(w, sealed, x, i).sealed == Deep(w, S, w.slots[x][k]).sealed
    decreases |w.slots[x]| - i
  {
    var o := w.slots[x][i];
    if o == null {
      k, S := FailsAtSlot(w, sealed, x, i + 1);
    } else if Deep(w, sealed, o).ok {
      k, S := FailsAtSlot(w, Deep(w, sealed, o).sealed, x, i + 1);
      SealsItself(w, sealed, o);
    } else {
      k, S := i, sealed;
    }
  }

  lemma SealsItself(w: World, sealed: set<Obj>, x: Obj)
    requires Valid(w) && x in w.slots && sealed <= w.slots.Keys && Deep(w, sealed, x).ok
    ensures x in Deep(w, sealed, x).sealed
  {
  }

  // ----- The search in memory -----

  ghost function Scopes(S: set<Obj>): set<Scope>
    reads S
  {
    set o | o in S :: o.scope
  }

  ghost function Sealed(S: set<Obj>): set<Obj>
    reads S, Scopes(S)
  {
    set o | o in S && o.scope.sealed
  }

  /** The scopes are those of w, but for objects that were given one of their own and sealed. */
  ghost predicate Describes(w: World)
    reads w.slots.Keys, Scopes(w.slots.Keys)
  {
    forall o :: o in w.slots && o in w.share ==>
      && o.slots == w.slots[o]
      && (o.scope == w.share[o] || (o.scope.sealed && forall x :: x in w.share ==> o.scope != w.share[x]))
  }

  /** js_GetMutableScope: the object's own scope, or a new one in place of a shared one. */
  method GetMutableScope(obj: Obj) returns (scope: Scope?)
    modifies obj
    ensures scope == null <==> old(obj.scope).holder != obj && !obj.allocates
    ensures scope == null ==> obj.scope == old(obj.scope)
    ensures scope != null ==> scope == obj.scope && scope.holder == obj
    ensures if old(obj.scope).holder == obj then scope == old(obj.scope)
            else (scope != null ==> fresh(scope) && !scope.sealed)
  {
    if obj.scope.holder == obj {
      return obj.scope;
    }
    if !obj.allocates {
      return null;
    }
    scope := new Scope(obj);
    obj.scope := scope;
  }

  /** Gives the object a scope of its own and seals that. */
  method SealScope(obj: Obj, ghost w: World) returns (ok: bool)
    requires Valid(w) && obj in w.slots && Describes(w) && !obj.scope.sealed
    modifies obj, obj.scope
    ensures Describes(w) && (obj.scope == old(obj.scope) || fresh(obj.scope))
    ensures ok <==> Owns(w, obj) || obj.allocates
    ensures Sealed(w.slots.Keys) == old(Sealed(w.slots.Keys)) + if ok then Falls(w, obj) else {}
  {
    var scope := GetMutableScope(obj);
    ok := scope != null;
    if ok {
      scope.sealed := true;
    }
  }

  /**
   The search terminates on every finite graph, cyclic or not: each level seals an object.  Its
   effect is that of Deep, whatever scopes are shared.
   */
  method SealObject(obj: Obj, deep: bool, ghost w: World) returns (ok: bool)
    requires Valid(w) && obj in w.slots && Describes(w)
    modifies w.slots.Keys, Scopes(w.slots.Keys)
    ensures Describes(w) && forall o :: o in w.slots ==> o.scope == old(o.scope) || fresh(o.scope)
    ensures var S, before := w.slots.Keys, old(Sealed(w.slots.Keys));
            if deep then ok == Deep(w, before, obj).ok && Sealed(S) == Deep(w, before, obj).sealed
            else
              && (ok <==> obj.native && (obj in before || (obj.enumerates && (Owns(w, obj) || obj.allocates))))
              && Sealed(S) == if ok && obj !in before then before + Falls(w, obj) else before
    decreases w.slots.Keys - Sealed(w.slots.Keys), 0
  {
    ghost var S := w.slots.Keys;
    ghost var before := Sealed(S);
    if !obj.native {
      return false;
    }
    if obj.scope.sealed {
      return true;
    }
    if !obj.enumerates {
      return false;
    }
    var sealed := SealScope(obj, w);
    if !sealed {
      return false;
    }
    if !deep {
      return true;
    }
    ok := SealSlots(obj, w);
  }

  /** The loop over the slots of an object that was just sealed. */
  method SealSlots(obj: Obj, ghost w: World) returns (ok: bool)
    requires Valid(w) && obj in w.slots && Describes(w)
    modifies w.slots.Keys, Scopes(w.slots.Keys)
    ensures Describes(w) && forall o :: o in w.slots ==> o.scope == old(o.scope) || fresh(o.scope)
    ensures var r := DeepSlots(w, old(Sealed(w.slots.Keys)), obj, 0);
            ok == r.ok && Sealed(w.slots.Keys) == r.sealed
    decreases w.slots.Keys - Sealed(w.slots.Keys), 1
  {
    ghost var S := w.slots.Keys;
    ghost var all := DeepSlots(w, Sealed(S), obj, 0);
    var i := 0;
    while i < |obj.slots|
      invariant 0 <= i <= |obj.slots|
      invariant Describes(w) && forall o :: o in S ==> o.scope == old(o.scope) || fresh(o.scope)
      invariant old(Sealed(S)) <= Sealed(S)
      invariant var r := DeepSlots(w, Sealed(S), obj, i);
                r.ok == all.ok && r.sealed == all.sealed
    {
      var v := obj.slots[i];
      if v != null {
        var sealed := SealObject(v, true, w);
        if !sealed {
          return false;
        }
      }
      i := i + 1;
    }
    return true;
  }

  // ----- What the search reaches -----

  /** Every child of each object in A is in B. */
  ghost predicate ChildrenIn(w: World, A: set<Obj>, B: set<Obj>) {
    forall o, i :: o in A && o in w.slots && 0 <= i < |w.slots[o]| && w.slots[o][i] != null ==> w.slots[o][i] in B
  }

  /** y is n slots away from x, by way of objects in U. */
  ghost predicate Reaches(w: World, U: set<Obj>, x: Obj, y: Obj, n: nat) {
    if n == 0 then x == y
    else
      x in U && x in w.slots &&
      exists i :: 0 <= i < |w.slots[x]| && w.slots[x][i] != null && Reaches(w, U, w.slots[x][i], y, n - 1)
  }

  /** The objects that x reaches through objects that are not sealed. */
  ghost function Reachable(w: World, sealed: set<Obj>, x: Obj): set<Obj> {
    set y | y in w.slots && exists n: nat :: Reaches(w, w.slots.Keys - sealed, x, y, n)
  }

  lemma {:induction false} ReachesMore(w: World, U: set<Obj>, V: set<Obj>, x: Obj, y: Obj, n: nat)
    requires Reaches(w, U, x, y, n) && U <= V
    ensures Reaches(w, V, x, y, n)
  {
    if n > 0 {
      var i :| 0 <= i < |w.slots[x]| && w.slots[x][i] != null && Reaches(w, U, w.slots[x][i], y, n - 1);
      ReachesMore(w, U, V, w.slots[x][i], y, n - 1);
    }
  }

  lemma ReachesItself(w: World, sealed: set<Obj>, x: Obj)
    requires x in w.slots
    ensures x in Reachable(w, sealed, x)
  {
    assert Reaches(w, w.slots.Keys - sealed, x, x, 0);
  }

  /** With more sealed, a child of an unsealed object reaches no more than that object does. */
  lemma ReachableFromChild(w: World, sealed: set<Obj>, now: set<Obj>, x: Obj, i: nat)
    requires sealed <= now && x in w.slots && x !in sealed && i < |w.slots[x]| && w.slots[x][i] != null
    ensures Reachable(w, now, w.slots[x][i]) <= Reachable(w, sealed, x)
  {
    var U := w.slots.Keys - sealed;
    forall y | y in Reachable(w, now, w.slots[x][i])
      ensures y in Reachable(w, sealed, x)
    {
      var n: nat :| Reaches(w, w.slots.Keys - now, w.slots[x][i], y, n);
      ReachesMore(w, w.slots.Keys - now, U, w.slots[x][i], y, n);
      assert Reaches(w, U, x, y, n + 1);
    }
  }

  /** A set that holds x and the children of its unsealed members holds everything reachable. */
  lemma {:induction false} ClosureReaches(w: World, U: set<Obj>, A: set<Obj>, x: Obj, y: Obj, n: nat)
    requires x in A && ChildrenIn(w, U * A, A) && Reaches(w, U, x, y, n)
    ensures y in A
  {
    if n > 0 {
      var i :| 0 <= i < |w.slots[x]| && w.slots[x][i] != null && Reaches(w, U, w.slots[x][i], y, n - 1);
      ClosureReaches(w, U, A, w.slots[x][i], y, n - 1);
    }
  }

  lemma ReachableWithin(w: World, sealed: set<Obj>, A: set<Obj>, x: Obj)
    requires x in A && ChildrenIn(w, A - sealed, A)
    ensures Reachable(w, sealed, x) <= A
  {
    var U := w.slots.Keys - sealed;
    forall y | y in Reachable(w, sealed, x)
      ensures y in A
    {
      var n: nat :| Reaches(w, U, x, y, n);
      ClosureReaches(w, U, A, x, y, n);
    }
  }

  /** The children of what x reaches are reached too, if it was not sealed. */
  lemma ReachableIsClosed(w: World, sealed: set<Obj>, x: Obj)
    requires Valid(w)
    ensures ChildrenIn(w, Reachable(w, sealed, x) - sealed, Reachable(w, sealed, x))
  {
    var R, U := Reachable(w, sealed, x), w.slots.Keys - sealed;
    forall o, i | o in R - sealed && 0 <= i < |w.slots[o]| && w.slots[o][i] != null
      ensures w.slots[o][i] in R
    {
      var n: nat :| Reaches(w, U, x, o, n);
      ReachesChild(w, U, x, o, i, n);
    }
  }

  lemma {:induction false} ReachesChild(w: World, U: set<Obj>, x: Obj, o: Obj, i: nat, n: nat)
    requires Reaches(w, U, x, o, n) && o in U && o in w.slots && i < |w.slots[o]| && w.slots[o][i] != null
    ensures Reaches(w, U, x, w.slots[o][i], n + 1)
  {
    if n == 0 {
      assert Reaches(w, U, w.slots[o][i], w.slots[o][i], 0);
    } else {
      var k :| 0 <= k < |w.slots[x]| && w.slots[x][k] != null && Reaches(w, U, w.slots[x][k], o, n - 1);
      ReachesChild(w, U, w.slots[x][k], o, i, n - 1);
    }
  }

  ghost function Natives(w: World): set<Obj> {
    set o | o in w.slots && o.native
  }

  /** o is no obstacle: it is native, and sealed already or able to be. */
  ghost predicate Fit(w: World, sealed: set<Obj>, o: Obj) {
    o.native && (o in sealed || CanSeal(w, o))
  }

  /** What a search from x does: it walks reachable objects, and seals them with those that share their scopes. */
  ghost predicate Explains(w: World, sealed: set<Obj>, x: Obj, r: Outcome) {
    && r.walked <= Reachable(w, sealed, x) - sealed
    && r.sealed == sealed + Fallen(w, r.walked)
    && (forall v :: v in r.walked ==> CanSeal(w, v))
    && (r.ok ==> x in r.sealed * Natives(w) && ChildrenIn(w, r.walked, r.sealed * Natives(w)))
    && (!r.ok ==> exists o :: o in Reachable(w, sealed, x) && !Fit(w, sealed, o))
  }

  /** The walk after i slots of x: everything walked but x itself is finished. */
  ghost predicate Underway(w: World, sealed: set<Obj>, walked: set<Obj>, x: Obj, i: nat)
    requires x in w.slots && i <= |w.slots[x]|
  {
    var now := sealed + Fallen(w, walked);
    && x in walked && walked <= Reachable(w, sealed, x) - sealed
    && (forall v :: v in walked ==> CanSeal(w, v))
    && ChildrenIn(w, walked - {x}, now * Natives(w))
    && forall k :: 0 <= k < i && w.slots[x][k] != null ==> w.slots[x][k] in now * Natives(w)
  }

  lemma {:induction false} DeepExplained(w: World, sealed: set<Obj>, x: Obj)
    requires Valid(w) && x in w.slots && sealed <= w.slots.Keys
    ensures Explains(w, sealed, x, Deep(w, sealed, x))
    decreases w.slots.Keys - sealed, 0, 0
  {
    ReachesItself(w, sealed, x);
    if !(x.native && x in sealed) && CanSeal(w, x) {
      assert Fallen(w, {x}) == Falls(w, x);
      SlotsExplained(w, sealed, {x}, x, 0);
    } else {
      assert Fallen(w, {}) == {};
    }
  }

  lemma {:induction false} SlotsExplained(w: World, sealed: set<Obj>, walked: set<Obj>, x: Obj, i: nat)
    requires Valid(w) && x in w.slots && sealed <= w.slots.Keys && i <= |w.slots[x]|
    requires Underway(w, sealed, walked, x, i)
    ensures var r := DeepSlots(w, sealed + Fallen(w, walked), x, i);
            Explains(w, sealed, x, Outcome(r.ok, r.sealed, walked + r.walked))
    decreases w.slots.Keys - (sealed + Fallen(w, walked)), 1, |w.slots[x]| - i
  {
    hide Explains, Underway, Fallen;
    var now := sealed + Fallen(w, walked);
    if i == |w.slots[x]| {
      assert walked + {} == walked;
      AllUnderway(w, sealed, walked, x);
    } else if w.slots[x][i] == null {
      NullUnderway(w, sealed, walked, x, i);
      SlotsExplained(w, sealed, walked, x, i + 1);
    } else {
      var c := Deep(w, now, w.slots[x][i]);
      DeepExplained(w, now, w.slots[x][i]);
      NextUnderway(w, sealed, walked, c, x, i);
      if c.ok {
        SlotsExplained(w, sealed, walked + c.walked, x, i + 1);
        var r := DeepSlots(w, c.sealed, x, i + 1);
        assert walked + (c.walked + r.walked) == walked + c.walked + r.walked;
      }
    }
  }

  lemma NullUnderway(w: World, sealed: set<Obj>, walked: set<Obj>, x: Obj, i: nat)
    requires x in w.slots && i < |w.slots[x]| && Underway(w, sealed, walked, x, i) && w.slots[x][i] == null
    ensures Underway(w, sealed, walked, x, i + 1)
  {
  }

  lemma AllUnderway(w: World, sealed: set<Obj>, walked: set<Obj>, x: Obj)
    requires Valid(w) && x in w.slots && Underway(w, sealed, walked, x, |w.slots[x]|)
    ensures Explains(w, sealed, x, Outcome(true, sealed + Fallen(w, walked), walked))
  {
    assert x in Fallen(w, walked);
  }

  /** The search from one more slot carries on the walk, or finds an obstacle that x reaches too. */
  lemma NextUnderway(w: World, sealed: set<Obj>, walked: set<Obj>, c: Outcome, x: Obj, i: nat)
    requires Valid(w) && x in w.slots && i < |w.slots[x]| && Underway(w, sealed, walked, x, i) && w.slots[x][i] != null
    requires Explains(w, sealed + Fallen(w, walked), w.slots[x][i], c)
    ensures c.sealed == sealed + Fallen(w, walked + c.walked)
    ensures c.ok ==> Underway(w, sealed, walked + c.walked, x, i + 1)
    ensures c.ok ==> x !in c.walked && sealed + Fallen(w, walked) <= c.sealed
    ensures !c.ok ==> Explains(w, sealed, x, c.(walked := walked + c.walked))
  {
    hide Reachable, Falls, CanSeal, Fit;
    ReachableFromChild(w, sealed, sealed + Fallen(w, walked), x, i);
    assert x in Fallen(w, walked);
    if !c.ok {
      ObstacleIsReached(w, sealed, sealed + Fallen(w, walked), x, w.slots[x][i]);
    }
  }

  lemma ObstacleIsReached(w: World, sealed: set<Obj>, now: set<Obj>, x: Obj, y: Obj)
    requires sealed <= now && Reachable(w, now, y) <= Reachable(w, sealed, x)
    requires exists o :: o in Reachable(w, now, y) && !Fit(w, now, o)
    ensures exists o :: o in Reachable(w, sealed, x) && !Fit(w, sealed, o)
  {
    var o :| o in Reachable(w, now, y) && !Fit(w, now, o);
    assert o in Reachable(w, sealed, x) && !Fit(w, sealed, o);
  }

  // ----- When the search seals all it should -----

  /** Sealing p seals a with it, so that the search would pass a by. */
  ghost predicate Harms(w: World, sealed: set<Obj>, p: Obj, a: Obj) {
    && p in w.share && a in w.share && p !in sealed && a !in sealed && p != a
    && Owns(w, p) && w.share[a] == w.share[p]
  }

  /** What is reached and sealed has been walked, unless it was sealed with another object. */
  lemma SealedIsWalked(w: World, sealed: set<Obj>, x: Obj, r: Outcome, o: Obj)
    requires Valid(w) && Explains(w, sealed, x, r) && o in r.sealed - sealed && o !in r.walked
    ensures exists v :: v in r.walked && Harms(w, sealed, v, o)
  {
    var v :| v in r.walked && v in w.share && o in Falls(w, v);
    assert Harms(w, sealed, v, o);
  }

  /** A search that passes nothing by walks all it reaches. */
  lemma WalksAll(w: World, sealed: set<Obj>, x: Obj, r: Outcome)
    requires Valid(w) && x in w.slots && Explains(w, sealed, x, r) && r.ok
    requires forall v, y :: v in r.walked && y in Reachable(w, sealed, x) - r.walked && y.native ==>
               !Harms(w, sealed, v, y)
    ensures r.walked == Reachable(w, sealed, x) - sealed
    ensures Reachable(w, sealed, x) <= r.sealed * Natives(w)
  {
    hide Harms, Reachable;
    var R := Reachable(w, sealed, x);
    var A := r.sealed * Natives(w) * R;
    ReachesItself(w, sealed, x);
    ReachableIsClosed(w, sealed, x);
    forall o | o in A - sealed
      ensures o in r.walked
    {
      if o !in r.walked {
        SealedIsWalked(w, sealed, x, r, o);
      }
    }
    ReachableWithin(w, sealed, A, x);
  }

  /**
   When none of the objects reached shares the scope that another one owns, the search seals all of
   them, and it succeeds exactly when each is native and sealed already or able to be.
   */
  lemma DeepIsExact(w: World, sealed: set<Obj>, x: Obj)
    requires Valid(w) && x in w.slots && sealed <= w.slots.Keys
    requires var R := Reachable(w, sealed, x);
             forall p, a :: p in R && a in R ==> !Harms(w, sealed, p, a)
    ensures var R, r := Reachable(w, sealed, x), Deep(w, sealed, x);
            && (r.ok <==> forall o :: o in R ==> Fit(w, sealed, o))
            && (r.ok ==> r.walked == R - sealed && r.sealed == sealed + Fallen(w, R - sealed))
  {
    hide Deep, Reachable, Harms;
    var R, r := Reachable(w, sealed, x), Deep(w, sealed, x);
    DeepExplained(w, sealed, x);
    if r.ok {
      WalksAll(w, sealed, x, r);
    }
  }

  /** In particular when every object owns its scope: then nothing else is sealed either. */
  lemma OwnersAreSealed(w: World, sealed: set<Obj>, x: Obj)
    requires Valid(w) && x in w.slots && sealed <= w.slots.Keys && forall o :: o in w.share ==> Owns(w, o)
    ensures var R, r := Reachable(w, sealed, x), Deep(w, sealed, x);
            && (r.ok <==> forall o :: o in R ==> Fit(w, sealed, o))
            && (r.ok ==> r.sealed == sealed + R)
  {
    DeepIsExact(w, sealed, x);
    var R := Reachable(w, sealed, x);
    assert forall o :: o in w.share ==> Falls(w, o) == {o};
    assert Fallen(w, R - sealed) == R - sealed;
  }

  /** Among the objects of R are p and a, sealed together, and some that are not sealed with them. */
  ghost predicate Damages(share: map<Obj, Scope>, sealed: set<Obj>, R: set<Obj>, p: Obj, a: Obj) {
    var w := World(map[], share);
    && p in R && a in R && a.native && CanSeal(w, p) && Harms(w, sealed, p, a)
    && !(R <= sealed + Falls(w, p))
  }

  /** In a graph in which x reaches just R, success means that all of R is sealed. */
  ghost predicate SealsAll(slots: map<Obj, seq<Obj?>>, share: map<Obj, Scope>, sealed: set<Obj>, R: set<Obj>, x: Obj) {
    var w := World(slots, share);
    Valid(w) && x in slots && sealed <= slots.Keys && Reachable(w, sealed, x) == R && Deep(w, sealed, x).ok ==>
      R <= Deep(w, sealed, x).sealed
  }

  lemma UndamagedIsSealed(slots: map<Obj, seq<Obj?>>, share: map<Obj, Scope>, sealed: set<Obj>, R: set<Obj>, x: Obj)
    requires forall p, a :: p in R && a in R ==> !Damages(share, sealed, R, p, a)
    ensures SealsAll(slots, share, sealed, R, x)
  {
    hide Deep, Reachable, Explains, CanSeal;
    var w := World(slots, share);
    if Valid(w) && x in slots && sealed <= slots.Keys && Reachable(w, sealed, x) == R && Deep(w, sealed, x).ok {
      var r := Deep(w, sealed, x);
      DeepExplained(w, sealed, x);
      if v, y :| v in r.walked && y in R - r.walked && y.native && Harms(w, sealed, v, y) {
        WalkedCanFall(w, sealed, x, r, v);
        SameSharing(w, sealed, v, y);
        assert !Damages(share, sealed, R, v, y);
      } else {
        WalksAll(w, sealed, x, r);
      }
    }
  }

  lemma WalkedCanFall(w: World, sealed: set<Obj>, x: Obj, r: Outcome, v: Obj)
    requires Valid(w) && Explains(w, sealed, x, r) && v in r.walked
    ensures CanSeal(w, v) && v in Reachable(w, sealed, x) && v in w.share && sealed + Falls(w, v) <= r.sealed
  {
  }

  /** Which objects fall together depends on the sharing only. */
  lemma SameSharing(w: World, sealed: set<Obj>, p: Obj, a: Obj)
    requires p in w.share
    ensures var w' := World(map[], w.share);
            && Falls(w', p) == Falls(w, p) && (CanSeal(w', p) <==> CanSeal(w, p))
            && (Harms(w', sealed, p, a) <==> Harms(w, sealed, p, a))
  {
  }

  lemma {:induction false} Listed(R: set<Obj>) returns (os: seq<Obj?>)
    ensures forall o: Obj? :: o in os <==> o != null && o in R
    decreases R
  {
    if R == {} {
      os := [];
    } else {
      var o :| o in R;
      os := Listed(R - {o});
      os := os + [o];
    }
  }

  /** p leads to a only, and a to all of R: the search goes no further than a. */
  lemma PassedBy(w: World, sealed: set<Obj>, R: set<Obj>, p: Obj, a: Obj, os: seq<Obj?>)
    requires Valid(w) && sealed <= w.slots.Keys && R <= w.slots.Keys && Damages(w.share, sealed, R, p, a)
    requires forall o: Obj? :: o in os <==> o != null && o in R
    requires forall o :: o in w.slots ==> w.slots[o] == if o == p then [a] else if o == a then os else []
    ensures Reachable(w, sealed, p) == R && Deep(w, sealed, p) == Outcome(true, sealed + Falls(w, p), {p})
  {
    SameSharing(w, sealed, p, a);
    ReachableWithin(w, sealed, R, p);
    var U := w.slots.Keys - sealed;
    forall y | y in R
      ensures Reaches(w, U, p, y, 2)
    {
      var i :| 0 <= i < |os| && os[i] == y;
      assert Reaches(w, U, y, y, 0);
      assert Reaches(w, U, a, y, 1);
      assert w.slots[p][0] == a;
    }
    var now := sealed + Falls(w, p);
    assert DeepSlots(w, now, p, 1) == Outcome(true, now, {});
    assert Deep(w, now, a) == Outcome(true, now, {});
  }

  /**
   Knowing only which objects will be reached and how they share scopes, the condition cannot be
   weaker: where two of them are sealed together, and another one is not, some graph in which just
   these objects are reached is sealed in part only, and success reported.
   */
  lemma SealsAllExactly(share: map<Obj, Scope>, sealed: set<Obj>, R: set<Obj>)
    requires sealed <= share.Keys && R <= share.Keys
    ensures (forall slots, x :: SealsAll(slots, share, sealed, R, x))
            <==> forall p, a :: p in R && a in R ==> !Damages(share, sealed, R, p, a)
  {
    if forall p, a :: p in R && a in R ==> !Damages(share, sealed, R, p, a) {
      forall slots, x
        ensures SealsAll(slots, share, sealed, R, x)
      {
        UndamagedIsSealed(slots, share, sealed, R, x);
      }
    } else {
      var p, a :| p in R && a in R && Damages(share, sealed, R, p, a);
      var os := Listed(R);
      var slots: map<Obj, seq<Obj?>> := map o | o in share :: if o == p then [a] else if o == a then os else [];
      PassedBy(World(slots, share), sealed, R, p, a, os);
      SameSharing(World(slots, share), sealed, p, a);
      assert !SealsAll(slots, share, sealed, R, p);
    }
  }

  // ----- An object that is passed by -----

  /** A root r leads to p and to a, which inherits from p and shares its scope, and only a leads to b. */
  ghost predicate Heirs(w: World, r: Obj, p: Obj, a: Obj, b: Obj) {
    && Valid(w) && w.slots.Keys == {r, p, a, b} && r != p && r != a && p != a && b != r && b != p && b != a
    && CanSeal(w, r) && CanSeal(w, p) && a.native && b.native && Owns(w, r) && Owns(w, p) && Owns(w, b)
    && w.share[a] == w.share[p]
    && w.slots[r] == [p, a] && w.slots[p] == [] && w.slots[a] == [p, b]
  }

  /** Sealing p makes a look sealed, so b is missed. */
  lemma HeirIsPassedBy(w: World, r: Obj, p: Obj, a: Obj, b: Obj)
    requires Heirs(w, r, p, a, b)
    ensures Deep(w, {}, r).ok && Deep(w, {}, r).sealed == {r, p, a} && b in Reachable(w, {}, r)
  {
    assert Falls(w, r) == {r} && Falls(w, p) == {p, a};
    assert {} + {r} == {r} && {r} + {p, a} == {r, p, a};
    assert Deep(w, {r}, p) == Outcome(true, {r, p, a}, {p});
    assert Deep(w, {r, p, a}, a) == Outcome(true, {r, p, a}, {});
    assert DeepSlots(w, {r, p, a}, r, 2) == Outcome(true, {r, p, a}, {});
    assert DeepSlots(w, {r, p, a}, r, 1) == Outcome(true, {r, p, a}, {});
    assert DeepSlots(w, {r}, r, 0).ok && DeepSlots(w, {r}, r, 0).sealed == {r, p, a};
    assert Reaches(w, w.slots.Keys - {}, w.slots[a][1], b, 0);
    assert Reaches(w, w.slots.Keys - {}, w.slots[r][1], b, 1);
    assert Reaches(w, w.slots.Keys - {}, r, b, 2);
  }

  method MakeHeirs() returns (r: Obj, p: Obj, a: Obj, b: Obj, ghost w: World)
    ensures Heirs(w, r, p, a, b) && Describes(w) && Sealed(w.slots.Keys) == {}
    ensures fresh(w.slots.Keys) && fresh(Scopes(w.slots.Keys))
    ensures r.slots == w.slots[r] && a.slots == w.slots[a]
  {
    p := new Obj.Owner(true, true, true, []);
    b := new Obj.Owner(true, true, true, []);
    a := new Obj.Heir(true, true, true, [p, b], p.scope);
    r := new Obj.Owner(true, true, true, [p, a]);
    w := World(map[r := r.slots, p := p.slots, a := a.slots, b := b.slots],
               map[r := r.scope, p := p.scope, a := a.scope, b := b.scope]);
  }

  /** Nothing is sealed at first; the deep search succeeds, and leaves b unsealed, which it reaches. */
  method SharedScopeEscapes() returns (r: Obj, p: Obj, a: Obj, b: Obj, unsealed: bool, ok: bool)
    ensures unsealed && r.slots == [p, a] && a.slots == [p, b] && a.native && b.native
    ensures ok && r.scope.sealed && p.scope.sealed && a.scope.sealed && !b.scope.sealed
  {
    ghost var w;
    r, p, a, b, w := MakeHeirs();
    hide Falls, Reachable, Valid, CanSeal;
    ghost var S := w.slots.Keys;
    assert r !in Sealed(S) && p !in Sealed(S) && a !in Sealed(S) && b !in Sealed(S);
    unsealed := !r.scope.sealed && !p.scope.sealed && !a.scope.sealed && !b.scope.sealed;
    HeirIsPassedBy(w, r, p, a, b);
    ok := SealObject(r, true, w);
    assert r in Sealed(S) && p in Sealed(S) && a in Sealed(S) && b !in Sealed(S);
  }
}
