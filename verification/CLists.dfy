/**
 Circular lists (jsclist.h).  A list is the cycle through its header, and its elements are the
 links after the header.
 */
module CLists {
  import opened Sequences

  class Link {
    var next: Link
    var prev: Link

    /** JS_INIT_CLIST */
    constructor ()
      ensures Ring([this])
    {
      next, prev := this, this;
    }
  }

  function Succ(ring: seq<Link>, i: nat): Link
    requires i < |ring|
  {
    if i + 1 < |ring| then ring[i + 1] else ring[0]
  }

  function Pred(ring: seq<Link>, i: nat): Link
    requires i < |ring|
  {
    if i > 0 then ring[i - 1] else ring[|ring| - 1]
  }

  /** The links are distinct, and next and prev go around them in both directions. */
  ghost predicate Ring(ring: seq<Link>)
    reads ring
  {
    && ring != [] && Distinct(ring)
    && (forall i {:trigger ring[i].next} :: 0 <= i < |ring| ==> ring[i].next == Succ(ring, i))
    && forall i {:trigger ring[i].prev} :: 0 <= i < |ring| ==> ring[i].prev == Pred(ring, i)
  }

  /** The header fixes the cycle: there is one list through it. */
  lemma {:induction false} RingIsUnique(ring: seq<Link>, other: seq<Link>)
    requires Ring(ring) && Ring(other) && ring[0] == other[0]
    ensures ring == other
  {
    var k := 0;
    while k + 1 < |ring| && k + 1 < |other|
      invariant k < |ring| && k < |other| && ring[..k + 1] == other[..k + 1]
    {
      assert ring[k].next == ring[k + 1] && other[k].next == other[k + 1];
      k := k + 1;
    }
    assert ring[k] == ring[..k + 1][k] == other[k];
    assert ring[k].next == Succ(ring, k) && other[k].next == Succ(other, k);
  }

  /** next and prev are inverse. */
  lemma NextAndPrevAreInverse(ring: seq<Link>, i: nat)
    requires Ring(ring) && i < |ring|
    ensures ring[i].next.prev == ring[i] && ring[i].prev.next == ring[i]
  {
    var n, p := if i + 1 < |ring| then i + 1 else 0, if i > 0 then i - 1 else |ring| - 1;
    assert ring[i].next == ring[n] && ring[n].prev == Pred(ring, n);
    assert ring[i].prev == ring[p] && ring[p].next == Succ(ring, p);
  }

  /** JS_INSERT_BEFORE, and JS_APPEND_LINK when l is the header. */
  method InsertBefore(e: Link, l: Link, ghost ring: seq<Link>, ghost i: nat)
    requires Ring(ring) && i < |ring| && ring[i] == l && e !in ring
    modifies e, l, l.prev
    ensures Ring(Insert(ring, if i == 0 then |ring| else i, e))
  {
    hide Insert;
    ghost var p := if i == 0 then |ring| else i;
    ghost var r := Insert(ring, p, e);
    Inserted(ring, p, e);
    assert l.prev == ring[p - 1];
    e.next := l;
    e.prev := l.prev;
    l.prev.next := e;
    l.prev := e;
    forall k | 0 <= k < |r|
      ensures r[k].next == Succ(r, k) && r[k].prev == Pred(r, k)
    {
      assert k < p ==> ring[k] == r[k];
      assert k > p ==> ring[k - 1] == r[k];
    }
  }

  /** JS_INSERT_AFTER, and JS_INSERT_LINK when l is the header. */
  method InsertAfter(e: Link, l: Link, ghost ring: seq<Link>, ghost i: nat)
    requires Ring(ring) && i < |ring| && ring[i] == l && e !in ring
    modifies e, l, l.next
    ensures Ring(Insert(ring, i + 1, e))
  {
    hide Insert;
    ghost var r := Insert(ring, i + 1, e);
    Inserted(ring, i + 1, e);
    assert l.next == Succ(ring, i);
    e.next := l.next;
    e.prev := l;
    l.next.prev := e;
    l.next := e;
    forall k | 0 <= k < |r|
      ensures r[k].next == Succ(r, k) && r[k].prev == Pred(r, k)
    {
      assert k <= i ==> ring[k] == r[k];
      assert k > i + 1 ==> ring[k - 1] == r[k];
    }
  }

  /** JS_REMOVE_LINK; the link itself is left as it was. */
  method Remove(e: Link, ghost ring: seq<Link>, ghost i: nat)
    requires Ring(ring) && i < |ring| && ring[i] == e
    modifies e.prev`next, e.next`prev
    ensures if |ring| == 1 then Ring(ring) else Ring(Delete(ring, i))
    ensures e.next == old(e.next) && e.prev == old(e.prev)
  {
    Deleted(ring, i);
    assert e.next == Succ(ring, i) && e.prev == Pred(ring, i);
    e.prev.next := e.next;
    e.next.prev := e.prev;
  }

  /** JS_REMOVE_AND_INIT_LINK */
  method RemoveAndInit(e: Link, ghost ring: seq<Link>, ghost i: nat)
    requires Ring(ring) && i < |ring| && ring[i] == e
    modifies e, e.prev`next, e.next`prev
    ensures Ring([e])
    ensures |ring| > 1 ==> Ring(Delete(ring, i))
  {
    Remove(e, ring, i);
    e.next := e;
    e.prev := e;
  }

  /** JS_CLIST_IS_EMPTY */
  method IsEmpty(l: Link, ghost ring: seq<Link>) returns (empty: bool)
    requires Ring(ring) && ring[0] == l
    ensures empty <==> ring[1..] == []
  {
    empty := l.next == l;
    assert ring[0].next == Succ(ring, 0);
  }

  /** Inserting one link and removing it again restores every link of the list. */
  method InsertAndRemove(e: Link, l: Link, ghost ring: seq<Link>, ghost i: nat, before: bool)
    requires Ring(ring) && i < |ring| && ring[i] == l && e !in ring
    modifies e, l, l.prev, l.next
    ensures Ring(ring)
    ensures forall x :: x in ring ==> x.next == old(x.next) && x.prev == old(x.prev)
  {
    hide Distinct, Delete;
    ghost var k := if !before then i + 1 else if i == 0 then |ring| else i;
    assert l.prev == Pred(ring, i) && l.next == Succ(ring, i);
    if before {
      InsertBefore(e, l, ring, i);
    } else {
      InsertAfter(e, l, ring, i);
    }
    Inserted(ring, k, e);
    assert e.prev == Pred(Insert(ring, k, e), k) && e.next == Succ(Insert(ring, k, e), k);
    Remove(e, Insert(ring, k, e), k);
    DeleteInserted(ring, k, e);
    RingFixesLinks(ring);
  }

  twostate lemma RingFixesLinks(ring: seq<Link>)
    requires old(Ring(ring)) && Ring(ring)
    ensures forall x :: x in ring ==> x.next == old(x.next) && x.prev == old(x.prev)
  {
    forall i | 0 <= i < |ring|
      ensures ring[i].next == old(ring[i].next) && ring[i].prev == old(ring[i].prev)
    {
    }
  }

  /** The loop from JS_LIST_HEAD with JS_NEXT_LINK visits the elements in order. */
  method Forward(l: Link, ghost ring: seq<Link>) returns (visited: seq<Link>)
    requires Ring(ring) && ring[0] == l
    ensures visited == ring[1..]
  {
    visited := [];
    var e := l.next;
    assert ring[0].next == Succ(ring, 0);
    while e != l
      invariant |visited| < |ring| && visited == ring[1..|visited| + 1]
      invariant e == Succ(ring, |visited|)
      decreases |ring| - |visited|
    {
      assert e == ring[|visited| + 1] && e.next == Succ(ring, |visited| + 1);
      visited := visited + [e];
      e := e.next;
    }
  }

  /** The loop from JS_LIST_TAIL with JS_PREV_LINK visits them in the opposite order. */
  method Backward(l: Link, ghost ring: seq<Link>) returns (visited: seq<Link>)
    requires Ring(ring) && ring[0] == l
    ensures |visited| == |ring| - 1 && forall k :: 0 <= k < |visited| ==> visited[k] == ring[|ring| - 1 - k]
  {
    visited := [];
    var e := l.prev;
    assert ring[0].prev == Pred(ring, 0);
    ghost var i := |ring|;
    while e != l
      invariant 1 <= i <= |ring| && |visited| == |ring| - i
      invariant forall k :: 0 <= k < |visited| ==> visited[k] == ring[|ring| - 1 - k]
      invariant e == ring[i - 1]
      decreases i
    {
      i := i - 1;
      assert e.prev == Pred(ring, i);
      visited := visited + [e];
      e := e.prev;
    }
  }
}
