/**
 Looking up an atom in a list of literals (jsatom.h): a linear search that moves what it finds to
 the front, so that the list stays in the order of last use.
 */
module AtomLists {
  import opened Sequences

  type Atom = nat

  // ----- The list as a value -----

  /** The first position of atom, the length if it is absent. */
  ghost function Find(s: seq<Atom>, atom: Atom): (i: nat)
    ensures i <= |s| && (i < |s| ==> s[i] == atom)
    ensures forall k :: 0 <= k < i ==> s[k] != atom
  {
    if s == [] || s[0] == atom then 0
    else
      var i := Find(s[1..], atom);
      assert forall k :: 0 < k < 1 + i ==> s[k] == s[1..][k - 1];
      1 + i
  }

  ghost function ToFront<T>(s: seq<T>, i: nat): seq<T>
    requires i < |s|
  {
    [s[i]] + s[..i] + s[i + 1..]
  }

  /** What a lookup makes of the list. */
  ghost function Used(s: seq<Atom>, atom: Atom): seq<Atom> {
    var i := Find(s, atom);
    if i < |s| then ToFront(s, i) else s
  }

  /** The one found comes first, the others in their old order. */
  lemma ToFrontOrder<T>(s: seq<T>, i: nat)
    requires i < |s|
    ensures var r := ToFront(s, i);
            && |r| == |s| && r[0] == s[i] && r[1..] == s[..i] + s[i + 1..]
            && (forall k :: 1 <= k <= i ==> r[k] == s[k - 1]) && (forall k :: i < k < |s| ==> r[k] == s[k])
  {
  }

  lemma ToFrontPermutes<T>(s: seq<T>, i: nat)
    requires i < |s|
    ensures multiset(ToFront(s, i)) == multiset(s)
  {
    assert s == s[..i] + [s[i]] + s[i + 1..];
  }

  lemma ToFrontDistinct<T>(s: seq<T>, i: nat)
    requires i < |s| && Distinct(s)
    ensures Distinct(ToFront(s, i))
  {
    var r := ToFront(s, i);
    ToFrontOrder(s, i);
    forall k, l | 0 <= k < l < |r|
      ensures r[k] != r[l]
    {
      assert r[l] == s[if l <= i then l - 1 else l];
    }
  }

  /** A second lookup finds the atom at the front and changes nothing. */
  lemma UsedTwice(s: seq<Atom>, atom: Atom)
    ensures Used(Used(s, atom), atom) == Used(s, atom)
  {
    var i := Find(s, atom);
    if i < |s| {
      var r := ToFront(s, i);
      assert Find(r, atom) == 0;
      assert ToFront(r, 0) == r;
    }
  }

  // ----- Order of last use -----

  ghost function AfterUses(s: seq<Atom>, uses: seq<Atom>): seq<Atom> {
    if uses == [] then s else Used(AfterUses(s, uses[..|uses| - 1]), uses[|uses| - 1])
  }

  /** When atom was used last, counted from one; zero if never. */
  ghost function LastUse(uses: seq<Atom>, atom: Atom): (t: nat)
    ensures t <= |uses|
  {
    if uses == [] then 0
    else if uses[|uses| - 1] == atom then |uses|
    else LastUse(uses[..|uses| - 1], atom)
  }

  /** x was used after y, or neither was used and x came first in the original list. */
  ghost predicate Ahead(s: seq<Atom>, uses: seq<Atom>, x: Atom, y: Atom) {
    var tx, ty := LastUse(uses, x), LastUse(uses, y);
    tx > ty || (tx == ty == 0 && Find(s, x) < Find(s, y))
  }

  /** After any lookups, of present and absent atoms, the list is in the order of last use. */
  lemma {:induction false} OrderOfLastUse(s: seq<Atom>, uses: seq<Atom>, i: nat, j: nat)
    requires Distinct(s)
    ensures Distinct(AfterUses(s, uses)) && |AfterUses(s, uses)| == |s|
    ensures i < j < |s| ==> Ahead(s, uses, AfterUses(s, uses)[i], AfterUses(s, uses)[j])
    decreases |uses|
  {
    if uses == [] {
      if i < j < |s| {
        FoundAt(s, i);
        FoundAt(s, j);
      }
    } else {
      var before, atom := uses[..|uses| - 1], uses[|uses| - 1];
      OrderOfLastUse(s, before, i, j);
      var q := AfterUses(s, before);
      var f := Find(q, atom);
      if f < |q| {
        ToFrontDistinct(q, f);
        ToFrontOrder(q, f);
        if i < j < |s| {
          var k, l := if i <= f then i - 1 else i, if j <= f then j - 1 else j;
          assert AfterUses(s, uses)[j] == q[l];
          if i > 0 {
            OrderOfLastUse(s, before, k, l);
            assert q[k] != atom && q[l] != atom;
          } else {
            assert q[l] != atom;
          }
        }
      }
    }
  }

  lemma FoundAt(s: seq<Atom>, i: nat)
    requires Distinct(s) && i < |s|
    ensures Find(s, s[i]) == i
  {
  }

  // ----- The list in memory -----

  class Element {
    const atom: Atom
    var next: Element?

    constructor (atom: Atom, next: Element?)
      ensures this.atom == atom && this.next == next
    {
      this.atom, this.next := atom, next;
    }
  }

  ghost function Atoms(nodes: seq<Element>): (r: seq<Atom>)
    ensures |r| == |nodes| && forall i :: 0 <= i < |r| ==> r[i] == nodes[i].atom
  {
    seq(|nodes|, i requires 0 <= i < |nodes| => nodes[i].atom)
  }

  ghost function At(nodes: seq<Element>, i: nat): Element? {
    if i < |nodes| then nodes[i] else null
  }

  /** Distinct elements, linked in their order: no cycle. */
  ghost predicate Chained(head: Element?, nodes: seq<Element>)
    reads nodes
  {
    && Distinct(nodes) && head == At(nodes, 0)
    && forall i {:trigger nodes[i].next} :: 0 <= i < |nodes| ==> nodes[i].next == At(nodes, i + 1)
  }

  /** Moving the first element with the atom to the front. */
  lemma Hit(nodes: seq<Element>, i: nat, atom: Atom)
    requires i < |nodes| && nodes[i].atom == atom
    requires forall k :: 0 <= k < i ==> nodes[k].atom != atom
    ensures atom in Atoms(nodes) && Atoms(ToFront(nodes, i)) == Used(Atoms(nodes), atom)
    ensures multiset(ToFront(nodes, i)) == multiset(nodes)
  {
    assert Atoms(nodes)[i] == atom;
    assert Find(Atoms(nodes), atom) == i;
    ToFrontOrder(nodes, i);
    ToFrontOrder(Atoms(nodes), i);
    ToFrontPermutes(nodes, i);
    assert forall k :: 0 <= k < |nodes| ==> Atoms(ToFront(nodes, i))[k] == ToFront(Atoms(nodes), i)[k];
  }

  lemma Miss(nodes: seq<Element>, atom: Atom)
    requires forall k :: 0 <= k < |nodes| ==> nodes[k].atom != atom
    ensures atom !in Atoms(nodes) && Used(Atoms(nodes), atom) == Atoms(nodes)
  {
  }

  class AtomList {
    var list: Element?
    ghost var nodes: seq<Element>

    ghost predicate Valid()
      reads this, nodes
    {
      Chained(list, nodes)
    }

    /** ATOM_LIST_INIT */
    constructor ()
      ensures Valid() && nodes == []
    {
      list, nodes := null, [];
    }

    /** A new literal is put in front. */
    method Push(atom: Atom)
      requires Valid()
      modifies this
      ensures Valid() && Atoms(nodes) == [atom] + Atoms(old(nodes))
    {
      var e := new Element(atom, list);
      list := e;
      nodes := [e] + nodes;
    }

    /** Element ale, after prev, is made the first; the list head stands in for a null prev. */
    method MoveToFront(prev: Element?, ale: Element, ghost i: nat)
      requires Valid() && i < |nodes| && ale == nodes[i] && prev == if i == 0 then null else nodes[i - 1]
      modifies this, prev, ale
      ensures Valid() && nodes == ToFront(old(nodes), i) && list == ale
    {
      ToFrontDistinct(nodes, i);
      ToFrontOrder(nodes, i);
      if prev == null {
        list := ale.next;
      } else {
        prev.next := ale.next;
      }
      ale.next := list;
      list := ale;
      nodes := ToFront(nodes, i);
    }

    /** ATOM_LIST_LOOKUP without a hash table */
    method Lookup(atom: Atom) returns (ale: Element?)
      requires Valid()
      modifies this, nodes
      ensures Valid()
      ensures ale == null <==> atom !in Atoms(old(nodes))
      ensures ale != null ==> ale.atom == atom && list == ale
      ensures Atoms(nodes) == Used(Atoms(old(nodes)), atom)
      ensures multiset(nodes) == multiset(old(nodes))
    {
      hide Atoms, Used, ToFront, Find;
      ghost var i := 0;
      var prev: Element? := null;
      ale := list;
      while ale != null
        invariant i <= |nodes| && nodes == old(nodes) && list == old(list) && Valid()
        invariant ale == At(nodes, i) && prev == if i == 0 then null else nodes[i - 1]
        invariant forall k :: 0 <= k < i ==> nodes[k].atom != atom
        decreases |nodes| - i
      {
        if ale.atom == atom {
          Hit(nodes, i, atom);
          MoveToFront(prev, ale, i);
          return;
        }
        prev, ale := ale, ale.next;
        i := i + 1;
      }
      Miss(nodes, atom);
    }
  }
}
