/**
 Scopes over the shared property tree (jsscope.h, jsscope.c).  A scope points at the node of its
 last property; its properties are the nodes on the line of ancestors that its table still maps.
 Deleting from the middle of the line only drops the table entry and sets a flag; the line is
 repaired when a property is added.
 */
module PropertyTree {
  import opened Options

  type Id = nat

  /** What labels a tree node; rest stands for getter, setter, slot and short id. */
  datatype Label = Label(id: Id, enumerable: bool, alias: bool, rest: nat)

  /**
   Tree nodes are immutable and unique for their parent and label, so a node is its label and
   its parent, and finding or creating a child is applying the constructor.
   */
  datatype Tree = Root | Node(tag: Label, parent: Tree)

  /** The ancestors of t and t itself, oldest first. */
  function Line(t: Tree): seq<Tree> {
    match t
    case Root => []
    case Node(_, parent) => Line(parent) + [t]
  }

  lemma {:induction false} LineNodes(t: Tree, n: Tree)
    requires n in Line(t)
    ensures n.Node? && (n.parent == Root || n.parent in Line(t)) && t != Root
  {
    if n != t {
      LineNodes(t.parent, n);
    }
  }

  lemma {:induction false} LineOfAncestor(t: Tree, n: Tree)
    requires n in Line(t)
    ensures Line(n) <= Line(t)
  {
    if n != t {
      LineOfAncestor(t.parent, n);
      assert Line(t.parent) <= Line(t);
    }
  }

  ghost predicate DistinctIds(nodes: seq<Tree>) {
    && (forall n :: n in nodes ==> n.Node?)
    && forall i, j :: 0 <= i < j < |nodes| ==> nodes[i].tag.id != nodes[j].tag.id
  }

  /** The searchable state of a scope: table is None until there is a hash table. */
  datatype View = View(last: Tree, table: Option<map<Id, Tree>>, middleDelete: bool) {

    /** js_SearchScope: the hash table, or a linear search from the last property. */
    function Search(id: Id): Option<Tree> {
      match table
      case Some(m) => if id in m then Some(m[id]) else None
      case None => SearchLine(last, id)
    }

    predicate Has(n: Tree) {
      n.Node? && Search(n.tag.id) == Some(n)
    }

    /** The labels of the scope's properties, in definition order. */
    ghost function Contents(): seq<Label> {
      Live(Line(last))
    }

    ghost function Live(nodes: seq<Tree>): seq<Label> {
      if nodes == [] then []
      else Live(nodes[..|nodes| - 1]) + (if Has(nodes[|nodes| - 1]) then [nodes[|nodes| - 1].tag] else [])
    }

    ghost predicate Valid() {
      && DistinctIds(Line(last))
      && (last != Root ==> Has(last))
      && (match table
          case None => !middleDelete
          case Some(m) =>
            && (forall id :: id in m ==> m[id] in Line(last) && m[id].tag.id == id)
            && (!middleDelete ==> forall n :: n in Line(last) ==> n.tag.id in m && m[n.tag.id] == n))
    }
  }

  function SearchLine(t: Tree, id: Id): Option<Tree> {
    match t
    case Root => None
    case Node(tag, parent) => if tag.id == id then Some(t) else SearchLine(parent, id)
  }

  lemma {:induction false} SearchLineFinds(t: Tree, id: Id)
    requires DistinctIds(Line(t))
    ensures match SearchLine(t, id)
            case None => forall n :: n in Line(t) ==> n.tag.id != id
            case Some(n) => n in Line(t) && n.tag.id == id
    ensures forall n :: n in Line(t) && n.tag.id == id ==> SearchLine(t, id) == Some(n)
  {
    if t.Node? {
      PrefixDistinct(t);
      SearchLineFinds(t.parent, id);
    }
  }

  /**
   The invariant the iterator and for..in rest on: with the flag clear, exactly the nodes on the
   line are in the scope.
   */
  lemma ClearFlagMeansDense(v: View, n: Tree)
    requires v.Valid() && !v.middleDelete
    ensures v.Has(n) <==> n in Line(v.last)
  {
    if n in Line(v.last) {
      LineNodes(v.last, n);
    }
    if v.table.None? && n.Node? {
      SearchLineFinds(v.last, n.tag.id);
    }
  }

  /** With or without the flag, a scope only has nodes that are on its line. */
  lemma HasIsOnLine(v: View, n: Tree)
    requires v.Valid() && v.Has(n)
    ensures n in Line(v.last)
  {
    if v.table.None? {
      SearchLineFinds(v.last, n.tag.id);
    }
  }

  lemma LiveSnoc(v: View, nodes: seq<Tree>, n: Tree)
    ensures v.Live(nodes + [n]) == v.Live(nodes) + (if v.Has(n) then [n.tag] else [])
  {
    assert (nodes + [n])[..|nodes|] == nodes;
  }

  /** What is left of a list of labels when those named id are taken out. */
  ghost function Without(tags: seq<Label>, id: Id): seq<Label> {
    if tags == [] then []
    else Without(tags[..|tags| - 1], id) + (if tags[|tags| - 1].id == id then [] else [tags[|tags| - 1]])
  }

  lemma WithoutSnoc(tags: seq<Label>, tag: Label, id: Id)
    ensures Without(tags + [tag], id) == Without(tags, id) + (if tag.id == id then [] else [tag])
  {
    assert (tags + [tag])[..|tags|] == tags;
  }

  lemma {:induction false} LiveWithout(v: View, v': View, nodes: seq<Tree>, id: Id)
    requires forall n :: n in nodes && n.Node? ==> (v'.Has(n) <==> v.Has(n) && n.tag.id != id)
    ensures v'.Live(nodes) == Without(v.Live(nodes), id)
  {
    if nodes != [] {
      var n, rest := nodes[|nodes| - 1], nodes[..|nodes| - 1];
      LiveWithout(v, v', rest, id);
      assert n in nodes;
      assert v.Live(rest) + [] == v.Live(rest) && v'.Live(rest) + [] == v'.Live(rest);
      if v.Has(n) {
        WithoutSnoc(v.Live(rest), n.tag, id);
      }
    }
  }

  lemma {:induction false} LiveSame(v: View, v': View, nodes: seq<Tree>)
    requires forall n :: n in nodes && n.Node? ==> (v'.Has(n) <==> v.Has(n))
    ensures v'.Live(nodes) == v.Live(nodes)
  {
    if nodes != [] {
      LiveSame(v, v', nodes[..|nodes| - 1]);
    }
  }

  /** Mapping every node of a dense line changes nothing but the way of searching. */
  lemma TableOfLine(v: View, m: map<Id, Tree>)
    requires v.Valid() && v.table == None
    requires forall id :: id in m ==> m[id] in Line(v.last) && m[id].tag.id == id
    requires forall n :: n in Line(v.last) ==> n.tag.id in m && m[n.tag.id] == n
    ensures var v' := v.(table := Some(m));
            v'.Valid() && v'.Contents() == v.Contents() && forall n :: v'.Has(n) <==> v.Has(n)
  {
    var v' := v.(table := Some(m));
    forall n
      ensures v'.Has(n) <==> v.Has(n)
    {
      ClearFlagMeansDense(v, n);
    }
    LiveSame(v, v', Line(v.last));
  }

  /** The closest node at or above t that the table maps. */
  function Nearest(table: map<Id, Tree>, t: Tree): Tree {
    if t == Root || (t.tag.id in table && table[t.tag.id] == t) then t else Nearest(table, t.parent)
  }

  function NewLast(v: View): Tree
    requires v.last.Node? && (v.middleDelete ==> v.table.Some?)
  {
    if v.middleDelete then Nearest(v.table.value, v.last.parent) else v.last.parent
  }

  function Minus(table: Option<map<Id, Tree>>, id: Id): Option<map<Id, Tree>> {
    match table
    case None => None
    case Some(m) => Some(m - {id})
  }

  ghost function DropTo(v: View, id: Id, t: Tree): View {
    View(t, Minus(v.table, id), v.middleDelete)
  }

  /** Ending the line at t instead loses nothing but the property named id. */
  ghost predicate Dropped(v: View, id: Id, t: Tree) {
    && (t == Root || t in Line(v.last)) && t != v.last && Line(t) <= Line(v.last)
    && DropTo(v, id, t).Contents() == Without(v.Contents(), id)
    && forall n :: n in Line(v.last) ==> n in Line(t) || !DropTo(v, id, t).Has(n)
  }

  lemma PrefixDistinct(t: Tree)
    requires t.Node? && DistinctIds(Line(t))
    ensures DistinctIds(Line(t.parent))
    ensures forall n :: n in Line(t.parent) ==> n.tag.id != t.tag.id
  {
    var nodes := Line(t.parent);
    assert forall i :: 0 <= i < |nodes| ==> nodes[i] == Line(t)[i];
    assert Line(t)[|nodes|] == t;
  }

  lemma DropTail(v: View, t: Tree)
    requires t.Node? && !v.Has(t)
    ensures v.Live(Line(t)) == v.Live(Line(t.parent))
  {
    LiveSnoc(v, Line(t.parent), t);
  }

  lemma DropHas(v: View, id: Id, t: Tree)
    requires v.Valid() && v.last.Node? && v.last.tag.id == id
    requires v.table.None? ==> t == v.last.parent
    ensures forall n :: n in Line(v.last) ==> (DropTo(v, id, t).Has(n) <==> v.Has(n) && n.tag.id != id)
  {
    PrefixDistinct(v.last);
    forall n | n in Line(v.last)
      ensures DropTo(v, id, t).Has(n) <==> v.Has(n) && n.tag.id != id
    {
      LineNodes(v.last, n);
      if v.table.None? {
        SearchLineFinds(v.last, n.tag.id);
        SearchLineFinds(t, n.tag.id);
      }
    }
  }

  lemma LineStep(t: Tree)
    requires t.Node?
    ensures Line(t.parent) <= Line(t) && t in Line(t)
    ensures forall n :: n in Line(t) <==> n in Line(t.parent) || n == t
  {
  }

  lemma DropLast(v: View, id: Id)
    requires v.Valid() && v.last.Node? && v.last.tag.id == id
    ensures Dropped(v, id, v.last.parent)
  {
    hide View.Valid, View.Contents;
    var v' := DropTo(v, id, v.last.parent);
    DropHas(v, id, v.last.parent);
    LineStep(v.last);
    DropLastContents(v, id);
  }

  lemma DropLastContents(v: View, id: Id)
    requires v.Valid() && v.last.Node? && v.last.tag.id == id
    ensures DropTo(v, id, v.last.parent).Contents() == Without(v.Contents(), id)
  {
    hide View.Valid, View.Has, View.Live, Without;
    var v' := DropTo(v, id, v.last.parent);
    DropHas(v, id, v.last.parent);
    LineStep(v.last);
    LiveWithout(v, v', Line(v.last), id);
    DropTail(v', v.last);
  }

  /** Moving on to the nearest live ancestor drops only nodes that are dead already. */
  lemma {:induction false} DropDead(v: View, id: Id, t: Tree, table: map<Id, Tree>)
    requires v.Valid() && v.middleDelete && v.last.Node? && v.last.tag.id == id && Dropped(v, id, t)
    requires table - {id} == v.table.value - {id}
    ensures Dropped(v, id, Nearest(table, t))
    ensures Nearest(table, t) == Root || DropTo(v, id, Nearest(table, t)).Has(Nearest(table, t))
    decreases t
  {
    if t.Node? {
      PrefixDistinct(v.last);
      LineStep(v.last);
      assert t.tag.id in table <==> t.tag.id in table - {id};
      if !(t.tag.id in table && table[t.tag.id] == t) {
        DropOne(v, id, t);
        DropDead(v, id, t.parent, table);
      }
    }
  }

  lemma DropOne(v: View, id: Id, t: Tree)
    requires v.table.Some? && Dropped(v, id, t) && t.Node? && !DropTo(v, id, t).Has(t)
    ensures Dropped(v, id, t.parent)
  {
    var v', v'' := DropTo(v, id, t), DropTo(v, id, t.parent);
    LineStep(t);
    LineNodes(v.last, t);
    DropTail(v', t);
    LiveSame(v', v'', Line(t.parent));
  }

  lemma DroppedIsValid(v: View, id: Id, t: Tree)
    requires v.Valid() && v.last.Node? && v.last.tag.id == id && Dropped(v, id, t)
    requires if v.middleDelete then t == Root || DropTo(v, id, t).Has(t) else t == v.last.parent
    ensures DropTo(v, id, t).Valid()
  {
    hide View.Contents, View.Live, Without;
    var v' := DropTo(v, id, t);
    assert DistinctIds(Line(t)) by {
      assert forall i :: 0 <= i < |Line(t)| ==> Line(t)[i] == Line(v.last)[i];
    }
    if !v.middleDelete {
      DroppedIsDense(v, id);
    }
    if v.table.Some? {
      DroppedTable(v, id, t);
    }
  }

  lemma DroppedTable(v: View, id: Id, t: Tree)
    requires v.Valid() && Dropped(v, id, t) && v.table.Some?
    ensures var m := DropTo(v, id, t).table.value;
            forall x :: x in m ==> m[x] in Line(t) && m[x].tag.id == x
  {
    var v' := DropTo(v, id, t);
    forall x | x in v'.table.value
      ensures v'.table.value[x] in Line(t) && v'.table.value[x].tag.id == x
    {
      assert v.table.value[x] in Line(v.last);
      assert v'.Has(v'.table.value[x]);
    }
  }

  lemma DroppedIsDense(v: View, id: Id)
    requires v.Valid() && v.last.Node? && v.last.tag.id == id && !v.middleDelete
    ensures forall n :: n in Line(v.last.parent) ==> DropTo(v, id, v.last.parent).Has(n)
  {
    PrefixDistinct(v.last);
    LineStep(v.last);
    DropHas(v, id, v.last.parent);
    forall n | n in Line(v.last.parent)
      ensures v.Has(n)
    {
      ClearFlagMeansDense(v, n);
    }
  }

  /**
   Deleting the last property.  It does not matter whether its table entry is gone before or
   after lastProp moves up.
   */
  lemma RemovedLast(v: View, id: Id, table: Option<map<Id, Tree>>)
    requires v.Valid() && v.last.Node? && v.last.tag.id == id
    requires Minus(table, id) == Minus(v.table, id)
    ensures var v' := DropTo(v, id, NewLast(v.(table := table)));
            v'.Valid() && v'.Contents() == Without(v.Contents(), id) && v'.Search(id) == None
    ensures Minus(Minus(table, id), id) == Minus(table, id)
  {
    assert table.Some? ==> table.value - {id} - {id} == table.value - {id};
    if table.None? {
      PrefixDistinct(v.last);
      SearchLineFinds(v.last.parent, id);
    }
    DropLast(v, id);
    if v.middleDelete {
      DropDead(v, id, v.last.parent, table.value);
    }
    DroppedIsValid(v, id, NewLast(v.(table := table)));
  }

  /** Deleting from the middle: only the table entry goes. */
  lemma RemovedMiddle(v: View, id: Id)
    requires v.Valid() && v.table.Some? && id in v.table.value && v.table.value[id] != v.last
    ensures var v' := View(v.last, Minus(v.table, id), true);
            v'.Valid() && v'.Contents() == Without(v.Contents(), id)
  {
    var v' := View(v.last, Minus(v.table, id), true);
    assert v.last.tag.id != id;
    LiveWithout(v, v', Line(v.last), id);
  }

  lemma NoChain()
    ensures Chain([]) == Root
  {
  }

  lemma ChainStep(nodes: seq<Tree>, i: nat)
    requires DistinctIds(nodes) && i < |nodes|
    ensures nodes[i].Node? && forall k :: 0 <= k < i ==> nodes[k].Node? && nodes[k].tag.id != nodes[i].tag.id
    ensures Chain(nodes[..i + 1]) ==
              if nodes[i].parent == Chain(nodes[..i]) then nodes[i] else Node(nodes[i].tag, Chain(nodes[..i]))
  {
    assert nodes[..i + 1][..i] == nodes[..i];
  }

  /** What js_RemoveScopeProperty makes of v, if it succeeds; a table may have been made for it. */
  ghost predicate Removes(v: View, after: View, id: Id) {
    && after.Valid() && after.Contents() == Without(v.Contents(), id)
    && match v.Search(id)
       case None => after == v
       case Some(n) =>
         if n != v.last then after.last == v.last && after.middleDelete
         else
           var w := v.(table := Minus(v.table, id));
           w.last.Node? && (w.middleDelete ==> w.table.Some?) && after == w.(last := NewLast(w))
  }

  /** Both ways, after a search that found sprop. */
  lemma Detached(v: View, id: Id, sprop: Tree)
    requires v.Valid() && v.Search(id) == Some(sprop) && (v.table.Some? || sprop == v.last)
    ensures v.last.Node? && (v.middleDelete ==> v.table.Some?)
    ensures var table := Minus(v.table, id);
            var v' := if sprop == v.last then View(NewLast(v.(table := table)), table, v.middleDelete)
                      else View(v.last, table, true);
            v'.Valid() && v'.Contents() == Without(v.Contents(), id)
  {
    hide View.Contents, NewLast, Without;
    FoundIsNamed(v, id);
    assert v.table.Some? ==> v.table.value - {id} - {id} == v.table.value - {id};
    if sprop == v.last {
      RemovedLast(v, id, Minus(v.table, id));
    } else {
      RemovedMiddle(v, id);
    }
  }

  lemma NothingToRemove(v: View, id: Id)
    requires v.Valid() && v.Search(id) == None
    ensures Without(v.Contents(), id) == v.Contents()
  {
    if v.table.None? {
      SearchLineFinds(v.last, id);
    }
    assert forall n :: v.Has(n) ==> n.tag.id != id;
    LiveWithout(v, v, Line(v.last), id);
  }

  // ----- Forking the tree -----

  ghost function Tags(nodes: seq<Tree>): seq<Label>
    requires forall n :: n in nodes ==> n.Node?
  {
    if nodes == [] then [] else Tags(nodes[..|nodes| - 1]) + [nodes[|nodes| - 1].tag]
  }

  /** The nodes on t's line whose ids the table still binds, oldest first. */
  ghost function Bound(table: map<Id, Tree>, t: Tree): (r: seq<Tree>)
    ensures forall n :: n in r ==> n.Node?
  {
    match t
    case Root => []
    case Node(tag, parent) => Bound(table, parent) + (if tag.id in table then [t] else [])
  }

  /** The node reached from the root by the labels of the given nodes. */
  function Chain(nodes: seq<Tree>): (t: Tree)
    requires forall n :: n in nodes ==> n.Node?
    ensures nodes == [] <==> t == Root
  {
    if nodes == [] then Root else Node(nodes[|nodes| - 1].tag, Chain(nodes[..|nodes| - 1]))
  }

  lemma TagsSnoc(nodes: seq<Tree>, n: Tree)
    requires n.Node? && forall x :: x in nodes ==> x.Node?
    ensures Tags(nodes + [n]) == Tags(nodes) + [n.tag]
  {
    assert (nodes + [n])[..|nodes|] == nodes;
  }

  lemma {:induction false} BoundTags(v: View, table: map<Id, Tree>, t: Tree)
    requires forall n :: n in Line(t) && n.Node? ==> (v.Has(n) <==> n.tag.id in table)
    ensures Tags(Bound(table, t)) == v.Live(Line(t))
  {
    if t.Node? {
      LineStep(t);
      BoundTags(v, table, t.parent);
      LiveSnoc(v, Line(t.parent), t);
      TagsSnoc(Bound(table, t.parent), t);
      assert Bound(table, t.parent) + [] == Bound(table, t.parent);
    }
  }

  lemma BoundIsLive(v: View)
    requires v.Valid() && v.table.Some?
    ensures Tags(Bound(v.table.value, v.last)) == v.Contents()
  {
    forall n | n in Line(v.last) && n.Node?
      ensures v.Has(n) <==> n.tag.id in v.table.value
    {
      if n.tag.id in v.table.value {
        SameIdSameNode(v, n);
      }
    }
    BoundTags(v, v.table.value, v.last);
  }

  lemma {:induction false} BoundMembers(table: map<Id, Tree>, t: Tree)
    ensures forall n :: n in Bound(table, t) <==> n in Line(t) && n.Node? && n.tag.id in table
  {
    if t.Node? {
      BoundMembers(table, t.parent);
    }
  }

  lemma {:induction false} BoundDistinct(table: map<Id, Tree>, t: Tree)
    requires DistinctIds(Line(t))
    ensures DistinctIds(Bound(table, t))
  {
    if t.Node? {
      PrefixDistinct(t);
      BoundDistinct(table, t.parent);
      BoundMembers(table, t.parent);
    }
  }

  lemma SameIdSameNode(v: View, t: Tree)
    requires v.Valid() && v.table.Some? && t in Line(v.last) && t.Node? && t.tag.id in v.table.value
    ensures v.table.value[t.tag.id] == t && v.Has(t)
  {
    var line := Line(v.last);
    var i :| 0 <= i < |line| && line[i] == t;
    var j :| 0 <= j < |line| && line[j] == v.table.value[t.tag.id];
  }

  lemma {:induction false} ChainLine(nodes: seq<Tree>)
    requires DistinctIds(nodes)
    ensures |Line(Chain(nodes))| == |nodes|
    ensures forall i :: 0 <= i < |nodes| ==>
              Line(Chain(nodes))[i] == Chain(nodes[..i + 1]) && Line(Chain(nodes))[i].tag == nodes[i].tag
    ensures DistinctIds(Line(Chain(nodes)))
  {
    if nodes != [] {
      var k := |nodes| - 1;
      var front := nodes[..k];
      ChainLine(front);
      forall i | 0 <= i < |nodes|
        ensures Line(Chain(nodes))[i] == Chain(nodes[..i + 1]) && Line(Chain(nodes))[i].tag == nodes[i].tag
      {
        if i < k {
          assert front[..i + 1] == nodes[..i + 1];
        } else {
          assert nodes[..i + 1] == nodes;
        }
      }
    }
  }

  lemma {:induction false} LiveAll(v: View, nodes: seq<Tree>, named: seq<Tree>)
    requires |nodes| == |named| && forall i :: 0 <= i < |nodes| ==> nodes[i].Node? && named[i].Node? && v.Has(nodes[i])
    requires forall i :: 0 <= i < |nodes| ==> nodes[i].tag == named[i].tag
    ensures v.Live(nodes) == Tags(named)
  {
    if nodes != [] {
      LiveAll(v, nodes[..|nodes| - 1], named[..|nodes| - 1]);
    }
  }

  /** table maps the ids of nodes, and only those, to the nodes of their chain. */
  ghost predicate MapsChain(table: map<Id, Tree>, nodes: seq<Tree>) {
    && (forall n :: n in nodes ==> n.Node?)
    && (forall i :: 0 <= i < |nodes| ==> nodes[i].tag.id in table && table[nodes[i].tag.id] == Chain(nodes[..i + 1]))
    && (forall id :: id in table ==> exists i :: 0 <= i < |nodes| && nodes[i].tag.id == id)
  }

  lemma ForkedHasLine(table: map<Id, Tree>, nodes: seq<Tree>, i: nat)
    requires DistinctIds(nodes) && MapsChain(table, nodes) && i < |nodes|
    ensures |Line(Chain(nodes))| == |nodes| && Line(Chain(nodes))[i].Node?
    ensures table[nodes[i].tag.id] == Line(Chain(nodes))[i] && Line(Chain(nodes))[i].tag == nodes[i].tag
    ensures View(Chain(nodes), Some(table), false).Has(Line(Chain(nodes))[i])
  {
    ChainLine(nodes);
  }

  lemma ForkedIsDense(table: map<Id, Tree>, nodes: seq<Tree>)
    requires DistinctIds(nodes) && MapsChain(table, nodes)
    ensures forall n :: n in Line(Chain(nodes)) ==> n.Node? && n.tag.id in table && table[n.tag.id] == n
    ensures forall id :: id in table ==> table[id] in Line(Chain(nodes)) && table[id].tag.id == id
  {
    ChainLine(nodes);
    forall i | 0 <= i < |nodes|
      ensures var n := Line(Chain(nodes))[i]; n.tag.id in table && table[n.tag.id] == n
    {
      ForkedHasLine(table, nodes, i);
    }
    forall id | id in table
      ensures table[id] in Line(Chain(nodes)) && table[id].tag.id == id
    {
      var i :| 0 <= i < |nodes| && nodes[i].tag.id == id;
      ForkedHasLine(table, nodes, i);
    }
  }

  lemma ForkedIsValid(table: map<Id, Tree>, nodes: seq<Tree>)
    requires DistinctIds(nodes) && MapsChain(table, nodes)
    ensures View(Chain(nodes), Some(table), false).Valid()
  {
    ChainLine(nodes);
    ForkedIsDense(table, nodes);
    if nodes != [] {
      LineStep(Chain(nodes));
    }
  }

  lemma ForkedContents(table: map<Id, Tree>, nodes: seq<Tree>)
    requires DistinctIds(nodes) && MapsChain(table, nodes)
    ensures View(Chain(nodes), Some(table), false).Contents() == Tags(nodes)
  {
    var v := View(Chain(nodes), Some(table), false);
    ChainLine(nodes);
    forall i | 0 <= i < |nodes|
      ensures v.Has(Line(Chain(nodes))[i])
    {
      ForkedHasLine(table, nodes, i);
    }
    LiveAll(v, Line(Chain(nodes)), nodes);
  }

  // ----- The scope operations -----

  class Scope {
    var lastProp: Tree
    var table: Option<map<Id, Tree>>
    var middleDelete: bool
    var isSealed: bool

    constructor ()
      ensures V() == View(Root, None, false) && !isSealed
    {
      lastProp, table, middleDelete, isSealed := Root, None, false, false;
    }

    function V(): View
      reads this
    {
      View(lastProp, table, middleDelete)
    }

    /** CreateScopeTable: maps every node of a dense line. */
    method CreateTable(alloc: bool) returns (ok: bool)
      requires V().Valid() && table == None
      modifies `table
      ensures ok == alloc && (!ok ==> V() == old(V()))
      ensures ok ==> table.Some? && V().Valid() && V().Contents() == old(V().Contents())
      ensures forall n :: V().Has(n) <==> old(V().Has(n))
    {
      if !alloc {
        return false;
      }
      ghost var line := Line(lastProp);
      var m: map<Id, Tree> := map[];
      var t := lastProp;
      while t.Node?
        invariant V() == old(V()) && (t == Root || t in line)
        invariant forall id :: id in m ==> m[id] in line && m[id].tag.id == id
        invariant forall n :: n in line ==> n in Line(t) || (n.tag.id in m && m[n.tag.id] == n)
        decreases t
      {
        LineNodes(lastProp, t);
        LineOfAncestor(lastProp, t);
        m := m[t.tag.id := t];
        t := t.parent;
      }
      TableOfLine(V(), m);
      table := Some(m);
      return true;
    }

    /** Steps lastProp to its parent and, after middle deletes, on to the nearest live ancestor. */
    method RemoveLastProp()
      requires lastProp.Node? && (middleDelete ==> table.Some?)
      modifies `lastProp
      ensures lastProp == NewLast(old(V()))
    {
      lastProp := lastProp.parent;
      while middleDelete && lastProp.Node? && !V().Has(lastProp)
        invariant middleDelete ==> Nearest(table.value, lastProp) == Nearest(table.value, old(lastProp).parent)
        invariant !middleDelete ==> lastProp == old(lastProp).parent
        decreases lastProp
      {
        lastProp := lastProp.parent;
      }
    }

    /** The first loop of the repair: walks the sparse line and keeps the nodes still bound. */
    method CollectLive() returns (spvec: seq<Tree>)
      requires table.Some?
      ensures spvec == Bound(table.value, lastProp)
    {
      spvec := [];
      var sprop := lastProp;
      while sprop.Node?
        invariant Bound(table.value, sprop) + spvec == Bound(table.value, lastProp)
        decreases sprop
      {
        ghost var above := Bound(table.value, sprop.parent);
        if sprop.tag.id in table.value {
          assert above + ([sprop] + spvec) == above + [sprop] + spvec;
          spvec := [sprop] + spvec;
        } else {
          assert above + [] == above;
        }
        sprop := sprop.parent;
      }
    }

    /** The second loop: forks the tree at every gap, sharing nodes until the first one. */
    method Rebuild(spvec: seq<Tree>, m0: map<Id, Tree>) returns (sprop: Tree, m: map<Id, Tree>)
      requires DistinctIds(spvec) && forall n :: n in spvec ==> n.tag.id in m0
      ensures sprop == Chain(spvec) && m.Keys == m0.Keys
      ensures forall k :: 0 <= k < |spvec| ==> m[spvec[k].tag.id] == Chain(spvec[..k + 1])
    {
      hide Chain;
      NoChain();
      sprop, m := Root, m0;
      var i := 0;
      while i < |spvec|
        invariant 0 <= i <= |spvec| && sprop == Chain(spvec[..i])
        invariant m.Keys == m0.Keys
        invariant forall k :: 0 <= k < i ==> m[spvec[k].tag.id] == Chain(spvec[..k + 1])
      {
        ChainStep(spvec, i);
        if spvec[i].parent == sprop {
          sprop := spvec[i];
        } else {
          sprop := Node(spvec[i].tag, sprop);
        }
        m := m[spvec[i].tag.id := sprop];
        i := i + 1;
      }
      assert spvec[..i] == spvec;
    }

    /** Squeezes the deleted nodes out of the line, so that it is dense again. */
    method ForkLine()
      requires V().Valid() && table.Some?
      modifies `lastProp, `table, `middleDelete
      ensures V().Valid() && !middleDelete && table.Some?
      ensures V().Contents() == old(V().Contents())
      ensures table.value.Keys == old(table.value.Keys)
    {
      var spvec := CollectLive();
      BoundForRebuild(V());
      var sprop, m := Rebuild(spvec, table.value);
      BoundMapsChain(V(), spvec, m);
      Rebuilt(V(), spvec, m);
      lastProp, table, middleDelete := sprop, Some(m), false;
    }

    /** The part of js_RemoveScopeProperty that takes id's entry out. */
    method Detach(id: Id, sprop: Tree)
      requires V().Valid() && V().Search(id) == Some(sprop) && (table.Some? || sprop == lastProp)
      modifies `lastProp, `table, `middleDelete
      ensures V().Valid() && V().Contents() == Without(old(V().Contents()), id)
      ensures Removes(old(V()), V(), id)
    {
      hide View.Valid, View.Contents, NewLast, Without;
      Detached(V(), id, sprop);
      table := Minus(table, id);
      if sprop == lastProp {
        RemoveLastProp();
      } else {
        if !middleDelete {
          middleDelete := true;
        }
      }
    }

    /** A table exists, or the property is the last one, or a table can be allocated. */
    predicate CanDetach(id: Id, alloc: bool)
      reads this
    {
      table.Some? || V().Search(id) == Some(lastProp) || alloc
    }

    /** Middle deletes need a hash table; get one unless the property is the last. */
    method NeedTable(id: Id, sprop: Tree, alloc: bool) returns (ok: bool)
      requires V().Valid() && V().Search(id) == Some(sprop)
      modifies `table
      ensures ok <==> table.Some? || sprop == lastProp
      ensures ok <==> old(CanDetach(id, alloc))
      ensures V().Valid() && V().Contents() == old(V().Contents()) && V().Search(id) == Some(sprop)
      ensures !ok || sprop == lastProp ==> V() == old(V())
    {
      if table == None && sprop != lastProp {
        FoundIsNamed(V(), id);
        ok := CreateTable(alloc);
        assert V().Has(sprop);
        return ok;
      }
      return true;
    }

    /** js_RemoveScopeProperty; alloc says whether a hash table can be had when one is needed. */
    method Remove(id: Id, alloc: bool) returns (ok: bool)
      requires V().Valid()
      modifies `lastProp, `table, `middleDelete
      ensures V().Valid()
      ensures ok <==> !isSealed && (old(V().Search(id)) == None || old(CanDetach(id, alloc)))
      ensures if ok then V().Contents() == Without(old(V().Contents()), id) else V() == old(V())
      ensures ok ==> Removes(old(V()), V(), id)
    {
      if isSealed {
        return false;
      }
      match V().Search(id)
      case None =>
        NothingToRemove(V(), id);
        return true;
      case Some(sprop) =>
        ok := NeedTable(id, sprop, alloc);
        if ok {
          Detach(id, sprop);
        }
    }

    /** The part of js_AddScopeProperty that gives up the entry about to be overwritten. */
    method Overwrite(id: Id, sprop: Tree)
      requires V().Valid() && V().Search(id) == Some(sprop) && (table.Some? || sprop == lastProp)
      modifies `lastProp, `table, `middleDelete
      ensures V().Valid() && V().Contents() == Without(old(V().Contents()), id)
      ensures V().Search(id) == None && (middleDelete ==> table.Some?)
      ensures (table.Some? <==> old(table).Some?) && (middleDelete <==> old(middleDelete) || sprop != old(lastProp))
    {
      ghost var v := V();
      FoundIsNamed(v, id);
      if sprop == lastProp {
        RemovedLast(v, id, table);
        RemoveLastProp();
      } else {
        RemovedMiddle(v, id);
        if !middleDelete {
          middleDelete := true;
        }
      }
      table := Minus(table, id);
    }

    /**
     js_AddScopeProperty.  A property with exactly this label is left alone; one with the same id
     is given up first, so the new one always comes last in definition order.
     */
    method Add(tag: Label, alloc: bool) returns (r: Option<Tree>)
      requires V().Valid()
      modifies `lastProp, `table, `middleDelete
      ensures V().Valid()
      ensures r == None <==> isSealed || (Renames(old(V()), tag) && !old(CanDetach(tag.id, alloc)))
      ensures r == None ==> V() == old(V())
      ensures r.Some? ==> Named(V(), r.value, tag)
      ensures r.Some? && old(V().Search(tag.id)) == r ==> V() == old(V())
      ensures r.Some? && old(V().Search(tag.id)) != r ==>
                && V().Contents() == Without(old(V().Contents()), tag.id) + [tag]
                && lastProp == r.value && !middleDelete
                && (table.Some? <==>
                      old(table.Some?)
                      || (alloc && (|Line(lastProp)| >= HASH_THRESHOLD || old(ReplacesMiddle(V(), tag.id)))))
    {
      if isSealed {
        return None;
      }
      var early := GiveUp(tag, alloc);
      if early != None {
        return early.value;
      }
      var child := Install(tag, alloc);
      return Some(child);
    }

    /** Repairs the line if need be, appends, and starts hashing when the line gets long. */
    method Install(tag: Label, alloc: bool) returns (child: Tree)
      requires V().Valid() && V().Search(tag.id) == None && (middleDelete ==> table.Some?)
      modifies `lastProp, `table, `middleDelete
      ensures V().Valid() && Named(V(), child, tag) && lastProp == child && !middleDelete
      ensures V().Contents() == old(V().Contents()) + [tag]
      ensures table.Some? <==> old(table.Some?) || (alloc && |Line(lastProp)| >= HASH_THRESHOLD)
    {
      if middleDelete {
        ForkLine();
      }
      child := Append(tag);
      if table == None && |Line(lastProp)| >= HASH_THRESHOLD {
        var _ := CreateTable(alloc);
      }
    }

    /**
     Gives up an existing property of this id that is labelled differently.  Some(r) is an early
     return of r: the very same property exists already, or a table is needed and cannot be had.
     */
    method GiveUp(tag: Label, alloc: bool) returns (early: Option<Option<Tree>>)
      requires V().Valid()
      modifies `lastProp, `table, `middleDelete
      ensures V().Valid() && (middleDelete ==> table.Some?)
      ensures early == Some(None) <==> Renames(old(V()), tag) && !old(CanDetach(tag.id, alloc))
      ensures early.Some? ==> V() == old(V())
      ensures early.Some? && early.value.Some? ==>
                early.value == old(V().Search(tag.id)) && Named(V(), early.value.value, tag)
      ensures early.None? ==> V().Search(tag.id) == None && V().Contents() == Without(old(V().Contents()), tag.id)
      ensures early.None? ==> forall t :: old(V().Search(tag.id)) == Some(t) ==> t.Node? && t.tag != tag
      ensures early.None? ==> (table.Some? <==> old(table.Some? || ReplacesMiddle(V(), tag.id)))
      ensures early.None? && old(ReplacesMiddle(V(), tag.id)) && old(table == None) ==> alloc
    {
      match V().Search(tag.id)
      case None =>
        NothingToRemove(V(), tag.id);
        return None;
      case Some(sprop) =>
        FoundIsNamed(V(), tag.id);
        if sprop.tag == tag {
          return Some(Some(sprop));
        }
        var ok := NeedTable(tag.id, sprop, alloc);
        if !ok {
          return Some(None);
        }
        Overwrite(tag.id, sprop);
        return None;
    }

    /** Finds or creates the child of the last property with this label. */
    method Append(tag: Label) returns (child: Tree)
      requires V().Valid() && !middleDelete && V().Search(tag.id) == None
      modifies `lastProp, `table
      ensures V().Valid() && child == Node(tag, old(lastProp)) && lastProp == child && V().Has(child)
      ensures V().Contents() == old(V().Contents()) + [tag] && (table.Some? <==> old(table.Some?))
    {
      child := Node(tag, lastProp);
      ghost var v := V();
      AppendedIsValid(v, child);
      AppendedContents(v, child);
      if table.Some? {
        table := Some(table.value[tag.id := child]);
      }
      lastProp := child;
    }
  }

  const HASH_THRESHOLD: nat := 6

  /** t is in the scope under this label. */
  predicate Named(v: View, t: Tree, tag: Label) {
    t.Node? && t.tag == tag && v.Has(t)
  }

  ghost function AppendedTo(v: View, child: Tree): View
    requires child.Node?
  {
    View(child, if v.table.Some? then Some(v.table.value[child.tag.id := child]) else None, false)
  }

  lemma AppendedIsDense(v: View, child: Tree)
    requires v.Valid() && !v.middleDelete && child.Node? && child.parent == v.last && v.Search(child.tag.id) == None
    ensures DistinctIds(Line(child)) && forall n :: n in Line(child) ==> AppendedTo(v, child).Has(n)
    ensures forall n :: n in Line(v.last) ==> v.Has(n)
  {
    forall n | n in Line(v.last)
      ensures n.tag.id != child.tag.id && v.Has(n)
    {
      ClearFlagMeansDense(v, n);
    }
    LineStep(child);
    AppendDistinct(child);
    forall n | n in Line(child)
      ensures AppendedTo(v, child).Has(n)
    {
      SearchLineFinds(child, n.tag.id);
    }
  }

  lemma AppendedIsValid(v: View, child: Tree)
    requires v.Valid() && !v.middleDelete && child.Node? && child.parent == v.last && v.Search(child.tag.id) == None
    ensures AppendedTo(v, child).Valid() && AppendedTo(v, child).Has(child)
  {
    AppendedIsDense(v, child);
    LineStep(child);
  }

  lemma AppendedContents(v: View, child: Tree)
    requires v.Valid() && !v.middleDelete && child.Node? && child.parent == v.last && v.Search(child.tag.id) == None
    ensures AppendedTo(v, child).Contents() == v.Contents() + [child.tag]
  {
    var v' := AppendedTo(v, child);
    AppendedIsDense(v, child);
    LineStep(child);
    LiveSame(v, v', Line(v.last));
    LiveSnoc(v', Line(v.last), child);
  }

  lemma AppendDistinct(child: Tree)
    requires child.Node? && DistinctIds(Line(child.parent))
    requires forall n :: n in Line(child.parent) ==> n.tag.id != child.tag.id
    ensures DistinctIds(Line(child))
  {
    var nodes := Line(child.parent);
    forall i, j | 0 <= i < j < |Line(child)|
      ensures Line(child)[i].tag.id != Line(child)[j].tag.id
    {
      assert nodes[i] in nodes;
      assert j < |nodes| ==> Line(child)[j] == nodes[j];
    }
  }

  /** The scope has a property of this id under another label. */
  predicate Renames(v: View, tag: Label) {
    match v.Search(tag.id)
    case Some(Node(other, _)) => other != tag
    case _ => false
  }

  /** The scope has an older property of this id, which is not the last one. */
  predicate ReplacesMiddle(v: View, id: Id) {
    v.Search(id).Some? && v.Search(id) != Some(v.last)
  }

  lemma FoundIsNamed(v: View, id: Id)
    requires v.Valid() && v.Search(id).Some?
    ensures v.Search(id).value.Node? && v.Search(id).value.tag.id == id && v.Has(v.Search(id).value)
    ensures v.last.Node?
  {
    if v.table.None? {
      SearchLineFinds(v.last, id);
    }
  }

  lemma BoundForRebuild(v: View)
    requires v.Valid() && v.table.Some?
    ensures var nodes := Bound(v.table.value, v.last);
            DistinctIds(nodes) && forall n :: n in nodes ==> n.tag.id in v.table.value
  {
    BoundDistinct(v.table.value, v.last);
    BoundMembers(v.table.value, v.last);
  }

  lemma BoundMapsChain(v: View, nodes: seq<Tree>, m: map<Id, Tree>)
    requires v.Valid() && v.table.Some? && nodes == Bound(v.table.value, v.last) && m.Keys == v.table.value.Keys
    requires forall n :: n in nodes ==> n.tag.id in m
    requires forall k :: 0 <= k < |nodes| ==> m[nodes[k].tag.id] == Chain(nodes[..k + 1])
    ensures MapsChain(m, nodes)
  {
    KeysAreBound(v, nodes);
  }

  lemma Rebuilt(v: View, nodes: seq<Tree>, m: map<Id, Tree>)
    requires v.Valid() && v.table.Some? && nodes == Bound(v.table.value, v.last)
    requires DistinctIds(nodes) && MapsChain(m, nodes)
    ensures var v' := View(Chain(nodes), Some(m), false);
            v'.Valid() && v'.Contents() == v.Contents()
  {
    BoundIsLive(v);
    ForkedIsValid(m, nodes);
    ForkedContents(m, nodes);
  }

  lemma KeysAreBound(v: View, nodes: seq<Tree>)
    requires v.Valid() && v.table.Some? && nodes == Bound(v.table.value, v.last)
    ensures forall id :: id in v.table.value ==> exists i :: 0 <= i < |nodes| && nodes[i].tag.id == id
  {
    BoundMembers(v.table.value, v.last);
    forall id | id in v.table.value
      ensures exists i :: 0 <= i < |nodes| && nodes[i].tag.id == id
    {
      assert v.table.value[id] in nodes;
    }
  }
}
