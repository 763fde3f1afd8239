/**
 JS_NewPropertyIterator and JS_NextProperty (jsapi.c): a cursor that walks up the property tree
 while the scope may change under it.
 */
module PropertyIterator {
  import opened Options
  import opened PropertyTree
  import opened Sequences

  /** The test of JS_NextProperty; the scope is only asked when the flag says it must be. */
  predicate Passes(v: View, n: Tree) {
    n.Node? && n.tag.enumerable && !n.tag.alias && (!v.middleDelete || v.Has(n))
  }

  /** The first node at or above t that passes. */
  function NextNode(v: View, t: Tree): Tree {
    if t == Root || Passes(v, t) then t else NextNode(v, t.parent)
  }

  /** index is negative for a native object, and the number of ids left otherwise. */
  class Iterator {
    var cursor: Tree
    var ida: seq<Id>
    var index: int

    /** A native object is iterated only if it owns its scope. */
    constructor Native(scope: Scope, owns: bool)
      ensures index < 0 && cursor == if owns then scope.lastProp else Root
    {
      cursor, ida, index := if owns then scope.lastProp else Root, [], -1;
    }

    constructor NonNative(ids: seq<Id>)
      ensures ida == ids && index == |ids|
    {
      cursor, ida, index := Root, ids, |ids|;
    }

    /** None is JSVAL_VOID. */
    method Next(scope: Scope) returns (r: Option<Id>)
      requires index <= |ida|
      modifies this
      ensures ida == old(ida) && index <= |ida|
      ensures old(index) < 0 ==> index == old(index)
      ensures old(index) < 0 ==> (match NextNode(scope.V(), old(cursor))
                                  case Root => r == None && cursor == old(cursor)
                                  case Node(tag, parent) => r == Some(tag.id) && cursor == parent)
      ensures old(index) == 0 ==> r == None && index == 0
      ensures old(index) > 0 ==> index == old(index) - 1 && r == Some(ida[index]) && cursor == old(cursor)
    {
      if index < 0 {
        var sprop := cursor;
        while sprop.Node? && (!sprop.tag.enumerable || sprop.tag.alias ||
                              (scope.middleDelete && !scope.V().Has(sprop)))
          invariant NextNode(scope.V(), sprop) == NextNode(scope.V(), cursor)
          invariant cursor == old(cursor) && index == old(index) && ida == old(ida)
          decreases sprop
        {
          sprop := sprop.parent;
        }
        if sprop == Root {
          r := None;
        } else {
          cursor := sprop.parent;
          r := Some(sprop.tag.id);
        }
      } else if index == 0 {
        r := None;
      } else {
        index := index - 1;
        r := Some(ida[index]);
      }
    }
  }

  ghost predicate Visible(tag: Label) {
    tag.enumerable && !tag.alias
  }

  ghost predicate OnLine(v: View, t: Tree) {
    t == Root || t in Line(v.last)
  }

  /**
   What is returned is in the scope exactly when the scope was asked or the node is still on its
   line.
   */
  lemma {:induction false} ReturnedIsLive(v: View, t: Tree)
    requires v.Valid()
    ensures var n := NextNode(v, t);
            n != Root ==> (v.Has(n) <==> v.middleDelete || n in Line(v.last))
    ensures OnLine(v, t) ==> OnLine(v, NextNode(v, t))
  {
    if t != Root && !Passes(v, t) {
      if OnLine(v, t) {
        LineNodes(v.last, t);
      }
      ReturnedIsLive(v, t.parent);
    } else if t != Root && !v.middleDelete {
      ClearFlagMeansDense(v, t);
    }
  }

  lemma {:induction false} HasIsListed(v: View, t: Tree, n: Tree)
    requires n in Line(t) && v.Has(n)
    ensures n.tag in v.Live(Line(t))
  {
    LineStep(t);
    LiveSnoc(v, Line(t.parent), t);
    if n != t {
      HasIsListed(v, t.parent, n);
    }
  }

  lemma {:induction false} WithoutHasNone(tags: seq<Label>, id: Id)
    ensures forall tag :: tag in Without(tags, id) ==> tag in tags && tag.id != id
  {
    if tags != [] {
      WithoutHasNone(tags[..|tags| - 1], id);
    }
  }

  // ----- Middle deletes between calls -----

  /** What happens to an iterated scope: a property is deleted, or JS_NextProperty is called. */
  datatype Event = Delete(after: View, id: Id) | Call

  /** Every delete keeps the last property, as middle deletes do. */
  ghost predicate Fits(v: View, events: seq<Event>)
    decreases |events|
  {
    events == [] ||
    match events[0]
    case Call => Fits(v, events[1..])
    case Delete(after, id) =>
      after.Valid() && after.last == v.last && after.Contents() == Without(v.Contents(), id)
      && Fits(after, events[1..])
  }

  /** What the calls return, void left out, when the cursor starts at t. */
  ghost function Returned(v: View, t: Tree, events: seq<Event>): seq<Id>
    decreases |events|
  {
    if events == [] then []
    else match events[0]
      case Delete(after, _) => Returned(after, t, events[1..])
      case Call =>
        var n := NextNode(v, t);
        if n == Root then Returned(v, t, events[1..]) else [n.tag.id] + Returned(v, n.parent, events[1..])
  }

  ghost function FinalView(v: View, events: seq<Event>): View
    decreases |events|
  {
    if events == [] then v
    else match events[0]
      case Delete(after, _) => FinalView(after, events[1..])
      case Call => FinalView(v, events[1..])
  }

  /** Where the cursor is in the end; a void call leaves it alone. */
  ghost function FinalCursor(v: View, t: Tree, events: seq<Event>): Tree
    decreases |events|
  {
    if events == [] then t
    else match events[0]
      case Delete(after, _) => FinalCursor(after, t, events[1..])
      case Call => FinalCursor(v, if NextNode(v, t) == Root then t else NextNode(v, t).parent, events[1..])
  }

  lemma {:induction false} NextIsAbove(v: View, t: Tree)
    ensures var n := NextNode(v, t);
            n != Root ==> n in Line(t) && Passes(v, n)
  {
    if t != Root && !Passes(v, t) {
      LineStep(t);
      NextIsAbove(v, t.parent);
    }
  }

  /** The node a call finds is in the scope at that moment, visible, and on the line it started on. */
  lemma NextIsInScope(v: View, t: Tree)
    requires v.Valid() && OnLine(v, t)
    ensures var n := NextNode(v, t);
            n != Root ==> n in Line(t) && n.tag in v.Contents() && Visible(n.tag) && OnLine(v, n.parent)
  {
    ReturnedIsLive(v, t);
    NextIsAbove(v, t);
    var n := NextNode(v, t);
    if n != Root {
      HasIsListed(v, v.last, n);
      LineNodes(v.last, n);
    }
  }

  /** An id that is not in the scope stays unreturned, whatever else is deleted between calls. */
  lemma {:induction false} DeletedIsNotReturned(v: View, t: Tree, events: seq<Event>, id: Id)
    requires v.Valid() && OnLine(v, t) && Fits(v, events)
    requires forall tag :: tag in v.Contents() ==> tag.id != id
    ensures id !in Returned(v, t, events)
    decreases |events|
  {
    if events != [] {
      match events[0]
      case Delete(after, x) =>
        WithoutHasNone(v.Contents(), x);
        DeletedIsNotReturned(after, t, events[1..], id);
      case Call =>
        NextIsInScope(v, t);
        var n := NextNode(v, t);
        DeletedIsNotReturned(v, if n == Root then t else n.parent, events[1..], id);
    }
  }

  /** So an id deleted between two calls is returned by no later one. */
  lemma DeleteIsSeen(v: View, t: Tree, after: View, id: Id, later: seq<Event>)
    requires v.Valid() && OnLine(v, t) && Fits(v, [Delete(after, id)] + later)
    ensures id !in Returned(after, t, later)
  {
    assert ([Delete(after, id)] + later)[1..] == later;
    WithoutHasNone(v.Contents(), id);
    DeletedIsNotReturned(after, t, later, id);
  }

  ghost predicate Named(nodes: seq<Tree>, id: Id) {
    exists n :: n in nodes && n.Node? && n.tag.id == id
  }

  /** No id is returned twice, because each call leaves the cursor above the node it found. */
  lemma {:induction false} ReturnedOnce(v: View, t: Tree, events: seq<Event>)
    requires v.Valid() && OnLine(v, t) && Fits(v, events)
    ensures Distinct(Returned(v, t, events))
    ensures forall id :: id in Returned(v, t, events) ==> Named(Line(t), id)
    decreases |events|
  {
    if events != [] {
      match events[0]
      case Delete(after, _) =>
        ReturnedOnce(after, t, events[1..]);
      case Call =>
        NextIsInScope(v, t);
        var n := NextNode(v, t);
        if n == Root {
          ReturnedOnce(v, t, events[1..]);
        } else {
          ReturnedOnce(v, n.parent, events[1..]);
          NamesAbove(v, t, n, Returned(v, n.parent, events[1..]));
        }
    }
  }

  lemma NamesAbove(v: View, t: Tree, n: Tree, ids: seq<Id>)
    requires v.Valid() && OnLine(v, t) && n in Line(t) && n.Node?
    requires Distinct(ids) && forall id :: id in ids ==> Named(Line(n.parent), id)
    ensures Distinct([n.tag.id] + ids) && forall id :: id in [n.tag.id] + ids ==> Named(Line(t), id)
  {
    LineOnLine(v, t, n);
    forall id | id in ids
      ensures id != n.tag.id && Named(Line(t), id)
    {
      var x :| x in Line(n.parent) && x.Node? && x.tag.id == id;
    }
    var all := [n.tag.id] + ids;
    forall i, j | 0 <= i < j < |all|
      ensures all[i] != all[j]
    {
      assert all[j] == ids[j - 1] && ids[j - 1] in ids;
    }
  }

  /** The nodes above n are on t's line and have other ids than n. */
  lemma LineOnLine(v: View, t: Tree, n: Tree)
    requires v.Valid() && OnLine(v, t) && n in Line(t)
    ensures n.Node? && forall x :: x in Line(n.parent) ==> x in Line(t) && x.Node? && x.tag.id != n.tag.id
  {
    LineNodes(t, n);
    LineOfAncestor(t, n);
    LineOfAncestor(v.last, t);
    LineStep(n);
    assert DistinctIds(Line(n)) by {
      assert forall i :: 0 <= i < |Line(n)| ==> Line(n)[i] == Line(v.last)[i];
    }
    PrefixDistinct(n);
  }

  /** A visible property that is never deleted is returned by the time a call would return void. */
  lemma {:induction false} NothingIsSkipped(v: View, t: Tree, events: seq<Event>, n: Tree)
    requires v.Valid() && OnLine(v, t) && Fits(v, events)
    requires n in Line(t) && n.Node? && Visible(n.tag)
    requires forall i :: 0 <= i < |events| && events[i].Delete? ==> events[i].id != n.tag.id
    requires v.Has(n)
    requires NextNode(FinalView(v, events), FinalCursor(v, t, events)) == Root
    ensures n.tag.id in Returned(v, t, events)
    decreases |events|
  {
    NextReaches(v, t, n);
    if events != [] {
      match events[0]
      case Delete(after, id) =>
        KeptByDelete(v, after, id, n);
        NothingIsSkipped(after, t, events[1..], n);
      case Call =>
        var m := NextNode(v, t);
        NextIsInScope(v, t);
        if m != n {
          NothingIsSkipped(v, m.parent, events[1..], n);
        }
    }
  }

  /** A call does not pass over a visible property of the scope. */
  lemma {:induction false} NextReaches(v: View, t: Tree, n: Tree)
    requires n in Line(t) && v.Has(n) && Visible(n.tag)
    ensures NextNode(v, t) == n || (NextNode(v, t).Node? && n in Line(NextNode(v, t).parent))
  {
    LineStep(t);
    if !Passes(v, t) {
      NextReaches(v, t.parent, n);
    }
  }

  lemma KeptByDelete(v: View, after: View, id: Id, n: Tree)
    requires v.Valid() && after.Valid() && after.last == v.last && after.Contents() == Without(v.Contents(), id)
    requires v.Has(n) && n.tag.id != id
    ensures after.Has(n)
  {
    HasIsOnLine(v, n);
    HasIsListed(v, v.last, n);
    WithoutKeeps(v.Contents(), id, n.tag);
    ListedHas(after, after.last, n);
  }

  lemma {:induction false} WithoutKeeps(tags: seq<Label>, id: Id, tag: Label)
    requires tag in tags && tag.id != id
    ensures tag in Without(tags, id)
  {
    if tag in tags[..|tags| - 1] {
      WithoutKeeps(tags[..|tags| - 1], id, tag);
    }
  }

  /** Ids are distinct along a line, so a listed label belongs to that very node. */
  lemma {:induction false} ListedHas(v: View, t: Tree, n: Tree)
    requires DistinctIds(Line(t)) && n in Line(t) && n.tag in v.Live(Line(t))
    ensures v.Has(n)
  {
    LineStep(t);
    PrefixDistinct(t);
    LiveSnoc(v, Line(t.parent), t);
    if n != t {
      ListedHas(v, t.parent, n);
    } else if !v.Has(n) {
      LiveFromNodes(v, t.parent, n.tag);
    }
  }

  lemma {:induction false} LiveFromNodes(v: View, t: Tree, tag: Label)
    requires tag in v.Live(Line(t))
    ensures exists n :: n in Line(t) && n.Node? && n.tag == tag
  {
    if t.Node? {
      LineStep(t);
      LiveSnoc(v, Line(t.parent), t);
      if tag in v.Live(Line(t.parent)) {
        LiveFromNodes(v, t.parent, tag);
      }
    }
  }

  /** Deleting the very property the cursor is at, when it is the last one, goes unnoticed. */
  lemma LastDeleteIsMissed(v: View, id: Id)
    requires v.Valid() && !v.middleDelete && Passes(v, v.last) && v.last.tag.id == id
    ensures var v' := View(v.last.parent, Minus(v.table, id), false);
            v'.Valid() && v'.Contents() == Without(v.Contents(), id)
            && NextNode(v', v.last) == v.last && !v'.Has(v.last)
  {
    RemovedLast(v, id, v.table);
  }

  // ----- Deletes of the last property between calls -----

  /** The first node at or above t that a call may return, whatever the scope. */
  function FirstVisible(t: Tree): Tree {
    if t == Root || (t.tag.enumerable && !t.tag.alias) then t else FirstVisible(t.parent)
  }

  lemma {:induction false} FirstVisibleIsNext(v: View, t: Tree)
    ensures !v.middleDelete ==> NextNode(v, t) == FirstVisible(t)
    ensures FirstVisible(t) == Root || FirstVisible(t) in Line(t)
  {
    if t.Node? {
      FirstVisibleIsNext(v, t.parent);
    }
  }

  /**
   A call returns a property that is not in the scope exactly when the flag does not make it ask and
   the first visible node at or above the cursor is off the line.
   */
  lemma StaleExactly(v: View, t: Tree)
    requires v.Valid()
    ensures var n, f := NextNode(v, t), FirstVisible(t);
            n != Root && !v.Has(n) <==> !v.middleDelete && f != Root && f !in Line(v.last)
  {
    ReturnedIsLive(v, t);
    FirstVisibleIsNext(v, t);
  }

  /** As Fits, for deletes of any property. */
  ghost predicate Follows(v: View, events: seq<Event>)
    decreases |events|
  {
    events == [] ||
    match events[0]
    case Call => Follows(v, events[1..])
    case Delete(after, id) => Removes(v, after, id) && Follows(after, events[1..])
  }

  /** Each delete is of what is then the last property, or of none. */
  ghost predicate DeletesLast(v: View, events: seq<Event>)
    decreases |events|
  {
    events == [] ||
    match events[0]
    case Call => DeletesLast(v, events[1..])
    case Delete(after, id) => (v.Search(id) == None || v.Search(id) == Some(v.last)) && DeletesLast(after, events[1..])
  }

  ghost function Deleted(events: seq<Event>): set<Id> {
    if events == [] then {} else (if events[0].Delete? then {events[0].id} else {}) + Deleted(events[1..])
  }

  lemma {:induction false} FlagInRun(v: View, events: seq<Event>)
    requires v.Valid() && Follows(v, events)
    ensures var w := FinalView(v, events);
            w.Valid() && (w.middleDelete <==> v.middleDelete || !DeletesLast(v, events))
    decreases |events|
  {
    if events != [] {
      match events[0]
      case Delete(after, id) => FlagInRun(after, events[1..]);
      case Call => FlagInRun(v, events[1..]);
    }
  }

  /** While the flag stays clear, the line loses what is deleted and nothing else. */
  lemma {:induction false} LineInRun(v: View, events: seq<Event>)
    requires v.Valid() && Follows(v, events) && !v.middleDelete && DeletesLast(v, events)
    ensures var w := FinalView(v, events);
            forall n :: n in Line(w.last) <==> n in Line(v.last) && n.Node? && n.tag.id !in Deleted(events)
    decreases |events|
  {
    if events == [] {
      PrefixOfLine(v);
    } else {
      match events[0]
      case Delete(after, id) =>
        LineInRun(after, events[1..]);
        LineAfterDelete(v, after, id);
      case Call => LineInRun(v, events[1..]);
    }
  }

  lemma PrefixOfLine(v: View)
    requires v.Valid()
    ensures forall n :: n in Line(v.last) ==> n.Node?
  {
  }

  lemma LineAfterDelete(v: View, after: View, id: Id)
    requires v.Valid() && Removes(v, after, id) && !v.middleDelete
    requires v.Search(id) == None || v.Search(id) == Some(v.last)
    ensures forall n :: n in Line(after.last) <==> n in Line(v.last) && n.Node? && n.tag.id != id
  {
    if v.Search(id).Some? {
      FoundIsNamed(v, id);
      LineStep(v.last);
      PrefixDistinct(v.last);
    } else {
      forall n | n in Line(v.last)
        ensures n.Node? && n.tag.id != id
      {
        ClearFlagMeansDense(v, n);
      }
    }
  }

  /** The cursor only moves up. */
  lemma {:induction false} CursorRises(v: View, t: Tree, events: seq<Event>)
    ensures var c := FinalCursor(v, t, events);
            c == Root || c in Line(t)
    decreases |events|
  {
    if events != [] {
      match events[0]
      case Delete(after, id) => CursorRises(after, t, events[1..]);
      case Call =>
        var n := NextNode(v, t);
        NextIsAbove(v, t);
        if n == Root {
          CursorRises(v, t, events[1..]);
        } else {
          CursorRises(v, n.parent, events[1..]);
          LineOfAncestor(t, n);
          LineStep(n);
        }
    } else if t.Node? {
      LineStep(t);
    }
  }

  /**
   After any deletes and calls, the next call returns a property that is no longer in the scope if
   and only if there was no delete from the middle, and the first visible property at or above the
   cursor is among the deleted ones.
   */
  lemma StaleInRun(v: View, t: Tree, events: seq<Event>)
    requires v.Valid() && OnLine(v, t) && Follows(v, events)
    ensures var w, c := FinalView(v, events), FinalCursor(v, t, events);
            var n, f := NextNode(w, c), FirstVisible(c);
            n != Root && !w.Has(n) <==>
              !v.middleDelete && DeletesLast(v, events) && f != Root && f.tag.id in Deleted(events)
  {
    var w, c := FinalView(v, events), FinalCursor(v, t, events);
    FlagInRun(v, events);
    StaleExactly(w, c);
    CursorRises(v, t, events);
    FirstVisibleIsNext(w, c);
    var f := FirstVisible(c);
    if f != Root && !w.middleDelete {
      LineOfAncestor(t, c);
      LineOfAncestor(v.last, t);
      LineInRun(v, events);
    }
  }

  // ----- A full iteration -----

  /** What repeated calls return while the scope stays as it is, before the first void. */
  ghost function Iterate(v: View, t: Tree): seq<Id>
    decreases t
  {
    var n := NextNode(v, t);
    NextIsSmaller(v, t);
    if n == Root then [] else [n.tag.id] + Iterate(v, n.parent)
  }

  lemma {:induction false} NextIsSmaller(v: View, t: Tree)
    ensures NextNode(v, t) == t || (t != Root && NextNode(v, t) == NextNode(v, t.parent))
    ensures NextNode(v, t).Node? ==> t.Node? && (NextNode(v, t).parent < t)
    decreases t
  {
    if t.Node? && !Passes(v, t) {
      NextIsSmaller(v, t.parent);
    }
  }

  /** The ids of the visible labels, last defined first. */
  ghost function NewestFirst(tags: seq<Label>): seq<Id> {
    if tags == [] then []
    else (if Visible(tags[|tags| - 1]) then [tags[|tags| - 1].id] else []) + NewestFirst(tags[..|tags| - 1])
  }

  lemma NewestFirstSnoc(tags: seq<Label>, tag: Label)
    ensures NewestFirst(tags + [tag]) == (if Visible(tag) then [tag.id] else []) + NewestFirst(tags)
  {
    assert (tags + [tag])[..|tags|] == tags;
  }

  lemma IterateStep(v: View, t: Tree)
    requires t.Node?
    ensures Iterate(v, t) == (if Passes(v, t) then [t.tag.id] else []) + Iterate(v, t.parent)
  {
    if !Passes(v, t) {
      assert NextNode(v, t) == NextNode(v, t.parent);
      assert Iterate(v, t) == Iterate(v, t.parent);
    }
  }

  lemma PassesIsLive(v: View, t: Tree)
    requires v.Valid() && OnLine(v, t) && t.Node?
    ensures Passes(v, t) <==> Visible(t.tag) && v.Has(t)
  {
    if !v.middleDelete {
      ClearFlagMeansDense(v, t);
    }
  }

  lemma {:induction false} IterateFrom(v: View, t: Tree)
    requires v.Valid() && OnLine(v, t)
    ensures Iterate(v, t) == NewestFirst(v.Live(Line(t)))
    decreases t
  {
    if t.Node? {
      LineNodes(v.last, t);
      IterateFrom(v, t.parent);
      IterateStep(v, t);
      PassesIsLive(v, t);
      LiveSnoc(v, Line(t.parent), t);
      NewestFirstSnoc(v.Live(Line(t.parent)), t.tag);
      if !v.Has(t) {
        assert v.Live(Line(t)) == v.Live(Line(t.parent));
      }
    }
  }

  /**
   An unchanging scope: the calls return the enumerable, unaliased ids that are in the scope, last
   defined first, each once.
   */
  lemma IterationIsExact(v: View)
    requires v.Valid()
    ensures Iterate(v, v.last) == NewestFirst(v.Contents())
    ensures DistinctTags(v.Contents())
  {
    IterateFrom(v, v.last);
    ContentsDistinct(v, v.last);
  }

  ghost predicate DistinctTags(tags: seq<Label>) {
    forall i, j :: 0 <= i < j < |tags| ==> tags[i].id != tags[j].id
  }

  lemma DistinctSnoc(tags: seq<Label>, tag: Label, present: bool)
    requires DistinctTags(tags) && forall x :: x in tags ==> x.id != tag.id
    ensures DistinctTags(tags + if present then [tag] else [])
  {
  }

  /** No property further up has the id of t. */
  lemma NotAbove(v: View, t: Tree)
    requires t.Node? && DistinctIds(Line(t))
    ensures forall x :: x in v.Live(Line(t.parent)) ==> x.id != t.tag.id
  {
    PrefixDistinct(t);
    forall x | x in v.Live(Line(t.parent))
      ensures x.id != t.tag.id
    {
      LiveFromNodes(v, t.parent, x);
    }
  }

  lemma {:induction false} ContentsDistinct(v: View, t: Tree)
    requires DistinctIds(Line(t))
    ensures DistinctTags(v.Live(Line(t)))
  {
    if t.Node? {
      PrefixDistinct(t);
      ContentsDistinct(v, t.parent);
      LiveSnoc(v, Line(t.parent), t);
      var live := v.Live(Line(t.parent));
      NotAbove(v, t);
      DistinctSnoc(live, t.tag, v.Has(t));
    }
  }

  // ----- What each call returns -----

  /** The results of the calls one by one; None is void. */
  ghost function Answers(v: View, t: Tree, events: seq<Event>): seq<Option<Id>>
    decreases |events|
  {
    if events == [] then []
    else match events[0]
      case Delete(after, _) => Answers(after, t, events[1..])
      case Call =>
        var n := NextNode(v, t);
        if n == Root then [None] + Answers(v, t, events[1..]) else [Some(n.tag.id)] + Answers(v, n.parent, events[1..])
  }

  ghost function Somes(answers: seq<Option<Id>>): seq<Id> {
    if answers == [] then []
    else (if answers[0].Some? then [answers[0].value] else []) + Somes(answers[1..])
  }

  lemma {:induction false} ReturnedAnswers(v: View, t: Tree, events: seq<Event>)
    ensures Returned(v, t, events) == Somes(Answers(v, t, events))
    decreases |events|
  {
    if events != [] {
      match events[0]
      case Delete(after, _) => ReturnedAnswers(after, t, events[1..]);
      case Call =>
        var n := NextNode(v, t);
        var rest := Answers(v, if n == Root then t else n.parent, events[1..]);
        ReturnedAnswers(v, if n == Root then t else n.parent, events[1..]);
        assert Answers(v, t, events)[1..] == rest;
    }
  }

  /** A call that would return void still does so after a delete. */
  lemma VoidAfterDelete(v: View, t: Tree, after: View, id: Id)
    requires v.Valid() && OnLine(v, t) && after.Valid() && after.last == v.last
    requires after.Contents() == Without(v.Contents(), id) && NextNode(v, t) == Root
    ensures NextNode(after, t) == Root
  {
    var n := NextNode(after, t);
    if n != Root {
      NextIsInScope(after, t);
      WithoutHasNone(v.Contents(), id);
      LineNodes(t, n);
      LineOfAncestor(v.last, t);
      assert n in Line(v.last);
      ListedHas(v, v.last, n);
      NextReaches(v, t, n);
    }
  }

  lemma {:induction false} OnlyVoid(v: View, t: Tree, events: seq<Event>)
    requires v.Valid() && OnLine(v, t) && Fits(v, events) && NextNode(v, t) == Root
    ensures forall k :: 0 <= k < |Answers(v, t, events)| ==> Answers(v, t, events)[k] == None
    decreases |events|
  {
    if events != [] {
      match events[0]
      case Delete(after, id) =>
        VoidAfterDelete(v, t, after, id);
        OnlyVoid(after, t, events[1..]);
      case Call =>
        OnlyVoid(v, t, events[1..]);
    }
  }

  /** After the first void every later call returns void, in any interleaving with middle deletes. */
  lemma {:induction false} VoidForever(v: View, t: Tree, events: seq<Event>, j: nat, k: nat)
    requires v.Valid() && OnLine(v, t) && Fits(v, events) && j < k < |Answers(v, t, events)|
    ensures Answers(v, t, events)[j] == None ==> Answers(v, t, events)[k] == None
    decreases |events|
  {
    match events[0]
    case Delete(after, id) => VoidForever(after, t, events[1..], j, k);
    case Call =>
      var n := NextNode(v, t);
      if n == Root {
        OnlyVoid(v, t, events);
      } else if j > 0 {
        NextIsInScope(v, t);
        VoidForever(v, n.parent, events[1..], j - 1, k - 1);
      }
  }

  ghost function Calls(n: nat): seq<Event> {
    seq(n, _ => Call)
  }

  lemma {:induction false} CallsIterate(v: View, t: Tree, n: nat, k: nat)
    requires k < n
    ensures var all, ids := Answers(v, t, Calls(n)), Iterate(v, t);
            |all| == n && all[k] == if k < |ids| then Some(ids[k]) else None
    decreases n
  {
    assert Calls(n)[1..] == Calls(n - 1);
    var m := NextNode(v, t);
    if n == 1 {
      assert Calls(n)[1..] == [];
    } else {
      CallsIterate(v, if m == Root then t else m.parent, n - 1, if k == 0 then 0 else k - 1);
    }
  }

  /**
   Any number of calls on an unchanging scope: they return the visible ids in it, last defined first,
   one by one, and from then on void.
   */
  lemma CallsAreExact(v: View, n: nat, k: nat)
    requires v.Valid() && k < n
    ensures var all, ids := Answers(v, v.last, Calls(n)), NewestFirst(v.Contents());
            |all| == n && all[k] == if k < |ids| then Some(ids[k]) else None
  {
    IterationIsExact(v);
    CallsIterate(v, v.last, n, k);
  }
}
