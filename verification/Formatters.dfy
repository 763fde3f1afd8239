/**
 The argument formatter table of a context (jsapi.c): a linked list of formats, longest first,
 in which the first format that is a prefix of the input is the longest one.
 */
module Formatters {
  import opened Options
  import opened Sequences

  /** The address of a JSArgumentFormatter. */
  type Formatter = nat

  datatype Entry = Entry(format: string, formatter: Formatter)

  // ----- The table as a value -----

  /** Longest first, and no format twice. */
  ghost predicate Ordered(entries: seq<Entry>) {
    forall i, j :: 0 <= i < j < |entries| ==>
      |entries[i].format| >= |entries[j].format| && entries[i].format != entries[j].format
  }

  ghost function AsMap(entries: seq<Entry>): map<string, Formatter> {
    if entries == [] then map[] else AsMap(entries[1..])[entries[0].format := entries[0].formatter]
  }

  ghost function Add(entries: seq<Entry>, e: Entry): seq<Entry> {
    if entries == [] || |entries[0].format| < |e.format| then [e] + entries
    else if entries[0].format == e.format then [e] + entries[1..]
    else [entries[0]] + Add(entries[1..], e)
  }

  ghost function Remove(entries: seq<Entry>, format: string): seq<Entry> {
    if entries == [] then []
    else if entries[0].format == format then entries[1..]
    else [entries[0]] + Remove(entries[1..], format)
  }

  /** The entry TryArgumentFormatter calls for the input s. */
  ghost function Dispatch(entries: seq<Entry>, s: string): Option<Entry> {
    if entries == [] then None
    else if entries[0].format <= s then Some(entries[0])
    else Dispatch(entries[1..], s)
  }

  ghost predicate Registered(entries: seq<Entry>, format: string) {
    exists e :: e in entries && e.format == format
  }

  lemma {:induction false} MapLists(entries: seq<Entry>)
    requires Ordered(entries)
    ensures forall f :: f in AsMap(entries) <==> Registered(entries, f)
    ensures forall e :: e in entries ==> e.format in AsMap(entries) && AsMap(entries)[e.format] == e.formatter
  {
    if entries != [] {
      var rest := entries[1..];
      MapLists(rest);
      assert entries == [entries[0]] + rest;
      forall f
        ensures f in AsMap(entries) <==> Registered(entries, f)
      {
        assert Registered(entries, f) <==> f == entries[0].format || Registered(rest, f);
      }
    }
  }

  lemma UnconsOrdered(entries: seq<Entry>)
    requires Ordered(entries) && entries != []
    ensures Ordered(entries[1..])
    ensures forall x :: x in entries[1..] ==> |x.format| <= |entries[0].format| && x.format != entries[0].format
  {
  }

  lemma ConsMap(e: Entry, rest: seq<Entry>)
    ensures AsMap([e] + rest) == AsMap(rest)[e.format := e.formatter]
  {
    assert ([e] + rest)[1..] == rest;
  }

  lemma {:induction false} AddOrdered(entries: seq<Entry>, e: Entry)
    requires Ordered(entries)
    ensures Ordered(Add(entries, e))
    ensures forall x :: x in Add(entries, e) ==> x == e || (x in entries && x.format != e.format)
  {
    if entries != [] {
      UnconsOrdered(entries);
      if |entries[0].format| >= |e.format| && entries[0].format != e.format {
        AddOrdered(entries[1..], e);
      }
    }
  }

  lemma {:induction false} AddUpdates(entries: seq<Entry>, e: Entry)
    ensures AsMap(Add(entries, e)) == AsMap(entries)[e.format := e.formatter]
  {
    if entries == [] || |entries[0].format| < |e.format| {
      ConsMap(e, entries);
    } else if entries[0].format == e.format {
      ConsMap(e, entries[1..]);
    } else {
      AddUpdates(entries[1..], e);
      ConsMap(entries[0], Add(entries[1..], e));
    }
  }

  /** Adding keeps the list ordered and is an update of the map. */
  lemma AddRefines(entries: seq<Entry>, e: Entry)
    requires Ordered(entries)
    ensures Ordered(Add(entries, e)) && AsMap(Add(entries, e)) == AsMap(entries)[e.format := e.formatter]
  {
    AddOrdered(entries, e);
    AddUpdates(entries, e);
  }

  lemma {:induction false} RemoveOrdered(entries: seq<Entry>, format: string)
    requires Ordered(entries)
    ensures Ordered(Remove(entries, format))
    ensures forall x :: x in Remove(entries, format) ==> x in entries
  {
    if entries != [] {
      UnconsOrdered(entries);
      if entries[0].format != format {
        RemoveOrdered(entries[1..], format);
      }
    }
  }

  lemma {:induction false} RemoveRefines(entries: seq<Entry>, format: string)
    requires Ordered(entries)
    ensures Ordered(Remove(entries, format))
    ensures AsMap(Remove(entries, format)) == AsMap(entries) - {format}
  {
    RemoveOrdered(entries, format);
    if entries != [] {
      UnconsOrdered(entries);
      if entries[0].format == format {
        MapLists(entries[1..]);
        MapMinusUpdate(AsMap(entries[1..]), format, format, entries[0].formatter);
      } else {
        RemoveRefines(entries[1..], format);
        ConsMap(entries[0], Remove(entries[1..], format));
        MapMinusUpdate(AsMap(entries[1..]), format, entries[0].format, entries[0].formatter);
      }
    }
  }

  lemma MapMinusUpdate(m: map<string, Formatter>, f: string, g: string, v: Formatter)
    ensures f != g ==> m[g := v] - {f} == (m - {f})[g := v]
    ensures f == g && f !in m ==> m[g := v] - {f} == m
  {
  }

  /** Dispatch takes the longest registered prefix of the input, and fails when there is none. */
  lemma {:induction false} DispatchIsLongestPrefix(entries: seq<Entry>, s: string)
    requires Ordered(entries)
    ensures var m := AsMap(entries);
            match Dispatch(entries, s)
            case None => forall f :: f in m ==> !(f <= s)
            case Some(e) => e.format in m && m[e.format] == e.formatter && e.format <= s
                            && forall f :: f in m && f <= s ==> f <= e.format
  {
    if entries != [] {
      MapLists(entries);
      if entries[0].format <= s {
        forall f | f in AsMap(entries) && f <= s
          ensures f <= entries[0].format
        {
          assert |f| <= |entries[0].format|;
          assert forall k :: 0 <= k < |f| ==> f[k] == s[k] == entries[0].format[k];
        }
      } else {
        UnconsOrdered(entries);
        DispatchIsLongestPrefix(entries[1..], s);
        assert AsMap(entries) == AsMap(entries[1..])[entries[0].format := entries[0].formatter];
      }
    }
  }

  // ----- Every run of adds and removes -----

  /** memory says whether a new entry can be had from the heap. */
  datatype Op = Register(e: Entry, memory: bool) | Unregister(format: string)

  ghost function Apply(entries: seq<Entry>, op: Op): seq<Entry> {
    match op
    case Unregister(format) => Remove(entries, format)
    case Register(e, memory) => if memory || Registered(entries, e.format) then Add(entries, e) else entries
  }

  ghost function ApplyToMap(m: map<string, Formatter>, op: Op): map<string, Formatter> {
    match op
    case Unregister(format) => m - {format}
    case Register(e, memory) => if memory || e.format in m then m[e.format := e.formatter] else m
  }

  ghost function TableAfter(ops: seq<Op>): seq<Entry> {
    if ops == [] then [] else Apply(TableAfter(ops[..|ops| - 1]), ops[|ops| - 1])
  }

  ghost function MapAfter(ops: seq<Op>): map<string, Formatter> {
    if ops == [] then map[] else ApplyToMap(MapAfter(ops[..|ops| - 1]), ops[|ops| - 1])
  }

  /**
   After any history the list is ordered and stands for the map the history builds, so dispatch
   takes the longest format the history leaves registered.
   */
  lemma {:induction false} HistoryRefinesMap(ops: seq<Op>)
    ensures Ordered(TableAfter(ops)) && AsMap(TableAfter(ops)) == MapAfter(ops)
  {
    if ops != [] {
      var before, op := ops[..|ops| - 1], ops[|ops| - 1];
      HistoryRefinesMap(before);
      MapLists(TableAfter(before));
      match op
      case Unregister(format) => RemoveRefines(TableAfter(before), format);
      case Register(e, _) => AddRefines(TableAfter(before), e);
    }
  }

  lemma DispatchAfterHistory(ops: seq<Op>, s: string)
    ensures var m := MapAfter(ops);
            match Dispatch(TableAfter(ops), s)
            case None => forall f :: f in m ==> !(f <= s)
            case Some(e) => e.format in m && m[e.format] == e.formatter && e.format <= s
                            && forall f :: f in m && f <= s ==> f <= e.format
  {
    HistoryRefinesMap(ops);
    DispatchIsLongestPrefix(TableAfter(ops), s);
  }

  // ----- The table in memory -----

  class MapEntry {
    const format: string
    var formatter: Formatter
    var next: MapEntry?

    constructor (e: Entry, next: MapEntry?)
      ensures format == e.format && formatter == e.formatter && this.next == next
    {
      format, formatter, this.next := e.format, e.formatter, next;
    }
  }

  /** The node at position i of the list, null at its end. */
  ghost function At(nodes: seq<MapEntry>, i: nat): MapEntry? {
    if i < |nodes| then nodes[i] else null
  }

  /** The nodes are distinct and linked in their order from head. */
  ghost predicate Chained(head: MapEntry?, nodes: seq<MapEntry>)
    reads nodes`next
  {
    && Distinct(nodes) && head == At(nodes, 0)
    && forall i {:trigger nodes[i].next} :: 0 <= i < |nodes| ==> nodes[i].next == At(nodes, i + 1)
  }

  ghost predicate Holds(nodes: seq<MapEntry>, entries: seq<Entry>)
    reads nodes`formatter
  {
    && |entries| == |nodes|
    && forall i :: 0 <= i < |nodes| ==> entries[i] == Entry(nodes[i].format, nodes[i].formatter)
  }

  class Context {
    var argumentFormatMap: MapEntry?
    ghost var nodes: seq<MapEntry>
    /** What the nodes hold. */
    ghost var entries: seq<Entry>

    ghost predicate Linked()
      reads this, nodes`next
    {
      Chained(argumentFormatMap, nodes)
    }

    ghost predicate Valid()
      reads this, nodes
    {
      Linked() && Holds(nodes, entries) && Ordered(entries)
    }

    constructor ()
      ensures Valid() && entries == []
    {
      argumentFormatMap, nodes, entries := null, [], [];
    }

    /** Make node the one at position i, after prev; the list head stands in for a null prev. */
    method Link(prev: MapEntry?, ghost i: nat, node: MapEntry)
      requires Linked() && i <= |nodes| && node !in nodes && node.next == At(nodes, i)
      requires prev == if i == 0 then null else nodes[i - 1]
      modifies this`argumentFormatMap, this`nodes, nodes`next
      ensures Linked() && nodes == old(nodes[..i] + [node] + nodes[i..])
      ensures forall n :: n in nodes ==> n == node || n in old(nodes)
    {
      if prev == null {
        argumentFormatMap := node;
      } else {
        prev.next := node;
      }
      Inserted(nodes, i, node);
      nodes := nodes[..i] + [node] + nodes[i..];
    }

    method Unlink(prev: MapEntry?, ghost i: nat, node: MapEntry)
      requires Linked() && i < |nodes| && node == nodes[i]
      requires prev == if i == 0 then null else nodes[i - 1]
      modifies this`argumentFormatMap, this`nodes, nodes`next
      ensures Linked() && nodes == old(nodes[..i] + nodes[i + 1..])
      ensures forall n :: n in nodes ==> n in old(nodes)
    {
      if prev == null {
        argumentFormatMap := node.next;
      } else {
        prev.next := node.next;
      }
      Deleted(nodes, i);
      nodes := nodes[..i] + nodes[i + 1..];
    }

    /** The walk of the first update: to the first node that is shorter or has the format itself. */
    method FindPlace(format: string)
      returns (prev: MapEntry?, place: MapEntry?, replace: bool, ghost i: nat)
      requires Linked() && Holds(nodes, entries)
      ensures i <= |nodes| && place == At(nodes, i) && prev == if i == 0 then null else nodes[i - 1]
      ensures i == |nodes| || |entries[i].format| < |format| || entries[i].format == format == nodes[i].format
      ensures forall j :: 0 <= j < i ==> |entries[j].format| >= |format| && entries[j].format != format
      ensures replace == (i < |nodes| && entries[i].format == format)
    {
      i := 0;
      prev, place := null, argumentFormatMap;
      while place != null
        invariant 0 <= i <= |nodes| && place == At(nodes, i)
        invariant prev == if i == 0 then null else nodes[i - 1]
        invariant forall j :: 0 <= j < i ==> |entries[j].format| >= |format| && entries[j].format != format
        decreases |nodes| - i
      {
        if |place.format| < |format| {
          return prev, place, false, i;
        }
        if |place.format| == |format| && place.format == format {
          return prev, place, true, i;
        }
        prev, place := place, place.next;
        i := i + 1;
      }
      replace := false;
    }

    method Replace(place: MapEntry, ghost i: nat, e: Entry)
      requires Linked() && Holds(nodes, entries) && i < |nodes| && place == nodes[i] && place.format == e.format
      modifies this`entries, nodes`formatter
      ensures Linked() && Holds(nodes, entries) && entries == old(entries[i := e])
    {
      place.formatter := e.formatter;
      entries := entries[i := e];
    }

    method Insert(prev: MapEntry?, place: MapEntry?, ghost i: nat, e: Entry)
      requires Linked() && Holds(nodes, entries) && i <= |nodes| && place == At(nodes, i)
      requires prev == if i == 0 then null else nodes[i - 1]
      modifies this`argumentFormatMap, this`nodes, this`entries, nodes`next
      ensures Linked() && Holds(nodes, entries) && entries == old(entries[..i] + [e] + entries[i..])
      ensures forall n :: n in nodes ==> n in old(nodes) || fresh(n)
    {
      var node := new MapEntry(e, place);
      Link(prev, i, node);
      entries := entries[..i] + [e] + entries[i..];
    }

    method AddArgumentFormatter(e: Entry, memory: bool) returns (ok: bool)
      requires Valid()
      modifies this, nodes
      ensures Valid()
      ensures ok == (memory || Registered(old(entries), e.format))
      ensures entries == Apply(old(entries), Register(e, memory))
      ensures forall n :: n in nodes ==> n in old(nodes) || fresh(n)
    {
      var prev, place, replace, i := FindPlace(e.format);
      AddShape(entries, e, i);
      if replace {
        Replace(place, i, e);
        ok := true;
      } else if !memory {
        ok := false;
      } else {
        Insert(prev, place, i, e);
        ok := true;
      }
    }

    method Find(format: string) returns (prev: MapEntry?, place: MapEntry?, ghost i: nat)
      requires Linked() && Holds(nodes, entries)
      ensures i <= |nodes| && place == At(nodes, i) && prev == if i == 0 then null else nodes[i - 1]
      ensures i == |nodes| || entries[i].format == format
      ensures forall j :: 0 <= j < i ==> entries[j].format != format
    {
      i := 0;
      prev, place := null, argumentFormatMap;
      while place != null && !(|place.format| == |format| && place.format == format)
        invariant 0 <= i <= |nodes| && place == At(nodes, i)
        invariant prev == if i == 0 then null else nodes[i - 1]
        invariant forall j :: 0 <= j < i ==> entries[j].format != format
        decreases |nodes| - i
      {
        prev, place := place, place.next;
        i := i + 1;
      }
    }

    method Delete(prev: MapEntry?, place: MapEntry, ghost i: nat)
      requires Linked() && Holds(nodes, entries) && i < |nodes| && place == nodes[i]
      requires prev == if i == 0 then null else nodes[i - 1]
      modifies this`argumentFormatMap, this`nodes, this`entries, nodes`next
      ensures Linked() && Holds(nodes, entries) && entries == old(entries[..i] + entries[i + 1..])
      ensures forall n :: n in nodes ==> n in old(nodes)
    {
      Unlink(prev, i, place);
      entries := entries[..i] + entries[i + 1..];
    }

    method RemoveArgumentFormatter(format: string)
      requires Valid()
      modifies this, nodes
      ensures Valid()
      ensures entries == Remove(old(entries), format)
      ensures forall n :: n in nodes ==> n in old(nodes)
    {
      var prev, place, i := Find(format);
      RemoveShape(entries, format, i);
      if place != null {
        Delete(prev, place, i);
      }
    }

    /** The formatter to call and the input after its format. */
    method TryArgumentFormatter(s: string) returns (r: Option<Entry>)
      requires Valid()
      ensures r == Dispatch(entries, s)
    {
      ghost var i := 0;
      var place := argumentFormatMap;
      while place != null
        invariant 0 <= i <= |nodes| && place == At(nodes, i)
        invariant Dispatch(entries, s) == Dispatch(entries[i..], s)
        decreases |nodes| - i
      {
        if place.format <= s {
          return Some(Entry(place.format, place.formatter));
        }
        place := place.next;
        i := i + 1;
      }
      r := None;
    }
  }

  lemma {:induction false} AddAt(entries: seq<Entry>, e: Entry, i: nat)
    requires i <= |entries|
    requires forall j :: 0 <= j < i ==> |entries[j].format| >= |e.format| && entries[j].format != e.format
    ensures i == |entries| || |entries[i].format| < |e.format| ==> Add(entries, e) == entries[..i] + [e] + entries[i..]
    ensures i < |entries| && entries[i].format == e.format ==> Add(entries, e) == entries[i := e]
  {
    if i > 0 {
      var rest := entries[1..];
      AddAt(rest, e, i - 1);
      assert Add(entries, e) == [entries[0]] + Add(rest, e);
      assert entries[..i] == [entries[0]] + rest[..i - 1] && entries[i..] == rest[i - 1..];
      assert i < |entries| ==> entries[i := e] == [entries[0]] + rest[i - 1 := e];
    }
  }

  lemma {:induction false} RemoveAt(entries: seq<Entry>, format: string, i: nat)
    requires i <= |entries|
    requires forall j :: 0 <= j < i ==> entries[j].format != format
    ensures i == |entries| ==> Remove(entries, format) == entries
    ensures i < |entries| && entries[i].format == format ==>
              Remove(entries, format) == entries[..i] + entries[i + 1..]
  {
    if i > 0 {
      RemoveAt(entries[1..], format, i - 1);
    }
  }

  /** What the list becomes when the walk stops at position i. */
  lemma AddShape(entries: seq<Entry>, e: Entry, i: nat)
    requires Ordered(entries) && i <= |entries|
    requires forall j :: 0 <= j < i ==> |entries[j].format| >= |e.format| && entries[j].format != e.format
    requires i == |entries| || |entries[i].format| < |e.format| || entries[i].format == e.format
    ensures var r := if i < |entries| && entries[i].format == e.format then entries[i := e]
                     else entries[..i] + [e] + entries[i..];
            Ordered(r) && r == Add(entries, e)
    ensures Registered(entries, e.format) <==> i < |entries| && entries[i].format == e.format
  {
    AddAt(entries, e, i);
    AddOrdered(entries, e);
    if i < |entries| && entries[i].format == e.format {
      assert entries[i] in entries;
    } else {
      NotRegistered(entries, e.format, i);
    }
  }

  lemma RemoveShape(entries: seq<Entry>, format: string, i: nat)
    requires Ordered(entries) && i <= |entries|
    requires forall j :: 0 <= j < i ==> entries[j].format != format
    requires i == |entries| || entries[i].format == format
    ensures var r := if i == |entries| then entries else entries[..i] + entries[i + 1..];
            Ordered(r) && r == Remove(entries, format)
  {
    RemoveAt(entries, format, i);
    RemoveOrdered(entries, format);
  }

  lemma NotRegistered(entries: seq<Entry>, format: string, i: nat)
    requires Ordered(entries) && i <= |entries|
    requires forall j :: 0 <= j < i ==> entries[j].format != format
    requires i == |entries| || |entries[i].format| < |format|
    ensures !Registered(entries, format)
  {
    forall e | e in entries
      ensures e.format != format
    {
      var k :| 0 <= k < |entries| && entries[k] == e;
      if k >= i {
        assert |entries[k].format| <= |entries[i].format|;
      }
    }
  }
}
