/**
 The decoration map: entries in insertion order, a sorted index that is sealed
 on the first read and dropped on every change, and lookups that search it.

 A decoration is read through a checked downcast, which compares the stored type
 with the one asked for. Here a type is a tag.
 */
module Decorations {
  import opened Common
  import opened Ordering
  import opened Sequences

  /** A type of decoration: the key it goes in under, and its identity. */
  datatype Kind = Kind(key: string, tag: nat)

  datatype Entry = Entry(node: nat, key: string, tag: nat, value: nat)
  {
    function Read(kind: Kind): Option<nat> {
      if tag == kind.tag then Some(value) else None
    }
  }

  // ---------------------------------------------------------------------
  // The sealed index
  // ---------------------------------------------------------------------

  function NodeAt(entries: seq<Entry>, at: nat): nat {
    if at < |entries| then entries[at].node else 0
  }

  function ByNode(entries: seq<Entry>): (nat, nat) -> bool {
    (a: nat, b: nat) => NodeAt(entries, a) <= NodeAt(entries, b)
  }

  /** The order of a stable sort by node: equal nodes in the order of their positions. */
  function Precedes(entries: seq<Entry>): (nat, nat) -> bool {
    (a: nat, b: nat) =>
      NodeAt(entries, a) < NodeAt(entries, b) || (NodeAt(entries, a) == NodeAt(entries, b) && a < b)
  }

  function Upward(from: nat, until: nat): seq<nat>
    requires from <= until
    decreases until - from
  {
    if from == until then [] else [from] + Upward(from + 1, until)
  }

  function SealedOrder(entries: seq<Entry>): seq<nat> {
    Sort(ByNode(entries), Upward(0, |entries|))
  }

  /** The stable order by node: every position once, and equal nodes as inserted. */
  ghost predicate IsStableOrder(order: seq<nat>, entries: seq<Entry>) {
    && StrictlySorted(Precedes(entries), order)
    && forall x: nat :: x in order <==> x < |entries|
  }

  lemma InsertHas(entries: seq<Entry>, x: nat, s: seq<nat>)
    ensures forall y :: y in Insert(ByNode(entries), x, s) <==> y == x || y in s
  {
    InsertHolds(ByNode(entries), x, s);
    SameElements(Insert(ByNode(entries), x, s), s + [x]);
  }

  lemma {:induction false} InsertIsStable(entries: seq<Entry>, x: nat, s: seq<nat>)
    requires StrictlySorted(Precedes(entries), s) && forall i :: 0 <= i < |s| ==> x < s[i]
    ensures StrictlySorted(Precedes(entries), Insert(ByNode(entries), x, s))
    ensures forall y :: y in Insert(ByNode(entries), x, s) <==> y == x || y in s
  {
    InsertHas(entries, x, s);
    var lt := Precedes(entries);
    if s != [] && !ByNode(entries)(x, s[0]) {
      InsertIsStable(entries, x, s[1..]);
      var rest := Insert(ByNode(entries), x, s[1..]);
      forall i | 0 <= i < |rest| ensures lt(s[0], rest[i]) {
        assert rest[i] in rest;
      }
    } else if s != [] {
      assert forall i :: 1 <= i < |s| ==> lt(s[0], s[i]);
      assert forall i :: 0 <= i < |s| ==> lt(x, s[i]);
    }
  }

  lemma {:induction false} SortIsStable(entries: seq<Entry>, from: nat)
    requires from <= |entries|
    ensures StrictlySorted(Precedes(entries), Sort(ByNode(entries), Upward(from, |entries|)))
    ensures forall y :: y in Sort(ByNode(entries), Upward(from, |entries|)) <==> from <= y < |entries|
    decreases |entries| - from
  {
    if from < |entries| {
      SortIsStable(entries, from + 1);
      var rest := Upward(from + 1, |entries|);
      var sorted := Sort(ByNode(entries), rest);
      assert Upward(from, |entries|)[0] == from && Upward(from, |entries|)[1..] == rest;
      assert forall i :: 0 <= i < |sorted| ==> sorted[i] in sorted;
      InsertIsStable(entries, from, sorted);
      assert Sort(ByNode(entries), Upward(from, |entries|)) == Insert(ByNode(entries), from, sorted);
    }
  }

  lemma SealedIsStable(entries: seq<Entry>)
    ensures IsStableOrder(SealedOrder(entries), entries)
  {
    SortIsStable(entries, 0);
  }

  /** There is one stable order. */
  lemma StableOrderIsUnique(entries: seq<Entry>, a: seq<nat>, b: seq<nat>)
    requires IsStableOrder(a, entries) && IsStableOrder(b, entries)
    ensures a == b
  {
    StrictIsUnique(Precedes(entries), a, b);
  }

  // ---------------------------------------------------------------------
  // The search
  // ---------------------------------------------------------------------

  /** The binary search for the end of the positions that satisfy `holds`. */
  function PartitionPoint(order: seq<nat>, holds: nat -> bool, low: nat, high: nat): (point: nat)
    requires low <= high <= |order|
    ensures low <= point <= high
    decreases high - low
  {
    if low == high then low
    else
      var middle := (low + high) / 2;
      if holds(order[middle]) then PartitionPoint(order, holds, middle + 1, high)
      else PartitionPoint(order, holds, low, middle)
  }

  lemma {:induction false} PartitionPointSplits(order: seq<nat>, holds: nat -> bool, low: nat, high: nat)
    requires low <= high <= |order|
    requires forall i, j :: 0 <= i < j < |order| && holds(order[j]) ==> holds(order[i])
    requires forall i :: 0 <= i < low ==> holds(order[i])
    requires forall i :: high <= i < |order| ==> !holds(order[i])
    ensures forall i :: 0 <= i < |order| ==> (holds(order[i]) <==> i < PartitionPoint(order, holds, low, high))
    decreases high - low
  {
    if low < high {
      var middle := (low + high) / 2;
      if holds(order[middle]) {
        PartitionPointSplits(order, holds, middle + 1, high);
      } else {
        PartitionPointSplits(order, holds, low, middle);
      }
    }
  }

  function Start(order: seq<nat>, entries: seq<Entry>, node: nat): nat {
    PartitionPoint(order, (at: nat) => NodeAt(entries, at) < node, 0, |order|)
  }

  function Stop(order: seq<nat>, entries: seq<Entry>, node: nat): nat {
    PartitionPoint(order, (at: nat) => NodeAt(entries, at) <= node, 0, |order|)
  }

  lemma SearchSplits(order: seq<nat>, entries: seq<Entry>, node: nat)
    requires StrictlySorted(Precedes(entries), order)
    ensures Start(order, entries, node) <= Stop(order, entries, node) <= |order|
    ensures forall i :: 0 <= i < |order| ==>
      (NodeAt(entries, order[i]) == node <==> Start(order, entries, node) <= i < Stop(order, entries, node))
  {
    var below, upTo := (at: nat) => NodeAt(entries, at) < node, (at: nat) => NodeAt(entries, at) <= node;
    assert forall i, j :: 0 <= i < j < |order| ==> Precedes(entries)(order[i], order[j]);
    PartitionPointSplits(order, below, 0, |order|);
    PartitionPointSplits(order, upTo, 0, |order|);
    var stop := Stop(order, entries, node);
    assert stop < |order| ==> !upTo(order[stop]);
    assert stop < |order| ==> !below(order[stop]);
  }

  /** The entries at `positions`. */
  function At(entries: seq<Entry>, positions: seq<nat>): seq<Entry>
    requires forall i :: 0 <= i < |positions| ==> positions[i] < |entries|
  {
    seq(|positions|, i requires 0 <= i < |positions| => entries[positions[i]])
  }

  /** The entries that sit on `node`, found through the index. */
  function On(order: seq<nat>, entries: seq<Entry>, node: nat): seq<Entry>
    requires IsStableOrder(order, entries)
  {
    SearchSplits(order, entries, node);
    assert forall i :: 0 <= i < |order| ==> order[i] in order;
    At(entries, order[Start(order, entries, node)..Stop(order, entries, node)])
  }

  // The reference: a scan of the entries in insertion order.

  function Scan(entries: seq<Entry>, node: nat): seq<Entry> {
    if entries == [] then []
    else
      var rest := Scan(entries[1..], node);
      if entries[0].node == node then [entries[0]] + rest else rest
  }

  function PositionsOn(entries: seq<Entry>, node: nat, from: nat): seq<nat>
    requires from <= |entries|
    decreases |entries| - from
  {
    if from == |entries| then []
    else
      var rest := PositionsOn(entries, node, from + 1);
      if entries[from].node == node then [from] + rest else rest
  }

  function Below(a: nat, b: nat): bool { a < b }

  lemma {:induction false} PositionsMean(entries: seq<Entry>, node: nat, from: nat)
    requires from <= |entries|
    ensures forall x :: x in PositionsOn(entries, node, from) <==> from <= x < |entries| && entries[x].node == node
    decreases |entries| - from
  {
    if from < |entries| {
      PositionsMean(entries, node, from + 1);
    }
  }

  lemma {:induction false} PositionsHold(entries: seq<Entry>, node: nat, from: nat)
    requires from <= |entries|
    ensures StrictlySorted(Below, PositionsOn(entries, node, from))
    ensures forall x :: x in PositionsOn(entries, node, from) <==> from <= x < |entries| && entries[x].node == node
    decreases |entries| - from
  {
    PositionsMean(entries, node, from);
    if from < |entries| {
      PositionsHold(entries, node, from + 1);
      var rest := PositionsOn(entries, node, from + 1);
      forall i | 0 <= i < |rest| ensures Below(from, rest[i]) {
        assert rest[i] in rest;
      }
    }
  }

  lemma {:induction false} PositionsScan(entries: seq<Entry>, node: nat, from: nat)
    requires from <= |entries|
    ensures forall i :: 0 <= i < |PositionsOn(entries, node, from)| ==> PositionsOn(entries, node, from)[i] < |entries|
    ensures At(entries, PositionsOn(entries, node, from)) == Scan(entries[from..], node)
    decreases |entries| - from
  {
    if from < |entries| {
      PositionsScan(entries, node, from + 1);
      assert entries[from..][1..] == entries[from + 1..];
      var rest := PositionsOn(entries, node, from + 1);
      if entries[from].node == node {
        assert At(entries, [from] + rest) == [entries[from]] + At(entries, rest);
      }
    }
  }

  /** The search through the index finds what the scan finds, in insertion order. */
  lemma SearchIsScan(order: seq<nat>, entries: seq<Entry>, node: nat)
    requires IsStableOrder(order, entries)
    ensures On(order, entries, node) == Scan(entries, node)
  {
    var start, stop := Start(order, entries, node), Stop(order, entries, node);
    SearchSplits(order, entries, node);
    assert forall i :: 0 <= i < |order| ==> order[i] in order;
    PositionsScan(entries, node, 0);
    assert entries[0..] == entries;
    FoundArePositions(order, entries, node, start, stop);
  }

  lemma FoundArePositions(order: seq<nat>, entries: seq<Entry>, node: nat, start: nat, stop: nat)
    requires IsStableOrder(order, entries) && start <= stop <= |order|
    requires forall i :: 0 <= i < |order| ==> (NodeAt(entries, order[i]) == node <==> start <= i < stop)
    ensures order[start..stop] == PositionsOn(entries, node, 0)
  {
    var found, positions := order[start..stop], PositionsOn(entries, node, 0);
    PositionsHold(entries, node, 0);
    forall i, j | 0 <= i < j < |found| ensures Below(found[i], found[j]) {
      assert Precedes(entries)(order[start + i], order[start + j]);
    }
    forall x: nat ensures x in found <==> x in positions {
      FoundMeans(order, entries, node, start, stop, x);
    }
    StrictIsUnique(Below, found, positions);
  }

  lemma FoundMeans(order: seq<nat>, entries: seq<Entry>, node: nat, start: nat, stop: nat, x: nat)
    requires IsStableOrder(order, entries) && start <= stop <= |order|
    requires forall i :: 0 <= i < |order| ==> (NodeAt(entries, order[i]) == node <==> start <= i < stop)
    ensures x in order[start..stop] <==> x < |entries| && entries[x].node == node
  {
    var found := order[start..stop];
    if x in found {
      var i :| 0 <= i < |found| && found[i] == x;
      assert order[start + i] == x && x in order;
    }
    if x < |entries| && entries[x].node == node {
      assert x in order;
      var i :| 0 <= i < |order| && order[i] == x;
      assert found[i - start] == x;
    }
  }

  // ---------------------------------------------------------------------
  // The decorations of a type
  // ---------------------------------------------------------------------

  /** The decoration that `get` returns, from the entries on a node. */
  function First(on: seq<Entry>, kind: Kind): Option<nat> {
    if on == [] then None
    else if on[0].key == kind.key then on[0].Read(kind)
    else First(on[1..], kind)
  }

  /** The decorations that `get_all` returns, from the entries on a node. */
  function All(on: seq<Entry>, kind: Kind): seq<nat> {
    if on == [] then []
    else if on[0].key == kind.key && on[0].Read(kind).Some?
    then [on[0].Read(kind).value] + All(on[1..], kind)
    else All(on[1..], kind)
  }

  predicate Holds(entry: Entry, kind: Kind) {
    entry.key == kind.key && entry.tag == kind.tag
  }

  function FirstUnder(on: seq<Entry>, key: string): Option<Entry> {
    if on == [] then None else if on[0].key == key then Some(on[0]) else FirstUnder(on[1..], key)
  }

  /** The first entry under the key is of another type, though one of the type is there. */
  ghost predicate Shadowed(on: seq<Entry>, kind: Kind) {
    && FirstUnder(on, kind.key).Some? && FirstUnder(on, kind.key).value.tag != kind.tag
    && exists entry :: entry in on && Holds(entry, kind)
  }

  function Head(values: seq<nat>): Option<nat> {
    if values == [] then None else Some(values[0])
  }

  lemma {:induction false} AllIsEmpty(on: seq<Entry>, kind: Kind)
    ensures All(on, kind) == [] <==> forall entry :: entry in on ==> !Holds(entry, kind)
  {
    if on != [] {
      AllIsEmpty(on[1..], kind);
      assert on[0] in on && forall entry :: entry in on <==> entry == on[0] || entry in on[1..];
    }
  }

  ghost function IsOfKind(kind: Kind): Entry -> bool {
    (entry: Entry) => entry.key == kind.key && entry.tag == kind.tag
  }

  /** `get_all` takes the value of each entry of the type, in the order of the entries. */
  lemma {:induction false} AllIsExact(on: seq<Entry>, kind: Kind) returns (at: seq<nat>, picked: seq<Entry>)
    ensures Filters(on, IsOfKind(kind), at, picked)
    ensures |All(on, kind)| == |picked| && forall k :: 0 <= k < |picked| ==> All(on, kind)[k] == picked[k].value
  {
    if on == [] {
      at, picked := [], [];
    } else {
      at, picked := AllIsExact(on[1..], kind);
      FiltersLater(on, IsOfKind(kind), at, picked);
      hide Filters;
      if Holds(on[0], kind) {
        at, picked := [0] + Shifted(at), [on[0]] + picked;
      } else {
        at := Shifted(at);
      }
    }
  }

  /** The entry at `i` is the first under the key, and holds this value of the type. */
  ghost predicate ReadsAt(on: seq<Entry>, kind: Kind, value: nat, i: nat) {
    && i < |on| && on[i] == Entry(on[i].node, kind.key, kind.tag, value)
    && forall j :: 0 <= j < i ==> on[j].key != kind.key
  }

  /** `get` reads the first entry under the key, and nothing when that is of another type. */
  lemma {:induction false} FirstIsExact(on: seq<Entry>, kind: Kind, value: nat)
    ensures First(on, kind) == Some(value) <==> exists i: nat :: ReadsAt(on, kind, value, i)
  {
    if on != [] {
      FirstIsExact(on[1..], kind, value);
      if on[0].key == kind.key {
        assert ReadsAt(on, kind, value, 0) <==> First(on, kind) == Some(value);
        assert forall i: nat :: ReadsAt(on, kind, value, i) ==> i == 0;
      } else {
        assert !ReadsAt(on, kind, value, 0);
        forall i: nat ensures ReadsAt(on, kind, value, i + 1) <==> ReadsAt(on[1..], kind, value, i) {
          ReadsLater(on, kind, value, i);
        }
        if i: nat :| ReadsAt(on, kind, value, i) {
          var before: nat := i - 1;
          assert ReadsAt(on, kind, value, before + 1) && ReadsAt(on[1..], kind, value, before);
        }
      }
    }
  }

  lemma ReadsLater(on: seq<Entry>, kind: Kind, value: nat, i: nat)
    requires on != [] && on[0].key != kind.key
    ensures ReadsAt(on, kind, value, i + 1) <==> ReadsAt(on[1..], kind, value, i)
  {
    if ReadsAt(on, kind, value, i + 1) {
      forall j | 0 <= j < i ensures on[1..][j].key != kind.key {
        assert on[j + 1].key != kind.key;
      }
    }
  }

  /** `get` is the head of `get_all`, except when another type under the key hides it. */
  lemma {:induction false} FirstIsHead(on: seq<Entry>, kind: Kind)
    ensures First(on, kind) == Head(All(on, kind)) <==> !Shadowed(on, kind)
  {
    AllIsEmpty(on, kind);
    if on != [] && on[0].key != kind.key {
      FirstIsHead(on[1..], kind);
      AllIsEmpty(on[1..], kind);
    }
  }

  /** Such a list exists: behind an entry of another type, `get` misses what `get_all` finds. */
  lemma ShadowHides(node: nat, key: string, tag: nat, other: nat, value: nat)
    requires tag != other
    ensures var on, kind := [Entry(node, key, other, value), Entry(node, key, tag, value)], Kind(key, tag);
      Shadowed(on, kind) && First(on, kind) == None && All(on, kind) == [value]
  {
    var on, kind := [Entry(node, key, other, value), Entry(node, key, tag, value)], Kind(key, tag);
    assert on[1] in on && on[1..] == [on[1]] && [on[1]][1..] == [];
    assert All([], kind) == [] && All([on[1]], kind) == [value];
  }

  // ---------------------------------------------------------------------
  // What merging does
  // ---------------------------------------------------------------------

  lemma {:induction false} ScanConcat(a: seq<Entry>, b: seq<Entry>, node: nat)
    ensures Scan(a + b, node) == Scan(a, node) + Scan(b, node)
  {
    if a == [] {
      assert a + b == b;
    } else {
      assert (a + b)[1..] == a[1..] + b;
      ScanConcat(a[1..], b, node);
    }
  }

  lemma {:induction false} AllConcat(a: seq<Entry>, b: seq<Entry>, kind: Kind)
    ensures All(a + b, kind) == All(a, kind) + All(b, kind)
  {
    if a == [] {
      assert a + b == b;
    } else {
      assert (a + b)[1..] == a[1..] + b;
      AllConcat(a[1..], b, kind);
    }
  }

  lemma {:induction false} FirstConcat(a: seq<Entry>, b: seq<Entry>, kind: Kind)
    ensures First(a + b, kind) == if FirstUnder(a, kind.key).Some? then First(a, kind) else First(b, kind)
  {
    if a == [] {
      assert a + b == b;
    } else {
      assert (a + b)[1..] == a[1..] + b;
      FirstConcat(a[1..], b, kind);
    }
  }

  /** Entries already present win, and the merged ones come after them. */
  lemma MergeKeepsFirst(mine: seq<Entry>, theirs: seq<Entry>, node: nat, kind: Kind)
    ensures All(Scan(mine + theirs, node), kind) == All(Scan(mine, node), kind) + All(Scan(theirs, node), kind)
    ensures First(Scan(mine + theirs, node), kind) ==
      if FirstUnder(Scan(mine, node), kind.key).Some? then First(Scan(mine, node), kind) else First(Scan(theirs, node), kind)
  {
    ScanConcat(mine, theirs, node);
    AllConcat(Scan(mine, node), Scan(theirs, node), kind);
    FirstConcat(Scan(mine, node), Scan(theirs, node), kind);
  }

  // ---------------------------------------------------------------------
  // The map
  // ---------------------------------------------------------------------

  class DecorationMap {
    var entries: seq<Entry>
    var sealed: Option<seq<nat>>

    /** The index is absent, or the stable order of all the entries. */
    ghost predicate Valid()
      reads this
    {
      sealed.Some? ==> IsStableOrder(sealed.value, entries)
    }

    constructor ()
      ensures Valid() && entries == [] && sealed == None
    {
      entries, sealed := [], None;
    }

    method Add(node: nat, kind: Kind, value: nat)
      requires Valid()
      modifies this
      ensures Valid() && sealed == None
      ensures entries == old(entries) + [Entry(node, kind.key, kind.tag, value)]
    {
      entries := entries + [Entry(node, kind.key, kind.tag, value)];
      sealed := None;
    }

    method Merge(other: DecorationMap)
      requires Valid()
      modifies this
      ensures Valid() && sealed == None
      ensures entries == old(entries) + old(other.entries)
    {
      entries := entries + other.entries;
      sealed := None;
    }

    /** The index, built on the first read after a change. */
    method Lookup() returns (order: seq<nat>)
      requires Valid()
      modifies this`sealed
      ensures Valid() && sealed == Some(order) && IsStableOrder(order, entries)
      ensures old(sealed).Some? ==> sealed == old(sealed)
    {
      if sealed.None? {
        SealedIsStable(entries);
        sealed := Some(SealedOrder(entries));
      }
      order := sealed.value;
    }

    method Get(node: nat, kind: Kind) returns (r: Option<nat>)
      requires Valid()
      modifies this`sealed
      ensures Valid()
      ensures r == First(Scan(entries, node), kind)
    {
      var order := Lookup();
      SearchIsScan(order, entries, node);
      r := First(On(order, entries, node), kind);
    }

    method GetAll(node: nat, kind: Kind) returns (r: seq<nat>)
      requires Valid()
      modifies this`sealed
      ensures Valid()
      ensures r == All(Scan(entries, node), kind)
    {
      var order := Lookup();
      SearchIsScan(order, entries, node);
      r := All(On(order, entries, node), kind);
    }
  }
}
