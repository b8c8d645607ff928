/** A visitor generated from merged grammars calls all that those of its parts call. */
module MergedVisitor {
  import opened Common
  import opened Sequences
  import opened Grammar
  import opened Visitor

  /** No named kind is concrete in one grammar and a supertype in another. */
  ghost predicate Agree(nodes: seq<NodeType>) {
    forall i, j :: 0 <= i < |nodes| && 0 <= j < |nodes| && nodes[i].named && nodes[i].Key() == nodes[j].Key() ==>
      (nodes[i].subtypes == [] <==> nodes[j].subtypes == [])
  }

  /** In a merge, the entry of a key lists what any node of the key lists. */
  lemma MergedEntry(nodes: seq<NodeType>, node: NodeType) returns (entry: NodeType)
    requires node in nodes && node.named
    ensures entry in AbsorbAll([], nodes) && entry.Key() == node.Key()
    ensures Find(AbsorbAll([], nodes), node.kind) == Some(entry)
    ensures forall r :: r in entry.subtypes <==> Lists(nodes, node.Key(), r)
  {
    var merged := AbsorbAll([], nodes);
    var i :| 0 <= i < |nodes| && nodes[i] == node;
    MergeIsUnion([], nodes, node.Key(), node.Key());
    assert HasKey(nodes, node.Key());
    FindHolds(merged, node.kind);
    entry := Find(merged, node.kind).value;
    MergedIsUnique(nodes);
    var at :| 0 <= at < |merged| && merged[at] == entry;
    forall r ensures r in entry.subtypes <==> Lists(nodes, node.Key(), r) {
      MergeIsUnion([], nodes, node.Key(), r);
      assert r in entry.subtypes ==> Lists(merged, node.Key(), r);
      if Lists(merged, node.Key(), r) {
        var k :| 0 <= k < |merged| && merged[k].Key() == node.Key() && r in merged[k].subtypes;
        assert k == at;
      }
    }
  }

  lemma ListsOf(nodes: seq<NodeType>, node: NodeType, r: Ref)
    requires node in nodes && r in node.subtypes
    ensures Lists(nodes, node.Key(), r)
  {
    var i :| 0 <= i < |nodes| && nodes[i] == node;
  }

  /** A merge keeps a kind concrete or a supertype. */
  lemma MergedEntryAgrees(nodes: seq<NodeType>, node: NodeType, entry: NodeType)
    requires node in nodes && node.named && Agree(nodes)
    requires forall r :: r in entry.subtypes <==> Lists(nodes, node.Key(), r)
    ensures entry.subtypes == [] <==> node.subtypes == []
  {
    if node.subtypes != [] {
      ListsOf(nodes, node, node.subtypes[0]);
    }
    if entry.subtypes != [] {
      var r := entry.subtypes[0];
      assert r in entry.subtypes;
      var j :| 0 <= j < |nodes| && nodes[j].Key() == node.Key() && r in nodes[j].subtypes;
      var i :| 0 <= i < |nodes| && nodes[i] == node;
    }
  }

  /** A chain of references of one grammar leads on in the merge. */
  lemma {:induction false} ChainSurvives(g: seq<NodeType>, nodes: seq<NodeType>, node: NodeType, entry: NodeType, chain: seq<NodeType>, kind: string)
    requires Agree(nodes) && forall n :: n in g ==> n in nodes
    requires node in g && node.named && ChainTo(g, node, chain, kind)
    requires Find(AbsorbAll([], nodes), node.kind) == Some(entry)
    requires forall r :: r in entry.subtypes <==> Lists(nodes, node.Key(), r)
    ensures Reaches(AbsorbAll([], nodes), entry, kind)
    decreases |chain|
  {
    var merged := AbsorbAll([], nodes);
    assert LeadsTo(g, chain[0], chain[1]);
    var next := chain[1];
    var r :| r in node.subtypes && Target(g, r) == Some(next);
    FindHolds(g, r.kind);
    ListsOf(nodes, node, r);
    var nextEntry := MergedEntry(nodes, next);
    assert LeadsTo(merged, entry, nextEntry) by {
      assert r in entry.subtypes && Target(merged, r) == Some(nextEntry);
    }
    if |chain| == 2 {
      MergedEntryAgrees(nodes, next, nextEntry);
      ChainGrows(merged, entry, [nextEntry], kind);
    } else {
      var rest := chain[1..];
      forall i | 0 <= i < |rest| - 1 ensures LeadsTo(g, rest[i], rest[i + 1]) {
        assert LeadsTo(g, chain[i + 1], chain[i + 1 + 1]);
      }
      ChainSurvives(g, nodes, next, nextEntry, rest, kind);
      var longer :| ChainTo(merged, nextEntry, longer, kind);
      ChainGrows(merged, entry, longer, kind);
    }
  }

  lemma {:induction false} AboveHolds(g: seq<NodeType>, kind: string, index: nat, call: string) returns (at: nat)
    requires index <= |g| && call in Above(g, kind, index)
    ensures at < |g| && IsSupertype(g[at]) && Reaches(g, g[at], kind) && MethodName(g[at].kind) == call
    decreases |g| - index
  {
    if IsSupertype(g[index]) && Reaches(g, g[index], kind) && MethodName(g[index].kind) == call {
      at := index;
    } else {
      at := AboveHolds(g, kind, index + 1, call);
    }
  }

  lemma {:induction false} AboveHas(g: seq<NodeType>, kind: string, index: nat, at: nat)
    requires index <= at < |g| && IsSupertype(g[at]) && Reaches(g, g[at], kind)
    ensures MethodName(g[at].kind) in Above(g, kind, index)
    decreases at - index
  {
    if index < at {
      AboveHas(g, kind, index + 1, at);
    }
  }

  /** Every supertype method that one grammar's dispatch calls, the merge's calls too. */
  lemma SupertypeCallSurvives(g: seq<NodeType>, nodes: seq<NodeType>, kind: string, call: string)
    requires Agree(nodes) && forall n :: n in g ==> n in nodes
    requires call in Above(g, kind, 0)
    ensures call in Above(AbsorbAll([], nodes), kind, 0)
  {
    var merged := AbsorbAll([], nodes);
    var at := AboveHolds(g, kind, 0, call);
    var entry := MergedEntry(nodes, g[at]);
    MergedEntryAgrees(nodes, g[at], entry);
    var chain :| ChainTo(g, g[at], chain, kind);
    ChainSurvives(g, nodes, g[at], entry, chain, kind);
    var k :| 0 <= k < |merged| && merged[k] == entry;
    AboveHas(merged, kind, 0, k);
  }

  /** The merge calls a kind's own method exactly when every grammar that has the kind has it concrete. */
  lemma OwnCallSurvives(nodes: seq<NodeType>, kind: string)
    ensures HasConcrete(AbsorbAll([], nodes), kind) <==>
      HasKey(nodes, Ref(kind, true)) && forall i :: 0 <= i < |nodes| && nodes[i].Key() == Ref(kind, true) ==> nodes[i].subtypes == []
  {
    var merged := AbsorbAll([], nodes);
    if HasKey(nodes, Ref(kind, true)) {
      var i :| 0 <= i < |nodes| && nodes[i].Key() == Ref(kind, true);
      var entry := MergedEntry(nodes, nodes[i]);
      var at :| 0 <= at < |merged| && merged[at] == entry;
      MergedIsUnique(nodes);
      if entry.subtypes != [] {
        assert entry.subtypes[0] in entry.subtypes;
      }
      forall j | 0 <= j < |nodes| && nodes[j].Key() == Ref(kind, true) && nodes[j].subtypes != []
        ensures entry.subtypes != []
      {
        ListsOf(nodes, nodes[j], nodes[j].subtypes[0]);
      }
    } else {
      MergeIsUnion([], nodes, Ref(kind, true), Ref(kind, true));
    }
  }

  lemma ConcreteSurvives(g: seq<NodeType>, nodes: seq<NodeType>, kind: string)
    requires Agree(nodes) && forall n :: n in g ==> n in nodes
    requires HasConcrete(g, kind)
    ensures HasConcrete(AbsorbAll([], nodes), kind)
  {
    var i :| 0 <= i < |g| && IsConcrete(g[i]) && g[i].kind == kind;
    assert g[i] in g;
    var j :| 0 <= j < |nodes| && nodes[j] == g[i];
    OwnCallSurvives(nodes, kind);
  }

  /** Merging grammars never loses a dispatch. */
  lemma MergeKeepsDispatch(grammars: seq<seq<NodeType>>, index: nat, kind: string, call: string)
    requires index < |grammars| && Acyclic(grammars[index]) && Acyclic(Merged(grammars))
    requires Agree(Flatten(grammars))
    requires call in Calls(Generated(grammars[index]), kind)
    ensures call in Calls(Generated(Merged(grammars)), kind)
  {
    var g, nodes, merged := grammars[index], Flatten(grammars), Merged(grammars);
    DispatchIsExact(g, kind);
    DispatchIsExact(merged, kind);
    hide Generated, Calls, Above, HasConcrete, Agree, AbsorbAll;
    forall n | n in g ensures n in nodes {
      FlattenHolds(grammars, index, n);
    }
    if HasConcrete(g, kind) {
      ConcreteSurvives(g, nodes, kind);
    }
    if call in Above(g, kind, 0) {
      SupertypeCallSurvives(g, nodes, kind, call);
    }
  }

  lemma ReachedIsConcrete(g: seq<NodeType>, node: NodeType, kind: string)
    requires Reaches(g, node, kind)
    ensures HasConcrete(g, kind)
  {
    var chain: seq<NodeType> :| ChainTo(g, node, chain, kind);
    var last := |chain| - 1;
    assert LeadsTo(g, chain[last - 1], chain[last - 1 + 1]);
    var r :| r in chain[last - 1].subtypes && Target(g, r) == Some(chain[last]);
    FindHolds(g, r.kind);
    var k :| 0 <= k < |g| && g[k] == chain[last];
    assert IsConcrete(g[k]);
  }

  lemma {:induction false} AboveIsEmpty(g: seq<NodeType>, kind: string, index: nat)
    requires index <= |g| && !HasConcrete(g, kind)
    ensures Above(g, kind, index) == []
    decreases |g| - index
  {
    if index < |g| {
      AboveIsEmpty(g, kind, index + 1);
      if Reaches(g, g[index], kind) {
        ReachedIsConcrete(g, g[index], kind);
      }
    }
  }

  /** The dispatch calls something on a kind exactly when the kind is concrete, and then its own method. */
  lemma CallsOfKind(g: seq<NodeType>, kind: string)
    requires Acyclic(g)
    ensures HasConcrete(g, kind) ==> MethodName(kind) in Calls(Generated(g), kind)
    ensures !HasConcrete(g, kind) ==> Calls(Generated(g), kind) == []
  {
    DispatchIsExact(g, kind);
    hide Generated, Calls, Acyclic;
    if !HasConcrete(g, kind) {
      AboveIsEmpty(g, kind, 0);
    }
  }

  /** Every call of every part is a call of the merge. */
  ghost predicate LosesNoCall(grammars: seq<seq<NodeType>>)
    requires Acyclic(Merged(grammars)) && forall i :: 0 <= i < |grammars| ==> Acyclic(grammars[i])
  {
    forall i, kind, call :: 0 <= i < |grammars| && call in Calls(Generated(grammars[i]), kind) ==>
      call in Calls(Generated(Merged(grammars)), kind)
  }

  lemma {:induction false} PartOf(grammars: seq<seq<NodeType>>, node: NodeType) returns (index: nat)
    requires node in Flatten(grammars)
    ensures index < |grammars| && node in grammars[index]
  {
    if node in grammars[|grammars| - 1] {
      index := |grammars| - 1;
    } else {
      index := PartOf(grammars[..|grammars| - 1], node);
    }
  }

  /** A kind on which the grammars disagree loses the method of the grammar that has it concrete. */
  lemma DisagreementLoses(grammars: seq<seq<NodeType>>, concrete: NodeType, super: NodeType)
    requires Acyclic(Merged(grammars)) && forall i :: 0 <= i < |grammars| ==> Acyclic(grammars[i])
    requires concrete in Flatten(grammars) && super in Flatten(grammars)
    requires IsConcrete(concrete) && IsSupertype(super) && concrete.kind == super.kind
    ensures !LosesNoCall(grammars)
  {
    hide Generated, Calls, AbsorbAll, Acyclic, Flatten;
    var kind, nodes := concrete.kind, Flatten(grammars);
    var index := PartOf(grammars, concrete);
    var at :| 0 <= at < |grammars[index]| && grammars[index][at] == concrete;
    assert HasConcrete(grammars[index], kind);
    CallsOfKind(grammars[index], kind);
    OwnCallSurvives(nodes, kind);
    var j :| 0 <= j < |nodes| && nodes[j] == super;
    assert !HasConcrete(Merged(grammars), kind);
    CallsOfKind(Merged(grammars), kind);
    var call := MethodName(kind);
    assert call in Calls(Generated(grammars[index]), kind) && call !in Calls(Generated(Merged(grammars)), kind);
  }

  /**
   Merging loses no call exactly when the grammars agree on which kinds are
   supertypes, as long as neither they nor their merge has a cycle.
   */
  lemma MergeKeepsDispatchExactly(grammars: seq<seq<NodeType>>)
    requires Acyclic(Merged(grammars)) && forall i :: 0 <= i < |grammars| ==> Acyclic(grammars[i])
    ensures LosesNoCall(grammars) <==> Agree(Flatten(grammars))
  {
    hide Acyclic, Generated, Calls, Flatten, Merged;
    var nodes := Flatten(grammars);
    if Agree(nodes) {
      forall i, kind, call | 0 <= i < |grammars| && call in Calls(Generated(grammars[i]), kind)
        ensures call in Calls(Generated(Merged(grammars)), kind)
      {
        MergeKeepsDispatch(grammars, i, kind, call);
      }
    } else {
      var i, j :| 0 <= i < |nodes| && 0 <= j < |nodes| && nodes[i].named && nodes[i].Key() == nodes[j].Key()
        && nodes[i].subtypes == [] && nodes[j].subtypes != [];
      DisagreementLoses(grammars, nodes[i], nodes[j]);
    }
  }

  /** Two grammars that disagree: the call of the first on its own kind is lost, and nothing is called. */
  lemma DisagreementLosesACall()
    ensures var plain, super := NodeType("a", true, []), NodeType("a", true, [Ref("b", true)]);
      && Acyclic([plain]) && Acyclic(Merged([[plain], [super]]))
      && "check_a" in Calls(Generated([plain]), "a")
      && Calls(Generated(Merged([[plain], [super]])), "a") == []
  {
    var plain, super := NodeType("a", true, []), NodeType("a", true, [Ref("b", true)]);
    FlattenPair([plain], [super]);
    var nodes := [plain] + [super];
    assert nodes[1..] == [super] && [super][1..] == [];
    assert Extend([], [Ref("b", true)]) == [Ref("b", true)] by { assert Extend([Ref("b", true)], []) == [Ref("b", true)]; }
    assert AbsorbAll([], nodes) == AbsorbAll([plain], [super]) == AbsorbAll([super], []) == [super];
    assert Find([super], "b") == Find([], "b") == None;
    assert Ranks([plain], map[]) && Ranks([super], map[]);
    assert HasConcrete([plain], "a") by { assert [plain][0] == plain; }
    assert MethodName("a") == "check_a";
    hide Generated, Calls, AbsorbAll, Ranks;
    CallsOfKind([plain], "a");
    CallsOfKind([super], "a");
  }
}
