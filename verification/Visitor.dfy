/**
 The visitor that is generated from a grammar. The generated text is not part of
 this model: a visitor is its match blocks, and dispatching evaluates them.
 */
module Visitor {
  import opened Common
  import opened Sequences
  import opened Grammar

  predicate IsConcrete(node: NodeType) { node.named && node.subtypes == [] }

  predicate IsSupertype(node: NodeType) { node.named && node.subtypes != [] }

  /** The first named node of a kind. */
  function Find(g: seq<NodeType>, kind: string): Option<NodeType> {
    if g == [] then None
    else if g[0].kind == kind && g[0].named then Some(g[0])
    else Find(g[1..], kind)
  }

  lemma {:induction false} FindHolds(g: seq<NodeType>, kind: string)
    ensures Find(g, kind).Some? ==> Find(g, kind).value in g && Find(g, kind).value.Key() == Ref(kind, true)
    ensures Find(g, kind).Some? <==> HasKey(g, Ref(kind, true))
  {
    if g != [] {
      FindHolds(g[1..], kind);
      HasKeyFirst(g, Ref(kind, true));
    }
  }

  /** It is the first named node of its kind. */
  lemma {:induction false} FindIsFirst(g: seq<NodeType>, kind: string) returns (at: nat)
    requires Find(g, kind).Some?
    ensures at < |g| && Find(g, kind) == Some(g[at])
    ensures forall i :: 0 <= i < at ==> g[i].Key() != Ref(kind, true)
  {
    at := 0;
    if !(g[0].kind == kind && g[0].named) {
      at := FindIsFirst(g[1..], kind);
      at := at + 1;
    }
  }

  /** The node that a supertype's reference leads to: named, and found. */
  function Target(g: seq<NodeType>, r: Ref): Option<NodeType> {
    if r.named then Find(g, r.kind) else None
  }

  // ---------------------------------------------------------------------
  // Acyclic supertypes
  // ---------------------------------------------------------------------

  ghost function RankIn(rank: map<NodeType, nat>, node: NodeType): nat {
    if node in rank then rank[node] else 0
  }

  /** Each reference of a named node leads to a node of a lower rank. */
  ghost predicate Ranks(g: seq<NodeType>, rank: map<NodeType, nat>) {
    forall node, r :: node in g && node.named && r in node.subtypes && Target(g, r).Some? ==>
      RankIn(rank, Target(g, r).value) < RankIn(rank, node)
  }

  /** The references can be ranked, so that following them ends. */
  ghost predicate Acyclic(g: seq<NodeType>) { exists rank :: Ranks(g, rank) }

  ghost function Height(g: seq<NodeType>, node: NodeType): nat
    requires Acyclic(g)
  {
    var rank :| Ranks(g, rank);
    RankIn(rank, node)
  }

  lemma TargetIsLower(g: seq<NodeType>, node: NodeType, r: Ref)
    requires Acyclic(g) && node in g && node.named && r in node.subtypes && Target(g, r).Some?
    ensures Target(g, r).value in g && Target(g, r).value.named
    ensures Height(g, Target(g, r).value) < Height(g, node)
  {
    FindHolds(g, r.kind);
    var rank :| Ranks(g, rank);
  }

  // ---------------------------------------------------------------------
  // The leaves of a supertype
  // ---------------------------------------------------------------------

  /** The leaves of the references from `index` on, as the source gathers them. */
  function Gathered(g: seq<NodeType>, node: NodeType, index: nat): seq<string>
    requires Acyclic(g) && node in g && node.named && index <= |node.subtypes|
    decreases Height(g, node), 0, |node.subtypes| - index
  {
    if index == |node.subtypes| then []
    else
      var target := Target(g, node.subtypes[index]);
      var rest := Gathered(g, node, index + 1);
      if target.None? then rest
      else
        TargetIsLower(g, node, node.subtypes[index]);
        if target.value.subtypes == [] then [target.value.kind] + rest
        else Leaves(g, target.value) + rest
  }

  /** The leaves of a supertype, each at its first occurrence. */
  function Leaves(g: seq<NodeType>, node: NodeType): seq<string>
    requires Acyclic(g) && node in g && node.named
    decreases Height(g, node), 1, 0
  {
    Dedup(Gathered(g, node, 0))
  }

  /** The filter of the source, which keeps what it has not seen. */
  method Retain(kinds: seq<string>) returns (kept: seq<string>)
    ensures kept == Dedup(kinds)
  {
    kept := [];
    var seen := {};
    for i := 0 to |kinds|
      invariant kept == Dedup(kinds[..i])
      invariant forall kind :: kind in seen <==> kind in kept
    {
      assert kinds[..i + 1] == kinds[..i] + [kinds[i]];
      DedupStep(kinds[..i], kinds[i]);
      if kinds[i] !in seen {
        seen := seen + {kinds[i]};
        kept := kept + [kinds[i]];
      }
    }
    assert kinds[..|kinds|] == kinds;
  }

  method CollectLeafSubtypes(g: seq<NodeType>, node: NodeType) returns (leaves: seq<string>)
    requires Acyclic(g) && node in g && node.named
    ensures leaves == Leaves(g, node)
    decreases Height(g, node), 1
  {
    hide Acyclic, Height, Dedup;
    leaves := [];
    for i := 0 to |node.subtypes|
      invariant leaves + Gathered(g, node, i) == Gathered(g, node, 0)
    {
      var here := CollectReference(g, node, i);
      assert leaves + (here + Gathered(g, node, i + 1)) == leaves + here + Gathered(g, node, i + 1);
      leaves := leaves + here;
    }
    assert leaves + [] == leaves;
    leaves := Retain(leaves);
  }

  /** The leaves of one reference: none, a concrete kind, or those of a supertype. */
  method CollectReference(g: seq<NodeType>, node: NodeType, index: nat) returns (leaves: seq<string>)
    requires Acyclic(g) && node in g && node.named && index < |node.subtypes|
    ensures Gathered(g, node, index) == leaves + Gathered(g, node, index + 1)
    decreases Height(g, node), 0
  {
    var target := Target(g, node.subtypes[index]);
    if target.None? {
      return [];
    }
    TargetIsLower(g, node, node.subtypes[index]);
    if target.value.subtypes == [] {
      return [target.value.kind];
    }
    leaves := CollectLeafSubtypes(g, target.value);
  }

  // The references: reachability, and a plain depth-first listing.

  /** A chain of nodes, each the target of a reference of the one before. */
  ghost predicate IsChain(g: seq<NodeType>, chain: seq<NodeType>) {
    forall i :: 0 <= i < |chain| - 1 ==> LeadsTo(g, chain[i], chain[i + 1])
  }

  ghost predicate LeadsTo(g: seq<NodeType>, node: NodeType, next: NodeType) {
    exists r :: r in node.subtypes && Target(g, r) == Some(next)
  }

  ghost predicate ChainTo(g: seq<NodeType>, node: NodeType, chain: seq<NodeType>, kind: string) {
    && |chain| >= 2 && chain[0] == node && IsChain(g, chain)
    && chain[|chain| - 1].subtypes == [] && chain[|chain| - 1].kind == kind
  }

  /** Whether a chain of references leads from `node` to the concrete kind. */
  ghost predicate Reaches(g: seq<NodeType>, node: NodeType, kind: string) {
    exists chain :: ChainTo(g, node, chain, kind)
  }

  /** Each leaf at each visit of a depth-first walk, repeats included. */
  ghost function Visits(g: seq<NodeType>, node: NodeType, index: nat): seq<string>
    requires Acyclic(g) && node in g && node.named && index <= |node.subtypes|
    decreases Height(g, node), |node.subtypes| - index
  {
    if index == |node.subtypes| then []
    else
      var target := Target(g, node.subtypes[index]);
      var rest := Visits(g, node, index + 1);
      if target.None? then rest
      else
        TargetIsLower(g, node, node.subtypes[index]);
        if target.value.subtypes == [] then [target.value.kind] + rest
        else Visits(g, target.value, 0) + rest
  }

  /** Removing the repeats on the way changes nothing: the leaves come in first-visit order. */
  lemma {:induction false} LeavesAreFirstVisits(g: seq<NodeType>, node: NodeType, index: nat)
    requires Acyclic(g) && node in g && node.named && index <= |node.subtypes|
    ensures Dedup(Gathered(g, node, index)) == Dedup(Visits(g, node, index))
    decreases Height(g, node), |node.subtypes| - index
  {
    if index < |node.subtypes| {
      var target := Target(g, node.subtypes[index]);
      LeavesAreFirstVisits(g, node, index + 1);
      if target.Some? {
        TargetIsLower(g, node, node.subtypes[index]);
        var here, there := Gathered(g, node, index + 1), Visits(g, node, index + 1);
        if target.value.subtypes == [] {
          SameAfter([target.value.kind], here, there);
        } else {
          LeavesAreFirstVisits(g, target.value, 0);
          var raw, inner := Visits(g, target.value, 0), Leaves(g, target.value);
          SameAfter(inner, here, there);
          DedupOfFront(raw, there);
        }
      }
    }
  }

  lemma SameAfter(front: seq<string>, a: seq<string>, b: seq<string>)
    requires Dedup(a) == Dedup(b)
    ensures Dedup(front + a) == Dedup(front + b)
  {
    DedupOfParts(front, a);
    DedupOfParts(front, b);
  }

  lemma {:induction false} GatheredIsReached(g: seq<NodeType>, node: NodeType, index: nat, kind: string)
    requires Acyclic(g) && node in g && node.named && index <= |node.subtypes|
    requires kind in Gathered(g, node, index)
    ensures Reaches(g, node, kind)
    decreases Height(g, node), |node.subtypes| - index
  {
    var r := node.subtypes[index];
    var target := Target(g, r);
    if target.None? || (target.value.subtypes == [] && kind != target.value.kind)
       || (target.value.subtypes != [] && (TargetIsLower(g, node, r); kind !in Leaves(g, target.value))) {
      GatheredIsReached(g, node, index + 1, kind);
    } else {
      TargetIsLower(g, node, r);
      assert LeadsTo(g, node, target.value);
      if target.value.subtypes == [] {
        assert ChainTo(g, node, [node, target.value], kind);
      } else {
        DedupHolds(Gathered(g, target.value, 0));
        GatheredIsReached(g, target.value, 0, kind);
        var chain :| ChainTo(g, target.value, chain, kind);
        ChainGrows(g, node, chain, kind);
      }
    }
  }

  lemma ChainGrows(g: seq<NodeType>, node: NodeType, chain: seq<NodeType>, kind: string)
    requires |chain| >= 1 && chain[|chain| - 1].subtypes == [] && chain[|chain| - 1].kind == kind
    requires IsChain(g, chain) && LeadsTo(g, node, chain[0])
    ensures ChainTo(g, node, [node] + chain, kind)
  {
    var longer := [node] + chain;
    forall i | 0 <= i < |longer| - 1 ensures LeadsTo(g, longer[i], longer[i + 1]) {
      if i > 0 {
        assert LeadsTo(g, chain[i - 1], chain[i]);
      }
    }
  }

  lemma {:induction false} GatheredHolds(g: seq<NodeType>, node: NodeType, index: nat, at: nat, kind: string)
    requires Acyclic(g) && node in g && node.named && index <= at < |node.subtypes|
    requires Target(g, node.subtypes[at]).Some?
    requires var target := Target(g, node.subtypes[at]).value;
      if target.subtypes == [] then kind == target.kind
      else (TargetIsLower(g, node, node.subtypes[at]); kind in Leaves(g, target))
    ensures kind in Gathered(g, node, index)
    decreases at - index
  {
    TargetIsLower(g, node, node.subtypes[at]);
    if index < at {
      GatheredHolds(g, node, index + 1, at, kind);
    }
  }

  lemma {:induction false} ReachedIsLeaf(g: seq<NodeType>, node: NodeType, chain: seq<NodeType>, kind: string)
    requires Acyclic(g) && node in g && node.named && ChainTo(g, node, chain, kind)
    ensures kind in Leaves(g, node)
    decreases |chain|
  {
    assert LeadsTo(g, chain[0], chain[1]);
    var r :| r in node.subtypes && Target(g, r) == Some(chain[1]);
    var at :| 0 <= at < |node.subtypes| && node.subtypes[at] == r;
    TargetIsLower(g, node, r);
    if |chain| > 2 {
      var rest := chain[1..];
      forall i | 0 <= i < |rest| - 1 ensures LeadsTo(g, rest[i], rest[i + 1]) {
        assert LeadsTo(g, chain[i + 1], chain[i + 1 + 1]);
      }
      assert LeadsTo(g, chain[1], chain[2]);
      ReachedIsLeaf(g, chain[1], rest, kind);
    }
    GatheredHolds(g, node, 0, at, kind);
    DedupHolds(Gathered(g, node, 0));
  }

  /** The leaves are exactly the concrete kinds that the supertype reaches, each once. */
  lemma LeavesAreExact(g: seq<NodeType>, node: NodeType)
    requires Acyclic(g) && node in g && node.named
    ensures Distinct(Leaves(g, node))
    ensures forall kind :: kind in Leaves(g, node) <==> Reaches(g, node, kind)
    ensures Leaves(g, node) == Dedup(Visits(g, node, 0))
  {
    DedupHolds(Gathered(g, node, 0));
    LeavesAreFirstVisits(g, node, 0);
    forall kind ensures kind in Leaves(g, node) <==> Reaches(g, node, kind) {
      if kind in Leaves(g, node) {
        GatheredIsReached(g, node, 0, kind);
      }
      if Reaches(g, node, kind) {
        var chain :| ChainTo(g, node, chain, kind);
        ReachedIsLeaf(g, node, chain, kind);
      }
    }
  }

  // ---------------------------------------------------------------------
  // The dispatch
  // ---------------------------------------------------------------------

  /** A match block: the kinds of its pattern, and the method it calls. */
  datatype Block = Block(kinds: seq<string>, call: string)

  /** The generated dispatch: one match with an arm per concrete kind, then a block per supertype. */
  datatype Dispatch = Dispatch(arms: seq<Block>, blocks: seq<Block>)

  /** `check_` and the kind, without one leading underscore. */
  function MethodName(kind: string): string {
    "check_" + if kind != "" && kind[0] == '_' then kind[1..] else kind
  }

  /** A leading underscore goes, and only one. */
  lemma MethodNameIsExact(kind: string, rest: string)
    ensures kind == ['_'] + rest ==> MethodName(kind) == "check_" + rest
    ensures (forall other :: kind != ['_'] + other) ==> MethodName(kind) == "check_" + kind
  {
    if kind != "" && kind[0] == '_' {
      assert kind == ['_'] + kind[1..];
    }
  }

  function Arms(g: seq<NodeType>): seq<Block> {
    if g == [] then []
    else
      var rest := Arms(g[1..]);
      if IsConcrete(g[0]) then [Block([g[0].kind], MethodName(g[0].kind))] + rest else rest
  }

  /** The blocks of the supertypes among `g[index..]`; one without leaves gets none. */
  function Blocks(g: seq<NodeType>, index: nat): seq<Block>
    requires Acyclic(g) && index <= |g|
    decreases |g| - index
  {
    if index == |g| then []
    else
      var rest := Blocks(g, index + 1);
      if IsSupertype(g[index]) && Leaves(g, g[index]) != []
      then [Block(Leaves(g, g[index]), MethodName(g[index].kind))] + rest
      else rest
  }

  function Generated(g: seq<NodeType>): Dispatch
    requires Acyclic(g)
  {
    Dispatch(Arms(g), Blocks(g, 0))
  }

  /** A match runs the first arm whose pattern has the kind. */
  function FirstMatch(arms: seq<Block>, kind: string): seq<string> {
    if arms == [] then []
    else if kind in arms[0].kinds then [arms[0].call]
    else FirstMatch(arms[1..], kind)
  }

  function Matches(blocks: seq<Block>, kind: string): seq<string> {
    if blocks == [] then []
    else
      var rest := Matches(blocks[1..], kind);
      if kind in blocks[0].kinds then [blocks[0].call] + rest else rest
  }

  /** The methods that the dispatch calls on a node of this kind, in order. */
  function Calls(dispatch: Dispatch, kind: string): seq<string> {
    FirstMatch(dispatch.arms, kind) + Matches(dispatch.blocks, kind)
  }

  /** The loops of the source, which append to the output. */
  method GenerateVisitor(g: seq<NodeType>) returns (dispatch: Dispatch)
    requires Acyclic(g)
    ensures dispatch == Generated(g)
  {
    var arms: seq<Block> := [];
    for i := 0 to |g|
      invariant arms + Arms(g[i..]) == Arms(g)
    {
      assert g[i..][1..] == g[i + 1..];
      if IsConcrete(g[i]) {
        arms := arms + [Block([g[i].kind], MethodName(g[i].kind))];
      }
    }
    var blocks: seq<Block> := [];
    for i := 0 to |g|
      invariant blocks + Blocks(g, i) == Blocks(g, 0)
    {
      if IsSupertype(g[i]) {
        var leaves := CollectLeafSubtypes(g, g[i]);
        if leaves == [] {
          continue;
        }
        blocks := blocks + [Block(leaves, MethodName(g[i].kind))];
      }
    }
    assert arms + [] == arms && blocks + [] == blocks;
    dispatch := Dispatch(arms, blocks);
  }

  ghost predicate HasConcrete(g: seq<NodeType>, kind: string) {
    exists i :: 0 <= i < |g| && IsConcrete(g[i]) && g[i].kind == kind
  }

  /** The methods of the supertypes among `g[index..]` that reach the kind, in order. */
  ghost function Above(g: seq<NodeType>, kind: string, index: nat): seq<string>
    requires index <= |g|
    decreases |g| - index
  {
    if index == |g| then []
    else
      var rest := Above(g, kind, index + 1);
      if IsSupertype(g[index]) && Reaches(g, g[index], kind) then [MethodName(g[index].kind)] + rest else rest
  }

  lemma HasConcreteFirst(g: seq<NodeType>, kind: string)
    requires g != []
    ensures HasConcrete(g, kind) <==> (IsConcrete(g[0]) && g[0].kind == kind) || HasConcrete(g[1..], kind)
  {
    if HasConcrete(g, kind) && !(IsConcrete(g[0]) && g[0].kind == kind) {
      var i :| 0 <= i < |g| && IsConcrete(g[i]) && g[i].kind == kind;
      assert g[1..][i - 1] == g[i];
    }
    if HasConcrete(g[1..], kind) {
      var i :| 0 <= i < |g[1..]| && IsConcrete(g[1..][i]) && g[1..][i].kind == kind;
      assert g[i + 1] == g[1..][i];
    }
  }

  lemma {:induction false} ArmsMatch(g: seq<NodeType>, kind: string)
    ensures FirstMatch(Arms(g), kind) == if HasConcrete(g, kind) then [MethodName(kind)] else []
  {
    if g != [] {
      ArmsMatch(g[1..], kind);
      HasConcreteFirst(g, kind);
    }
  }

  lemma {:induction false} BlocksMatch(g: seq<NodeType>, kind: string, index: nat)
    requires Acyclic(g) && index <= |g|
    ensures Matches(Blocks(g, index), kind) == Above(g, kind, index)
    decreases |g| - index
  {
    if index < |g| {
      BlocksMatch(g, kind, index + 1);
      if IsSupertype(g[index]) {
        LeavesAreExact(g, g[index]);
      }
    }
  }

  /** The dispatch calls the kind's own method, and that of each supertype that reaches it. */
  lemma DispatchIsExact(g: seq<NodeType>, kind: string)
    requires Acyclic(g)
    ensures Calls(Generated(g), kind)
         == (if HasConcrete(g, kind) then [MethodName(kind)] else []) + Above(g, kind, 0)
  {
    ArmsMatch(g, kind);
    BlocksMatch(g, kind, 0);
  }
}
