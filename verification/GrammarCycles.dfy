/** When the recursion over supertypes ends: exactly when no reference leads back. */
module GrammarCycles {
  import opened Common
  import opened Sequences
  import opened Grammar
  import opened Visitor

  /** A chain of named nodes of the grammar. */
  ghost predicate IsChainOf(g: seq<NodeType>, chain: seq<NodeType>) {
    && IsChain(g, chain)
    && forall i :: 0 <= i < |chain| ==> chain[i] in g && chain[i].named
  }

  /** A chain of references that comes back to where it started. */
  ghost predicate IsCycle(g: seq<NodeType>, chain: seq<NodeType>) {
    |chain| >= 2 && IsChainOf(g, chain) && chain[0] == chain[|chain| - 1]
  }

  ghost predicate HasCycle(g: seq<NodeType>) { exists chain :: IsCycle(g, chain) }

  lemma {:induction false} RankFalls(g: seq<NodeType>, rank: map<NodeType, nat>, chain: seq<NodeType>)
    requires Ranks(g, rank) && IsChainOf(g, chain) && |chain| >= 2
    ensures RankIn(rank, chain[|chain| - 1]) < RankIn(rank, chain[0])
    decreases |chain|
  {
    assert LeadsTo(g, chain[|chain| - 2], chain[|chain| - 2 + 1]);
    if |chain| > 2 {
      var most := chain[..|chain| - 1];
      SubchainIsChain(g, chain, 0, |chain| - 1);
      assert chain[0..|chain| - 1] == most;
      RankFalls(g, rank, most);
    }
  }

  lemma SubchainIsChain(g: seq<NodeType>, chain: seq<NodeType>, from: nat, until: nat)
    requires IsChainOf(g, chain) && from <= until <= |chain|
    ensures IsChainOf(g, chain[from..until])
  {
    var part := chain[from..until];
    forall i | 0 <= i < |part| - 1 ensures LeadsTo(g, part[i], part[i + 1]) {
      assert LeadsTo(g, chain[from + i], chain[from + i + 1]);
    }
  }

  // ---------------------------------------------------------------------
  // Without a cycle, the longest chain from a node ranks it
  // ---------------------------------------------------------------------

  ghost function Nodes(g: seq<NodeType>): set<NodeType> { set node | node in g }

  ghost predicate StartsChain(g: seq<NodeType>, node: NodeType, length: nat) {
    exists chain :: IsChainOf(g, chain) && |chain| == length && length > 0 && chain[0] == node
  }

  /** Without a cycle a chain repeats no node, so it is no longer than the grammar. */
  lemma ChainsAreShort(g: seq<NodeType>, chain: seq<NodeType>)
    requires !HasCycle(g) && IsChainOf(g, chain)
    ensures |chain| <= |Nodes(g)|
  {
    forall i, j | 0 <= i < j < |chain| ensures chain[i] != chain[j] {
      SubchainIsChain(g, chain, i, j + 1);
      var part := chain[i..j + 1];
      assert part[0] == chain[i] && part[|part| - 1] == chain[j];
      assert !IsCycle(g, part);
    }
    DistinctFits(chain, Nodes(g));
  }

  lemma {:induction false} DistinctFits(chain: seq<NodeType>, all: set<NodeType>)
    requires forall i, j :: 0 <= i < j < |chain| ==> chain[i] != chain[j]
    requires forall i :: 0 <= i < |chain| ==> chain[i] in all
    ensures |chain| <= |all|
    decreases |chain|
  {
    if chain != [] {
      var last := chain[|chain| - 1];
      DistinctFits(chain[..|chain| - 1], all - {last});
      assert |all - {last}| == |all| - 1;
    }
  }

  /** The length of the longest chain from a node, up to `bound`. */
  ghost function Longest(g: seq<NodeType>, node: NodeType, bound: nat): nat {
    if bound == 0 || StartsChain(g, node, bound) then bound else Longest(g, node, bound - 1)
  }

  lemma {:induction false} LongestHolds(g: seq<NodeType>, node: NodeType, bound: nat)
    ensures Longest(g, node, bound) <= bound
    ensures Longest(g, node, bound) == 0 || StartsChain(g, node, Longest(g, node, bound))
    ensures forall length :: Longest(g, node, bound) < length <= bound ==> !StartsChain(g, node, length)
  {
    if bound > 0 && !StartsChain(g, node, bound) {
      LongestHolds(g, node, bound - 1);
    }
  }

  lemma TargetIsShorter(g: seq<NodeType>, node: NodeType, next: NodeType)
    requires !HasCycle(g) && node in g && node.named && next in g && next.named && LeadsTo(g, node, next)
    ensures Longest(g, next, |Nodes(g)|) < Longest(g, node, |Nodes(g)|)
  {
    var bound := |Nodes(g)|;
    LongestHolds(g, next, bound);
    LongestHolds(g, node, bound);
    var length := Longest(g, next, bound);
    var chain: seq<NodeType> := [];
    if length > 0 {
      chain :| IsChainOf(g, chain) && |chain| == length && chain[0] == next;
    } else {
      chain := [next];
    }
    var longer := [node] + chain;
    forall i | 0 <= i < |longer| - 1 ensures LeadsTo(g, longer[i], longer[i + 1]) {
      if i > 0 {
        assert LeadsTo(g, chain[i - 1], chain[i - 1 + 1]);
      }
    }
    assert IsChainOf(g, longer);
    ChainsAreShort(g, longer);
    assert StartsChain(g, node, |longer|);
  }

  lemma NoCycleRanks(g: seq<NodeType>)
    requires !HasCycle(g)
    ensures Acyclic(g)
  {
    var rank := map node | node in g :: Longest(g, node, |Nodes(g)|);
    forall node, r | node in g && node.named && r in node.subtypes && Target(g, r).Some?
      ensures RankIn(rank, Target(g, r).value) < RankIn(rank, node)
    {
      FindHolds(g, r.kind);
      TargetIsShorter(g, node, Target(g, r).value);
    }
    assert Ranks(g, rank);
  }

  /** The references can be ranked exactly when no chain of them comes back. */
  lemma AcyclicMeansNoCycle(g: seq<NodeType>)
    ensures Acyclic(g) <==> !HasCycle(g)
  {
    if Acyclic(g) {
      var rank :| Ranks(g, rank);
      forall chain ensures !IsCycle(g, chain) {
        if |chain| >= 2 && IsChainOf(g, chain) {
          RankFalls(g, rank, chain);
        }
      }
    }
    if !HasCycle(g) {
      NoCycleRanks(g);
    }
  }

  // ---------------------------------------------------------------------
  // The recursion itself, cut off at a depth
  // ---------------------------------------------------------------------

  /**
   The recursion over the references from `index` on, of any grammar, with at most
   `depth` calls inside one another; None when that is not enough.
   */
  function Attempt(g: seq<NodeType>, node: NodeType, index: nat, depth: nat): Option<seq<string>>
    requires index <= |node.subtypes|
    decreases depth, |node.subtypes| - index
  {
    if index == |node.subtypes| then Some([])
    else
      var target, rest := Target(g, node.subtypes[index]), Attempt(g, node, index + 1, depth);
      if rest.None? || target.None? then rest
      else if target.value.subtypes == [] then Some([target.value.kind] + rest.value)
      else if depth == 0 then None
      else match Attempt(g, target.value, 0, depth - 1)
        case None => None
        case Some(inner) => Some(Dedup(inner) + rest.value)
  }

  /** Whether the recursion on a node ends. */
  ghost predicate Ends(g: seq<NodeType>, node: NodeType) {
    exists depth :: Attempt(g, node, 0, depth).Some?
  }

  /** A chain of references from the node comes back to a node it has passed. */
  ghost predicate LeadsBack(g: seq<NodeType>, node: NodeType) {
    exists chain, at :: ComesBack(g, node, chain, at)
  }

  ghost predicate ComesBack(g: seq<NodeType>, node: NodeType, chain: seq<NodeType>, at: nat) {
    at < |chain| - 1 && IsChainOf(g, chain) && chain[0] == node && chain[at] == chain[|chain| - 1]
  }

  lemma ChainLonger(g: seq<NodeType>, node: NodeType, chain: seq<NodeType>)
    requires node in g && node.named && IsChainOf(g, chain) && chain != [] && LeadsTo(g, node, chain[0])
    ensures IsChainOf(g, [node] + chain)
  {
    var longer := [node] + chain;
    forall i | 0 <= i < |longer| - 1 ensures LeadsTo(g, longer[i], longer[i + 1]) {
      if i > 0 {
        assert LeadsTo(g, chain[i - 1], chain[i - 1 + 1]);
      }
    }
  }

  /** A recursion that is cut off has followed a chain as long as the depth. */
  lemma {:induction false} CutOffHasChain(g: seq<NodeType>, node: NodeType, index: nat, depth: nat)
    requires node in g && node.named && index <= |node.subtypes| && Attempt(g, node, index, depth).None?
    ensures StartsChain(g, node, depth + 2)
    decreases depth, |node.subtypes| - index
  {
    if Attempt(g, node, index + 1, depth).None? {
      CutOffHasChain(g, node, index + 1, depth);
    } else {
      var r := node.subtypes[index];
      var next := Target(g, r).value;
      FindHolds(g, r.kind);
      assert LeadsTo(g, node, next);
      var chain := [next];
      if depth > 0 {
        CutOffHasChain(g, next, 0, depth - 1);
        chain :| IsChainOf(g, chain) && |chain| == depth + 1 && chain[0] == next;
      }
      ChainLonger(g, node, chain);
      assert ([node] + chain)[0] == node;
    }
  }

  /** A chain that is longer than the depth cuts the recursion off. */
  lemma {:induction false} ChainCutsOff(g: seq<NodeType>, node: NodeType, chain: seq<NodeType>, index: nat, depth: nat)
    requires IsChainOf(g, chain) && |chain| >= depth + 3 && chain[0] == node && index <= |node.subtypes|
    requires exists at :: index <= at < |node.subtypes| && Target(g, node.subtypes[at]) == Some(chain[1])
    ensures Attempt(g, node, index, depth).None?
    decreases depth, |node.subtypes| - index
  {
    var at :| index <= at < |node.subtypes| && Target(g, node.subtypes[at]) == Some(chain[1]);
    if index < at {
      ChainCutsOff(g, node, chain, index + 1, depth);
    } else {
      assert LeadsTo(g, chain[1], chain[1 + 1]);
      if depth > 0 {
        SubchainIsChain(g, chain, 1, |chain|);
        NextIsReferred(g, chain, 1);
        ChainCutsOff(g, chain[1], chain[1..|chain|], 0, depth - 1);
      }
    }
  }

  lemma NextIsReferred(g: seq<NodeType>, chain: seq<NodeType>, i: nat)
    requires IsChainOf(g, chain) && i < |chain| - 1
    ensures exists at :: 0 <= at < |chain[i].subtypes| && Target(g, chain[i].subtypes[at]) == Some(chain[i + 1])
  {
    assert LeadsTo(g, chain[i], chain[i + 1]);
    var r :| r in chain[i].subtypes && Target(g, r) == Some(chain[i + 1]);
    var at :| 0 <= at < |chain[i].subtypes| && chain[i].subtypes[at] == r;
  }

  /** A chain that comes back can go round as often as one likes. */
  lemma {:induction false} GoRound(g: seq<NodeType>, node: NodeType, chain: seq<NodeType>, at: nat, length: nat) returns (longer: seq<NodeType>)
    requires ComesBack(g, node, chain, at)
    ensures IsChainOf(g, longer) && |longer| >= length && |longer| >= 2 && longer[0] == node
    decreases length - |chain|
  {
    longer := chain;
    if |chain| < length {
      var more := chain + chain[at + 1..];
      forall i | 0 <= i < |more| - 1 ensures LeadsTo(g, more[i], more[i + 1]) {
        var k := if i < |chain| - 1 then i else i - |chain| + 1 + at;
        assert LeadsTo(g, chain[k], chain[k + 1]);
      }
      assert ComesBack(g, node, more, at);
      longer := GoRound(g, node, more, at, length);
    }
  }

  /** Where no chain comes back, chains are no longer than the grammar. */
  lemma ChainsFromAreShort(g: seq<NodeType>, node: NodeType, chain: seq<NodeType>)
    requires !LeadsBack(g, node) && IsChainOf(g, chain) && chain != [] && chain[0] == node
    ensures |chain| <= |Nodes(g)|
  {
    forall i: nat, j: nat | i < j < |chain| ensures chain[i] != chain[j] {
      SubchainIsChain(g, chain, 0, j + 1);
      assert !ComesBack(g, node, chain[0..j + 1], i);
    }
    DistinctFits(chain, Nodes(g));
  }

  /** The recursion on a node ends exactly when no chain of references from it comes back. */
  lemma RecursionEnds(g: seq<NodeType>, node: NodeType)
    requires node in g && node.named
    ensures Ends(g, node) <==> !LeadsBack(g, node)
  {
    if LeadsBack(g, node) {
      var chain, at :| ComesBack(g, node, chain, at);
      forall depth: nat ensures Attempt(g, node, 0, depth).None? {
        var longer := GoRound(g, node, chain, at, depth + 3);
        NextIsReferred(g, longer, 0);
        ChainCutsOff(g, node, longer, 0, depth);
      }
    } else {
      var depth := |Nodes(g)|;
      if Attempt(g, node, 0, depth).None? {
        CutOffHasChain(g, node, 0, depth);
        var chain :| IsChainOf(g, chain) && |chain| == depth + 2 && chain[0] == node;
        ChainsFromAreShort(g, node, chain);
      }
    }
  }

  /** On an acyclic grammar, what the recursion returns before it is cut off is what it gathers. */
  lemma {:induction false} AttemptGathers(g: seq<NodeType>, node: NodeType, index: nat, depth: nat)
    requires Acyclic(g) && node in g && node.named && index <= |node.subtypes| && Attempt(g, node, index, depth).Some?
    ensures Attempt(g, node, index, depth).value == Gathered(g, node, index)
    decreases depth, |node.subtypes| - index
  {
    if index < |node.subtypes| {
      AttemptGathers(g, node, index + 1, depth);
      var target := Target(g, node.subtypes[index]);
      if target.Some? && target.value.subtypes != [] {
        TargetIsLower(g, node, node.subtypes[index]);
        AttemptGathers(g, target.value, 0, depth - 1);
      }
    }
  }

  /** The recursion ends on every node exactly when the grammar has no cycle, and then returns the leaves. */
  lemma RecursionEndsExactly(g: seq<NodeType>)
    ensures (forall node :: node in g && node.named ==> Ends(g, node)) <==> Acyclic(g)
    ensures Acyclic(g) ==> forall node, depth :: node in g && node.named && Attempt(g, node, 0, depth).Some? ==>
      Dedup(Attempt(g, node, 0, depth).value) == Leaves(g, node)
  {
    AcyclicMeansNoCycle(g);
    forall node | node in g && node.named ensures Ends(g, node) <==> !LeadsBack(g, node) {
      RecursionEnds(g, node);
    }
    hide Ends, Acyclic;
    if HasCycle(g) {
      var chain :| IsCycle(g, chain);
      assert ComesBack(g, chain[0], chain, 0);
    } else {
      forall node ensures !LeadsBack(g, node) {
        NoCycleNoReturn(g, node);
      }
    }
    forall node, depth: nat | Acyclic(g) && node in g && node.named && Attempt(g, node, 0, depth).Some?
      ensures Dedup(Attempt(g, node, 0, depth).value) == Leaves(g, node)
    {
      AttemptGathers(g, node, 0, depth);
    }
  }

  lemma NoCycleNoReturn(g: seq<NodeType>, node: NodeType)
    requires !HasCycle(g)
    ensures !LeadsBack(g, node)
  {
    forall chain, at: nat ensures !ComesBack(g, node, chain, at) {
      if at < |chain| - 1 && IsChainOf(g, chain) {
        SubchainIsChain(g, chain, at, |chain|);
        var part := chain[at..|chain|];
        assert part[0] == chain[at] && part[|part| - 1] == chain[|chain| - 1];
        assert !IsCycle(g, part);
      }
    }
  }
}
