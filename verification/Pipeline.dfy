/**
 The pipeline on one file: the providers offer their decorations, and the lint
 passes walk the decorated tree. Parsing is not part of this model; a source that
 does not parse is None.
 */
module Pipeline {
  import opened Common
  import opened Sequences
  import opened Decorations
  import opened Walker

  /** What a provider answers: it malfunctions, covers the file, or does not. */
  datatype Provided = Failed(error: string) | Covered(decorations: seq<Entry>) | NotCovered(gap: string)

  /** A provider, which sees the tree before anything decorates it. */
  datatype Provider = Provider(name: string, decorate: Node -> Provided)

  datatype RunError =
    | NoSyntaxTree
    | ProviderFailed(provider: string, error: string)
    | Uncovered(gaps: seq<(string, string)>)
    | LintsFailed(fault: Fault)

  /** What the provider at each index adds to the tree: nothing unless it covers the file. */
  ghost function MapsOf(providers: seq<Provider>, root: Node): seq<seq<Entry>> {
    seq(|providers|, i requires 0 <= i < |providers| =>
      match providers[i].decorate(root)
      case Covered(decorations) => decorations
      case _ => [])
  }

  /** The decorations of the tree that the passes see: those of each provider, by index. */
  ghost function TreeOf(providers: seq<Provider>, root: Node): seq<Entry> {
    Flatten(MapsOf(providers, root))
  }

  ghost predicate NoneCovers(providers: seq<Provider>, root: Node, count: nat)
    requires count <= |providers|
  {
    forall i :: 0 <= i < count ==> !providers[i].decorate(root).Covered?
  }

  /** `covered` are the decorations of the providers that cover the file, by increasing index. */
  ghost predicate IsCovered(providers: seq<Provider>, root: Node, covered: seq<seq<Entry>>, at: seq<nat>) {
    && Increasing(at, |providers|) && |covered| == |at|
    && (forall k :: 0 <= k < |at| ==> providers[at[k]].decorate(root) == Covered(covered[k]))
    && (forall i: nat :: i < |providers| && providers[i].decorate(root).Covered? ==> i in at)
  }

  /** `gaps` are those that the other providers report, by increasing index. */
  ghost predicate AreGaps(providers: seq<Provider>, root: Node, gaps: seq<(string, string)>, at: seq<nat>) {
    && Increasing(at, |providers|) && |gaps| == |at|
    && (forall k :: 0 <= k < |at| ==> providers[at[k]].decorate(root) == NotCovered(gaps[k].1) && gaps[k].0 == providers[at[k]].name)
    && (forall i: nat :: i < |providers| && providers[i].decorate(root).NotCovered? ==> i in at)
  }

  ghost predicate NoneFails(providers: seq<Provider>, root: Node, count: nat)
    requires count <= |providers|
  {
    forall i :: 0 <= i < count ==> !providers[i].decorate(root).Failed?
  }

  /** The provider at `index` is the first that fails, with this error. */
  ghost predicate FirstFails(providers: seq<Provider>, root: Node, index: nat, error: RunError) {
    && index < |providers| && NoneFails(providers, root, index)
    && providers[index].decorate(root).Failed?
    && error == ProviderFailed(providers[index].name, providers[index].decorate(root).error)
  }

  /** The loop that asks each provider, up to the first that fails. */
  method AskProviders(root: Node, providers: seq<Provider>) returns (r: Result<(seq<seq<Entry>>, seq<(string, string)>), RunError>)
    ensures r.Ok? <==> NoneFails(providers, root, |providers|)
    ensures r.Ok? ==>
      && (exists at :: IsCovered(providers, root, r.value.0, at))
      && (exists at :: AreGaps(providers, root, r.value.1, at))
    ensures r.Err? ==> exists i :: FirstFails(providers, root, i, r.error)
  {
    var covered, gaps := [], [];
    ghost var coveredAt: seq<nat>, gapsAt: seq<nat> := [], [];
    for i := 0 to |providers|
      invariant NoneFails(providers, root, i)
      invariant IsCovered(providers[..i], root, covered, coveredAt) && AreGaps(providers[..i], root, gaps, gapsAt)
    {
      assert providers[..i + 1] == providers[..i] + [providers[i]];
      var provided := providers[i].decorate(root);
      match provided
      case Failed(error) =>
        assert FirstFails(providers, root, i, ProviderFailed(providers[i].name, error));
        return Err(ProviderFailed(providers[i].name, error));
      case Covered(decorations) =>
        covered := covered + [decorations];
        coveredAt := coveredAt + [i];
      case NotCovered(gap) =>
        gaps := gaps + [(providers[i].name, gap)];
        gapsAt := gapsAt + [i];
    }
    assert providers[..|providers|] == providers;
    r := Ok((covered, gaps));
  }

  /** What covers the file, one after the other, is the tree; and nothing does exactly when there is none. */
  lemma {:induction false} CoveredIsTree(providers: seq<Provider>, root: Node, covered: seq<seq<Entry>>, at: seq<nat>)
    requires IsCovered(providers, root, covered, at)
    ensures Flatten(covered) == TreeOf(providers, root)
    ensures covered == [] <==> NoneCovers(providers, root, |providers|)
    decreases |providers|
  {
    if providers == [] {
      assert covered == [];
    } else {
      hide TreeOf, IsCovered;
      var most, last := providers[..|providers| - 1], |providers| - 1;
      TreeMore(providers, root);
      var before, beforeAt := covered, at;
      if last in at {
        CoveredLength(providers, root, covered, at);
        before, beforeAt := covered[..|at| - 1], at[..|at| - 1];
        assert covered == before + [covered[|at| - 1]];
      }
      CoveredBefore(providers, root, covered, at, before, beforeAt);
      CoveredIsTree(most, root, before, beforeAt);
      assert NoneCovers(providers, root, |providers|) <==>
        NoneCovers(most, root, |most|) && !providers[last].decorate(root).Covered?;
    }
  }

  lemma CoveredLength(providers: seq<Provider>, root: Node, covered: seq<seq<Entry>>, at: seq<nat>)
    requires IsCovered(providers, root, covered, at)
    ensures |covered| == |at|
  {
  }

  /** The last provider adds its decorations, if it covers the file. */
  lemma TreeMore(providers: seq<Provider>, root: Node)
    requires providers != []
    ensures var before, provided := TreeOf(providers[..|providers| - 1], root), providers[|providers| - 1].decorate(root);
      TreeOf(providers, root) == if provided.Covered? then before + provided.decorations else before
  {
    var last := |providers| - 1;
    assert MapsOf(providers, root)[..last] == MapsOf(providers[..last], root);
  }

  lemma CoveredBefore(providers: seq<Provider>, root: Node, covered: seq<seq<Entry>>, at: seq<nat>, before: seq<seq<Entry>>, beforeAt: seq<nat>)
    requires IsCovered(providers, root, covered, at) && providers != []
    requires if |providers| - 1 in at then before == covered[..|at| - 1] && beforeAt == at[..|at| - 1] else before == covered && beforeAt == at
    ensures IsCovered(providers[..|providers| - 1], root, before, beforeAt)
    ensures |providers| - 1 in at <==> providers[|providers| - 1].decorate(root).Covered?
    ensures |providers| - 1 in at ==> providers[|providers| - 1].decorate(root) == Covered(covered[|at| - 1])
  {
    IncreasingLast(at, |providers|);
    if |providers| - 1 in at {
      assert providers[at[|at| - 1]].decorate(root) == Covered(covered[|at| - 1]);
    }
  }

  /** Each provider reports a gap, by index. */
  ghost predicate ReportGaps(providers: seq<Provider>, root: Node, gaps: seq<(string, string)>) {
    && |gaps| == |providers|
    && forall i :: 0 <= i < |providers| ==> providers[i].name == gaps[i].0 && providers[i].decorate(root) == NotCovered(gaps[i].1)
  }

  /** If no provider covers the file and none fails, each reports a gap. */
  lemma GapsAreAll(providers: seq<Provider>, root: Node, gaps: seq<(string, string)>, at: seq<nat>)
    requires AreGaps(providers, root, gaps, at)
    requires NoneFails(providers, root, |providers|) && NoneCovers(providers, root, |providers|)
    ensures ReportGaps(providers, root, gaps)
  {
    forall i: nat | i < |providers| ensures i in at {
      assert providers[i].decorate(root).NotCovered?;
    }
    AllIndices(at, |providers|);
  }

  lemma AnswersAreTree(providers: seq<Provider>, root: Node, covered: seq<seq<Entry>>, gaps: seq<(string, string)>)
    requires (exists at :: IsCovered(providers, root, covered, at)) && (exists at :: AreGaps(providers, root, gaps, at))
    requires NoneFails(providers, root, |providers|)
    ensures Flatten(covered) == TreeOf(providers, root)
    ensures covered == [] <==> NoneCovers(providers, root, |providers|)
    ensures covered == [] ==> ReportGaps(providers, root, gaps)
  {
    hide ReportGaps, TreeOf, Flatten;
    var at :| IsCovered(providers, root, covered, at);
    CoveredIsTree(providers, root, covered, at);
    var gapsAt :| AreGaps(providers, root, gaps, gapsAt);
    if covered == [] {
      GapsAreAll(providers, root, gaps, gapsAt);
    }
  }

  lemma {:induction false} AllIndices(at: seq<nat>, count: nat)
    requires Increasing(at, count) && forall i: nat :: i < count ==> i in at
    ensures |at| == count && forall i :: 0 <= i < count ==> at[i] == i
    decreases count
  {
    IncreasingFits(at, count);
    if count > 0 {
      IncreasingLast(at, count);
      assert count - 1 in at;
      var before := at[..|at| - 1];
      forall i: nat | i < count - 1 ensures i in before {
        assert i in at;
      }
      AllIndices(before, count - 1);
    }
  }

  /** The loop that merges each map into the tree. */
  method JoinMaps(covered: seq<seq<Entry>>) returns (tree: seq<Entry>)
    ensures tree == Flatten(covered)
  {
    tree := [];
    for i := 0 to |covered|
      invariant tree == Flatten(covered[..i])
    {
      assert covered[..i + 1][..i] == covered[..i];
      tree := tree + covered[i];
    }
    assert covered[..|covered|] == covered;
  }

  /** The passes run only if no provider failed and one covered the file, and then on all that was covered. */
  method RunOnSource<S>(language: string, parsed: Option<Node>, providers: seq<Provider>, lints: seq<Lint<S>>)
    returns (r: Result<seq<Diagnostic>, RunError>)
    requires Distinct(lints)
    modifies lints
    ensures parsed.None? ==> r == Err(NoSyntaxTree)
    ensures parsed.Some? && !NoneFails(providers, parsed.value, |providers|) ==>
      r.Err? && r.error.ProviderFailed? && exists i :: FirstFails(providers, parsed.value, i, r.error)
    ensures parsed.Some? && NoneFails(providers, parsed.value, |providers|) && NoneCovers(providers, parsed.value, |providers|) ==>
      r.Err? && r.error.Uncovered? && ReportGaps(providers, parsed.value, r.error.gaps)
    ensures r.Err? && !r.error.LintsFailed? ==> States(lints) == old(States(lints))
    ensures r.Ok? || r.error.LintsFailed? ==>
      && parsed.Some? && NoneFails(providers, parsed.value, |providers|) && !NoneCovers(providers, parsed.value, |providers|)
      && var matching := Matching(lints, language);
        && AreThoseOf(lints, language, matching)
        && |Passes(matching)| == |old(States(matching))|
        && Ends(Walked(Passes(matching), TreeOf(providers, parsed.value), parsed.value, old(States(matching))), [], States(matching),
             if r.Ok? then Ok(r.value) else Err(r.error.fault))
  {
    hide Ends, Walked, AreThoseOf, IsCovered, AreGaps, TreeOf, ReportGaps, Flatten;
    ghost var matching := Matching(lints, language);
    MatchingHolds(lints, language);
    if parsed.None? {
      return Err(NoSyntaxTree);
    }
    var asked := AskProviders(parsed.value, providers);
    if asked.Err? {
      return Err(asked.error);
    }
    var (covered, gaps) := asked.value;
    AnswersAreTree(providers, parsed.value, covered, gaps);
    if covered == [] {
      return Err(Uncovered(gaps));
    }
    var tree := JoinMaps(covered);
    assert States(matching) == old(States(matching));
    var walked := WalkLints(language, parsed.value, tree, lints);
    r := match walked
      case Ok(diagnostics) => Ok(diagnostics)
      case Err(fault) => Err(LintsFailed(fault));
  }

  // ---------------------------------------------------------------------
  // What a pass sees
  // ---------------------------------------------------------------------

  /** What the map at each index records for a node and a type. */
  ghost function Recorded(maps: seq<seq<Entry>>, node: nat, kind: Kind): seq<seq<nat>> {
    seq(|maps|, i requires 0 <= i < |maps| => All(Scan(maps[i], node), kind))
  }

  lemma {:induction false} SeesAll(maps: seq<seq<Entry>>, node: nat, kind: Kind)
    ensures All(Scan(Flatten(maps), node), kind) == Flatten(Recorded(maps, node, kind))
  {
    if maps != [] {
      var most := maps[..|maps| - 1];
      SeesAll(most, node, kind);
      MergeKeepsFirst(Flatten(most), maps[|maps| - 1], node, kind);
      assert Recorded(maps, node, kind)[..|maps| - 1] == Recorded(most, node, kind);
    }
  }

  /** No entry under the key of this type holds another. */
  ghost predicate OneType(entries: seq<Entry>, kind: Kind) {
    forall entry :: entry in entries && entry.key == kind.key ==> entry.tag == kind.tag
  }

  lemma {:induction false} FirstUnderIsIn(on: seq<Entry>, key: string)
    ensures FirstUnder(on, key).Some? ==> FirstUnder(on, key).value in on && FirstUnder(on, key).value.key == key
  {
    if on != [] {
      FirstUnderIsIn(on[1..], key);
    }
  }

  lemma {:induction false} ScanIsIn(entries: seq<Entry>, node: nat)
    ensures forall entry :: entry in Scan(entries, node) ==> entry in entries
  {
    if entries != [] {
      ScanIsIn(entries[1..], node);
    }
  }

  /** The head of several lists is that of the first that is not empty. */
  lemma {:induction false} HeadOfFlat(lists: seq<seq<nat>>, earliest: nat)
    requires earliest <= |lists| && forall i :: 0 <= i < earliest ==> lists[i] == []
    requires earliest < |lists| ==> lists[earliest] != []
    ensures Head(Flatten(lists)) == if earliest < |lists| then Some(lists[earliest][0]) else None
    decreases |lists|
  {
    if lists != [] {
      var most := lists[..|lists| - 1];
      if earliest == |lists| {
        HeadOfFlat(most, |most|);
      } else {
        HeadOfFlat(most, earliest);
      }
    }
  }

  lemma HeadIsFirst(entries: seq<Entry>, node: nat, kind: Kind)
    requires OneType(entries, kind)
    ensures First(Scan(entries, node), kind) == Head(All(Scan(entries, node), kind))
  {
    var on := Scan(entries, node);
    FirstIsHead(on, kind);
    FirstUnderIsIn(on, kind.key);
    ScanIsIn(entries, node);
  }

  /** What a provider records for a node and a type: nothing unless it covers the file. */
  ghost function RecordedBy(provider: Provider, root: Node, node: nat, kind: Kind): seq<nat> {
    match provider.decorate(root)
    case Covered(decorations) => All(Scan(decorations, node), kind)
    case _ => []
  }

  /** A pass sees all that the providers recorded for a node and a type, by increasing index. */
  lemma PassSeesAll(providers: seq<Provider>, root: Node, node: nat, kind: Kind)
    ensures All(Scan(TreeOf(providers, root), node), kind)
         == Flatten(seq(|providers|, i requires 0 <= i < |providers| => RecordedBy(providers[i], root, node, kind)))
  {
    SeesAll(MapsOf(providers, root), node, kind);
    assert Recorded(MapsOf(providers, root), node, kind)
        == seq(|providers|, i requires 0 <= i < |providers| => RecordedBy(providers[i], root, node, kind));
  }

  /**
   A pass sees, for a node and a type, the decoration of the provider with the
   least index that covers the file and recorded one, or none when no provider
   did, as long as the key names one type.
   */
  lemma PassSeesEarliest(providers: seq<Provider>, root: Node, node: nat, kind: Kind, earliest: nat)
    requires OneType(TreeOf(providers, root), kind)
    requires earliest <= |providers| && forall i :: 0 <= i < earliest ==> RecordedBy(providers[i], root, node, kind) == []
    requires earliest < |providers| ==> RecordedBy(providers[earliest], root, node, kind) != []
    ensures First(Scan(TreeOf(providers, root), node), kind)
         == if earliest < |providers| then Some(RecordedBy(providers[earliest], root, node, kind)[0]) else None
  {
    PassSeesAll(providers, root, node, kind);
    HeadIsFirst(TreeOf(providers, root), node, kind);
    hide All, Scan, TreeOf, RecordedBy;
    HeadOfFlat(seq(|providers|, i requires 0 <= i < |providers| => RecordedBy(providers[i], root, node, kind)), earliest);
  }
}
