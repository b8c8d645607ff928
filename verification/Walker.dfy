/**
 The walk of lint passes over a decorated tree: stateful passes that see each
 named node in lockstep, and stop at the first fault.

 A pass is a state with a step function. A panic, which the plugin catches at its
 boundary, is a value that the step returns.
 */
module Walker {
  import opened Common
  import opened Sequences
  import opened Decorations

  /** A syntax node with its named children. */
  datatype Node = Node(id: nat, kind: string, named: bool, children: seq<Node>)

  /** A node as a pass sees it, with the decorations of its tree. */
  datatype DecoratedNode = DecoratedNode(node: Node, decorations: seq<Entry>)

  datatype Diagnostic = Diagnostic(rule: string, message: string, node: nat)

  /** What a pass answers for one node. */
  datatype Checked = Reported(diagnostics: seq<Diagnostic>) | Panicked(message: string)

  /** The rules that a plugin declared for a pass, or that nothing did. */
  datatype Declared = Rules(rules: seq<string>) | Unchecked

  datatype Fault = PassPanic(kind: string, node: nat, message: string) | UndeclaredRule(rule: string, node: nat)

  /** A pass with its rules, apart from its state. */
  datatype Pass<!S> = Pass(language: string, declared: Declared, step: (S, DecoratedNode) -> (S, Checked))

  /** The first diagnostic under a rule that is not declared. */
  function Stray(diagnostics: seq<Diagnostic>, rules: seq<string>): Option<Diagnostic> {
    if diagnostics == [] then None
    else if diagnostics[0].rule !in rules then Some(diagnostics[0])
    else Stray(diagnostics[1..], rules)
  }

  /** One call: the new state, and the diagnostics unless there is a fault. */
  function Check<S>(pass: Pass<S>, state: S, at: DecoratedNode): (S, Result<seq<Diagnostic>, Fault>) {
    var (next, checked) := pass.step(state, at);
    match checked
    case Panicked(message) => (next, Err(PassPanic(at.node.kind, at.node.id, message)))
    case Reported(diagnostics) =>
      if pass.declared.Unchecked? then (next, Ok(diagnostics))
      else match Stray(diagnostics, pass.declared.rules)
        case Some(stray) => (next, Err(UndeclaredRule(stray.rule, at.node.id)))
        case None => (next, Ok(diagnostics))
  }

  lemma {:induction false} StrayMeans(diagnostics: seq<Diagnostic>, rules: seq<string>)
    ensures Stray(diagnostics, rules).None? <==> forall d :: d in diagnostics ==> d.rule in rules
    ensures Stray(diagnostics, rules).Some? ==>
      Stray(diagnostics, rules).value in diagnostics && Stray(diagnostics, rules).value.rule !in rules
  {
    if diagnostics != [] {
      StrayMeans(diagnostics[1..], rules);
      assert diagnostics[0] in diagnostics && forall d :: d in diagnostics <==> d == diagnostics[0] || d in diagnostics[1..];
    }
  }

  /** The diagnostic at `k` is the first under a rule that is not declared. */
  ghost predicate StraysAt(diagnostics: seq<Diagnostic>, rules: seq<string>, k: nat) {
    && k < |diagnostics| && diagnostics[k].rule !in rules
    && forall j :: 0 <= j < k ==> diagnostics[j].rule in rules
  }

  lemma {:induction false} StrayIsFirst(diagnostics: seq<Diagnostic>, rules: seq<string>) returns (k: nat)
    requires Stray(diagnostics, rules).Some?
    ensures StraysAt(diagnostics, rules, k) && Stray(diagnostics, rules).value == diagnostics[k]
  {
    k := 0;
    if diagnostics[0].rule in rules {
      k := StrayIsFirst(diagnostics[1..], rules);
      k := k + 1;
    }
  }

  ghost predicate MayReport(declared: Declared, diagnostics: seq<Diagnostic>) {
    declared.Rules? ==> forall d :: d in diagnostics ==> d.rule in declared.rules
  }

  /** The state always moves on, exactly a panic or an undeclared rule is a fault, and it says what and where. */
  lemma CheckIsExact<S>(pass: Pass<S>, state: S, at: DecoratedNode)
    ensures var (next, checked) := pass.step(state, at);
      var (moved, result) := Check(pass, state, at);
      && moved == next
      && (result.Ok? <==> checked.Reported? && MayReport(pass.declared, checked.diagnostics))
      && (result.Ok? ==> result.value == checked.diagnostics)
      && (checked.Panicked? ==> result == Err(PassPanic(at.node.kind, at.node.id, checked.message)))
      && (checked.Reported? && result.Err? ==> exists k: nat ::
          && StraysAt(checked.diagnostics, pass.declared.rules, k)
          && result.error == UndeclaredRule(checked.diagnostics[k].rule, at.node.id))
  {
    var (_, checked) := pass.step(state, at);
    if checked.Reported? && pass.declared.Rules? {
      StrayMeans(checked.diagnostics, pass.declared.rules);
      if Stray(checked.diagnostics, pass.declared.rules).Some? {
        var k := StrayIsFirst(checked.diagnostics, pass.declared.rules);
      }
    }
  }

  // ---------------------------------------------------------------------
  // The reference: a list of calls, made one after the other
  // ---------------------------------------------------------------------

  /** A call: which pass is to see which node. */
  datatype Call = Call(node: Node, pass: nat)

  /** The states that the calls left, what each successful one found, and the fault that stopped them. */
  datatype Outcome<S> = Outcome(states: seq<S>, found: seq<seq<Diagnostic>>, fault: Option<Fault>)

  ghost predicate CallsFit(calls: seq<Call>, count: nat) {
    forall i :: 0 <= i < |calls| ==> calls[i].pass < count
  }

  /** Makes `calls` in order, up to the first fault. */
  ghost function Run<S>(passes: seq<Pass<S>>, tree: seq<Entry>, calls: seq<Call>, states: seq<S>): (o: Outcome<S>)
    requires |passes| == |states| && CallsFit(calls, |passes|)
    ensures |o.states| == |states|
    ensures |o.found| <= |calls| && (o.fault.None? <==> |o.found| == |calls|)
  {
    if calls == [] then Outcome(states, [], None)
    else
      var before := Run(passes, tree, calls[..|calls| - 1], states);
      if before.fault.Some? then before
      else
        var Call(node, pass) := calls[|calls| - 1];
        var (next, result) := Check(passes[pass], before.states[pass], DecoratedNode(node, tree));
        match result
        case Err(fault) => Outcome(before.states[pass := next], before.found, Some(fault))
        case Ok(diagnostics) => Outcome(before.states[pass := next], before.found + [diagnostics], None)
  }

  /** A run goes on from where its first part stopped, unless that was a fault. */
  lemma {:induction false} RunConcat<S>(passes: seq<Pass<S>>, tree: seq<Entry>, a: seq<Call>, b: seq<Call>, states: seq<S>)
    requires |passes| == |states| && CallsFit(a, |passes|) && CallsFit(b, |passes|)
    ensures CallsFit(a + b, |passes|)
    ensures var first := Run(passes, tree, a, states);
      if first.fault.Some? then Run(passes, tree, a + b, states) == first
      else
        var second := Run(passes, tree, b, first.states);
        Run(passes, tree, a + b, states) == Outcome(second.states, first.found + second.found, second.fault)
    decreases |b|
  {
    if b == [] {
      assert a + b == a;
    } else {
      var most, last := b[..|b| - 1], b[|b| - 1];
      assert (a + b)[..|a + b| - 1] == a + most && (a + b)[|a + b| - 1] == last;
      RunConcat(passes, tree, a, most, states);
    }
  }

  /** Each pass in turn on one node. */
  ghost function Row(node: Node, count: nat): seq<Call> {
    seq(count, i requires 0 <= i => Call(node, i))
  }

  /** The calls of a walk: nodes in pre-order, and on each the passes in order. */
  ghost function Schedule(node: Node, count: nat): seq<Call>
    decreases node, 1, 0
  {
    (if node.named then Row(node, count) else []) + ScheduleFrom(node, 0, count)
  }

  ghost function ScheduleFrom(node: Node, index: nat, count: nat): seq<Call>
    decreases node, 0, |node.children| - index
  {
    if index >= |node.children| then []
    else Schedule(node.children[index], count) + ScheduleFrom(node, index + 1, count)
  }

  lemma {:induction false} ScheduleFits(node: Node, count: nat)
    ensures CallsFit(Schedule(node, count), count)
    decreases node, 1, 0
  {
    ScheduleFromFits(node, 0, count);
  }

  lemma {:induction false} ScheduleFromFits(node: Node, index: nat, count: nat)
    ensures CallsFit(ScheduleFrom(node, index, count), count)
    decreases node, 0, |node.children| - index
  {
    if index < |node.children| {
      ScheduleFits(node.children[index], count);
      ScheduleFromFits(node, index + 1, count);
    }
  }

  /** The named nodes of a tree, each before its children. */
  ghost function Preorder(node: Node): seq<Node>
    decreases node, 1, 0
  {
    (if node.named then [node] else []) + PreorderFrom(node, 0)
  }

  ghost function PreorderFrom(node: Node, index: nat): seq<Node>
    decreases node, 0, |node.children| - index
  {
    if index >= |node.children| then [] else Preorder(node.children[index]) + PreorderFrom(node, index + 1)
  }

  ghost function Rows(nodes: seq<Node>, count: nat): seq<Call> {
    if nodes == [] then [] else Row(nodes[0], count) + Rows(nodes[1..], count)
  }

  lemma {:induction false} RowsConcat(a: seq<Node>, b: seq<Node>, count: nat)
    ensures Rows(a + b, count) == Rows(a, count) + Rows(b, count)
  {
    if a == [] {
      assert a + b == b;
    } else {
      assert (a + b)[0] == a[0] && (a + b)[1..] == a[1..] + b;
      RowsConcat(a[1..], b, count);
    }
  }

  /** The walk takes the nodes in pre-order, and all the passes on each before the next. */
  lemma {:induction false} ScheduleIsPreorder(node: Node, count: nat)
    ensures Schedule(node, count) == Rows(Preorder(node), count)
    decreases node, 1, 0
  {
    ScheduleFromIsPreorder(node, 0, count);
    RowsConcat(if node.named then [node] else [], PreorderFrom(node, 0), count);
    assert Rows([node], count) == Row(node, count) + Rows([node][1..], count);
  }

  lemma {:induction false} ScheduleFromIsPreorder(node: Node, index: nat, count: nat)
    ensures ScheduleFrom(node, index, count) == Rows(PreorderFrom(node, index), count)
    decreases node, 0, |node.children| - index
  {
    if index < |node.children| {
      ScheduleIsPreorder(node.children[index], count);
      ScheduleFromIsPreorder(node, index + 1, count);
      RowsConcat(Preorder(node.children[index]), PreorderFrom(node, index + 1), count);
    }
  }

  // ---------------------------------------------------------------------
  // Each pass on its own
  // ---------------------------------------------------------------------

  /** The calls to one pass, as calls to the only pass there is. */
  ghost function Own(calls: seq<Call>, pass: nat): seq<Call> {
    if calls == [] then []
    else
      var before, last := Own(calls[..|calls| - 1], pass), calls[|calls| - 1];
      if last.pass == pass then before + [Call(last.node, 0)] else before
  }

  /** What the calls to one pass found. */
  ghost function OwnFound(calls: seq<Call>, found: seq<seq<Diagnostic>>, pass: nat): seq<seq<Diagnostic>>
    requires |found| == |calls|
  {
    if calls == [] then []
    else
      var before := OwnFound(calls[..|calls| - 1], found[..|found| - 1], pass);
      if calls[|calls| - 1].pass == pass then before + [found[|found| - 1]] else before
  }

  lemma {:induction false} OwnFits(calls: seq<Call>, pass: nat)
    ensures CallsFit(Own(calls, pass), 1)
  {
    if calls != [] {
      OwnFits(calls[..|calls| - 1], pass);
    }
  }

  /** Without a fault, a pass ends in the state, and finds what it finds, when it runs alone. */
  lemma {:induction false} RunsAsIfAlone<S>(passes: seq<Pass<S>>, tree: seq<Entry>, calls: seq<Call>, states: seq<S>, pass: nat)
    requires |passes| == |states| && CallsFit(calls, |passes|) && pass < |passes|
    requires Run(passes, tree, calls, states).fault.None?
    ensures CallsFit(Own(calls, pass), 1)
    ensures Run([passes[pass]], tree, Own(calls, pass), [states[pass]])
         == Outcome([Run(passes, tree, calls, states).states[pass]], OwnFound(calls, Run(passes, tree, calls, states).found, pass), None)
    decreases |calls|
  {
    OwnFits(calls, pass);
    if calls != [] {
      var most, last := calls[..|calls| - 1], calls[|calls| - 1];
      var before := Run(passes, tree, most, states);
      RunsAsIfAlone(passes, tree, most, states, pass);
      var after := Run(passes, tree, calls, states);
      assert after.found[..|after.found| - 1] == before.found;
      if last.pass == pass {
        var own := Own(most, pass);
        assert (own + [Call(last.node, 0)])[..|own|] == own;
      }
    }
  }

  lemma {:induction false} OwnConcat(a: seq<Call>, b: seq<Call>, pass: nat)
    ensures Own(a + b, pass) == Own(a, pass) + Own(b, pass)
    decreases |b|
  {
    if b == [] {
      assert a + b == a;
    } else {
      var most := b[..|b| - 1];
      assert (a + b)[..|a + b| - 1] == a + most;
      OwnConcat(a, most, pass);
    }
  }

  lemma {:induction false} OwnOfRow(node: Node, count: nat, pass: nat)
    ensures Own(Row(node, count), pass) == if pass < count then Row(node, 1) else []
    decreases count
  {
    if count > 0 {
      assert Row(node, count)[..count - 1] == Row(node, count - 1);
      OwnOfRow(node, count - 1, pass);
      assert Row(node, 1) == [Call(node, 0)];
    }
  }

  /** The walk shows each pass the nodes that a walk of that pass alone shows it. */
  lemma {:induction false} OwnOfSchedule(node: Node, count: nat, pass: nat)
    requires pass < count
    ensures Own(Schedule(node, count), pass) == Schedule(node, 1)
    decreases node, 1, 0
  {
    var row := if node.named then Row(node, count) else [];
    OwnConcat(row, ScheduleFrom(node, 0, count), pass);
    OwnOfRow(node, count, pass);
    OwnOfScheduleFrom(node, 0, count, pass);
  }

  lemma {:induction false} OwnOfScheduleFrom(node: Node, index: nat, count: nat, pass: nat)
    requires pass < count
    ensures Own(ScheduleFrom(node, index, count), pass) == ScheduleFrom(node, index, 1)
    decreases node, 0, |node.children| - index
  {
    if index < |node.children| {
      OwnOfSchedule(node.children[index], count, pass);
      OwnOfScheduleFrom(node, index + 1, count, pass);
      OwnConcat(Schedule(node.children[index], count), ScheduleFrom(node, index + 1, count), pass);
    }
  }

  /** The outcome of a walk. */
  ghost function Walked<S>(passes: seq<Pass<S>>, tree: seq<Entry>, root: Node, states: seq<S>): (o: Outcome<S>)
    requires |passes| == |states|
    ensures |o.states| == |states|
  {
    ScheduleFits(root, |passes|);
    Run(passes, tree, Schedule(root, |passes|), states)
  }

  /** A walk that succeeds does to each pass what walking it alone does. */
  lemma WalkIsolates<S>(passes: seq<Pass<S>>, tree: seq<Entry>, root: Node, states: seq<S>, pass: nat)
    requires |passes| == |states| && pass < |passes|
    requires Walked(passes, tree, root, states).fault.None?
    ensures var o, alone := Walked(passes, tree, root, states), Walked([passes[pass]], tree, root, [states[pass]]);
      && alone.fault.None?
      && alone.states == [o.states[pass]]
      && |o.found| == |Schedule(root, |passes|)|
      && alone.found == OwnFound(Schedule(root, |passes|), o.found, pass)
  {
    ScheduleFits(root, |passes|);
    OwnOfSchedule(root, |passes|, pass);
    RunsAsIfAlone(passes, tree, Schedule(root, |passes|), states, pass);
  }

  /** Whatever a pass with declared rules reports is under one of them. */
  lemma {:induction false} RulesAreDeclared<S>(passes: seq<Pass<S>>, tree: seq<Entry>, calls: seq<Call>, states: seq<S>, i: nat)
    requires |passes| == |states| && CallsFit(calls, |passes|)
    requires i < |Run(passes, tree, calls, states).found| && passes[calls[i].pass].declared.Rules?
    ensures forall d :: d in Run(passes, tree, calls, states).found[i] ==> d.rule in passes[calls[i].pass].declared.rules
    decreases |calls|
  {
    var most, last := calls[..|calls| - 1], calls[|calls| - 1];
    var before := Run(passes, tree, most, states);
    if i < |before.found| {
      RulesAreDeclared(passes, tree, most, states, i);
    } else {
      var (_, checked) := passes[last.pass].step(before.states[last.pass], DecoratedNode(last.node, tree));
      StrayMeans(checked.diagnostics, passes[last.pass].declared.rules);
    }
  }

  /** A fault is the first: the calls before it succeed, and those after it are not made. */
  lemma {:induction false} FaultIsFirst<S>(passes: seq<Pass<S>>, tree: seq<Entry>, calls: seq<Call>, states: seq<S>)
    requires |passes| == |states| && CallsFit(calls, |passes|)
    requires Run(passes, tree, calls, states).fault.Some?
    ensures var o := Run(passes, tree, calls, states);
      var at := |o.found|;
      && at < |calls| && CallsFit(calls[..at], |passes|)
      && var before := Run(passes, tree, calls[..at], states);
        var (next, result) := Check(passes[calls[at].pass], before.states[calls[at].pass], DecoratedNode(calls[at].node, tree));
        && before.fault.None? && before.found == o.found
        && result == Err(o.fault.value)
        && o.states == before.states[calls[at].pass := next]
    decreases |calls|
  {
    var most := calls[..|calls| - 1];
    if Run(passes, tree, most, states).fault.Some? {
      FaultIsFirst(passes, tree, most, states);
      var at := |Run(passes, tree, most, states).found|;
      assert most[..at] == calls[..at];
    }
  }

  // ---------------------------------------------------------------------
  // The walk of the source
  // ---------------------------------------------------------------------

  /** A pass with its rules, whose state the walk changes. */
  class Lint<!S> {
    const pass: Pass<S>
    var state: S

    constructor (pass: Pass<S>, state: S)
      ensures this.pass == pass && this.state == state
    {
      this.pass := pass;
      this.state := state;
    }

    method CheckNode(at: DecoratedNode) returns (r: Result<seq<Diagnostic>, Fault>)
      modifies this`state
      ensures (state, r) == Check(pass, old(state), at)
    {
      var (next, checked) := pass.step(state, at);
      state := next;
      if checked.Panicked? {
        return Err(PassPanic(at.node.kind, at.node.id, checked.message));
      }
      var found := checked.diagnostics;
      if pass.declared.Unchecked? {
        return Ok(found);
      }
      var stray := Stray(found, pass.declared.rules);
      if stray.Some? {
        return Err(UndeclaredRule(stray.value.rule, at.node.id));
      }
      return Ok(found);
    }
  }

  ghost function Passes<S>(lints: seq<Lint<S>>): seq<Pass<S>> {
    seq(|lints|, i requires 0 <= i < |lints| => lints[i].pass)
  }

  ghost function States<S>(lints: seq<Lint<S>>): seq<S>
    reads lints
  {
    seq(|lints|, i requires 0 <= i < |lints| reads lints => lints[i].state)
  }

  /** The result and the states of a walk, told by the outcome of its calls. */
  ghost predicate Ends<S>(o: Outcome<S>, before: seq<Diagnostic>, after: seq<S>, r: Result<seq<Diagnostic>, Fault>) {
    && after == o.states
    && match o.fault
       case Some(fault) => r == Err(fault)
       case None => r == Ok(before + Flatten(o.found))
  }

  lemma EndsAtOnce<S>(passes: seq<Pass<S>>, tree: seq<Entry>, states: seq<S>, diagnostics: seq<Diagnostic>)
    requires |passes| == |states|
    ensures CallsFit([], |passes|) && Ends(Run(passes, tree, [], states), diagnostics, states, Ok(diagnostics))
  {
    assert diagnostics + [] == diagnostics;
  }

  /** One more call, after calls that found no fault. */
  lemma EndsAfterCall<S>(passes: seq<Pass<S>>, tree: seq<Entry>, calls: seq<Call>, call: Call, start: seq<S>, diagnostics: seq<Diagnostic>, states: seq<S>, found: seq<Diagnostic>)
    requires |passes| == |start| == |states| && CallsFit(calls, |passes|) && call.pass < |passes|
    requires Ends(Run(passes, tree, calls, start), diagnostics, states, Ok(found))
    ensures CallsFit(calls + [call], |passes|)
    ensures var (next, result) := Check(passes[call.pass], states[call.pass], DecoratedNode(call.node, tree));
      Ends(Run(passes, tree, calls + [call], start), diagnostics, states[call.pass := next],
        match result case Err(fault) => Err(fault) case Ok(more) => Ok(found + more))
  {
    var before := Run(passes, tree, calls, start);
    var (next, result) := Check(passes[call.pass], states[call.pass], DecoratedNode(call.node, tree));
    assert (calls + [call])[..|calls|] == calls;
    if result.Ok? {
      FlattenConcat(before.found, [result.value]);
      FlattenOne(result.value);
      assert diagnostics + (Flatten(before.found) + result.value) == found + result.value;
    }
  }

  /** A fault stays, whatever calls were to follow; and a success goes on. */
  lemma EndsAfterCalls<S>(passes: seq<Pass<S>>, tree: seq<Entry>, a: seq<Call>, b: seq<Call>, start: seq<S>, diagnostics: seq<Diagnostic>, states: seq<S>, r: Result<seq<Diagnostic>, Fault>)
    requires |passes| == |start| == |states| && CallsFit(a, |passes|) && CallsFit(b, |passes|)
    requires Ends(Run(passes, tree, a, start), diagnostics, states, r)
    ensures CallsFit(a + b, |passes|)
    ensures r.Err? ==> Ends(Run(passes, tree, a + b, start), diagnostics, states, r)
    ensures r.Ok? ==> forall after, result ::
      Ends(Run(passes, tree, b, states), r.value, after, result) ==> Ends(Run(passes, tree, a + b, start), diagnostics, after, result)
  {
    RunConcat(passes, tree, a, b, start);
    var first := Run(passes, tree, a, start);
    if r.Ok? {
      var second := Run(passes, tree, b, states);
      FlattenConcat(first.found, second.found);
      assert diagnostics + Flatten(first.found) + Flatten(second.found) == diagnostics + (Flatten(first.found) + Flatten(second.found));
    }
  }

  /** The loop over the passes on one node. */
  method CheckRow<S>(node: Node, tree: seq<Entry>, lints: seq<Lint<S>>, diagnostics: seq<Diagnostic>)
    returns (r: Result<seq<Diagnostic>, Fault>)
    requires Distinct(lints)
    modifies lints
    ensures CallsFit(Row(node, |lints|), |lints|)
    ensures Ends(Run(Passes(lints), tree, Row(node, |lints|), old(States(lints))), diagnostics, States(lints), r)
  {
    hide Run, Ends, Check;
    ghost var passes, start := Passes(lints), States(lints);
    EndsAtOnce(passes, tree, start, diagnostics);
    assert Row(node, 0) == [];
    r := Ok(diagnostics);
    for i := 0 to |lints|
      invariant CallsFit(Row(node, i), |lints|)
      invariant r.Ok? && Ends(Run(passes, tree, Row(node, i), start), diagnostics, States(lints), r)
    {
      ghost var states := States(lints);
      EndsAfterCall(passes, tree, Row(node, i), Call(node, i), start, diagnostics, states, r.value);
      assert Row(node, i) + [Call(node, i)] == Row(node, i + 1);
      var checked := lints[i].CheckNode(DecoratedNode(node, tree));
      assert States(lints) == states[i := lints[i].state];
      if checked.Err? {
        ghost var rest := Row(node, |lints|)[i + 1..];
        assert Row(node, i + 1) + rest == Row(node, |lints|);
        EndsAfterCalls(passes, tree, Row(node, i + 1), rest, start, diagnostics, States(lints), Err(checked.error));
        return Err(checked.error);
      }
      r := Ok(r.value + checked.value);
    }
  }

  /** The recursion of the source, which appends to the diagnostics. */
  method VisitNode<S>(node: Node, tree: seq<Entry>, lints: seq<Lint<S>>, diagnostics: seq<Diagnostic>)
    returns (r: Result<seq<Diagnostic>, Fault>)
    requires Distinct(lints)
    modifies lints
    ensures CallsFit(Schedule(node, |lints|), |lints|)
    ensures Ends(Run(Passes(lints), tree, Schedule(node, |lints|), old(States(lints))), diagnostics, States(lints), r)
    decreases node
  {
    hide Run, Ends, Row;
    ghost var passes, start := Passes(lints), States(lints);
    ScheduleFits(node, |lints|);
    ScheduleFromFits(node, 0, |lints|);
    ghost var done := if node.named then Row(node, |lints|) else [];
    r := Ok(diagnostics);
    if node.named {
      r := CheckRow(node, tree, lints, diagnostics);
    } else {
      EndsAtOnce(passes, tree, start, diagnostics);
    }
    var i := 0;
    while r.Ok? && i < |node.children|
      invariant i <= |node.children|
      invariant CallsFit(done, |lints|) && CallsFit(ScheduleFrom(node, i, |lints|), |lints|)
      invariant done + ScheduleFrom(node, i, |lints|) == Schedule(node, |lints|)
      invariant Ends(Run(passes, tree, done, start), diagnostics, States(lints), r)
    {
      ghost var child := Schedule(node.children[i], |lints|);
      ghost var states, before := States(lints), r;
      ScheduleFits(node.children[i], |lints|);
      ScheduleFromFits(node, i + 1, |lints|);
      r := VisitNode(node.children[i], tree, lints, r.value);
      EndsAfterCalls(passes, tree, done, child, start, diagnostics, states, before);
      assert done + (child + ScheduleFrom(node, i + 1, |lints|)) == done + child + ScheduleFrom(node, i + 1, |lints|);
      done := done + child;
      i := i + 1;
    }
    EndsAfterCalls(passes, tree, done, ScheduleFrom(node, i, |lints|), start, diagnostics, States(lints), r);
    assert r.Ok? ==> done + [] == done;
  }

  /** The lints of a language, in order. */
  function Matching<S>(lints: seq<Lint<S>>, language: string): seq<Lint<S>> {
    if lints == [] then []
    else
      var rest := Matching(lints[1..], language);
      if lints[0].pass.language == language then [lints[0]] + rest else rest
  }

  ghost function RunsOn<S>(language: string): Lint<S> -> bool {
    (lint: Lint<S>) => lint.pass.language == language
  }

  /** `matching` are the lints of the language, in the order in which `lints` has them. */
  ghost predicate AreThoseOf<S>(lints: seq<Lint<S>>, language: string, matching: seq<Lint<S>>) {
    exists at :: Picks(lints, at, matching) &&
      forall i: nat :: i < |lints| ==> (i in at <==> lints[i].pass.language == language)
  }

  lemma {:induction false} MatchingPicks<S>(lints: seq<Lint<S>>, language: string) returns (at: seq<nat>)
    ensures Filters(lints, RunsOn(language), at, Matching(lints, language))
  {
    if lints == [] {
      at := [];
    } else {
      at := MatchingPicks(lints[1..], language);
      FiltersLater(lints, RunsOn(language), at, Matching(lints[1..], language));
      at := if lints[0].pass.language == language then [0] + Shifted(at) else Shifted(at);
    }
  }

  lemma {:induction false} MatchingHolds<S>(lints: seq<Lint<S>>, language: string)
    ensures forall i :: 0 <= i < |Matching(lints, language)| ==>
      Matching(lints, language)[i] in lints && Matching(lints, language)[i].pass.language == language
    ensures forall i :: 0 <= i < |lints| && lints[i].pass.language == language ==> lints[i] in Matching(lints, language)
    ensures Distinct(lints) ==> Distinct(Matching(lints, language))
  {
    if lints != [] {
      MatchingHolds(lints[1..], language);
    }
  }

  /** The passes of the tree's language walk it, and those of another language keep their state. */
  method WalkLints<S>(language: string, root: Node, tree: seq<Entry>, lints: seq<Lint<S>>)
    returns (r: Result<seq<Diagnostic>, Fault>)
    requires Distinct(lints)
    modifies lints
    ensures var matching := Matching(lints, language);
      && AreThoseOf(lints, language, matching)
      && |Passes(matching)| == |old(States(matching))|
      && Ends(Walked(Passes(matching), tree, root, old(States(matching))), [], States(matching), r)
    ensures forall lint :: lint in lints && lint.pass.language != language ==> lint.state == old(lint.state)
  {
    MatchingHolds(lints, language);
    ghost var at := MatchingPicks(lints, language);
    var matching := Matching(lints, language);
    hide Run, Ends, Schedule;
    r := VisitNode(root, tree, matching, []);
  }
}
