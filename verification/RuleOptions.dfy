/**
 The options of rules: from the nested table of the configuration to what each
 lint pass reads. An ordered map of the source is an association list in
 strictly increasing order of its keys.
 */
module RuleOptions {
  import opened Common
  import opened Ordering
  import opened Sequences

  /** One option of one rule, as the flat list holds it. */
  datatype RuleOption = RuleOption(rule: string, name: string, values: seq<string>)

  /** The option names of one rule, with their values. */
  datatype Section = Section(rule: string, options: seq<(string, seq<string>)>)

  /** Both levels are ordered maps: no key occurs twice. */
  ghost predicate IsTable(table: seq<Section>) {
    && (forall i, j :: 0 <= i < j < |table| ==> StringLt(table[i].rule, table[j].rule))
    && (forall k, i, j :: 0 <= k < |table| && 0 <= i < j < |table[k].options| ==>
        StringLt(table[k].options[i].0, table[k].options[j].0))
  }

  /** What the nested table holds for an option of a rule. */
  ghost predicate Sets(table: seq<Section>, rule: string, name: string, values: seq<string>) {
    exists k, i :: 0 <= k < |table| && 0 <= i < |table[k].options| &&
      table[k].rule == rule && table[k].options[i] == (name, values)
  }

  function FlatSection(rule: string, options: seq<(string, seq<string>)>): seq<RuleOption> {
    seq(|options|, i requires 0 <= i < |options| => RuleOption(rule, options[i].0, options[i].1))
  }

  /** Flattens the nested table into one list. */
  function ReadOptions(table: seq<Section>): seq<RuleOption> {
    if table == [] then [] else FlatSection(table[0].rule, table[0].options) + ReadOptions(table[1..])
  }

  /** What a rule was given for an option: the first match. */
  function Names(options: seq<RuleOption>, rule: string, name: string): Option<seq<string>> {
    if options == [] then None
    else if options[0].rule == rule && options[0].name == name then Some(options[0].values)
    else Names(options[1..], rule, name)
  }

  /** The options whose rule is among `rules`, in order. */
  function ForRules(options: seq<RuleOption>, rules: seq<string>): seq<RuleOption> {
    if options == [] then []
    else
      var rest := ForRules(options[1..], rules);
      if options[0].rule in rules then [options[0]] + rest else rest
  }

  /** The rules of the list that no plugin declares; the list is valid if there are none. */
  function Unknown(options: seq<RuleOption>, declared: set<string>): set<string> {
    set i | 0 <= i < |options| && options[i].rule !in declared :: options[i].rule
  }

  predicate IsValid(options: seq<RuleOption>, declared: set<string>) {
    Unknown(options, declared) == {}
  }

  /** A list is valid exactly when each of its rules is declared; the unknown rules are the others. */
  lemma ValidMeans(options: seq<RuleOption>, declared: set<string>)
    ensures forall rule :: rule in Unknown(options, declared) <==>
      rule !in declared && exists i :: 0 <= i < |options| && options[i].rule == rule
    ensures IsValid(options, declared) <==> forall i :: 0 <= i < |options| ==> options[i].rule in declared
  {
    forall i | 0 <= i < |options| && options[i].rule !in declared
      ensures options[i].rule in Unknown(options, declared)
    {
    }
  }

  /** A loaded lint: the language it runs on, and the rules it declares. */
  datatype Lint = Lint(language: string, rules: seq<string>)

  function Declared(lints: seq<Lint>): set<string> {
    set i, j | 0 <= i < |lints| && 0 <= j < |lints[i].rules| :: lints[i].rules[j]
  }

  ghost predicate Share(a: Lint, b: Lint) {
    a.language == b.language && exists rule :: rule in a.rules && rule in b.rules
  }

  /** Whether two lints declare one rule for one language; the loops of the source. */
  method SharesRule(lints: seq<Lint>) returns (shared: bool)
    ensures shared <==> exists i, j :: 0 <= i < j < |lints| && Share(lints[i], lints[j])
  {
    for i := 0 to |lints|
      invariant forall a, b :: 0 <= a < i && a < b < |lints| ==> !Share(lints[a], lints[b])
    {
      for j := i + 1 to |lints|
        invariant forall b :: i < b < j ==> !Share(lints[i], lints[b])
      {
        if lints[i].language != lints[j].language {
          continue;
        }
        var found := SharedRule(lints[i].rules, lints[j].rules);
        if found {
          return true;
        }
      }
    }
    return false;
  }

  method SharedRule(a: seq<string>, b: seq<string>) returns (found: bool)
    ensures found <==> exists rule :: rule in a && rule in b
  {
    for i := 0 to |a|
      invariant forall j :: 0 <= j < i ==> a[j] !in b
    {
      if a[i] in b {
        return true;
      }
    }
    return false;
  }

  // ---------------------------------------------------------------------
  // Routing
  // ---------------------------------------------------------------------

  lemma {:induction false} ReadHolds(table: seq<Section>, option: RuleOption)
    ensures option in ReadOptions(table) <==> Sets(table, option.rule, option.name, option.values)
  {
    if table != [] {
      ReadHolds(table[1..], option);
      SetsFirst(table, option);
      var flat := FlatSection(table[0].rule, table[0].options);
      if option in flat {
        var i :| 0 <= i < |flat| && flat[i] == option;
        assert table[0].options[i] == (option.name, option.values);
      }
      if table[0].rule == option.rule && (option.name, option.values) in table[0].options {
        var i :| 0 <= i < |table[0].options| && table[0].options[i] == (option.name, option.values);
        assert flat[i] == option;
      }
    }
  }

  lemma SetsFirst(table: seq<Section>, option: RuleOption)
    requires table != []
    ensures Sets(table, option.rule, option.name, option.values) <==>
      || (table[0].rule == option.rule && (option.name, option.values) in table[0].options)
      || Sets(table[1..], option.rule, option.name, option.values)
  {
    var rest := table[1..];
    if Sets(table, option.rule, option.name, option.values) {
      var k, i :| 0 <= k < |table| && 0 <= i < |table[k].options| &&
        table[k].rule == option.rule && table[k].options[i] == (option.name, option.values);
      if k > 0 {
        assert rest[k - 1] == table[k];
      }
    }
    if Sets(rest, option.rule, option.name, option.values) {
      var k, i :| 0 <= k < |rest| && 0 <= i < |rest[k].options| &&
        rest[k].rule == option.rule && rest[k].options[i] == (option.name, option.values);
      assert table[k + 1] == rest[k];
    }
  }

  /** In the order of the list: by rule, and by name under one rule. */
  ghost predicate IsBefore(a: RuleOption, b: RuleOption) {
    StringLt(a.rule, b.rule) || (a.rule == b.rule && StringLt(a.name, b.name))
  }

  /** The list is in the order of the table. */
  lemma {:induction false} ReadIsOrdered(table: seq<Section>)
    requires IsTable(table)
    ensures forall i, j :: 0 <= i < j < |ReadOptions(table)| ==> IsBefore(ReadOptions(table)[i], ReadOptions(table)[j])
  {
    if table != [] {
      var flat, rest := FlatSection(table[0].rule, table[0].options), ReadOptions(table[1..]);
      ReadIsOrdered(table[1..]);
      assert forall i, j :: 0 <= i < j < |flat| ==> StringLt(table[0].options[i].0, table[0].options[j].0);
      forall j | 0 <= j < |rest| ensures StringLt(table[0].rule, rest[j].rule) {
        assert rest[j] in rest;
        ReadHolds(table[1..], rest[j]);
        var k, i :| 0 <= k < |table[1..]| && 0 <= i < |table[1..][k].options| &&
          table[1..][k].rule == rest[j].rule && table[1..][k].options[i] == (rest[j].name, rest[j].values);
        assert table[1..][k] == table[k + 1];
      }
      hide StringLt, ReadOptions;
    }
  }

  ghost function IsAmong(rules: seq<string>): RuleOption -> bool {
    (option: RuleOption) => option.rule in rules
  }

  /** A pass gets the options of its rules, in the order of the list. */
  lemma {:induction false} ForRulesPicks(options: seq<RuleOption>, rules: seq<string>) returns (at: seq<nat>)
    ensures Filters(options, IsAmong(rules), at, ForRules(options, rules))
  {
    if options == [] {
      at := [];
    } else {
      at := ForRulesPicks(options[1..], rules);
      FiltersLater(options, IsAmong(rules), at, ForRules(options[1..], rules));
      at := if options[0].rule in rules then [0] + Shifted(at) else Shifted(at);
    }
  }

  /** An ordered table holds one value for an option of a rule. */
  lemma SetsOnce(table: seq<Section>, rule: string, name: string, a: seq<string>, b: seq<string>)
    requires IsTable(table) && Sets(table, rule, name, a) && Sets(table, rule, name, b)
    ensures a == b
  {
    var k, i :| 0 <= k < |table| && 0 <= i < |table[k].options| && table[k].rule == rule && table[k].options[i] == (name, a);
    var l, j :| 0 <= l < |table| && 0 <= j < |table[l].options| && table[l].rule == rule && table[l].options[j] == (name, b);
    assert k == l;
    assert i == j;
  }

  /** A name is looked up at its first match. */
  lemma {:induction false} NamesIsFirst(options: seq<RuleOption>, rule: string, name: string) returns (at: nat)
    requires Names(options, rule, name).Some?
    ensures at < |options| && options[at] == RuleOption(rule, name, Names(options, rule, name).value)
    ensures forall i :: 0 <= i < at ==> !(options[i].rule == rule && options[i].name == name)
  {
    at := 0;
    if !(options[0].rule == rule && options[0].name == name) {
      at := NamesIsFirst(options[1..], rule, name);
      at := at + 1;
    }
  }

  lemma {:induction false} NamesHolds(options: seq<RuleOption>, rule: string, name: string)
    ensures Names(options, rule, name).Some? ==> RuleOption(rule, name, Names(options, rule, name).value) in options
    ensures Names(options, rule, name).None? ==> forall values :: RuleOption(rule, name, values) !in options
  {
    if options != [] {
      NamesHolds(options[1..], rule, name);
    }
  }

  lemma {:induction false} ForRulesHolds(options: seq<RuleOption>, rules: seq<string>, option: RuleOption)
    ensures option in ForRules(options, rules) <==> option in options && option.rule in rules
  {
    if options != [] {
      ForRulesHolds(options[1..], rules, option);
    }
  }

  /**
   Routing is exact: through `ForRules` and `Names` a pass reads, for a rule that
   it declares, what the table holds, with absent and empty kept apart; and for
   any other rule nothing.
   */
  lemma RoutingIsExact(table: seq<Section>, rules: seq<string>, rule: string, name: string, values: seq<string>)
    requires IsTable(table)
    ensures Names(ForRules(ReadOptions(table), rules), rule, name) == Some(values) <==>
      rule in rules && Sets(table, rule, name, values)
  {
    var routed := ForRules(ReadOptions(table), rules);
    NamesHolds(routed, rule, name);
    var option := RuleOption(rule, name, values);
    ForRulesHolds(ReadOptions(table), rules, option);
    ReadHolds(table, option);
    if Names(routed, rule, name).Some? {
      var read := RuleOption(rule, name, Names(routed, rule, name).value);
      ForRulesHolds(ReadOptions(table), rules, read);
      ReadHolds(table, read);
      if Sets(table, rule, name, values) {
        SetsOnce(table, rule, name, values, read.values);
      }
    }
  }

  /** A table is accepted exactly when some lint declares each rule that it sets an option of. */
  lemma AcceptedExactly(table: seq<Section>, lints: seq<Lint>)
    ensures IsValid(ReadOptions(table), Declared(lints)) <==>
      forall rule, name, values :: Sets(table, rule, name, values) ==> exists i :: 0 <= i < |lints| && rule in lints[i].rules
  {
    var options := ReadOptions(table);
    ValidMeans(options, Declared(lints));
    forall rule ensures rule in Declared(lints) <==> exists i :: 0 <= i < |lints| && rule in lints[i].rules {
      if i :| 0 <= i < |lints| && rule in lints[i].rules {
        var j :| 0 <= j < |lints[i].rules| && lints[i].rules[j] == rule;
      }
    }
    hide Declared, IsValid, Sets, ReadOptions;
    forall rule, name, values | Sets(table, rule, name, values)
      ensures exists at :: 0 <= at < |options| && options[at].rule == rule
    {
      ReadHolds(table, RuleOption(rule, name, values));
      var at :| 0 <= at < |options| && options[at] == RuleOption(rule, name, values);
    }
    forall at | 0 <= at < |options| ensures Sets(table, options[at].rule, options[at].name, options[at].values) {
      assert options[at] in options;
      ReadHolds(table, options[at]);
    }
  }

  /** If the list is valid, every entry of the table reaches a lint, and one per language at most. */
  lemma ValidReachesOne(table: seq<Section>, lints: seq<Lint>, rule: string, name: string, values: seq<string>)
    requires IsTable(table) && IsValid(ReadOptions(table), Declared(lints)) && Sets(table, rule, name, values)
    ensures exists i :: 0 <= i < |lints| && Names(ForRules(ReadOptions(table), lints[i].rules), rule, name) == Some(values)
    ensures (forall i, j :: 0 <= i < j < |lints| ==> !Share(lints[i], lints[j])) ==>
      forall i, j :: 0 <= i < j < |lints| && lints[i].language == lints[j].language ==>
        Names(ForRules(ReadOptions(table), lints[i].rules), rule, name).None? ||
        Names(ForRules(ReadOptions(table), lints[j].rules), rule, name).None?
  {
    var options, option := ReadOptions(table), RuleOption(rule, name, values);
    ReadHolds(table, option);
    var at :| 0 <= at < |options| && options[at] == option;
    ValidMeans(options, Declared(lints));
    assert options[at].rule in Declared(lints);
    var i, r :| 0 <= i < |lints| && 0 <= r < |lints[i].rules| && lints[i].rules[r] == rule;
    RoutingIsExact(table, lints[i].rules, rule, name, values);
    forall a, b | 0 <= a < b < |lints| && lints[a].language == lints[b].language && !Share(lints[a], lints[b])
      ensures Names(ForRules(options, lints[a].rules), rule, name).None? || Names(ForRules(options, lints[b].rules), rule, name).None?
    {
      ReadsOwnOnly(options, lints[a].rules, rule, name);
      ReadsOwnOnly(options, lints[b].rules, rule, name);
    }
  }

  lemma ReadsOwnOnly(options: seq<RuleOption>, rules: seq<string>, rule: string, name: string)
    ensures Names(ForRules(options, rules), rule, name).Some? ==> rule in rules
  {
    var routed := ForRules(options, rules);
    NamesHolds(routed, rule, name);
    if Names(routed, rule, name).Some? {
      ForRulesHolds(options, rules, RuleOption(rule, name, Names(routed, rule, name).value));
    }
  }
}
