/** The rewriter of one bundle: the macros it collects, checks and rewrites by. */
module Bundler {
  import opened Common
  import opened Tokens
  import opened Splice
  import opened Rewrite

  /** Whether an attribute `#[...]` starts at `tokens[index]`. */
  ghost predicate IsAttribute(tokens: seq<Token>, index: nat) {
    && index + 1 < |tokens| && tokens[index].Punct? && tokens[index].character == '#'
    && tokens[index + 1].Group? && tokens[index + 1].delimiter == Bracket
  }

  /** Whether the attribute at `tokens[index]` starts with the word `macro_export`. */
  ghost predicate IsMacroExport(tokens: seq<Token>, index: nat) {
    && IsAttribute(tokens, index) && |tokens[index + 1].tokens| > 0
    && tokens[index + 1].tokens[0].Ident? && tokens[index + 1].tokens[0].name == "macro_export"
  }

  /** Whether `#[macro_export]` is among the attributes right before `tokens[stop]`. */
  ghost predicate Exported(tokens: seq<Token>, stop: nat)
    requires stop <= |tokens|
  {
    exists k :: 1 <= k <= stop / 2 && IsMacroExport(tokens, stop - 2 * k) && AttributesBefore(tokens, stop, k)
  }

  ghost predicate AttributesBefore(tokens: seq<Token>, stop: nat, count: nat)
    requires 2 * count <= stop <= |tokens|
  {
    forall j :: 1 <= j <= count ==> IsAttribute(tokens, stop - 2 * j)
  }

  /** The loop of the source, backwards over the attributes. */
  method HasMacroExport(tokens: seq<Token>, stop: nat) returns (found: bool)
    requires stop <= |tokens|
    ensures found <==> Exported(tokens, stop)
  {
    var end := stop;
    ghost var passed := 0;
    while end >= 2
      invariant end == stop - 2 * passed
      invariant AttributesBefore(tokens, stop, passed)
      invariant forall j :: 1 <= j <= passed ==> !IsMacroExport(tokens, stop - 2 * j)
    {
      var group := tokens[end - 1];
      if !IsPunct(tokens, end - 2, '#') || !group.Group? || group.delimiter != Bracket {
        assert !IsAttribute(tokens, stop - 2 * (passed + 1));
        return false;
      }
      passed := passed + 1;
      if IsIdent(group.tokens, 0) && group.tokens[0].name == "macro_export" {
        assert IsMacroExport(tokens, stop - 2 * passed) && AttributesBefore(tokens, stop, passed);
        return true;
      }
      end := end - 2;
    }
    return false;
  }

  /** Whether `tokens[index]` starts the definition of an exported macro. */
  ghost predicate Defines(tokens: seq<Token>, index: nat) {
    && IsIdent(tokens, index) && tokens[index].name == "macro_rules"
    && IsPunct(tokens, index + 1, '!') && IsIdent(tokens, index + 2)
    && Exported(tokens, index)
  }

  /** The names of the macros that `tokens[index]` and what it holds export. */
  ghost function DefinitionsAt(tokens: seq<Token>, index: nat): seq<string>
    requires index < |tokens|
    decreases tokens, 0, 0
  {
    if tokens[index].Group? then Definitions(tokens[index].tokens, 0)
    else if Defines(tokens, index) then [tokens[index + 2].name]
    else []
  }

  /** The names of the macros that the tokens from `index` on export, in order. */
  ghost function Definitions(tokens: seq<Token>, index: nat): seq<string>
    requires index <= |tokens|
    decreases tokens, 1, |tokens| - index
  {
    if index == |tokens| then [] else DefinitionsAt(tokens, index) + Definitions(tokens, index + 1)
  }

  /** `counts` holds each name of `names`, with the number of times it occurs. */
  ghost predicate Tallies(counts: map<string, nat>, names: multiset<string>) {
    forall name ::
      && (name in counts <==> name in names)
      && (name in counts ==> counts[name] == names[name])
  }

  /** The recursive loop of the source, which adds to the counts it is given. */
  method CollectMacros(tokens: seq<Token>, exported: map<string, nat>, ghost before: multiset<string>) returns (counts: map<string, nat>)
    requires Tallies(exported, before)
    ensures Tallies(counts, before + multiset(Definitions(tokens, 0)))
    decreases tokens, 1
  {
    hide DefinitionsAt;
    counts := exported;
    ghost var seen := before;
    for index := 0 to |tokens|
      invariant Tallies(counts, seen)
      invariant seen + multiset(Definitions(tokens, index)) == before + multiset(Definitions(tokens, 0))
    {
      counts := CollectToken(tokens, index, counts, seen);
      seen := seen + multiset(DefinitionsAt(tokens, index));
    }
  }

  method CollectToken(tokens: seq<Token>, index: nat, exported: map<string, nat>, ghost before: multiset<string>) returns (counts: map<string, nat>)
    requires index < |tokens| && Tallies(exported, before)
    ensures Tallies(counts, before + multiset(DefinitionsAt(tokens, index)))
    decreases tokens, 0
  {
    counts := exported;
    if tokens[index].Group? {
      counts := CollectMacros(tokens[index].tokens, counts, before);
    } else if IsIdent(tokens, index) && tokens[index].name == "macro_rules" && IsPunct(tokens, index + 1, '!') && IsIdent(tokens, index + 2) {
      var name := tokens[index + 2].name;
      var found := HasMacroExport(tokens, index);
      if found {
        counts := counts[name := if name in counts then counts[name] + 1 else 1];
        assert DefinitionsAt(tokens, index) == [name];
      }
    }
  }

  /** The rewriter of one bundle. */
  class Rewriter {
    const crates: set<string>
    var exported: map<string, nat>
    /** The names of every exported macro of the files collected so far. */
    ghost var collected: multiset<string>

    ghost predicate Valid()
      reads this
    {
      Tallies(exported, collected)
    }

    constructor (crates: set<string>)
      ensures Valid() && this.crates == crates && collected == multiset{}
    {
      this.crates := crates;
      exported := map[];
      collected := multiset{};
    }

    method CollectExportedMacros(tokens: seq<Token>)
      requires Valid()
      modifies this
      ensures Valid() && collected == old(collected) + multiset(Definitions(tokens, 0))
    {
      exported := CollectMacros(tokens, exported, collected);
      collected := collected + multiset(Definitions(tokens, 0));
    }

    /** Passes exactly when each macro is exported once and no crate has its name. */
    method CheckExportedMacros() returns (passed: bool)
      requires Valid()
      ensures passed <==> CanShareRoot(crates, collected)
    {
      var names := exported.Keys;
      while names != {}
        invariant names <= exported.Keys
        invariant forall name :: name in exported && name !in names ==> exported[name] == 1 && name !in crates
      {
        var name :| name in names;
        if exported[name] != 1 || name in crates {
          assert name in collected;
          return false;
        }
        names := names - {name};
      }
      return true;
    }

    method RewriteText(file: SourceFile) returns (r: Result<Rewritten, RewriteError>)
      requires Valid() && IsLexed(file)
      ensures r.Ok? <==> Visited(NamesOf(crates, collected), file.krate, file.tokens).Ok?
      ensures r.Ok? ==> IsRewrite(NamesOf(crates, collected), file, r.value)
      ensures r.Err? ==> r.error == Unreadable(Visited(NamesOf(crates, collected), file.krate, file.tokens).error)
    {
      assert exported.Keys == NamesOf(crates, collected).exported;
      r := RewriteFile(Names(crates, exported.Keys), file.krate, file.text, file.tokens);
    }
  }

  /** Each macro is exported once, and none has the name of a crate. */
  ghost predicate CanShareRoot(crates: set<string>, exported: multiset<string>) {
    forall name :: name in exported ==> exported[name] == 1 && name !in crates
  }

  // ---------------------------------------------------------------------
  // All the files of a bundle
  // ---------------------------------------------------------------------

  /** A file of the crate `krate`: its text, and the tokens that the lexer finds in it. */
  datatype SourceFile = SourceFile(krate: string, text: string, tokens: seq<Token>)

  datatype BundleError = Crowded | Failed(file: nat, error: RewriteError)

  ghost predicate IsLexed(file: SourceFile) { Nested(file.tokens, 0, 0, |file.text|) }

  ghost function NamesOf(crates: set<string>, exported: multiset<string>): Names {
    Names(crates, set name | name in exported)
  }

  /** The exported macros of all the files, each as often as it is defined. */
  ghost function AllDefinitions(files: seq<SourceFile>): multiset<string> {
    if files == [] then multiset{}
    else AllDefinitions(files[..|files| - 1]) + multiset(Definitions(files[|files| - 1].tokens, 0))
  }

  /** `output` is the file with the edits that its tokens call for, and the files it includes. */
  ghost predicate IsRewrite(names: Names, file: SourceFile, output: Rewritten) {
    && Visited(names, file.krate, file.tokens).Ok?
    && var found := Visited(names, file.krate, file.tokens).value;
      && Ordered(found.edits, 0, |file.text|)
      && output == Rewritten(Spliced(file.text, found.edits, 0, |file.text|), found.includes)
  }

  /** `outputs` are the files of a bundle, each rewritten by the macros of all of them. */
  ghost predicate IsBundle(crates: set<string>, files: seq<SourceFile>, outputs: seq<Rewritten>) {
    && CanShareRoot(crates, AllDefinitions(files))
    && |outputs| == |files|
    && forall i :: 0 <= i < |files| ==> IsRewrite(NamesOf(crates, AllDefinitions(files)), files[i], outputs[i])
  }

  /** Why there is no bundle: the macros have no room at the root, or a first file cannot be read. */
  ghost predicate Explains(crates: set<string>, files: seq<SourceFile>, error: BundleError) {
    match error
    case Crowded => !CanShareRoot(crates, AllDefinitions(files))
    case Failed(file, error) =>
      && CanShareRoot(crates, AllDefinitions(files)) && file < |files|
      && var names := NamesOf(crates, AllDefinitions(files));
        && Visited(names, files[file].krate, files[file].tokens).Err?
        && error == Unreadable(Visited(names, files[file].krate, files[file].tokens).error)
        && forall i :: 0 <= i < file ==> Visited(names, files[i].krate, files[i].tokens).Ok?
  }

  /** The loops of the source: every file is collected before the first is rewritten. */
  method BundleFiles(crates: set<string>, files: seq<SourceFile>) returns (r: Result<seq<Rewritten>, BundleError>)
    requires forall i :: 0 <= i < |files| ==> IsLexed(files[i])
    ensures r.Ok? ==> IsBundle(crates, files, r.value)
    ensures r.Err? ==> Explains(crates, files, r.error)
  {
    hide Definitions, IsLexed, IsRewrite, Visited, CanShareRoot, Tallies;
    var rewriter := new Rewriter(crates);
    for i := 0 to |files|
      invariant fresh(rewriter) && rewriter.Valid() && rewriter.crates == crates
      invariant rewriter.collected == AllDefinitions(files[..i])
    {
      assert files[..i + 1][..i] == files[..i];
      rewriter.CollectExportedMacros(files[i].tokens);
    }
    assert files[..|files|] == files;
    var passed := rewriter.CheckExportedMacros();
    if !passed {
      return Err(Crowded);
    }
    r := RewriteFiles(rewriter, files);
  }

  method RewriteFiles(rewriter: Rewriter, files: seq<SourceFile>) returns (r: Result<seq<Rewritten>, BundleError>)
    requires rewriter.Valid() && forall i :: 0 <= i < |files| ==> IsLexed(files[i])
    requires CanShareRoot(rewriter.crates, AllDefinitions(files)) && rewriter.collected == AllDefinitions(files)
    ensures r.Ok? ==> IsBundle(rewriter.crates, files, r.value)
    ensures r.Err? ==> Explains(rewriter.crates, files, r.error)
  {
    hide IsLexed, IsRewrite, Visited, CanShareRoot, Tallies, AllDefinitions, NamesOf;
    ghost var names := NamesOf(rewriter.crates, AllDefinitions(files));
    var outputs: seq<Rewritten> := [];
    for i := 0 to |files|
      invariant |outputs| == i
      invariant forall j :: 0 <= j < i ==> IsRewrite(names, files[j], outputs[j])
      invariant forall j :: 0 <= j < i ==> Visited(names, files[j].krate, files[j].tokens).Ok?
    {
      var rewritten := rewriter.RewriteText(files[i]);
      if rewritten.Err? {
        return Err(Failed(i, rewritten.error));
      }
      outputs := outputs + [rewritten.value];
    }
    return Ok(outputs);
  }
}
