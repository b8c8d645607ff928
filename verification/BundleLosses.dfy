/**
 Inputs on which a bundle does not keep meaning, one for each way in which a path
 can fail to survive.
 */
module BundleLosses {
  import opened Common
  import opened Sequences
  import opened Tokens
  import opened Rewrite
  import opened Bundler
  import opened BundleMeaning
  import opened Resolver
  import opened BundleNames
  import opened BundleFidelity

  // ---------------------------------------------------------------------
  // A bare crate
  // ---------------------------------------------------------------------

  const BARE := Path(["crate"], [], false, [])

  /** An import of a bare `crate`, as in `use crate as r`, always changes its meaning. */
  lemma BareImportBreaks(ws: Workspace, slot: Slot)
    requires CanBundle(ws) && slot in ws.items && ws.items[slot] == Import(BARE)
    ensures slot.parent != [] && slot.space == Types
    ensures Imports(ws, slot, Module([slot.parent[0]])) && Holds(BundleOf(ws), slot, Module([]))
    ensures !ImportsAreKept(ws)
  {
    SlotIsInside(ws, slot);
    assert IsImport(ws, slot, BARE);
    hide BundleOf, CanShareRoot, IsWorkspace, MovedNames, Reads, IsWrittenIn;
    var entity :| Reads(WorldOf(ws), slot.parent, BARE.Names(), slot.space, entity);
    BareCrateChanges(ws, slot.parent, BARE, slot.space, entity);
    BareCrateChanges(ws, slot.parent, BARE, slot.space, Module([]));
    BundleImport(ws, slot, Module([]));
  }

  /** The imports that enter a crate inside braces, as in `use crate::{b::x}`, name nothing any more. */
  lemma EnteringImportBreaks(ws: Workspace, slot: Slot, entity: Entity)
    requires CanBundle(ws) && Imports(ws, slot, entity) && IsWritten(ws.items[slot].target)
    requires EntersCrate(Known(ws), ws.items[slot].target)
    ensures forall other :: !Holds(BundleOf(ws), slot, other)
    ensures !ImportsAreKept(ws)
  {
    SlotIsInside(ws, slot);
    var path := ws.items[slot].target;
    assert "crate" !in path.Names()[1..];
    hide BundleOf, CanShareRoot, IsWorkspace, MovedNames, Reads, EntersCrate, Holds;
    forall other ensures !Holds(BundleOf(ws), slot, other) {
      EnteredIsLost(ws, slot.parent, path, slot.space, other);
      BundleImport(ws, slot, other);
    }
    BundleImport(ws, slot, entity);
  }

  /**
   A path whose head is hidden by a name of its module, as in `use x::b; b::f()`
   where `b` is a crate too, names what the crate has under the rest of it.
   */
  lemma ShadowedPathChanges(ws: Workspace, parent: seq<string>, path: Path, space: Space, entity: Entity, misread: Entity)
    requires CanBundle(ws) && NoImportBreaks(ws) && parent != [] && parent[0] in ws.crates && IsWritten(path)
    requires Denotes(WorldOf(ws), parent, path.Names(), space, entity)
    requires Reads(WorldOf(ws), parent, path.Names(), space, misread) && misread != entity
    requires Survives(ws, parent, path, space, misread)
    ensures IsShadowed(WorldOf(ws), parent, path.Names(), space)
    ensures var moved := MovedNames(ws, parent[0], path);
      Denotes(BundleOf(ws), parent, moved, space, misread) && !Denotes(BundleOf(ws), parent, moved, space, entity)
  {
    if !IsShadowed(WorldOf(ws), parent, path.Names(), space) {
      ReadsOne(WorldOf(ws), parent, path.Names(), space, entity, misread);
    }
    ImportsAreExact(ws);
    hide BundleOf, CanShareRoot, IsWorkspace, MovedNames, Denotes, Reads, Survives, NoImportBreaks, ImportsAreKept;
    var moved := MovedNames(ws, parent[0], path);
    KeptExactly(ws, parent, path, space, misread);
    NothingShadows(ws, parent, moved, space, misread);
    NothingShadows(ws, parent, moved, space, entity);
    if Reads(BundleOf(ws), parent, moved, space, entity) {
      ReadsOne(BundleOf(ws), parent, moved, space, entity, misread);
    }
  }

  // ---------------------------------------------------------------------
  // An alias of a crate
  // ---------------------------------------------------------------------

  const SELF := Path(["crate"], [["self"]], false, [])

  /** A crate that exports a macro, and has itself under another name by `use crate::{self as alias}`. */
  ghost predicate IsAliased(ws: Workspace, krate: string, macro: string, alias: string) {
    && ws.crates == {krate} && macro != krate && krate !in KEYWORDS && macro !in KEYWORDS && alias !in KEYWORDS
    && (forall i :: 0 <= i < |ws.files| ==> IsLexed(ws.files[i]) && ws.files[i].krate == krate)
    && MacrosOf(ws) == multiset{macro} && (forall other, name :: Exports(ws.files, other, name) <==> other == krate && name == macro)
    && IsWrittenIn(ws.files, krate, SELF)
    && var name, other := Slot([krate], macro, Macros), Slot([krate], alias, Types);
      && (forall slot :: slot in ws.items <==> slot == name || slot == other)
      && ws.items[name] == Exported(krate) && ws.items[other] == Import(SELF)
  }

  lemma OneFileExports(file: SourceFile)
    ensures AllDefinitions([file]) == multiset(Definitions(file.tokens, 0))
    ensures forall krate, name :: Exports([file], krate, name) <==> krate == file.krate && name in Definitions(file.tokens, 0)
  {
    hide Definitions;
    assert [file][..0] == [] && [file][0] == file;
    assert AllDefinitions([]) == multiset{};
  }

  lemma TwoFilesExport(a: SourceFile, b: SourceFile)
    requires a.krate == b.krate && Definitions(b.tokens, 0) == []
    ensures AllDefinitions([a, b]) == multiset(Definitions(a.tokens, 0))
    ensures forall krate, name :: Exports([a, b], krate, name) <==> krate == a.krate && name in Definitions(a.tokens, 0)
  {
    hide Definitions;
    var files := [a, b];
    OneFileExports(a);
    assert files[..1] == [a] && files[0] == a && files[1] == b;
    forall krate, name ensures Exports(files, krate, name) <==> krate == a.krate && name in Definitions(a.tokens, 0) {
      if krate == a.krate && name in Definitions(a.tokens, 0) {
        assert files[0].krate == krate && name in Definitions(files[0].tokens, 0);
      }
    }
  }

  /** What `crate::{self}` names. */
  lemma SelfReads(ws: Workspace, krate: string)
    requires krate in ws.crates
    ensures Reads(WorldOf(ws), [krate], SELF.Names(), Types, Module([krate]))
    ensures forall space :: RouteOf(WorldOf(ws), [krate], SELF.Names(), space).Some? ==>
      space == Types && RouteOf(WorldOf(ws), [krate], SELF.Names(), space).value == Route([krate], [])
  {
    FlattenOne(["self"]);
    assert SELF.Names() == ["crate", "self"] && ["crate", "self"][..1] == ["crate"] && [krate][..1] == [krate];
    assert ["crate", "self"][1..] == ["self"] && ["crate"][1..] == [];
    LeadsNowhere(WorldOf(ws), [krate], Types, Module([krate]));
  }

  lemma AliasedIsSound(ws: Workspace, krate: string, macro: string, alias: string)
    requires IsAliased(ws, krate, macro, alias)
    ensures CanBundle(ws) && NoImportBreaks(ws)
  {
    SelfReads(ws, krate);
    hide IsLexed, Exports, MacrosOf, Reads, IsWrittenIn;
    assert Known(ws).exported == {macro};
    assert IsImport(ws, Slot([krate], alias, Types), SELF);
    assert !EntersCrate(Known(ws), SELF);
  }

  /**
   A macro can be lost: through an alias of its crate a path names it in the
   workspace, and names nothing in the bundle.
   */
  lemma AliasLosesMacro(ws: Workspace, krate: string, macro: string, alias: string)
    requires IsAliased(ws, krate, macro, alias)
    ensures CanBundle(ws) && NoImportBreaks(ws)
    ensures var path := Path(["crate", alias, macro], [], false, []);
      && Denotes(WorldOf(ws), [krate], path.Names(), Macros, ExportedMacro(krate, macro))
      && forall entity :: !Denotes(BundleOf(ws), [krate], MovedNames(ws, krate, path), Macros, entity)
  {
    AliasedIsSound(ws, krate, macro, alias);
    ImportsAreExact(ws);
    var world, path := WorldOf(ws), Path(["crate", alias, macro], [], false, []);
    AliasedLands(ws, krate, macro, alias);
    assert Flatten(path.rest) == [] && path.Names() == ["crate", alias, macro];
    hide BundleOf, IsWorkspace, CanShareRoot, ImportsAreKept, NoImportBreaks, MacrosOf, Exports, IsLexed, IsWrittenIn, Lands, Leads, MovedNames;
    CrateTwoSteps(ws, krate, alias, macro, Macros);
    assert "crate" !in world.externs;
    forall entity ensures !Denotes(BundleOf(ws), [krate], MovedNames(ws, krate, path), Macros, entity) {
      LandedIsLost(ws, [krate], path, Macros, entity);
    }
  }

  lemma AliasedLands(ws: Workspace, krate: string, macro: string, alias: string)
    requires IsAliased(ws, krate, macro, alias)
    ensures Lands(WorldOf(ws), [krate], [alias, macro], Macros)
    ensures Leads(WorldOf(ws), [krate], [alias, macro], Macros, ExportedMacro(krate, macro))
  {
    hide MacrosOf, Exports, IsLexed, IsWrittenIn, Reads;
    var world := WorldOf(ws);
    var slot, entity := Slot([krate], alias, Types), ExportedMacro(krate, macro);
    assert [alias, macro][1..] == [macro];
    SelfReads(ws, krate);
    HoldsImport(world, slot, Module([krate]));
    assert Named(world, Slot([krate], macro, Macros), 0) == Some(entity);
    LeadsLast(world, [krate], macro, Macros, entity);
    hide Walk, Named, Holds, Leads;
    assert Lands(world, [krate], [macro], Macros);
    assert Onward(world, Module([krate]), [macro], Macros, entity);
    LeadsFirst(world, [krate], [alias, macro], Macros, entity);
  }

  // ---------------------------------------------------------------------
  // There are such inputs
  // ---------------------------------------------------------------------

  /** `use crate as r;`, as the lexer reads it. */
  ghost function BareTokens(): seq<Token> {
    [Ident("use", 0, 3), Ident("crate", 4, 9), Ident("as", 10, 12), Ident("r", 13, 14), Punct(';', false)]
  }

  lemma BareTokensHold()
    ensures Nested(BareTokens(), 0, 0, 15) && Definitions(BareTokens(), 0) == []
  {
    var tokens := BareTokens();
    assert Nested(tokens, 5, 14, 15) && Nested(tokens, 3, 12, 15) && Nested(tokens, 1, 3, 15);
    hide Nested;
    assert forall i :: 0 <= i < |tokens| ==> DefinitionsAt(tokens, i) == [];
    NoneDefined(tokens, 0);
  }

  lemma BareTokensWrite()
    ensures IsWrittenAt(BareTokens(), [Run(Top, 1, 0)], BARE)
  {
    var tokens, run := BareTokens(), Run(Top, 1, 0);
    assert IsRunIn(tokens, run) && NamesIn(tokens, run) == ["crate"];
  }

  lemma BareExists() returns (ws: Workspace, slot: Slot)
    ensures CanBundle(ws) && slot in ws.items && ws.items[slot] == Import(BARE) && slot == Slot(["a"], "r", Types)
  {
    hide Nested, Definitions, BareTokens, IsWrittenAt;
    BareTokensHold();
    BareTokensWrite();
    var file := SourceFile("a", "use crate as r;", BareTokens());
    slot := Slot(["a"], "r", Types);
    ws := Workspace({"a"}, [file], map[slot := Import(BARE)]);
    OneFileExports(file);
    assert Flatten(BARE.rest) == [] && BARE.Names() == ["crate"] && ["crate"][1..] == [] && ["a"][..1] == ["a"];
    LeadsNowhere(WorldOf(ws), ["a"], Types, Module(["a"]));
    assert RouteOf(WorldOf(ws), ["a"], ["crate"], Types) == Some(Route(["a"], []));
    assert Reads(WorldOf(ws), ["a"], BARE.Names(), Types, Module(["a"]));
    assert IsWrittenIn(ws.files, "a", BARE) by { assert ws.files[0] == file; }
    assert IsImport(ws, slot, BARE);
  }

  /** With `use crate as r;` in a crate `a`, the name `r` was the crate and is the bundle. */
  lemma BareExample() returns (ws: Workspace, slot: Slot)
    ensures CanBundle(ws) && slot == Slot(["a"], "r", Types) && Imports(ws, slot, Module(["a"]))
    ensures Holds(BundleOf(ws), slot, Module([])) && !ImportsAreKept(ws)
  {
    hide CanBundle, BundleOf, Imports, Holds, ImportsAreKept;
    ws, slot := BareExists();
    BareImportBreaks(ws, slot);
  }

  /** `use crate::{...};` around the tokens of one entry, as the lexer reads it. */
  ghost function UseTokens(inner: seq<Token>, end: nat): seq<Token> {
    [Ident("use", 0, 3), Ident("crate", 4, 9), Punct(':', true), Punct(':', false), Group(Brace, inner, 11, end), Punct(';', false)]
  }

  lemma UseTokensNest(inner: seq<Token>, end: nat)
    requires Nested(inner, 0, 11, end) && Definitions(inner, 0) == [] && end >= 11
    ensures Nested(UseTokens(inner, end), 0, 0, end + 1) && Definitions(UseTokens(inner, end), 0) == []
  {
    var tokens := UseTokens(inner, end);
    assert Nested(tokens, 6, end, end + 1) && Nested(tokens, 5, end, end + 1) && Nested(tokens, 4, 9, end + 1);
    assert Nested(tokens, 3, 9, end + 1) && Nested(tokens, 2, 9, end + 1) && Nested(tokens, 1, 3, end + 1);
    assert DefinitionsAt(tokens, 4) == Definitions(inner, 0) && forall i :: 0 <= i < 6 && i != 4 ==> DefinitionsAt(tokens, i) == [];
    NoneDefined(tokens, 0);
  }

  lemma {:induction false} NoneDefined(tokens: seq<Token>, index: nat)
    requires index <= |tokens| && forall i :: index <= i < |tokens| ==> DefinitionsAt(tokens, i) == []
    ensures Definitions(tokens, index) == []
    decreases |tokens| - index
  {
    hide DefinitionsAt;
    if index < |tokens| {
      NoneDefined(tokens, index + 1);
    }
  }

  lemma UseTokensWrite(inner: seq<Token>, end: nat, count: nat)
    requires IsRun(inner, 0, count) && !Continues(inner, 0, count)
    ensures IsWrittenAt(UseTokens(inner, end), [Run(Top, 1, 0), Run(Inside(4, Top), 0, count)],
      Path(["crate"], [NamesAt(inner, 0, count)], false, []))
  {
    var tokens, outer, entry := UseTokens(inner, end), Run(Top, 1, 0), Run(Inside(4, Top), 0, count);
    assert Segments(tokens, 1, 0) == [];
    assert IsRunIn(tokens, outer) && NamesIn(tokens, outer) == ["crate"] && GoesInto(tokens, outer, entry);
    assert tokens[4].tokens == inner && IsPlace(inner, Top) && IsPlace(tokens, entry.place);
    assert ListAt(tokens, entry.place) == ListAt(inner, Top) == inner;
    hide IsRun, IsPlace, ListAt, UseTokens;
    assert IsRunIn(tokens, entry) && NamesIn(tokens, entry) == NamesAt(inner, 0, count);
  }

  /** The entry `b::x`. */
  ghost function EntryTokens(): seq<Token> {
    [Ident("b", 12, 13), Punct(':', true), Punct(':', false), Ident("x", 15, 16)]
  }

  lemma EntryTokensHold()
    ensures Nested(EntryTokens(), 0, 11, 17) && Definitions(EntryTokens(), 0) == []
    ensures IsRun(EntryTokens(), 0, 1) && !Continues(EntryTokens(), 0, 1) && NamesAt(EntryTokens(), 0, 1) == ["b", "x"]
  {
    var inner := EntryTokens();
    assert Nested(inner, 4, 16, 17) && Nested(inner, 2, 13, 17);
    assert Definitions(inner, 4) == [] && Definitions(inner, 2) == [];
    assert IsPath(inner, 3, 0) && Segments(inner, 3, 0) == [] && Segments(inner, 0, 1) == ["x"];
  }

  /** A crate that has a foreign `other` in scope, and imports a member of it by `use crate::{other::name}`. */
  ghost predicate IsEntering(ws: Workspace, file: SourceFile, other: string, name: string) {
    && ws.crates == {file.krate, other} && ws.crates !! KEYWORDS && name !in KEYWORDS
    && ws.files == [file] && IsLexed(file) && Definitions(file.tokens, 0) == []
    && IsWrittenIn([file], file.krate, Path(["crate"], [[other, name]], false, []))
    && var slot, scope := Slot([file.krate], name, Values), Slot([file.krate], other, Types);
      && (forall s :: s in ws.items <==> s == slot || s == scope)
      && ws.items[slot] == Import(Path(["crate"], [[other, name]], false, [])) && ws.items[scope] == Defined(1)
  }

  lemma EnteringIsSound(ws: Workspace, file: SourceFile, other: string, name: string)
    requires IsEntering(ws, file, other, name)
    ensures CanBundle(ws) && Imports(ws, Slot([file.krate], name, Values), Definition(1, [name]))
    ensures var path := ws.items[Slot([file.krate], name, Values)].target; IsWritten(path) && EntersCrate(Known(ws), path)
  {
    hide Definitions, IsLexed, IsWrittenIn, AllDefinitions, Exports, Reads;
    OneFileExports(file);
    EnteringReads(ws, file, other, name);
    var slot := Slot([file.krate], name, Values);
    var path := ws.items[slot].target;
    assert IsImport(ws, slot, path);
    assert path.rest[0][0] in Known(ws).crates;
  }

  lemma EnteringReads(ws: Workspace, file: SourceFile, other: string, name: string)
    requires IsEntering(ws, file, other, name)
    ensures Reads(WorldOf(ws), [file.krate], ws.items[Slot([file.krate], name, Values)].target.Names(), Values, Definition(1, [name]))
  {
    hide Definitions, IsLexed, IsWrittenIn, Climb, RouteOf;
    var world, krate, slot := WorldOf(ws), file.krate, Slot([file.krate], name, Values);
    var path := ws.items[slot].target;
    FlattenOne([other, name]);
    assert path.Names() == ["crate", other, name];
    CrateTwoSteps(ws, krate, other, name, Values);
    assert [other, name][1..] == [name] && [] + [name] == [name];
    assert Named(world, Slot([krate], other, Types), 0) == Some(Definition(1, []));
    assert Walk(world, [krate], [other, name], Values, 0) == Some(Definition(1, [name]));
  }

  /** The route of `crate::a::b`. */
  lemma CrateTwoSteps(ws: Workspace, krate: string, a: string, b: string, space: Space)
    requires a !in KEYWORDS && b !in KEYWORDS
    ensures RouteOf(WorldOf(ws), [krate], ["crate", a, b], space) == Some(Route([krate], [a, b]))
  {
    assert ["crate", a, b][1..] == [a, b] && [krate][..1] == [krate];
  }

  lemma EnteringIn(file: SourceFile, other: string, name: string) returns (ws: Workspace)
    requires IsLexed(file) && Definitions(file.tokens, 0) == [] && {file.krate, other, name} !! KEYWORDS
    requires IsWrittenIn([file], file.krate, Path(["crate"], [[other, name]], false, []))
    ensures IsEntering(ws, file, other, name)
  {
    hide Definitions, IsLexed, IsWrittenIn;
    ws := Workspace({file.krate, other}, [file], map[
      Slot([file.krate], name, Values) := Import(Path(["crate"], [[other, name]], false, [])),
      Slot([file.krate], other, Types) := Defined(1)]);
  }

  lemma EnteringFile(text: string) returns (file: SourceFile)
    requires |text| == 18
    ensures file.krate == "a" && file.text == text && IsLexed(file) && Definitions(file.tokens, 0) == []
    ensures IsWrittenIn([file], "a", Path(["crate"], [["b", "x"]], false, []))
  {
    hide Nested, Definitions, EntryTokens, UseTokens, IsWrittenAt, IsRun, Continues, NamesAt;
    EntryTokensHold();
    UseTokensNest(EntryTokens(), 17);
    UseTokensWrite(EntryTokens(), 17, 1);
    file := SourceFile("a", text, UseTokens(EntryTokens(), 17));
    assert [file][0] == file;
  }

  lemma EnteringExists() returns (ws: Workspace, file: SourceFile)
    ensures IsEntering(ws, file, "b", "x")
  {
    hide Definitions, IsLexed, IsEntering, IsWrittenIn;
    file := EnteringFile("use crate::{b::x};");
    ws := EnteringIn(file, "b", "x");
  }

  /** With a foreign `b` in scope and a crate `b`, `use crate::{b::x};` named a member of the first and names nothing. */
  lemma EnteringExample() returns (ws: Workspace, slot: Slot, entity: Entity)
    ensures CanBundle(ws) && Imports(ws, slot, entity) && !ImportsAreKept(ws)
    ensures forall other :: !Holds(BundleOf(ws), slot, other)
  {
    hide CanBundle, BundleOf, Imports, Holds, ImportsAreKept, EntersCrate, IsWritten;
    var file: SourceFile;
    ws, file := EnteringExists();
    EnteringIsSound(ws, file, "b", "x");
    slot, entity := Slot([file.krate], "x", Values), Definition(1, ["x"]);
    EnteringImportBreaks(ws, slot, entity);
  }

  /** A crate that brings a foreign `other` into scope, beside a crate `other` that has an item. */
  ghost predicate IsShadowing(ws: Workspace, krate: string, other: string, name: string) {
    && ws.crates == {krate, other} && krate != other && {krate, other, name} !! KEYWORDS && ws.files == []
    && var scope, item := Slot([krate], other, Types), Slot([other], name, Values);
      && (forall slot :: slot in ws.items <==> slot == scope || slot == item)
      && ws.items[scope] == Defined(1) && ws.items[item] == Defined(2)
  }

  lemma ShadowingIsSound(ws: Workspace, krate: string, other: string, name: string)
    requires IsShadowing(ws, krate, other, name)
    ensures CanBundle(ws) && NoImportBreaks(ws)
    ensures var path := Path([other, name], [], false, []);
      && Denotes(WorldOf(ws), [krate], path.Names(), Values, Definition(1, [name]))
      && Reads(WorldOf(ws), [krate], path.Names(), Values, Definition(2, []))
      && Survives(ws, [krate], path, Values, Definition(2, []))
  {
    assert MacrosOf(ws) == multiset{} && CanBundle(ws) && NoImportBreaks(ws);
    hide CanBundle, NoImportBreaks, MacrosOf, Climb;
    var world, path := WorldOf(ws), Path([other, name], [], false, []);
    assert Flatten(path.rest) == [] && path.Names() == [other, name] && [other, name][1..] == [name] && [] + [name] == [name];
    assert RouteOf(world, [krate], path.Names(), Values) == Some(Route([other], [name]));
    assert Named(world, Slot([krate], other, Types), 0) == Some(Definition(1, []));
    assert Walk(world, [krate], [other, name], Values, 0) == Some(Definition(1, [name]));
    assert Named(world, Slot([other], name, Values), 0) == Some(Definition(2, []));
    assert Walk(world, [other], [name], Values, 0) == Some(Definition(2, []));
    hide RouteOf, Walk, Named;
    assert Reads(world, [krate], path.Names(), Values, Definition(2, []));
  }

  /** With a foreign `b` in scope and a crate `b`, the path `b::f` named a member of the first and names an item of the second. */
  lemma ShadowingExample() returns (ws: Workspace)
    ensures CanBundle(ws) && NoImportBreaks(ws)
    ensures var path := Path(["b", "f"], [], false, []);
      && Denotes(WorldOf(ws), ["a"], path.Names(), Values, Definition(1, ["f"]))
      && Denotes(BundleOf(ws), ["a"], MovedNames(ws, "a", path), Values, Definition(2, []))
  {
    ws := Workspace({"a", "b"}, [], map[Slot(["a"], "b", Types) := Defined(1), Slot(["b"], "f", Values) := Defined(2)]);
    assert IsShadowing(ws, "a", "b", "f");
    hide IsShadowing, CanBundle, NoImportBreaks, BundleOf, Denotes, Reads, Survives, MovedNames;
    ShadowingIsSound(ws, "a", "b", "f");
    assert ws.crates == {"a", "b"};
    ShadowedPathChanges(ws, ["a"], Path(["b", "f"], [], false, []), Values, Definition(1, ["f"]), Definition(2, []));
  }

  /** `#[macro_export] macro_rules! m {}`, as the lexer reads it. */
  ghost function MacroTokens(): seq<Token> {
    [Punct('#', false), Group(Bracket, [Ident("macro_export", 2, 14)], 1, 15),
     Ident("macro_rules", 16, 27), Punct('!', false), Ident("m", 29, 30), Group(Brace, [], 31, 33)]
  }

  lemma MacroTokensExport()
    ensures Definitions(MacroTokens(), 0) == ["m"]
  {
    var tokens := MacroTokens();
    assert IsMacroExport(tokens, 2 - 2 * 1) && AttributesBefore(tokens, 2, 1);
    assert Defines(tokens, 2);
    assert DefinitionsAt(tokens, 2) == ["m"] && DefinitionsAt(tokens, 3) == [] && DefinitionsAt(tokens, 4) == [];
    assert Definitions(tokens[1].tokens, 1) == [];
    assert DefinitionsAt(tokens, 0) == [] && DefinitionsAt(tokens, 1) == [] && DefinitionsAt(tokens, 5) == [];
    hide DefinitionsAt, Bundler.Exported, IsMacroExport;
    assert Definitions(tokens, 6) == [] && Definitions(tokens, 5) == [] && Definitions(tokens, 4) == [];
    assert Definitions(tokens, 3) == [] && Definitions(tokens, 2) == ["m"] && Definitions(tokens, 1) == ["m"];
  }

  lemma MacroTokensNest()
    ensures Nested(MacroTokens(), 0, 0, 33)
  {
    var tokens := MacroTokens();
    assert Nested(tokens, 6, 33, 33) && Nested(tokens, 5, 30, 33) && Nested(tokens, 3, 27, 33);
    assert Nested(tokens[1].tokens, 0, 1, 15);
  }

  /** The entry `self as r`. */
  ghost function SelfTokens(): seq<Token> {
    [Ident("self", 12, 16), Ident("as", 17, 19), Ident("r", 20, 21)]
  }

  lemma SelfTokensHold()
    ensures Nested(SelfTokens(), 0, 11, 22) && Definitions(SelfTokens(), 0) == []
    ensures IsRun(SelfTokens(), 0, 0) && !Continues(SelfTokens(), 0, 0) && NamesAt(SelfTokens(), 0, 0) == ["self"]
  {
    var inner := SelfTokens();
    assert Nested(inner, 3, 21, 22) && Nested(inner, 1, 16, 22);
    assert Definitions(inner, 3) == [] && Definitions(inner, 1) == [];
  }

  lemma AliasedIn(exporter: SourceFile, importer: SourceFile, macro: string, alias: string) returns (ws: Workspace)
    requires IsLexed(exporter) && IsLexed(importer) && exporter.krate == importer.krate != macro
    requires Definitions(exporter.tokens, 0) == [macro] && Definitions(importer.tokens, 0) == []
    requires {exporter.krate, macro, alias} !! KEYWORDS && IsWrittenIn([exporter, importer], exporter.krate, SELF)
    ensures IsAliased(ws, exporter.krate, macro, alias)
  {
    TwoFilesExport(exporter, importer);
    hide Definitions, IsLexed, IsWrittenIn, AllDefinitions, Exports;
    var krate := exporter.krate;
    ws := Workspace({krate}, [exporter, importer], map[
      Slot([krate], macro, Macros) := Exported(krate), Slot([krate], alias, Types) := Import(SELF)]);
  }

  lemma ImporterFile(text: string) returns (file: SourceFile)
    requires |text| == 23
    ensures file.krate == "a" && file.text == text && IsLexed(file) && Definitions(file.tokens, 0) == []
    ensures exists runs :: IsWrittenAt(file.tokens, runs, SELF)
  {
    hide Nested, Definitions, SelfTokens, UseTokens, IsWrittenAt, IsRun, Continues, NamesAt;
    SelfTokensHold();
    UseTokensNest(SelfTokens(), 22);
    UseTokensWrite(SelfTokens(), 22, 0);
    file := SourceFile("a", text, UseTokens(SelfTokens(), 22));
  }

  lemma AliasedExists() returns (ws: Workspace)
    ensures IsAliased(ws, "a", "m", "r")
  {
    hide Definitions, Nested, MacroTokens, IsWrittenAt, IsAliased;
    MacroTokensExport();
    MacroTokensNest();
    var exporter := SourceFile("a", "#[macro_export] macro_rules! m {}", MacroTokens());
    var importer := ImporterFile("use crate::{self as r};");
    assert IsWrittenIn([exporter, importer], "a", SELF) by { assert [exporter, importer][1] == importer; }
    ws := AliasedIn(exporter, importer, "m", "r");
  }

  /** With `use crate::{self as r};`, the path `crate::r::m!` named the macro of its crate and names nothing. */
  lemma AliasExample() returns (ws: Workspace)
    ensures CanBundle(ws) && NoImportBreaks(ws)
    ensures var path := Path(["crate", "r", "m"], [], false, []);
      && Denotes(WorldOf(ws), ["a"], path.Names(), Macros, ExportedMacro("a", "m"))
      && forall entity :: !Denotes(BundleOf(ws), ["a"], MovedNames(ws, "a", path), Macros, entity)
  {
    hide IsAliased, CanBundle, NoImportBreaks, BundleOf, Denotes, MovedNames;
    ws := AliasedExists();
    AliasLosesMacro(ws, "a", "m", "r");
  }
}
