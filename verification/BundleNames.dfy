/**
 What paths name in the bundle. It is made from the workspace: each crate becomes
 a module at the root, each import becomes what the rewriter makes of its path,
 and the exported macros are lifted to the root.
 */
module BundleNames {
  import opened Common
  import opened Tokens
  import opened Rewrite
  import opened Bundler
  import opened BundleMeaning
  import opened Resolver

  // ---------------------------------------------------------------------
  // Paths in the files of a workspace
  // ---------------------------------------------------------------------

  /** A run of names in a file. */
  datatype Run = Run(place: Place, head: nat, count: nat)

  ghost predicate IsRunIn(tokens: seq<Token>, run: Run) {
    IsPlace(tokens, run.place) && IsRun(ListAt(tokens, run.place), run.head, run.count)
  }

  ghost function NamesIn(tokens: seq<Token>, run: Run): (names: seq<string>)
    requires IsRunIn(tokens, run)
    ensures names != []
  {
    NamesAt(ListAt(tokens, run.place), run.head, run.count)
  }

  ghost predicate ContinuesIn(tokens: seq<Token>, run: Run)
    requires IsRunIn(tokens, run)
  {
    Continues(ListAt(tokens, run.place), run.head, run.count)
  }

  /** The list inside the group at `index` of the list at `place`. */
  ghost function Deeper(place: Place, index: nat): Place {
    match place
    case Top => Inside(index, Top)
    case Inside(outer, rest) => Inside(outer, Deeper(rest, index))
  }

  /** After `a` comes `::` and a brace, of which `b` starts an entry. */
  ghost predicate GoesInto(tokens: seq<Token>, a: Run, b: Run)
    requires IsRunIn(tokens, a)
  {
    var list, group := ListAt(tokens, a.place), Last(a.head, a.count) + 3;
    && ContinuesIn(tokens, a)
    && group < |list| && list[group].Group? && list[group].delimiter == Brace
    && b.place == Deeper(a.place, group) && (b.head == 0 || IsPunct(list[group].tokens, b.head - 1, ','))
  }

  ghost function Runs(path: Path): seq<seq<string>> { [path.first] + path.rest }

  /** `runs` are where a file writes the path. */
  ghost predicate IsWrittenAt(tokens: seq<Token>, runs: seq<Run>, path: Path) {
    && |runs| == |Runs(path)|
    && (forall i :: 0 <= i < |runs| ==> IsRunIn(tokens, runs[i]) && NamesIn(tokens, runs[i]) == Runs(path)[i])
    && (forall i :: 0 <= i < |runs| - 1 ==> GoesInto(tokens, runs[i], runs[i + 1]))
    && path.continues == ContinuesIn(tokens, runs[|runs| - 1])
    && (path.brought != [] ==>
        var last := runs[|runs| - 1];
        path.continues && IsPunct(ListAt(tokens, last.place), Last(last.head, last.count) + 3, '*'))
  }

  // ---------------------------------------------------------------------
  // The workspace and the bundle
  // ---------------------------------------------------------------------

  /** The crates before the bundle: their files, and the items and imports of their modules. */
  datatype Workspace = Workspace(crates: set<string>, files: seq<SourceFile>, items: map<Slot, Item>)

  ghost function MacrosOf(ws: Workspace): multiset<string> { AllDefinitions(ws.files) }

  /** The names that the rewriter of the bundle goes by. */
  ghost function Known(ws: Workspace): Names { NamesOf(ws.crates, MacrosOf(ws)) }

  ghost function WorldOf(ws: Workspace): World { World(1, ws.crates, ws.items) }

  ghost predicate Exports(files: seq<SourceFile>, krate: string, name: string) {
    exists i :: 0 <= i < |files| && files[i].krate == krate && name in Definitions(files[i].tokens, 0)
  }

  ghost predicate IsWrittenIn(files: seq<SourceFile>, krate: string, path: Path) {
    exists i, runs :: 0 <= i < |files| && files[i].krate == krate && IsWrittenAt(files[i].tokens, runs, path)
  }

  /** An import is written in a file of its crate, and stands where it names something. */
  ghost predicate IsImport(ws: Workspace, slot: Slot, path: Path)
    requires slot.parent != []
  {
    && IsWrittenIn(ws.files, slot.parent[0], path)
    && exists entity :: Reads(WorldOf(ws), slot.parent, path.Names(), slot.space, entity)
  }

  /** Every slot is in a crate, and the exported macros of the files stand at the roots of their crates. */
  ghost predicate IsWorkspace(ws: Workspace) {
    && ws.crates !! KEYWORDS && Known(ws).exported !! KEYWORDS
    && (forall i :: 0 <= i < |ws.files| ==> IsLexed(ws.files[i]) && ws.files[i].krate in ws.crates)
    && (forall slot :: slot in ws.items ==> slot.parent != [] && slot.parent[0] in ws.crates)
    && (forall slot :: slot in ws.items && ws.items[slot].Exported? ==>
        slot == Slot([ws.items[slot].krate], slot.name, Macros) && Exports(ws.files, ws.items[slot].krate, slot.name))
    && (forall krate, name :: Exports(ws.files, krate, name) ==>
        Slot([krate], name, Macros) in ws.items && ws.items[Slot([krate], name, Macros)] == Exported(krate))
    && (forall slot :: slot in ws.items && ws.items[slot].Import? ==>
        IsWritten(ws.items[slot].target) && IsImport(ws, slot, ws.items[slot].target))
  }

  /** What the rewriter makes of a path in a file of the crate `home`, run by run. */
  ghost function MovedPath(names: Names, home: string, path: Path): Path
    requires IsWritten(path)
  {
    path.(
      first := Moved(names, home, path.first, path.rest != [] || path.continues),
      rest := seq(|path.rest|, i requires 0 <= i < |path.rest| =>
        Moved(names, home, path.rest[i], i < |path.rest| - 1 || path.continues)))
  }

  ghost function MovedNames(ws: Workspace, home: string, path: Path): seq<string>
    requires IsWritten(path)
  {
    MovedPath(Known(ws), home, path).Names()
  }

  ghost predicate CanBundle(ws: Workspace) {
    IsWorkspace(ws) && CanShareRoot(ws.crates, MacrosOf(ws))
  }

  /** What the crates hold besides their macros, each path moved. */
  ghost function Contents(ws: Workspace): map<Slot, Item>
    requires IsWorkspace(ws)
  {
    map slot | slot in ws.items && !ws.items[slot].Exported? ::
      if ws.items[slot].Import? then Import(MovedPath(Known(ws), slot.parent[0], ws.items[slot].target)) else ws.items[slot]
  }

  /** Each crate as a module at the root. */
  ghost function CrateModules(ws: Workspace): map<Slot, Item> {
    map krate | krate in ws.crates :: Slot([], krate, Types) := Submodule
  }

  /** Each exported macro at the root. */
  ghost function RootMacros(ws: Workspace): map<Slot, Item>
    requires CanBundle(ws)
  {
    OneExporterEach(ws);
    map slot | slot in ws.items && ws.items[slot].Exported? :: Slot([], slot.name, Macros) := ws.items[slot]
  }

  ghost function BundleOf(ws: Workspace): World
    requires CanBundle(ws)
  {
    World(0, {}, Contents(ws) + CrateModules(ws) + RootMacros(ws))
  }

  lemma OneExporterEach(ws: Workspace)
    requires CanBundle(ws)
    ensures forall a, b :: a in ws.items && b in ws.items && ws.items[a].Exported? && ws.items[b].Exported? && a.name == b.name ==>
      ws.items[a] == ws.items[b]
  {
    forall a, b | a in ws.items && b in ws.items && ws.items[a].Exported? && ws.items[b].Exported? && a.name == b.name
      ensures ws.items[a] == ws.items[b]
    {
      OneExporter(ws, ws.items[a].krate, ws.items[b].krate, a.name);
    }
  }

  /** A macro that is exported once has one crate that exports it. */
  lemma OneExporter(ws: Workspace, a: string, b: string, name: string)
    requires CanShareRoot(ws.crates, MacrosOf(ws))
    requires Exports(ws.files, a, name) && Exports(ws.files, b, name)
    ensures a == b && name in MacrosOf(ws)
  {
    var i: nat :| i < |ws.files| && ws.files[i].krate == a && name in Definitions(ws.files[i].tokens, 0);
    var j: nat :| j < |ws.files| && ws.files[j].krate == b && name in Definitions(ws.files[j].tokens, 0);
    OneFileCounts(ws.files, i, name);
    if i < j {
      TwoFilesCountTwice(ws.files, i, j, name);
    } else if j < i {
      TwoFilesCountTwice(ws.files, j, i, name);
    }
  }

  lemma {:induction false} OneFileCounts(files: seq<SourceFile>, i: nat, name: string)
    requires i < |files| && name in Definitions(files[i].tokens, 0)
    ensures AllDefinitions(files)[name] >= 1
  {
    if i < |files| - 1 {
      OneFileCounts(files[..|files| - 1], i, name);
    }
  }

  lemma {:induction false} TwoFilesCountTwice(files: seq<SourceFile>, i: nat, j: nat, name: string)
    requires i < j < |files| && name in Definitions(files[i].tokens, 0) && name in Definitions(files[j].tokens, 0)
    ensures AllDefinitions(files)[name] >= 2
  {
    var most := files[..|files| - 1];
    if j < |files| - 1 {
      TwoFilesCountTwice(most, i, j, name);
    } else {
      OneFileCounts(most, i, name);
    }
  }

  // The bundle, slot by slot.

  /** Below the root, the bundle holds what the crates hold. */
  lemma BundleHolds(ws: Workspace, slot: Slot)
    requires CanBundle(ws) && slot.parent != []
    ensures slot in BundleOf(ws).items <==> slot in ws.items && !ws.items[slot].Exported?
    ensures slot in BundleOf(ws).items && !ws.items[slot].Import? ==> BundleOf(ws).items[slot] == ws.items[slot]
    ensures slot in BundleOf(ws).items && ws.items[slot].Import? ==>
      BundleOf(ws).items[slot] == Import(MovedPath(Known(ws), slot.parent[0], ws.items[slot].target))
  {
    BelowTheRoot(ws, slot);
    hide CanShareRoot, MovedPath, CrateModules, RootMacros;
  }

  lemma BelowTheRoot(ws: Workspace, slot: Slot)
    requires CanBundle(ws) && slot.parent != []
    ensures slot !in CrateModules(ws) && slot !in RootMacros(ws)
  {
    hide CanShareRoot;
  }

  lemma BundleStarts(ws: Workspace)
    requires CanBundle(ws)
    ensures BundleOf(ws).depth == 0 && BundleOf(ws).externs == {}
  {
  }

  /** At its root, the bundle holds the crates and the exported macros. */
  lemma AtTheRoot(ws: Workspace, name: string, space: Space, entity: Entity)
    requires CanBundle(ws)
    ensures Holds(BundleOf(ws), Slot([], name, space), entity) <==>
      || (space == Types && name in ws.crates && entity == Module([name]))
      || (space == Macros && entity.ExportedMacro? && entity.name == name && Exports(ws.files, entity.krate, name))
  {
    hide BundleOf, IsWorkspace, CanShareRoot, Exports, Resolved, Walk;
    var world, slot := BundleOf(ws), Slot([], name, space);
    RootItems(ws, slot);
    assert [] + [name] == [name];
    if slot in world.items {
      HoldsItem(world, slot, entity);
      assert Named(world, slot, 0) ==
        if space == Types then Some(Module([name])) else Some(ExportedMacro(world.items[slot].krate, name));
      hide Holds, Named;
    } else {
      assert !Holds(world, slot, entity);
    }
  }

  lemma RootItems(ws: Workspace, slot: Slot)
    requires CanBundle(ws) && slot.parent == []
    ensures slot.space == Types ==> (slot in BundleOf(ws).items <==> slot.name in ws.crates)
    ensures slot.space == Types && slot in BundleOf(ws).items ==> BundleOf(ws).items[slot] == Submodule
    ensures slot.space == Values ==> slot !in BundleOf(ws).items
    ensures slot.space == Macros && slot in BundleOf(ws).items ==> BundleOf(ws).items[slot].Exported?
    ensures slot.space == Macros ==> forall krate ::
      (slot in BundleOf(ws).items && BundleOf(ws).items[slot] == Exported(krate)) <==> Exports(ws.files, krate, slot.name)
  {
    assert slot !in Contents(ws);
    RootMacroItems(ws, slot);
    hide Contents, RootMacros, IsWorkspace, CanShareRoot, Exports;
  }

  lemma RootMacroItems(ws: Workspace, slot: Slot)
    requires CanBundle(ws) && slot.parent == []
    ensures slot in RootMacros(ws) ==> slot.space == Macros && RootMacros(ws)[slot].Exported?
    ensures slot.space == Macros ==> forall krate ::
      (slot in RootMacros(ws) && RootMacros(ws)[slot] == Exported(krate)) <==> Exports(ws.files, krate, slot.name)
  {
    OneExporterEach(ws);
    hide CanShareRoot;
    forall krate | slot.space == Macros && Exports(ws.files, krate, slot.name)
      ensures slot in RootMacros(ws) && RootMacros(ws)[slot] == Exported(krate)
    {
      assert Slot([krate], slot.name, Macros) in ws.items;
    }
  }
}
