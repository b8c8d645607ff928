/**
 Which paths keep their meaning in the bundle: exactly when an import does, when
 all imports do, and when a path of a file does.
 */
module BundleFidelity {
  import opened Common
  import opened Sequences
  import opened Tokens
  import opened Splice
  import opened Rewrite
  import opened Bundler
  import opened BundleMeaning
  import opened Resolver
  import opened BundleNames

  // ---------------------------------------------------------------------
  // What the rewriter does to a path
  // ---------------------------------------------------------------------

  /** A `crate` with nothing after it, which the rewriter leaves alone. */
  ghost predicate IsBareCrate(path: Path) {
    path == Path(["crate"], [], false, [])
  }

  /** An entry of braces starts with the name of a crate, to which the rewriter adds a `crate`. */
  ghost predicate EntersCrate(names: Names, path: Path)
    requires IsWritten(path)
  {
    exists i :: 0 <= i < |path.rest| && path.rest[i][0] in names.crates
  }

  ghost predicate HeadIsCrate(names: Names, path: Path)
    requires IsWritten(path)
  {
    path.first[0] == "crate" || path.first[0] in names.crates
  }

  /** `crate::name` or `krate::name`, which ends there with the name of a macro. */
  ghost predicate IsPlain(names: Names, path: Path)
    requires IsWritten(path)
  {
    && HeadIsCrate(names, path) && path.rest == [] && path.brought == []
    && EndsAtMacro(names, path.first[1..], path.continues)
  }

  /** The names of a moved path that enters no crate, told by what the path is. */
  ghost function MovedShape(names: Names, home: string, path: Path): seq<string>
    requires IsWritten(path)
  {
    if IsBareCrate(path) then path.Names()
    else if IsPlain(names, path) then ["crate"] + path.Names()[1..]
    else if path.first[0] == "crate" then ["crate", home] + path.Names()[1..]
    else if path.first[0] in names.crates then ["crate"] + path.Names()
    else path.Names()
  }

  lemma MovedNamesAre(ws: Workspace, home: string, path: Path)
    requires IsWritten(path) && ws.crates !! KEYWORDS && "crate" !in path.Names()[1..]
    ensures EntersCrate(Known(ws), path) ==> "crate" in MovedNames(ws, home, path)[1..]
    ensures !EntersCrate(Known(ws), path) ==> MovedNames(ws, home, path) == MovedShape(Known(ws), home, path)
  {
    var names, moved := Known(ws), MovedPath(Known(ws), home, path);
    var tail := Flatten(path.rest) + path.brought;
    assert path.Names()[1..] == path.first[1..] + tail;
    if EntersCrate(names, path) {
      var i :| 0 <= i < |path.rest| && path.rest[i][0] in names.crates;
      assert moved.rest[i][0] == "crate";
      FlattenHolds(moved.rest, i, "crate");
      assert moved.Names()[1..] == moved.first[1..] + (Flatten(moved.rest) + moved.brought);
    } else {
      forall i | 0 <= i < |path.rest| ensures moved.rest[i] == path.rest[i] {
        assert path.rest[i][0] in path.rest[i];
        FlattenHolds(path.rest, i, path.rest[i][0]);
        assert path.rest[i][0] in path.Names()[1..];
      }
      assert moved.rest == path.rest;
      hide Flatten;
      FirstMoved(names, home, path, tail);
    }
  }

  lemma FirstMoved(names: Names, home: string, path: Path, tail: seq<string>)
    requires IsWritten(path) && tail == Flatten(path.rest) + path.brought
    ensures Moved(names, home, path.first, path.rest != [] || path.continues) + tail == MovedShape(names, home, path)
  {
    var first := path.first;
    assert first == [first[0]] + first[1..];
    assert path.Names()[1..] == first[1..] + tail;
    assert ["crate", home] + first[1..] + tail == ["crate", home] + (first[1..] + tail);
    assert ["crate"] + first[1..] + tail == ["crate"] + (first[1..] + tail);
    assert ["crate"] + first + tail == ["crate"] + (first + tail);
    if path.rest == [] && !path.continues {
      assert Flatten(path.rest) == [] && tail == [];
    }
  }

  /** The routes of a path that is neither bare nor plain, before and after it is moved. */
  lemma MovedRoute(ws: Workspace, parent: seq<string>, path: Path, space: Space)
    requires CanBundle(ws) && parent != [] && parent[0] in ws.crates && IsWritten(path)
    requires !IsBareCrate(path) && !EntersCrate(Known(ws), path) && !IsPlain(Known(ws), path)
    requires RouteOf(WorldOf(ws), parent, path.Names(), space).Some?
    ensures var before := RouteOf(WorldOf(ws), parent, path.Names(), space).value;
      var after := RouteOf(BundleOf(ws), parent, MovedNames(ws, parent[0], path), space);
      && before.base != [] && before.base[0] in ws.crates
      && if HeadIsCrate(Known(ws), path) then before.base == [before.base[0]] && after == Some(Route([], [before.base[0]] + before.steps))
         else after == Some(before)
  {
    hide CanShareRoot, MovedNames, BundleOf, EntersCrate, IsPlain, Climb;
    MovedNamesAre(ws, parent[0], path);
    var names := path.Names();
    assert names[0] == path.first[0] && names == [names[0]] + names[1..];
    hide IsWorkspace;
    if HeadIsCrate(Known(ws), path) {
      var krate := if path.first[0] == "crate" then parent[0] else path.first[0];
      assert MovedShape(Known(ws), parent[0], path) == ["crate", krate] + names[1..];
      hide MovedShape;
      FromCrate(ws, parent, krate, names, space);
    } else {
      hide RouteOf;
      FromModule(ws, parent, names, space);
    }
  }

  lemma FromCrate(ws: Workspace, parent: seq<string>, krate: string, names: seq<string>, space: Space)
    requires CanBundle(ws) && parent != [] && krate in ws.crates && names != []
    requires (names[0] == "crate" && krate == parent[0]) || (names[0] != "crate" && krate == names[0])
    requires RouteOf(WorldOf(ws), parent, names, space).Some?
    ensures var steps := Cleared(names, space).value[1..];
      && RouteOf(WorldOf(ws), parent, names, space) == Some(Route([krate], steps))
      && RouteOf(BundleOf(ws), parent, ["crate", krate] + names[1..], space) == Some(Route([], [krate] + steps))
  {
    hide BundleOf, CanShareRoot, Climb;
    BundleStarts(ws);
    CrateRoute(krate, names, space);
    hide IsWorkspace;
    var cleared := Cleared(names, space).value;
    assert cleared[0] == names[0];
    hide Cleared;
    assert (["crate", krate] + cleared[1..])[1..] == [krate] + cleared[1..];
    assert parent[..1] == [parent[0]] && parent[..0] == [];
  }

  lemma FromModule(ws: Workspace, parent: seq<string>, names: seq<string>, space: Space)
    requires CanBundle(ws) && parent != [] && parent[0] in ws.crates && names != [] && names[0] != "crate" && names[0] !in ws.crates
    requires RouteOf(WorldOf(ws), parent, names, space).Some?
    ensures RouteOf(BundleOf(ws), parent, names, space) == RouteOf(WorldOf(ws), parent, names, space)
    ensures var route := RouteOf(WorldOf(ws), parent, names, space).value; route.base != [] && route.base[0] in ws.crates
  {
    BundleStarts(ws);
    var cleared := Cleared(names, space).value;
    assert cleared[0] == names[0];
    hide BundleOf, CanShareRoot, Cleared, Climb;
    if cleared[0] == "self" {
      ClimbKeeps(ws, parent, cleared[1..]);
    } else if cleared[0] == "super" {
      ClimbKeeps(ws, parent, cleared);
    }
  }

  lemma CrateRoute(krate: string, names: seq<string>, space: Space)
    requires Cleared(names, space).Some? && krate !in {"crate", "self"}
    ensures Cleared(["crate", krate] + names[1..], space) == Some(["crate", krate] + Cleared(names, space).value[1..])
  {
    var moved := ["crate", krate] + names[1..];
    assert moved[1..] == [krate] + names[1..];
    assert moved[|moved| - 1] == if |names| == 1 then krate else names[|names| - 1];
    if |names| > 1 && names[|names| - 1] == "self" {
      assert moved[..|moved| - 1] == ["crate", krate] + names[..|names| - 1][1..];
    }
  }

  lemma {:induction false} ClimbKeeps(ws: Workspace, base: seq<string>, names: seq<string>)
    requires CanBundle(ws) && base != [] && base[0] in ws.crates && Climb(WorldOf(ws), base, names).Some?
    ensures Climb(BundleOf(ws), base, names) == Climb(WorldOf(ws), base, names)
    ensures var route := Climb(WorldOf(ws), base, names).value; route.base != [] && route.base[0] in ws.crates
    decreases |names|
  {
    BundleStarts(ws);
    hide BundleOf;
    if names != [] && names[0] == "super" {
      ClimbKeeps(ws, base[..|base| - 1], names[1..]);
    }
  }

  /** A path that enters a crate inside braces names nothing any more. */
  lemma EnteredIsLost(ws: Workspace, parent: seq<string>, path: Path, space: Space, entity: Entity)
    requires CanBundle(ws) && parent != [] && IsWritten(path) && EntersCrate(Known(ws), path) && "crate" !in path.Names()[1..]
    ensures !Reads(BundleOf(ws), parent, MovedNames(ws, parent[0], path), space, entity)
  {
    MovedNamesAre(ws, parent[0], path);
  }

  /** A bare `crate` was the crate and is the bundle. */
  lemma BareCrateChanges(ws: Workspace, parent: seq<string>, path: Path, space: Space, entity: Entity)
    requires CanBundle(ws) && parent != [] && parent[0] in ws.crates && IsBareCrate(path)
    ensures Reads(WorldOf(ws), parent, path.Names(), space, entity) <==> space == Types && entity == Module([parent[0]])
    ensures Reads(BundleOf(ws), parent, MovedNames(ws, parent[0], path), space, entity) <==> space == Types && entity == Module([])
  {
    BundleStarts(ws);
    assert Flatten(path.rest) == [] && path.Names() == ["crate"];
    MovedNamesAre(ws, parent[0], path);
    hide BundleOf, IsWorkspace, CanShareRoot, MovedNames;
    assert parent[..1] == [parent[0]] && parent[..0] == [];
    assert forall world, base :: Leads(world, base, [], space, entity) <==> space == Types && entity == Module(base) by {
      forall world, base ensures Leads(world, base, [], space, entity) <==> space == Types && entity == Module(base) {
        assert Walk(world, base, [], space, 0) == if space == Types then Some(Module(base)) else None;
      }
    }
  }

  /** A plain path to a macro names the macro at the root, and nothing else. */
  lemma PlainReads(ws: Workspace, parent: seq<string>, path: Path, space: Space, entity: Entity)
    requires CanBundle(ws) && parent != [] && parent[0] in ws.crates && IsWritten(path) && IsPlain(Known(ws), path)
    ensures Reads(BundleOf(ws), parent, MovedNames(ws, parent[0], path), space, entity) <==>
      space == Macros && entity.ExportedMacro? && entity.name == path.first[1] && Exports(ws.files, entity.krate, entity.name)
  {
    hide BundleOf, IsWorkspace, CanShareRoot, MovedNames, Leads, Holds, RouteOf;
    PlainNames(ws, parent[0], path);
    var name := path.first[1];
    AtTheRoot(ws, name, space, entity);
    LeadsLast(BundleOf(ws), [], name, space, entity);
    RootRoute(ws, parent, name, space);
  }

  lemma PlainNames(ws: Workspace, home: string, path: Path)
    requires CanBundle(ws) && IsWritten(path) && IsPlain(Known(ws), path)
    ensures path.first[1] !in KEYWORDS && path.first[1] !in ws.crates && MovedNames(ws, home, path) == ["crate", path.first[1]]
  {
    var name := path.first[1];
    assert Flatten(path.rest) == [] && path.Names() == path.first == [path.first[0], name];
    assert name in Known(ws).exported;
    MovedNamesAre(ws, home, path);
  }

  lemma RootRoute(ws: Workspace, parent: seq<string>, name: string, space: Space)
    requires CanBundle(ws) && name !in KEYWORDS
    ensures RouteOf(BundleOf(ws), parent, ["crate", name], space) == Some(Route([], [name]))
  {
    hide BundleOf, IsWorkspace, CanShareRoot, Climb;
    BundleStarts(ws);
    assert ["crate", name][1..] == [name] && parent[..0] == [];
  }

  // ---------------------------------------------------------------------
  // When a path survives
  // ---------------------------------------------------------------------

  /** Whether a walk ends where a macro is exported. */
  ghost predicate Lands(world: World, base: seq<string>, steps: seq<string>, space: Space)
    decreases |steps|
  {
    if steps == [] then false
    else if |steps| == 1 then Slot(base, steps[0], space) in world.items && world.items[Slot(base, steps[0], space)].Exported?
    else exists inner :: Holds(world, Slot(base, steps[0], Types), Module(inner)) && Lands(world, inner, steps[1..], space)
  }

  ghost predicate LandsOnMacro(ws: Workspace, parent: seq<string>, names: seq<string>, space: Space) {
    var route := RouteOf(WorldOf(ws), parent, names, space);
    route.Some? && Lands(WorldOf(ws), route.value.base, route.value.steps, space)
  }

  /**
   Whether the rewriter does right by a path that names `entity`. It does not by a
   bare `crate`, nor by an entry of braces that starts with the name of a crate. A
   plain path must mean the macro that it seems to name. Any other must mean what
   it means with its head read as a crate, and must not end where a macro is
   exported: the macro is not there any more.
   */
  ghost predicate Survives(ws: Workspace, parent: seq<string>, path: Path, space: Space, entity: Entity)
    requires IsWritten(path)
  {
    && !IsBareCrate(path) && !EntersCrate(Known(ws), path)
    && if IsPlain(Known(ws), path) then entity.ExportedMacro? && entity.name == path.first[1]
       else Reads(WorldOf(ws), parent, path.Names(), space, entity) && !LandsOnMacro(ws, parent, path.Names(), space)
  }

  /** Whether there is an import at the slot, which names `entity`. */
  ghost predicate Imports(ws: Workspace, slot: Slot, entity: Entity) {
    && slot in ws.items && ws.items[slot].Import?
    && Reads(WorldOf(ws), slot.parent, ws.items[slot].target.Names(), slot.space, entity)
  }

  ghost predicate NoImportBreaks(ws: Workspace)
    requires IsWorkspace(ws)
  {
    forall slot, entity :: Imports(ws, slot, entity) ==> Survives(ws, slot.parent, ws.items[slot].target, slot.space, entity)
  }

  /** Each import names in the bundle what it named in the workspace. */
  ghost predicate ImportsAreKept(ws: Workspace)
    requires CanBundle(ws)
  {
    forall slot, entity :: Imports(ws, slot, entity) ==>
      Reads(BundleOf(ws), slot.parent, MovedNames(ws, slot.parent[0], ws.items[slot].target), slot.space, entity)
  }

  lemma BundleImport(ws: Workspace, slot: Slot, entity: Entity)
    requires CanBundle(ws) && slot in ws.items && ws.items[slot].Import?
    ensures Holds(BundleOf(ws), slot, entity) <==>
      Reads(BundleOf(ws), slot.parent, MovedNames(ws, slot.parent[0], ws.items[slot].target), slot.space, entity)
  {
    BundleHolds(ws, slot);
    hide BundleOf, CanShareRoot, MovedPath, Holds, Reads;
    HoldsImport(BundleOf(ws), slot, entity);
  }

  /** From the root of the bundle, a crate leads where its module does. */
  lemma FromTheRoot(ws: Workspace, krate: string, steps: seq<string>, space: Space, entity: Entity)
    requires CanBundle(ws) && krate in ws.crates
    ensures Leads(BundleOf(ws), [], [krate] + steps, space, entity) <==> Leads(BundleOf(ws), [krate], steps, space, entity)
  {
    var world := BundleOf(ws);
    if steps == [] {
      assert [krate] + steps == [krate];
      LeadsLast(world, [], krate, space, entity);
      AtTheRoot(ws, krate, space, entity);
      CrateIsNoMacro(ws, krate);
      hide BundleOf, IsWorkspace, CanShareRoot;
      LeadsNowhere(world, [krate], space, entity);
    } else {
      assert ([krate] + steps)[1..] == steps && ([krate] + steps)[0] == krate;
      LeadsFirst(world, [], [krate] + steps, space, entity);
      forall first ensures Holds(world, Slot([], krate, Types), first) <==> first == Module([krate]) {
        AtTheRoot(ws, krate, Types, first);
      }
      hide BundleOf, IsWorkspace, CanShareRoot, Holds, Leads;
      assert Onward(world, Module([krate]), steps, space, entity) <==> Leads(world, [krate], steps, space, entity);
    }
  }

  lemma LeadsNowhere(world: World, base: seq<string>, space: Space, entity: Entity)
    ensures Leads(world, base, [], space, entity) <==> space == Types && entity == Module(base)
  {
    assert Walk(world, base, [], space, 0) == if space == Types then Some(Module(base)) else None;
  }

  lemma CrateIsNoMacro(ws: Workspace, krate: string)
    requires CanBundle(ws) && krate in ws.crates
    ensures forall definer :: !Exports(ws.files, definer, krate)
  {
    forall definer ensures !Exports(ws.files, definer, krate) {
      if Exports(ws.files, definer, krate) {
        OneExporter(ws, definer, definer, krate);
      }
    }
  }

  // ---------------------------------------------------------------------
  // If no import breaks, all are kept
  // ---------------------------------------------------------------------

  /** Every exported macro that a walk finds is one of the files, and is found among the macros. */
  lemma {:induction false} NamedIsExported(ws: Workspace, slot: Slot, imports: nat)
    requires IsWorkspace(ws) && Named(WorldOf(ws), slot, imports).Some? && Named(WorldOf(ws), slot, imports).value.ExportedMacro?
    ensures var macro := Named(WorldOf(ws), slot, imports).value; slot.space == Macros && Exports(ws.files, macro.krate, macro.name)
    decreases imports, 0
  {
    if ws.items[slot].Import? {
      assert Resolved(WorldOf(ws), slot.parent, ws.items[slot].target.Names(), slot.space, imports - 1).Some?;
      var route := RouteOf(WorldOf(ws), slot.parent, ws.items[slot].target.Names(), slot.space).value;
      WalkIsExported(ws, route.base, route.steps, slot.space, imports - 1);
    }
  }

  lemma {:induction false} WalkIsExported(ws: Workspace, base: seq<string>, steps: seq<string>, space: Space, imports: nat)
    requires IsWorkspace(ws) && Walk(WorldOf(ws), base, steps, space, imports).Some?
    requires Walk(WorldOf(ws), base, steps, space, imports).value.ExportedMacro?
    ensures var macro := Walk(WorldOf(ws), base, steps, space, imports).value; space == Macros && Exports(ws.files, macro.krate, macro.name)
    decreases imports, 1, |steps|
  {
    if |steps| == 1 {
      NamedIsExported(ws, Slot(base, steps[0], space), imports);
    } else {
      WalkIsExported(ws, Named(WorldOf(ws), Slot(base, steps[0], Types), imports).value.path, steps[1..], space, imports);
    }
  }

  lemma SlotIsInside(ws: Workspace, slot: Slot)
    requires IsWorkspace(ws) && slot in ws.items
    ensures slot.parent != [] && slot.parent[0] in ws.crates
    ensures ws.items[slot].Import? ==> IsWritten(ws.items[slot].target) && IsImport(ws, slot, ws.items[slot].target)
  {
  }

  lemma {:induction false} NamedKeeps(ws: Workspace, slot: Slot, imports: nat)
    requires CanBundle(ws) && NoImportBreaks(ws)
    requires Named(WorldOf(ws), slot, imports).Some? && !ws.items[slot].Exported?
    ensures Holds(BundleOf(ws), slot, Named(WorldOf(ws), slot, imports).value)
    decreases imports, 0
  {
    hide BundleOf, NoImportBreaks, CanShareRoot, IsImport, IsWorkspace, Holds;
    SlotIsInside(ws, slot);
    if ws.items[slot].Import? {
      assert Resolved(WorldOf(ws), slot.parent, ws.items[slot].target.Names(), slot.space, imports - 1)
          == Named(WorldOf(ws), slot, imports);
      hide Resolved, Named;
      ImportKeeps(ws, slot, imports - 1);
    } else {
      ItemKeeps(ws, slot, imports);
    }
  }

  lemma ItemKeeps(ws: Workspace, slot: Slot, imports: nat)
    requires CanBundle(ws) && slot in ws.items && slot.parent != [] && (ws.items[slot].Submodule? || ws.items[slot].Defined?)
    ensures Named(WorldOf(ws), slot, imports).Some? && Holds(BundleOf(ws), slot, Named(WorldOf(ws), slot, imports).value)
  {
    BundleHolds(ws, slot);
    hide BundleOf, CanShareRoot, IsWorkspace;
    assert Named(BundleOf(ws), slot, 0) == Named(WorldOf(ws), slot, imports);
  }

  lemma {:induction false} ImportKeeps(ws: Workspace, slot: Slot, imports: nat)
    requires CanBundle(ws) && NoImportBreaks(ws) && slot in ws.items && ws.items[slot].Import?
    requires slot.parent != [] && slot.parent[0] in ws.crates && IsWritten(ws.items[slot].target)
    requires Resolved(WorldOf(ws), slot.parent, ws.items[slot].target.Names(), slot.space, imports).Some?
    ensures Holds(BundleOf(ws), slot, Resolved(WorldOf(ws), slot.parent, ws.items[slot].target.Names(), slot.space, imports).value)
    decreases imports, 3
  {
    hide BundleOf, NoImportBreaks, CanShareRoot, MovedPath, RouteOf, IsWorkspace, Named, Holds, Reads, Survives, Resolved;
    var target := ws.items[slot].target;
    ImportSurvives(ws, slot, imports);
    ResolvedKeeps(ws, slot.parent, target, slot.space, imports);
    BundleImport(ws, slot, Resolved(WorldOf(ws), slot.parent, target.Names(), slot.space, imports).value);
  }

  lemma ImportSurvives(ws: Workspace, slot: Slot, imports: nat)
    requires IsWorkspace(ws) && NoImportBreaks(ws) && slot in ws.items && ws.items[slot].Import?
    requires Resolved(WorldOf(ws), slot.parent, ws.items[slot].target.Names(), slot.space, imports).Some?
    ensures Survives(ws, slot.parent, ws.items[slot].target, slot.space,
      Resolved(WorldOf(ws), slot.parent, ws.items[slot].target.Names(), slot.space, imports).value)
  {
    hide Walk, Survives;
    var entity := Resolved(WorldOf(ws), slot.parent, ws.items[slot].target.Names(), slot.space, imports).value;
    ResolvedReads(WorldOf(ws), slot.parent, ws.items[slot].target.Names(), slot.space, imports);
    assert Imports(ws, slot, entity);
  }

  lemma ResolvedReads(world: World, parent: seq<string>, names: seq<string>, space: Space, imports: nat)
    requires Resolved(world, parent, names, space, imports).Some?
    ensures Reads(world, parent, names, space, Resolved(world, parent, names, space, imports).value)
  {
    hide Walk;
  }

  lemma {:induction false} WalkKeeps(ws: Workspace, base: seq<string>, steps: seq<string>, space: Space, imports: nat)
    requires CanBundle(ws) && NoImportBreaks(ws)
    requires Walk(WorldOf(ws), base, steps, space, imports).Some? && !Lands(WorldOf(ws), base, steps, space)
    ensures Leads(BundleOf(ws), base, steps, space, Walk(WorldOf(ws), base, steps, space, imports).value)
    decreases imports, 1, |steps|
  {
    var entity := Walk(WorldOf(ws), base, steps, space, imports).value;
    hide BundleOf, NoImportBreaks, CanShareRoot;
    if steps == [] {
      LeadsNowhere(BundleOf(ws), base, space, entity);
    } else {
      var slot := Slot(base, steps[0], if |steps| == 1 then space else Types);
      assert slot in ws.items && !ws.items[slot].Exported?;
      var first := Named(WorldOf(ws), slot, imports).value;
      hide IsWorkspace;
      NamedKeeps(ws, slot, imports);
      if |steps| == 1 {
        assert steps == [steps[0]];
        LeadsLast(BundleOf(ws), base, steps[0], space, entity);
      } else {
        if first.Module? {
          assert Holds(WorldOf(ws), slot, Module(first.path));
          WalkKeeps(ws, first.path, steps[1..], space, imports);
        }
        hide Walk, Named, Leads, Holds, Lands;
        assert Onward(BundleOf(ws), first, steps[1..], space, entity);
        LeadsFirst(BundleOf(ws), base, steps, space, entity);
      }
    }
  }

  /** Along every walk and chain of imports, a path that survives names what it named. */
  lemma {:induction false} ResolvedKeeps(ws: Workspace, parent: seq<string>, path: Path, space: Space, imports: nat)
    requires CanBundle(ws) && NoImportBreaks(ws) && parent != [] && parent[0] in ws.crates && IsWritten(path)
    requires Resolved(WorldOf(ws), parent, path.Names(), space, imports).Some?
    requires Survives(ws, parent, path, space, Resolved(WorldOf(ws), parent, path.Names(), space, imports).value)
    ensures Reads(BundleOf(ws), parent, MovedNames(ws, parent[0], path), space,
      Resolved(WorldOf(ws), parent, path.Names(), space, imports).value)
    decreases imports, 2
  {
    hide BundleOf, Walk, NoImportBreaks, CanShareRoot, IsWorkspace, MovedNames, EntersCrate, IsPlain, Lands;
    var entity := Resolved(WorldOf(ws), parent, path.Names(), space, imports).value;
    var Route(base, steps) := RouteOf(WorldOf(ws), parent, path.Names(), space).value;
    if IsPlain(Known(ws), path) {
      WalkIsExported(ws, base, steps, space, imports);
      PlainReads(ws, parent, path, space, entity);
    } else {
      MovedRoute(ws, parent, path, space);
      WalkKeeps(ws, base, steps, space, imports);
      if HeadIsCrate(Known(ws), path) {
        FromTheRoot(ws, base[0], steps, space, entity);
      }
    }
  }

  // ---------------------------------------------------------------------
  // If all imports are kept, the bundle leads where the workspace does
  // ---------------------------------------------------------------------

  /** At each name of the crates, the bundle holds what the workspace does, but for the macros. */
  lemma SlotsAgree(ws: Workspace, slot: Slot, entity: Entity)
    requires CanBundle(ws) && ImportsAreKept(ws) && slot.parent != []
    ensures Holds(BundleOf(ws), slot, entity) <==>
      Holds(WorldOf(ws), slot, entity) && !(slot in ws.items && ws.items[slot].Exported?)
  {
    BundleHolds(ws, slot);
    hide BundleOf, CanShareRoot, MovedPath, RouteOf, Leads;
    if slot in ws.items && ws.items[slot].Import? {
      assert IsImport(ws, slot, ws.items[slot].target);
      ImportAgrees(ws, slot, entity);
    } else if slot in ws.items && !ws.items[slot].Exported? {
      hide ImportsAreKept, IsWorkspace;
      assert Named(BundleOf(ws), slot, 0) == Named(WorldOf(ws), slot, 0);
      assert forall imports: nat :: Named(BundleOf(ws), slot, imports) == Named(WorldOf(ws), slot, imports);
    }
  }

  lemma ImportAgrees(ws: Workspace, slot: Slot, entity: Entity)
    requires CanBundle(ws) && ImportsAreKept(ws) && slot in ws.items && ws.items[slot].Import?
    requires IsImport(ws, slot, ws.items[slot].target)
    ensures Holds(BundleOf(ws), slot, entity) <==> Holds(WorldOf(ws), slot, entity)
  {
    var target := ws.items[slot].target;
    HoldsImport(WorldOf(ws), slot, entity);
    BundleImport(ws, slot, entity);
    hide BundleOf, CanShareRoot, MovedNames, Holds, RouteOf, Leads, IsWrittenIn;
    var named :| Reads(WorldOf(ws), slot.parent, target.Names(), slot.space, named);
    assert Imports(ws, slot, named);
    if Imports(ws, slot, entity) {
      assert Reads(BundleOf(ws), slot.parent, MovedNames(ws, slot.parent[0], target), slot.space, entity);
    }
    if Reads(BundleOf(ws), slot.parent, MovedNames(ws, slot.parent[0], target), slot.space, entity) {
      ReadsOne(BundleOf(ws), slot.parent, MovedNames(ws, slot.parent[0], target), slot.space, entity, named);
    }
  }

  lemma ReadsOne(world: World, parent: seq<string>, names: seq<string>, space: Space, a: Entity, b: Entity)
    requires Reads(world, parent, names, space, a) && Reads(world, parent, names, space, b)
    ensures a == b
  {
    var route := RouteOf(world, parent, names, space).value;
    LeadsOne(world, route.base, route.steps, space, a, b);
  }

  /** The modules of the workspace are inside its crates. */
  lemma {:induction false} NamedIsInside(ws: Workspace, slot: Slot, imports: nat)
    requires CanBundle(ws) && Named(WorldOf(ws), slot, imports).Some? && Named(WorldOf(ws), slot, imports).value.Module?
    ensures Named(WorldOf(ws), slot, imports).value.path != []
    decreases imports, 0
  {
    hide CanShareRoot;
    if ws.items[slot].Import? {
      var names := ws.items[slot].target.Names();
      assert Resolved(WorldOf(ws), slot.parent, names, slot.space, imports - 1).Some?;
      RouteIsInside(ws, slot.parent, names, slot.space);
      var route := RouteOf(WorldOf(ws), slot.parent, names, slot.space).value;
      WalkIsInside(ws, route.base, route.steps, slot.space, imports - 1);
    }
  }

  lemma {:induction false} WalkIsInside(ws: Workspace, base: seq<string>, steps: seq<string>, space: Space, imports: nat)
    requires CanBundle(ws) && base != [] && Walk(WorldOf(ws), base, steps, space, imports).Some?
    requires Walk(WorldOf(ws), base, steps, space, imports).value.Module?
    ensures Walk(WorldOf(ws), base, steps, space, imports).value.path != []
    decreases imports, 1, |steps|
  {
    if steps != [] {
      var slot := Slot(base, steps[0], if |steps| == 1 then space else Types);
      NamedIsInside(ws, slot, imports);
      if |steps| > 1 {
        WalkIsInside(ws, Named(WorldOf(ws), slot, imports).value.path, steps[1..], space, imports);
      }
    }
  }

  lemma RouteIsInside(ws: Workspace, parent: seq<string>, names: seq<string>, space: Space)
    requires CanBundle(ws) && parent != [] && parent[0] in ws.crates && RouteOf(WorldOf(ws), parent, names, space).Some?
    ensures RouteOf(WorldOf(ws), parent, names, space).value.base != []
  {
    hide CanShareRoot, IsWorkspace;
    var cleared := Cleared(names, space).value;
    if cleared[0] == "self" {
      ClimbKeeps(ws, parent, cleared[1..]);
    } else if cleared[0] == "super" {
      ClimbKeeps(ws, parent, cleared);
    }
  }

  /** From each module of the crates, the bundle leads where the workspace does, but for the macros. */
  lemma {:induction false} WalksAgree(ws: Workspace, base: seq<string>, steps: seq<string>, space: Space, entity: Entity)
    requires CanBundle(ws) && ImportsAreKept(ws) && base != []
    ensures Leads(BundleOf(ws), base, steps, space, entity) <==>
      Leads(WorldOf(ws), base, steps, space, entity) && !Lands(WorldOf(ws), base, steps, space)
    decreases |steps|, 0
  {
    var before, after := WorldOf(ws), BundleOf(ws);
    hide BundleOf, CanShareRoot, ImportsAreKept, Walk, Named;
    if steps == [] {
      LeadsNowhere(before, base, space, entity);
      LeadsNowhere(after, base, space, entity);
    } else if |steps| == 1 {
      assert steps == [steps[0]];
      LeadsLast(before, base, steps[0], space, entity);
      LeadsLast(after, base, steps[0], space, entity);
      SlotsAgree(ws, Slot(base, steps[0], space), entity);
    } else {
      LeadsFirst(before, base, steps, space, entity);
      LeadsFirst(after, base, steps, space, entity);
      var slot := Slot(base, steps[0], Types);
      assert !(slot in ws.items && ws.items[slot].Exported?);
      hide IsWorkspace;
      forall first ensures Holds(after, slot, first) <==> Holds(before, slot, first) {
        SlotsAgree(ws, slot, first);
      }
      hide Leads;
      if first :| Holds(before, slot, first) {
        OnwardAgrees(ws, slot, first, steps[1..], space, entity);
        forall other | Holds(before, slot, other) ensures other == first {
          HoldsOne(before, slot, other, first);
        }
      }
    }
  }

  lemma {:induction false} OnwardAgrees(ws: Workspace, slot: Slot, first: Entity, steps: seq<string>, space: Space, entity: Entity)
    requires CanBundle(ws) && ImportsAreKept(ws) && Holds(WorldOf(ws), slot, first)
    ensures Onward(BundleOf(ws), first, steps, space, entity) <==>
      Onward(WorldOf(ws), first, steps, space, entity) && !(first.Module? && Lands(WorldOf(ws), first.path, steps, space))
    decreases |steps|, 1
  {
    if first.Module? {
      var imports: nat :| Named(WorldOf(ws), slot, imports) == Some(first);
      NamedIsInside(ws, slot, imports);
      WalksAgree(ws, first.path, steps, space, entity);
    }
  }

  // ---------------------------------------------------------------------
  // Exactly which paths are kept
  // ---------------------------------------------------------------------

  lemma LeadsIsExported(ws: Workspace, base: seq<string>, steps: seq<string>, space: Space, macro: Entity)
    requires IsWorkspace(ws) && Leads(WorldOf(ws), base, steps, space, macro) && macro.ExportedMacro?
    ensures space == Macros && Exports(ws.files, macro.krate, macro.name)
  {
    var imports: nat :| Walk(WorldOf(ws), base, steps, space, imports) == Some(macro);
    WalkIsExported(ws, base, steps, space, imports);
  }

  /** A path that names something has a route as the rewriter reads it. */
  lemma DenotedHasRoute(ws: Workspace, parent: seq<string>, names: seq<string>, space: Space, entity: Entity)
    requires CanBundle(ws)
    requires Reads(WorldOf(ws), parent, names, space, entity) || Denotes(WorldOf(ws), parent, names, space, entity)
    ensures RouteOf(WorldOf(ws), parent, names, space).Some? && names != [] && "crate" !in names[1..]
    ensures entity.ExportedMacro? ==> space == Macros && Exports(ws.files, entity.krate, entity.name)
    ensures names[0] == "crate" ==> Reads(WorldOf(ws), parent, names, space, entity)
  {
    hide CanShareRoot, Exports;
    assert Cleared(names, space).Some? && Cleared(names, space).value[0] == names[0];
    if entity.ExportedMacro? {
      if Reads(WorldOf(ws), parent, names, space, entity) {
        var route := RouteOf(WorldOf(ws), parent, names, space).value;
        LeadsIsExported(ws, route.base, route.steps, space, entity);
      } else {
        LeadsIsExported(ws, parent, Cleared(names, space).value, space, entity);
      }
    }
  }

  /** Once the imports are kept, a path names in the bundle what it named exactly when it survives. */
  lemma KeptExactly(ws: Workspace, parent: seq<string>, path: Path, space: Space, entity: Entity)
    requires CanBundle(ws) && ImportsAreKept(ws) && parent != [] && parent[0] in ws.crates && IsWritten(path)
    requires Reads(WorldOf(ws), parent, path.Names(), space, entity) || Denotes(WorldOf(ws), parent, path.Names(), space, entity)
    ensures Reads(BundleOf(ws), parent, MovedNames(ws, parent[0], path), space, entity) <==> Survives(ws, parent, path, space, entity)
  {
    DenotedHasRoute(ws, parent, path.Names(), space, entity);
    hide BundleOf, CanShareRoot, IsWorkspace, ImportsAreKept, MovedNames, EntersCrate, IsPlain, Denotes, Lands, Leads;
    if EntersCrate(Known(ws), path) {
      EnteredIsLost(ws, parent, path, space, entity);
    } else if IsBareCrate(path) {
      BareCrateChanges(ws, parent, path, space, entity);
      assert path.Names()[0] == "crate";
    } else if IsPlain(Known(ws), path) {
      PlainReads(ws, parent, path, space, entity);
    } else {
      MovedRoute(ws, parent, path, space);
      var Route(base, steps) := RouteOf(WorldOf(ws), parent, path.Names(), space).value;
      WalksAgree(ws, base, steps, space, entity);
      if HeadIsCrate(Known(ws), path) {
        FromTheRoot(ws, base[0], steps, space, entity);
      }
    }
  }

  /** The bundle keeps the meaning of every import exactly when the rewriter does right by each of them. */
  lemma ImportsAreExact(ws: Workspace)
    requires CanBundle(ws)
    ensures ImportsAreKept(ws) <==> NoImportBreaks(ws)
  {
    hide BundleOf, CanShareRoot, MovedNames, Reads, Survives, IsWrittenIn;
    forall slot, entity | NoImportBreaks(ws) && Imports(ws, slot, entity)
      ensures Reads(BundleOf(ws), slot.parent, MovedNames(ws, slot.parent[0], ws.items[slot].target), slot.space, entity)
    {
      SlotIsInside(ws, slot);
      ImportKept(ws, slot, entity);
    }
    forall slot, entity | ImportsAreKept(ws) && Imports(ws, slot, entity)
      ensures Survives(ws, slot.parent, ws.items[slot].target, slot.space, entity)
    {
      SlotIsInside(ws, slot);
      KeptExactly(ws, slot.parent, ws.items[slot].target, slot.space, entity);
    }
  }

  lemma ImportKept(ws: Workspace, slot: Slot, entity: Entity)
    requires CanBundle(ws) && NoImportBreaks(ws) && Imports(ws, slot, entity)
    requires slot.parent != [] && slot.parent[0] in ws.crates && IsWritten(ws.items[slot].target)
    ensures Reads(BundleOf(ws), slot.parent, MovedNames(ws, slot.parent[0], ws.items[slot].target), slot.space, entity)
  {
    HoldsImport(WorldOf(ws), slot, entity);
    hide BundleOf, CanShareRoot, IsWorkspace, NoImportBreaks, MovedNames, Reads;
    var imports: nat :| Named(WorldOf(ws), slot, imports) == Some(entity);
    NamedKeeps(ws, slot, imports);
    BundleImport(ws, slot, entity);
  }

  /** In the bundle no name hides a crate: its crates have none. */
  lemma NothingShadows(ws: Workspace, parent: seq<string>, names: seq<string>, space: Space, entity: Entity)
    requires CanBundle(ws)
    ensures Denotes(BundleOf(ws), parent, names, space, entity) <==> Reads(BundleOf(ws), parent, names, space, entity)
  {
    BundleStarts(ws);
  }

  /**
   In a workspace whose imports do not break, a path that names something names
   the same thing in the bundle, and no other, exactly when it survives.
   */
  lemma PathKeepsMeaning(ws: Workspace, parent: seq<string>, path: Path, space: Space, entity: Entity)
    requires CanBundle(ws) && NoImportBreaks(ws) && parent != [] && parent[0] in ws.crates && IsWritten(path)
    requires Denotes(WorldOf(ws), parent, path.Names(), space, entity)
    ensures var moved := MovedNames(ws, parent[0], path);
      && (Denotes(BundleOf(ws), parent, moved, space, entity) <==> Survives(ws, parent, path, space, entity))
      && (Survives(ws, parent, path, space, entity) ==>
          forall other :: Denotes(BundleOf(ws), parent, moved, space, other) ==> other == entity)
  {
    ImportsAreExact(ws);
    hide BundleOf, IsWorkspace, CanShareRoot, NoImportBreaks, ImportsAreKept, Survives, MovedNames, Denotes, Reads;
    var moved := MovedNames(ws, parent[0], path);
    KeptExactly(ws, parent, path, space, entity);
    forall other ensures Denotes(BundleOf(ws), parent, moved, space, other) <==> Reads(BundleOf(ws), parent, moved, space, other) {
      NothingShadows(ws, parent, moved, space, other);
    }
    forall other | Reads(BundleOf(ws), parent, moved, space, entity) && Reads(BundleOf(ws), parent, moved, space, other)
      ensures other == entity
    {
      ReadsOne(BundleOf(ws), parent, moved, space, other, entity);
    }
  }

  /** A path that is not plain and ends where a macro was exported names nothing any more. */
  lemma LandedIsLost(ws: Workspace, parent: seq<string>, path: Path, space: Space, entity: Entity)
    requires CanBundle(ws) && ImportsAreKept(ws) && parent != [] && parent[0] in ws.crates && IsWritten(path)
    requires !IsBareCrate(path) && !EntersCrate(Known(ws), path) && !IsPlain(Known(ws), path)
    requires LandsOnMacro(ws, parent, path.Names(), space)
    ensures !Denotes(BundleOf(ws), parent, MovedNames(ws, parent[0], path), space, entity)
  {
    MovedRoute(ws, parent, path, space);
    hide BundleOf, CanShareRoot, IsWorkspace, ImportsAreKept, MovedNames, EntersCrate, IsPlain, Lands, Leads, Denotes;
    var Route(base, steps) := RouteOf(WorldOf(ws), parent, path.Names(), space).value;
    WalksAgree(ws, base, steps, space, entity);
    if HeadIsCrate(Known(ws), path) {
      FromTheRoot(ws, base[0], steps, space, entity);
    }
    NothingShadows(ws, parent, MovedNames(ws, parent[0], path), space, entity);
  }

  // ---------------------------------------------------------------------
  // Plain paths
  // ---------------------------------------------------------------------

  ghost function PlainPath(krate: string, name: string): Path { Path([krate, name], [], false, []) }

  /** Every plain path to a macro names in the bundle what it named in the workspace. */
  ghost predicate PlainPathsAreKept(ws: Workspace)
    requires CanBundle(ws)
  {
    forall krate, name, space, entity ::
      krate in ws.crates && name in MacrosOf(ws) && Reads(WorldOf(ws), [krate], PlainPath(krate, name).Names(), space, entity) ==>
      Reads(BundleOf(ws), [krate], MovedNames(ws, krate, PlainPath(krate, name)), space, entity)
  }

  /** What a crate has under the name of an exported macro is that macro. */
  ghost predicate MacrosStandAlone(ws: Workspace) {
    forall krate, name, space, entity ::
      krate in ws.crates && name in MacrosOf(ws) && Leads(WorldOf(ws), [krate], [name], space, entity) ==>
      entity.ExportedMacro? && entity.name == name
  }

  lemma PlainPathIsExact(ws: Workspace, krate: string, name: string, space: Space, entity: Entity)
    requires CanBundle(ws) && krate in ws.crates && name in MacrosOf(ws)
    ensures Reads(WorldOf(ws), [krate], PlainPath(krate, name).Names(), space, entity) <==> Leads(WorldOf(ws), [krate], [name], space, entity)
    ensures Leads(WorldOf(ws), [krate], [name], space, entity) ==>
      (Reads(BundleOf(ws), [krate], MovedNames(ws, krate, PlainPath(krate, name)), space, entity) <==>
        entity.ExportedMacro? && entity.name == name)
  {
    var path := PlainPath(krate, name);
    assert Flatten(path.rest) == [] && path.Names() == [krate, name] && [krate, name][1..] == [name];
    assert name in Known(ws).exported && IsPlain(Known(ws), path);
    assert RouteOf(WorldOf(ws), [krate], path.Names(), space) == Some(Route([krate], [name]));
    hide BundleOf, CanShareRoot, IsPlain, RouteOf, MovedNames;
    PlainReads(ws, [krate], path, space, entity);
    if Leads(WorldOf(ws), [krate], [name], space, entity) && entity.ExportedMacro? {
      LeadsIsExported(ws, [krate], [name], space, entity);
    }
  }

  /**
   Exactly when a bundle keeps the meaning of its imports and of the plain paths to
   its macros: when no import breaks and macros stand alone under their names.
   */
  lemma BundleIsFaithful(ws: Workspace)
    requires CanBundle(ws)
    ensures ImportsAreKept(ws) && PlainPathsAreKept(ws) <==> NoImportBreaks(ws) && MacrosStandAlone(ws)
  {
    ImportsAreExact(ws);
    hide ImportsAreKept, NoImportBreaks, BundleOf, MovedNames, CanShareRoot, IsWorkspace, Leads, Reads, MacrosOf;
    forall krate, name, space, entity | krate in ws.crates && name in MacrosOf(ws)
      ensures Reads(WorldOf(ws), [krate], PlainPath(krate, name).Names(), space, entity) <==> Leads(WorldOf(ws), [krate], [name], space, entity)
      ensures Leads(WorldOf(ws), [krate], [name], space, entity) ==>
        (Reads(BundleOf(ws), [krate], MovedNames(ws, krate, PlainPath(krate, name)), space, entity) <==>
          entity.ExportedMacro? && entity.name == name)
    {
      PlainPathIsExact(ws, krate, name, space, entity);
    }
  }

  // ---------------------------------------------------------------------
  // The files of a bundle
  // ---------------------------------------------------------------------

  /** The image of a run stands in the rewritten file, spelled as the moved run. */
  ghost predicate IsMovedIn(names: Names, file: SourceFile, output: Rewritten, run: Run, moved: seq<string>) {
    && IsRunIn(file.tokens, run) && moved != []
    && var list, head, count := ListAt(file.tokens, run.place), run.head, run.count;
      && IsForward(list, head, count, |file.text|) && Visited(names, file.krate, file.tokens).Ok?
      && var edits, image := Visited(names, file.krate, file.tokens).value.edits, Image(names, file.krate, file.text, list, head, count);
        && Ordered(edits, 0, |file.text|) && output.text == Spliced(file.text, edits, 0, |file.text|)
        && Stands(file.text, edits, list[head].start, list[Last(head, count)].end, image)
        && (IsSpelledAt(file.text, list, head, count) ==> image == Spelled(moved[0], moved[1..]))
  }

  lemma RunIsMoved(names: Names, file: SourceFile, output: Rewritten, run: Run)
    requires IsLexed(file) && IsRewrite(names, file, output) && IsRunIn(file.tokens, run)
    ensures IsMovedIn(names, file, output, run, Moved(names, file.krate, NamesIn(file.tokens, run), ContinuesIn(file.tokens, run)))
  {
    var list := ListAt(file.tokens, run.place);
    hide Visited, Spliced, ListAt, Nested, Stands, Image, IsSpelledAt, Segments, Continues, Ordered, MacroLiteral, IsForward, Moved;
    ImageStands(names, file.krate, file.text, file.tokens, run.place, run.head, run.count);
    if IsSpelledAt(file.text, list, run.head, run.count) {
      ImageIsSpelled(names, file.krate, file.text, list, run.head, run.count);
    }
  }

  /** The imports of the bundle are those of its files: each run of an import stands there as the import moves it. */
  lemma ImportIsMoved(ws: Workspace, outputs: seq<Rewritten>, slot: Slot) returns (i: nat, runs: seq<Run>)
    requires IsWorkspace(ws) && IsBundle(ws.crates, ws.files, outputs) && slot in ws.items && ws.items[slot].Import?
    ensures slot in BundleOf(ws).items && BundleOf(ws).items[slot].Import? && i < |ws.files| && ws.files[i].krate == slot.parent[0]
    ensures var moved := Runs(BundleOf(ws).items[slot].target);
      && IsWrittenAt(ws.files[i].tokens, runs, ws.items[slot].target) && |moved| == |runs|
      && forall k :: 0 <= k < |runs| ==> IsMovedIn(Known(ws), ws.files[i], outputs[i], runs[k], moved[k])
  {
    BundleHolds(ws, slot);
    SlotIsInside(ws, slot);
    hide IsMovedIn, IsWrittenAt, BundleOf, CanShareRoot, IsRewrite, IsLexed, MovedPath, Reads;
    var path := ws.items[slot].target;
    i, runs :| 0 <= i < |ws.files| && ws.files[i].krate == slot.parent[0] && IsWrittenAt(ws.files[i].tokens, runs, path);
    assert IsRewrite(Known(ws), ws.files[i], outputs[i]) && IsLexed(ws.files[i]);
    hide IsWorkspace;
    RunsAreMoved(Known(ws), ws.files[i], outputs[i], runs, path);
  }

  lemma RunsAreMoved(names: Names, file: SourceFile, output: Rewritten, runs: seq<Run>, path: Path)
    requires IsLexed(file) && IsRewrite(names, file, output) && IsWrittenAt(file.tokens, runs, path) && IsWritten(path)
    ensures |runs| == |Runs(MovedPath(names, file.krate, path))|
    ensures forall k :: 0 <= k < |runs| ==> IsMovedIn(names, file, output, runs[k], Runs(MovedPath(names, file.krate, path))[k])
  {
    hide IsMovedIn, IsRewrite, IsLexed, Moved, IsRunIn, NamesIn, ContinuesIn;
    var moved := Runs(MovedPath(names, file.krate, path));
    forall k | 0 <= k < |runs| ensures IsMovedIn(names, file, output, runs[k], moved[k]) {
      RunIsMoved(names, file, output, runs[k]);
      assert k < |runs| - 1 ==> GoesInto(file.tokens, runs[k], runs[k + 1]);
      assert moved[k] == Moved(names, file.krate, Runs(path)[k], ContinuesIn(file.tokens, runs[k]));
    }
  }

  /** Whether a run is not an entry of the braces of a path. */
  ghost predicate StartsPath(tokens: seq<Token>, place: Place)
    requires IsPlace(tokens, place)
  {
    match place
    case Top => true
    case Inside(index, Top) => index < 2 || !IsPathSeparator(tokens, index - 2)
    case Inside(index, rest) => StartsPath(tokens[index].tokens, rest)
  }

  ghost function PathIn(tokens: seq<Token>, run: Run): (path: Path)
    requires IsRunIn(tokens, run)
    ensures IsWritten(path)
  {
    Path(NamesIn(tokens, run), [], ContinuesIn(tokens, run), [])
  }

  /**
   The bundle keeps meaning. Let a path stand in a file of a workspace whose
   imports do not break, at any depth, and name something in the module it is in.
   In the rewritten file its image stands where it stood, spelled as the moved
   path; and in the bundle the moved path names that thing, and no other, exactly
   when the path survives.
   */
  lemma BundleKeepsMeaning(ws: Workspace, outputs: seq<Rewritten>, i: nat, run: Run, parent: seq<string>, space: Space, entity: Entity)
    requires IsWorkspace(ws) && IsBundle(ws.crates, ws.files, outputs) && NoImportBreaks(ws)
    requires i < |ws.files| && parent != [] && parent[0] == ws.files[i].krate
    requires IsRunIn(ws.files[i].tokens, run) && StartsPath(ws.files[i].tokens, run.place)
    requires Denotes(WorldOf(ws), parent, PathIn(ws.files[i].tokens, run).Names(), space, entity)
    ensures var path := PathIn(ws.files[i].tokens, run);
      var moved := MovedNames(ws, parent[0], path);
      && IsMovedIn(Known(ws), ws.files[i], outputs[i], run, moved)
      && (Denotes(BundleOf(ws), parent, moved, space, entity) <==> Survives(ws, parent, path, space, entity))
      && (Survives(ws, parent, path, space, entity) ==>
          forall other :: Denotes(BundleOf(ws), parent, moved, space, other) ==> other == entity)
  {
    hide IsMovedIn, Denotes, NoImportBreaks, Survives, BundleOf, IsRewrite, IsLexed, CanShareRoot, NamesIn, ContinuesIn, IsRunIn;
    var path := PathIn(ws.files[i].tokens, run);
    assert IsLexed(ws.files[i]) && IsRewrite(Known(ws), ws.files[i], outputs[i]) && parent[0] in ws.crates;
    hide IsWorkspace, Moved, IsImport;
    RunIsMoved(Known(ws), ws.files[i], outputs[i], run);
    assert Flatten(path.rest) == [];
    assert MovedNames(ws, parent[0], path) == Moved(Known(ws), parent[0], path.first, path.continues);
    PathKeepsMeaning(ws, parent, path, space, entity);
  }
}
