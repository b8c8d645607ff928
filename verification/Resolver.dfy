/**
 What paths name: modules that hold items and imports, and a resolver that walks
 the names of a path and follows the imports it meets.
 */
module Resolver {
  import opened Common
  import opened Sequences

  const KEYWORDS := {"crate", "self", "super"}

  /** The namespaces of Rust: one name can stand in each of them. */
  datatype Space = Types | Values | Macros

  /** A name in a module; a module is known by the names that lead to it. */
  datatype Slot = Slot(parent: seq<string>, name: string, space: Space)

  /**
   A path as it is written: its first run of names, a run for each brace it goes
   into, and whether `::` follows the last run. An import with several entries is
   one path for each; one through `*` is one for each name that it brings.
   */
  datatype Path = Path(first: seq<string>, rest: seq<seq<string>>, continues: bool, brought: seq<string>)
  {
    ghost function Names(): seq<string> { first + (Flatten(rest) + brought) }
  }

  ghost predicate IsWritten(path: Path) {
    && path.first != []
    && (forall i :: 0 <= i < |path.rest| ==> path.rest[i] != [])
    && (path.brought != [] ==> path.continues)
  }

  /** What stands at a name. An item of a foreign crate is a definition like any. */
  datatype Item = Submodule | Defined(number: nat) | Exported(krate: string) | Import(target: Path)

  /** What a path names; a path can lead on from a definition to a member of it. */
  datatype Entity =
    | Module(path: seq<string>)
    | Definition(number: nat, member: seq<string>)
    | ExportedMacro(krate: string, name: string)

  /** Modules at a fixed depth are the roots of crates, and some crates go by their names. */
  datatype World = World(depth: nat, externs: set<string>, items: map<Slot, Item>)

  // ---------------------------------------------------------------------
  // The resolver
  // ---------------------------------------------------------------------

  /** The module from which a walk sets out, and the names it takes. */
  datatype Route = Route(base: seq<string>, steps: seq<string>)

  /** The names that lead on: `crate` is only for the head, and a last `self` is the module before it. */
  ghost function Cleared(names: seq<string>, space: Space): (r: Option<seq<string>>)
    ensures r.Some? ==> r.value != [] && "crate" !in r.value[1..]
  {
    if names == [] || "crate" in names[1..] then None
    else if |names| == 1 || names[|names| - 1] != "self" then Some(names)
    else if space == Types then Some(names[..|names| - 1])
    else None
  }

  /** Each leading `super` goes one module up, inside the crate. */
  ghost function Climb(world: World, base: seq<string>, names: seq<string>): Option<Route>
    decreases |names|
  {
    if names == [] || names[0] != "super" then Some(Route(base, names))
    else if |base| > world.depth then Climb(world, base[..|base| - 1], names[1..])
    else None
  }

  ghost function Start(world: World, parent: seq<string>, names: seq<string>): Option<Route>
    requires names != []
  {
    if names[0] == "crate" then
      if world.depth <= |parent| then Some(Route(parent[..world.depth], names[1..])) else None
    else if names[0] == "self" then Climb(world, parent, names[1..])
    else if names[0] == "super" then Climb(world, parent, names)
    else if names[0] in world.externs then Some(Route([names[0]], names[1..]))
    else Some(Route(parent, names))
  }

  /**
   How an import that is written in `parent` is read. Its head is a crate if there
   is one of the name: Rust refuses an import whose head could be something else too.
   */
  ghost function RouteOf(world: World, parent: seq<string>, names: seq<string>, space: Space): Option<Route> {
    match Cleared(names, space)
    case None => None
    case Some(cleared) => Start(world, parent, cleared)
  }

  /** What stands at a slot, after at most `imports` imports. */
  ghost function Named(world: World, slot: Slot, imports: nat): Option<Entity>
    decreases imports, 0
  {
    if slot !in world.items then None
    else match world.items[slot]
      case Submodule => Some(Module(slot.parent + [slot.name]))
      case Defined(number) => Some(Definition(number, []))
      case Exported(krate) => Some(ExportedMacro(krate, slot.name))
      case Import(target) =>
        if imports == 0 then None else Resolved(world, slot.parent, target.Names(), slot.space, imports - 1)
  }

  /** What `steps` lead to from a module: each but the last in the namespace of types. */
  ghost function Walk(world: World, base: seq<string>, steps: seq<string>, space: Space, imports: nat): Option<Entity>
    decreases imports, 1, |steps|
  {
    if steps == [] then
      if space == Types then Some(Module(base)) else None
    else if |steps| == 1 then Named(world, Slot(base, steps[0], space), imports)
    else match Named(world, Slot(base, steps[0], Types), imports)
      case Some(Module(inner)) => Walk(world, inner, steps[1..], space, imports)
      case Some(Definition(number, member)) => Some(Definition(number, member + steps[1..]))
      case _ => None
  }

  ghost function Resolved(world: World, parent: seq<string>, names: seq<string>, space: Space, imports: nat): Option<Entity>
    decreases imports, 2
  {
    match RouteOf(world, parent, names, space)
    case None => None
    case Some(Route(base, steps)) => Walk(world, base, steps, space, imports)
  }

  ghost predicate Holds(world: World, slot: Slot, entity: Entity) {
    exists imports :: Named(world, slot, imports) == Some(entity)
  }

  ghost predicate Leads(world: World, base: seq<string>, steps: seq<string>, space: Space, entity: Entity) {
    exists imports :: Walk(world, base, steps, space, imports) == Some(entity)
  }

  /** Whether an import of `names` in `parent` names `entity`. */
  ghost predicate Reads(world: World, parent: seq<string>, names: seq<string>, space: Space, entity: Entity) {
    var route := RouteOf(world, parent, names, space);
    route.Some? && Leads(world, route.value.base, route.value.steps, space, entity)
  }

  /** Whether a name of the module hides the crate at the head of a path. */
  ghost predicate IsShadowed(world: World, parent: seq<string>, names: seq<string>, space: Space) {
    var cleared := Cleared(names, space);
    && cleared.Some? && cleared.value[0] in world.externs
    && Slot(parent, cleared.value[0], if |cleared.value| == 1 then space else Types) in world.items
  }

  /** Whether a path in `parent` names `entity`, outside imports: there the names of the module come first. */
  ghost predicate Denotes(world: World, parent: seq<string>, names: seq<string>, space: Space, entity: Entity) {
    if IsShadowed(world, parent, names, space) then Leads(world, parent, Cleared(names, space).value, space, entity)
    else Reads(world, parent, names, space, entity)
  }

  lemma {:induction false} NamedGrows(world: World, slot: Slot, imports: nat, more: nat)
    requires imports <= more && Named(world, slot, imports).Some?
    ensures Named(world, slot, more) == Named(world, slot, imports)
    decreases imports, 0
  {
    if world.items[slot].Import? {
      var route := RouteOf(world, slot.parent, world.items[slot].target.Names(), slot.space).value;
      WalkGrows(world, route.base, route.steps, slot.space, imports - 1, more - 1);
    }
  }

  lemma {:induction false} WalkGrows(world: World, base: seq<string>, steps: seq<string>, space: Space, imports: nat, more: nat)
    requires imports <= more && Walk(world, base, steps, space, imports).Some?
    ensures Walk(world, base, steps, space, more) == Walk(world, base, steps, space, imports)
    decreases imports, 1, |steps|
  {
    if steps != [] {
      var slot := Slot(base, steps[0], if |steps| == 1 then space else Types);
      NamedGrows(world, slot, imports, more);
      if |steps| > 1 && Named(world, slot, imports).value.Module? {
        WalkGrows(world, Named(world, slot, imports).value.path, steps[1..], space, imports, more);
      }
    }
  }

  lemma HoldsOne(world: World, slot: Slot, a: Entity, b: Entity)
    requires Holds(world, slot, a) && Holds(world, slot, b)
    ensures a == b
  {
    hide Named;
    var i: nat :| Named(world, slot, i) == Some(a);
    var j: nat :| Named(world, slot, j) == Some(b);
    NamedGrows(world, slot, i, i + j);
    NamedGrows(world, slot, j, i + j);
  }

  /** A path names one thing. */
  lemma LeadsOne(world: World, base: seq<string>, steps: seq<string>, space: Space, a: Entity, b: Entity)
    requires Leads(world, base, steps, space, a) && Leads(world, base, steps, space, b)
    ensures a == b
  {
    hide Walk;
    var i: nat :| Walk(world, base, steps, space, i) == Some(a);
    var j: nat :| Walk(world, base, steps, space, j) == Some(b);
    WalkGrows(world, base, steps, space, i, i + j);
    WalkGrows(world, base, steps, space, j, i + j);
  }

  /** Where a path can lead after its first name. */
  ghost predicate Onward(world: World, first: Entity, steps: seq<string>, space: Space, entity: Entity) {
    match first
    case Module(inner) => Leads(world, inner, steps, space, entity)
    case Definition(number, member) => entity == Definition(number, member + steps)
    case ExportedMacro(_, _) => false
  }

  lemma LeadsFirst(world: World, base: seq<string>, steps: seq<string>, space: Space, entity: Entity)
    requires |steps| > 1
    ensures Leads(world, base, steps, space, entity) <==>
      exists first :: Holds(world, Slot(base, steps[0], Types), first) && Onward(world, first, steps[1..], space, entity)
  {
    hide Named;
    var slot := Slot(base, steps[0], Types);
    if Leads(world, base, steps, space, entity) {
      var imports: nat :| Walk(world, base, steps, space, imports) == Some(entity);
      var first := Named(world, slot, imports).value;
      assert first.Module? ==> Walk(world, first.path, steps[1..], space, imports) == Some(entity);
      assert Holds(world, slot, first) && Onward(world, first, steps[1..], space, entity);
    }
    if first :| Holds(world, slot, first) && Onward(world, first, steps[1..], space, entity) {
      var i: nat :| Named(world, slot, i) == Some(first);
      if first.Module? {
        var j: nat :| Walk(world, first.path, steps[1..], space, j) == Some(entity);
        NamedGrows(world, slot, i, i + j);
        WalkGrows(world, first.path, steps[1..], space, j, i + j);
        assert Walk(world, base, steps, space, i + j) == Some(entity);
      } else {
        assert Walk(world, base, steps, space, i) == Some(entity);
      }
    }
  }

  lemma LeadsLast(world: World, base: seq<string>, name: string, space: Space, entity: Entity)
    ensures Leads(world, base, [name], space, entity) <==> Holds(world, Slot(base, name, space), entity)
  {
    hide Named;
    assert forall imports: nat :: Walk(world, base, [name], space, imports) == Named(world, Slot(base, name, space), imports);
  }

  /** What is no import stands where it is. */
  lemma HoldsItem(world: World, slot: Slot, entity: Entity)
    requires slot in world.items && !world.items[slot].Import?
    ensures Holds(world, slot, entity) <==> Named(world, slot, 0) == Some(entity)
  {
    hide Walk;
    assert forall imports: nat :: Named(world, slot, imports) == Named(world, slot, 0);
  }

  /** What an import holds is what its path names. */
  lemma HoldsImport(world: World, slot: Slot, entity: Entity)
    requires slot in world.items && world.items[slot].Import?
    ensures Holds(world, slot, entity) <==> Reads(world, slot.parent, world.items[slot].target.Names(), slot.space, entity)
  {
    hide Walk;
    var names := world.items[slot].target.Names();
    if Holds(world, slot, entity) {
      var imports: nat :| Named(world, slot, imports) == Some(entity);
      assert Resolved(world, slot.parent, names, slot.space, imports - 1) == Some(entity);
      var route := RouteOf(world, slot.parent, names, slot.space).value;
      assert Walk(world, route.base, route.steps, slot.space, imports - 1) == Some(entity);
    }
    if Reads(world, slot.parent, names, slot.space, entity) {
      var route := RouteOf(world, slot.parent, names, slot.space).value;
      var imports: nat :| Walk(world, route.base, route.steps, slot.space, imports) == Some(entity);
      assert Named(world, slot, imports + 1) == Some(entity);
    }
  }
}
