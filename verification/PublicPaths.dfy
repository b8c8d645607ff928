/**
 The public-path search of the Rust provider: a breadth-first walk over the
 modules a dependency offers, a memo of those walks, and the choice of the
 shortest public path to an imported item.

 rust-analyzer appears as a finite database of what the search asks it. Names
 are in the form the search stores them.
 */
module PublicPaths {
  import opened Common
  import opened Ordering
  import opened Sequences

  type ModuleId = nat

  type Segments = seq<string>

  /** A crate, with the module at its root. */
  datatype Crate = Crate(id: nat, root: ModuleId)

  /** What a `use` path can resolve to. */
  datatype ModuleDef =
    | Module(id: ModuleId)
    | Variant(parent: ModuleDef, name: string)
    | Item(number: nat)

  /** One name in the scope of a module; `child` is None unless it names a module. */
  datatype ScopeEntry = ScopeEntry(name: string, child: Option<ModuleId>)

  /** One place at which a crate exposes an item. */
  datatype ImportInfo = ImportInfo(container: ModuleId, name: string, docHidden: bool)

  /** A direct dependency of the current crate, under the name it goes by there. */
  datatype Dependency = Dependency(krate: Crate, name: string)

  /** A path through one dependency. */
  datatype PublicPath = PublicPath(krate: string, segments: Segments)

  /** The answers of rust-analyzer, as the current module sees them. */
  datatype Database = Database(
    scopes: map<ModuleId, seq<ScopeEntry>>,
    importMaps: map<Crate, map<ModuleDef, seq<ImportInfo>>>,
    keyless: set<ModuleDef>,
    associated: set<ModuleDef>,
    definedIn: map<ModuleDef, Crate>,
    reverseDependencies: map<Crate, set<Crate>>,
    current: Crate,
    dependencies: seq<Dependency>)
  {
    function Scope(m: ModuleId): seq<ScopeEntry> {
      if m in scopes then scopes[m] else []
    }

    /** What the import map of `krate` records for `def`, which needs a key. */
    function ImportInfos(krate: Crate, def: ModuleDef): Option<seq<ImportInfo>> {
      if def in keyless || krate !in importMaps || def !in importMaps[krate] then None
      else Some(importMaps[krate][def])
    }

    /** Whether `krate` offers `child` in `m` under `name`, without `#[doc(hidden)]`. */
    predicate Offered(krate: Crate, m: ModuleId, name: string, child: ModuleId) {
      var infos := ImportInfos(krate, Module(child));
      infos.Some? &&
      exists i :: 0 <= i < |infos.value| && infos.value[i] == ImportInfo(m, name, false)
    }

    predicate Takes(krate: Crate, m: ModuleId, entry: ScopeEntry) {
      entry.child.Some? && Offered(krate, m, entry.name, entry.child.value)
    }

    /** Every module a walk of `krate` can name. */
    ghost function Universe(krate: Crate): set<ModuleId> {
      {krate.root} +
      set m, i | m in scopes && 0 <= i < |scopes[m]| && scopes[m][i].child.Some? ::
        scopes[m][i].child.value
    }
  }

  // ---------------------------------------------------------------------
  // The reference: walks along offered modules
  // ---------------------------------------------------------------------

  /** A walk from the root of a crate, one named module at a time. */
  datatype Walk = Start | Step(before: Walk, entry: ScopeEntry)

  /** The import map of `krate` lists `def`, which has a key, at this place. */
  ghost predicate IsListedAt(db: Database, krate: Crate, def: ModuleDef, info: ImportInfo) {
    krate in db.importMaps && def in db.importMaps[krate] && def !in db.keyless && info in db.importMaps[krate][def]
  }

  /** The entry names a module that `krate` lists in `m` under that name and does not hide. */
  ghost predicate Opens(db: Database, krate: Crate, m: ModuleId, entry: ScopeEntry) {
    entry.child.Some? && exists info ::
      && IsListedAt(db, krate, Module(entry.child.value), info)
      && info.container == m && info.name == entry.name && !info.docHidden
  }

  lemma TakesWhatOpens(db: Database, krate: Crate, m: ModuleId, entry: ScopeEntry)
    ensures db.Takes(krate, m, entry) <==> Opens(db, krate, m, entry)
  {
    if Opens(db, krate, m, entry) {
      var info :| IsListedAt(db, krate, Module(entry.child.value), info)
        && info.container == m && info.name == entry.name && !info.docHidden;
      assert info == ImportInfo(m, entry.name, false);
    }
    if db.Takes(krate, m, entry) {
      assert IsListedAt(db, krate, Module(entry.child.value), ImportInfo(m, entry.name, false));
    }
  }

  ghost function End(krate: Crate, walk: Walk): Option<ModuleId> {
    match walk
    case Start => Some(krate.root)
    case Step(_, entry) => entry.child
  }

  /** Whether each step of `walk` enters a module that its predecessor offers. */
  ghost predicate IsWalk(db: Database, krate: Crate, walk: Walk)
    ensures IsWalk(db, krate, walk) ==> End(krate, walk).Some?
  {
    match walk
    case Start => true
    case Step(before, entry) =>
      IsWalk(db, krate, before) &&
      entry in db.Scope(End(krate, before).value) &&
      Opens(db, krate, End(krate, before).value, entry)
  }

  ghost function Spelling(walk: Walk): Segments {
    match walk
    case Start => []
    case Step(before, entry) => Spelling(before) + [entry.name]
  }

  ghost predicate WalkTo(db: Database, krate: Crate, walk: Walk, m: ModuleId) {
    IsWalk(db, krate, walk) && End(krate, walk) == Some(m)
  }

  ghost predicate Reachable(db: Database, krate: Crate, m: ModuleId) {
    exists walk :: WalkTo(db, krate, walk, m)
  }

  /** `path` spells a walk to `m`, and no walk to `m` is shorter. */
  ghost predicate IsShortest(db: Database, krate: Crate, m: ModuleId, path: Segments) {
    && (exists walk :: WalkTo(db, krate, walk, m) && Spelling(walk) == path)
    && (forall walk :: WalkTo(db, krate, walk, m) ==> |path| <= |Spelling(walk)|)
  }

  // ---------------------------------------------------------------------
  // The search, as a function of its queue and its table
  // ---------------------------------------------------------------------

  /** The state of the search: the path to each module found, and those still to scan. */
  datatype Search = Search(paths: map<ModuleId, Segments>, queue: seq<ModuleId>)

  function Enter(db: Database, krate: Crate, m: ModuleId, prefix: Segments, entry: ScopeEntry, s: Search): Search {
    if db.Takes(krate, m, entry) && entry.child.value !in s.paths
    then Search(s.paths[entry.child.value := prefix + [entry.name]], s.queue + [entry.child.value])
    else s
  }

  function Scan(db: Database, krate: Crate, m: ModuleId, prefix: Segments, entries: seq<ScopeEntry>, s: Search): Search {
    if entries == [] then s
    else Scan(db, krate, m, prefix, entries[1..], Enter(db, krate, m, prefix, entries[0], s))
  }

  /** The table holds every queued module, and nothing from outside the universe. */
  ghost predicate Fits(db: Database, krate: Crate, s: Search) {
    && s.paths.Keys <= db.Universe(krate)
    && forall i :: 0 <= i < |s.queue| ==> s.queue[i] in s.paths
  }

  ghost function Remaining(db: Database, krate: Crate, s: Search): nat
    requires Fits(db, krate, s)
  {
    2 * |db.Universe(krate) - s.paths.Keys| + |s.queue|
  }

  /** Entering one more module keeps the measure: it leaves the unfound ones. */
  lemma EnterFits(db: Database, krate: Crate, m: ModuleId, prefix: Segments, entry: ScopeEntry, s: Search)
    requires Fits(db, krate, s) && entry in db.Scope(m)
    ensures Fits(db, krate, Enter(db, krate, m, prefix, entry, s))
    ensures Remaining(db, krate, Enter(db, krate, m, prefix, entry, s)) <= Remaining(db, krate, s)
  {
    var next := Enter(db, krate, m, prefix, entry, s);
    if next != s {
      var child := entry.child.value;
      var rest := db.Universe(krate) - s.paths.Keys;
      assert child in rest;
      assert db.Universe(krate) - next.paths.Keys == rest - {child};
      assert |rest - {child}| == |rest| - 1;
    }
  }

  lemma {:induction false} ScanFits(db: Database, krate: Crate, m: ModuleId, prefix: Segments, entries: seq<ScopeEntry>, s: Search)
    requires Fits(db, krate, s) && forall entry :: entry in entries ==> entry in db.Scope(m)
    ensures Fits(db, krate, Scan(db, krate, m, prefix, entries, s))
    ensures Remaining(db, krate, Scan(db, krate, m, prefix, entries, s)) <= Remaining(db, krate, s)
    decreases |entries|
  {
    if entries != [] {
      EnterFits(db, krate, m, prefix, entries[0], s);
      ScanFits(db, krate, m, prefix, entries[1..], Enter(db, krate, m, prefix, entries[0], s));
    }
  }

  /** The state after the search scans the head of its queue. */
  function Next(db: Database, krate: Crate, s: Search): (next: Search)
    requires Fits(db, krate, s) && s.queue != []
    ensures Fits(db, krate, next) && Remaining(db, krate, next) < Remaining(db, krate, s)
  {
    var m, popped := s.queue[0], Search(s.paths, s.queue[1..]);
    ScanFits(db, krate, m, s.paths[m], db.Scope(m), popped);
    Scan(db, krate, m, s.paths[m], db.Scope(m), popped)
  }

  function Explore(db: Database, krate: Crate, s: Search): map<ModuleId, Segments>
    requires Fits(db, krate, s)
    decreases Remaining(db, krate, s)
  {
    if s.queue == [] then s.paths else Explore(db, krate, Next(db, krate, s))
  }

  function Initial(krate: Crate): Search {
    Search(map[krate.root := []], [krate.root])
  }

  /** The table that a fresh walk of `krate` builds. */
  function ModulePathsOf(db: Database, krate: Crate): map<ModuleId, Segments> {
    Explore(db, krate, Initial(krate))
  }

  // ---------------------------------------------------------------------
  // The invariant of the search
  // ---------------------------------------------------------------------

  ghost predicate Levelled(s: Search)
    requires forall i :: 0 <= i < |s.queue| ==> s.queue[i] in s.paths
  {
    forall i, j :: 0 <= i < j < |s.queue| ==> |s.paths[s.queue[i]]| <= |s.paths[s.queue[j]]|
  }

  ghost predicate Spelled(db: Database, krate: Crate, paths: map<ModuleId, Segments>) {
    forall x :: x in paths ==> exists walk :: WalkTo(db, krate, walk, x) && Spelling(walk) == paths[x]
  }

  /** `entry` of the scope of `m` leads nowhere, or to a module at most one level down. */
  ghost predicate Covers(db: Database, krate: Crate, paths: map<ModuleId, Segments>, m: ModuleId, entry: ScopeEntry)
    requires m in paths
  {
    db.Takes(krate, m, entry) ==>
      entry.child.value in paths && |paths[entry.child.value]| <= |paths[m]| + 1
  }

  ghost predicate Scanned(db: Database, krate: Crate, paths: map<ModuleId, Segments>, m: ModuleId)
    requires m in paths
  {
    forall entry :: entry in db.Scope(m) ==> Covers(db, krate, paths, m, entry)
  }

  /** The table spells walks, and the queue holds modules of it once each, level by level. */
  ghost predicate Sound(db: Database, krate: Crate, s: Search) {
    && Fits(db, krate, s)
    && krate.root in s.paths && s.paths[krate.root] == []
    && Distinct(s.queue)
    && Levelled(s)
    && Spelled(db, krate, s.paths)
  }

  /** No module is more than a level below `m`, and no queued one is above it. */
  ghost predicate Near(m: ModuleId, s: Search) {
    && m in s.paths && m !in s.queue
    && (forall x :: x in s.paths ==> |s.paths[x]| <= |s.paths[m]| + 1)
    && (forall x :: x in s.queue ==> x in s.paths && |s.paths[x]| >= |s.paths[m]|)
  }

  /** The search has covered `done` of the scope of `m`, and every other module that left the queue. */
  ghost predicate Covered(db: Database, krate: Crate, m: ModuleId, done: seq<ScopeEntry>, s: Search)
    requires m in s.paths
  {
    && (forall entry :: entry in done ==> Covers(db, krate, s.paths, m, entry))
    && (forall x :: x in s.paths && x !in s.queue && x != m ==> Scanned(db, krate, s.paths, x))
  }

  /** What holds whenever the search takes the next module from its queue. */
  ghost predicate Invariant(db: Database, krate: Crate, s: Search) {
    && Sound(db, krate, s)
    && (s.queue != [] ==> forall x :: x in s.paths ==> |s.paths[x]| <= |s.paths[s.queue[0]]| + 1)
    && (forall x :: x in s.paths && x !in s.queue ==> Scanned(db, krate, s.paths, x))
  }

  /** What holds while the search scans `m`, whose first entries are `done`. */
  ghost predicate Scanning(db: Database, krate: Crate, m: ModuleId, done: seq<ScopeEntry>, s: Search) {
    Sound(db, krate, s) && Near(m, s) && Covered(db, krate, m, done, s)
  }

  /** The path that a newly entered module gets spells a walk to it. */
  lemma EnterSpells(db: Database, krate: Crate, m: ModuleId, entry: ScopeEntry, paths: map<ModuleId, Segments>)
    requires Spelled(db, krate, paths) && m in paths && entry in db.Scope(m) && db.Takes(krate, m, entry)
    ensures Spelled(db, krate, paths[entry.child.value := paths[m] + [entry.name]])
  {
    var walk :| WalkTo(db, krate, walk, m) && Spelling(walk) == paths[m];
    TakesWhatOpens(db, krate, m, entry);
    assert WalkTo(db, krate, Step(walk, entry), entry.child.value);
  }

  /** Entering a module puts it last in the queue, one level below `m`. */
  lemma EnterQueues(db: Database, krate: Crate, m: ModuleId, entry: ScopeEntry, s: Search, next: Search)
    requires Fits(db, krate, s) && m in s.paths && Distinct(s.queue) && Levelled(s)
    requires forall x :: x in s.paths ==> |s.paths[x]| <= |s.paths[m]| + 1
    requires next == Enter(db, krate, m, s.paths[m], entry, s) && next != s
    ensures forall i :: 0 <= i < |next.queue| ==> next.queue[i] in next.paths
    ensures Distinct(next.queue) && Levelled(next)
    ensures forall x :: x in next.queue <==> x in s.queue || x == entry.child.value
  {
    hide Database.Offered, Database.Universe;
    assert next.queue[|s.queue|] == entry.child.value;
    assert forall i :: 0 <= i < |s.queue| ==> next.queue[i] == s.queue[i];
  }

  /** A path once stored never changes, so what a scan covered stays covered. */
  lemma CoversStays(db: Database, krate: Crate, before: map<ModuleId, Segments>, after: map<ModuleId, Segments>, x: ModuleId)
    requires x in before && Scanned(db, krate, before, x)
    requires forall y :: y in before ==> y in after && after[y] == before[y]
    ensures Scanned(db, krate, after, x)
  {
    forall entry | entry in db.Scope(x) ensures Covers(db, krate, after, x, entry) {
      assert Covers(db, krate, before, x, entry);
    }
  }

  lemma EnterIsSound(db: Database, krate: Crate, m: ModuleId, entry: ScopeEntry, s: Search)
    requires Sound(db, krate, s) && Near(m, s) && entry in db.Scope(m)
    ensures Sound(db, krate, Enter(db, krate, m, s.paths[m], entry, s))
    ensures Near(m, Enter(db, krate, m, s.paths[m], entry, s))
  {
    hide Spelled, Database.Offered, Database.Universe, Remaining;
    var next := Enter(db, krate, m, s.paths[m], entry, s);
    if next != s {
      EnterFits(db, krate, m, s.paths[m], entry, s);
      EnterSpells(db, krate, m, entry, s.paths);
      EnterQueues(db, krate, m, entry, s, next);
    }
  }

  lemma EnterCovers(db: Database, krate: Crate, m: ModuleId, done: seq<ScopeEntry>, entry: ScopeEntry, s: Search)
    requires Near(m, s) && Covered(db, krate, m, done, s)
    ensures m in Enter(db, krate, m, s.paths[m], entry, s).paths
    ensures Covered(db, krate, m, done + [entry], Enter(db, krate, m, s.paths[m], entry, s))
  {
    hide Scanned, Database.Offered;
    var next := Enter(db, krate, m, s.paths[m], entry, s);
    forall x | x in next.paths && x !in next.queue && x != m
      ensures Scanned(db, krate, next.paths, x)
    {
      if next != s {
        assert next.queue[|s.queue|] == entry.child.value;
        assert forall i :: 0 <= i < |s.queue| ==> next.queue[i] == s.queue[i];
      }
      assert x in s.paths && x !in s.queue;
      CoversStays(db, krate, s.paths, next.paths, x);
    }
    forall e | e in done + [entry] ensures Covers(db, krate, next.paths, m, e) {
      assert e in done ==> Covers(db, krate, s.paths, m, e);
    }
  }

  lemma EnterKeeps(db: Database, krate: Crate, m: ModuleId, done: seq<ScopeEntry>, entry: ScopeEntry, s: Search)
    requires Scanning(db, krate, m, done, s) && entry in db.Scope(m)
    ensures Scanning(db, krate, m, done + [entry], Enter(db, krate, m, s.paths[m], entry, s))
    ensures Enter(db, krate, m, s.paths[m], entry, s).paths[m] == s.paths[m]
  {
    hide Sound, Covered;
    EnterIsSound(db, krate, m, entry, s);
    EnterCovers(db, krate, m, done, entry, s);
  }

  lemma {:induction false} ScanKeeps(db: Database, krate: Crate, m: ModuleId, done: seq<ScopeEntry>, entries: seq<ScopeEntry>, s: Search)
    requires Scanning(db, krate, m, done, s) && done + entries == db.Scope(m)
    ensures Scanning(db, krate, m, db.Scope(m), Scan(db, krate, m, s.paths[m], entries, s))
    decreases |entries|
  {
    if entries == [] {
      assert done == db.Scope(m);
    } else {
      assert entries[0] in done + entries;
      EnterKeeps(db, krate, m, done, entries[0], s);
      assert (done + [entries[0]]) + entries[1..] == db.Scope(m);
      ScanKeeps(db, krate, m, done + [entries[0]], entries[1..], Enter(db, krate, m, s.paths[m], entries[0], s));
    }
  }

  /** Taking the head of the queue leaves the rest ready for a scan of it. */
  lemma PopKeeps(db: Database, krate: Crate, s: Search)
    requires Invariant(db, krate, s) && s.queue != []
    ensures Scanning(db, krate, s.queue[0], [], Search(s.paths, s.queue[1..]))
  {
    var m, rest := s.queue[0], s.queue[1..];
    assert forall x :: x in s.queue ==> x == m || x in rest;
  }

  lemma ScannedKeeps(db: Database, krate: Crate, m: ModuleId, s: Search)
    requires Scanning(db, krate, m, db.Scope(m), s)
    ensures Invariant(db, krate, s)
  {
    if s.queue != [] {
      assert s.queue[0] in s.queue;
    }
  }

  /** When nothing is queued, the length of a path is a lower bound on every walk. */
  lemma {:induction false} NoShorterWalk(db: Database, krate: Crate, paths: map<ModuleId, Segments>, walk: Walk)
    requires krate.root in paths && paths[krate.root] == []
    requires forall x :: x in paths ==> Scanned(db, krate, paths, x)
    requires IsWalk(db, krate, walk)
    ensures End(krate, walk).value in paths
    ensures |paths[End(krate, walk).value]| <= |Spelling(walk)|
    decreases walk
  {
    match walk
    case Start =>
    case Step(before, entry) =>
      NoShorterWalk(db, krate, paths, before);
      assert Covers(db, krate, paths, End(krate, before).value, entry);
  }

  /** The table is exact: it holds each reachable module, with a shortest path. */
  ghost predicate IsPathTable(db: Database, krate: Crate, paths: map<ModuleId, Segments>) {
    && (forall m :: m in paths <==> Reachable(db, krate, m))
    && (forall m :: m in paths ==> IsShortest(db, krate, m, paths[m]))
  }

  /** With an empty queue the table answers every walk. */
  lemma FinishedIsExact(db: Database, krate: Crate, s: Search)
    requires Invariant(db, krate, s) && s.queue == []
    ensures IsPathTable(db, krate, s.paths)
  {
    forall m, walk | WalkTo(db, krate, walk, m)
      ensures m in s.paths && |s.paths[m]| <= |Spelling(walk)|
    {
      NoShorterWalk(db, krate, s.paths, walk);
    }
  }

  lemma NextKeeps(db: Database, krate: Crate, s: Search)
    requires Invariant(db, krate, s) && s.queue != []
    ensures Invariant(db, krate, Next(db, krate, s))
  {
    var m, popped := s.queue[0], Search(s.paths, s.queue[1..]);
    PopKeeps(db, krate, s);
    ScanKeeps(db, krate, m, [], db.Scope(m), popped);
    ScannedKeeps(db, krate, m, Scan(db, krate, m, s.paths[m], db.Scope(m), popped));
  }

  lemma {:induction false} ExploreIsExact(db: Database, krate: Crate, s: Search)
    requires Invariant(db, krate, s)
    ensures IsPathTable(db, krate, Explore(db, krate, s))
    decreases Remaining(db, krate, s)
  {
    if s.queue == [] {
      FinishedIsExact(db, krate, s);
    } else {
      NextKeeps(db, krate, s);
      ExploreIsExact(db, krate, Next(db, krate, s));
    }
  }

  /** The key set is exactly the reachable modules, and each path is a shortest one. */
  lemma ModulePathsAreExact(db: Database, krate: Crate)
    ensures IsPathTable(db, krate, ModulePathsOf(db, krate))
  {
    assert WalkTo(db, krate, Start, krate.root);
    ExploreIsExact(db, krate, Initial(krate));
  }

  // ---------------------------------------------------------------------
  // The loops of the source
  // ---------------------------------------------------------------------

  /** The inner loop: queues each module that the scope of `m` newly offers. */
  method ScanScope(db: Database, krate: Crate, m: ModuleId, prefix: Segments, found: map<ModuleId, Segments>, waiting: seq<ModuleId>)
    returns (paths: map<ModuleId, Segments>, queue: seq<ModuleId>)
    ensures Search(paths, queue) == Scan(db, krate, m, prefix, db.Scope(m), Search(found, waiting))
  {
    paths, queue := found, waiting;
    var scope := db.Scope(m);
    for i := 0 to |scope|
      invariant Scan(db, krate, m, prefix, scope[i..], Search(paths, queue))
             == Scan(db, krate, m, prefix, scope, Search(found, waiting))
    {
      assert scope[i..][1..] == scope[i + 1..];
      var child := scope[i].child;
      if child.None? || child.value in paths || !db.Offered(krate, m, scope[i].name, child.value) {
        continue;
      }
      paths := paths[child.value := prefix + [scope[i].name]];
      queue := queue + [child.value];
    }
  }

  method PublicModulePaths(db: Database, krate: Crate) returns (paths: map<ModuleId, Segments>)
    ensures paths == ModulePathsOf(db, krate)
    ensures IsPathTable(db, krate, paths)
  {
    paths := map[krate.root := []];
    var queue := [krate.root];
    assert Fits(db, krate, Initial(krate));
    hide Scan, IsPathTable, Fits, Remaining;
    while queue != []
      invariant Fits(db, krate, Search(paths, queue))
      invariant Explore(db, krate, Search(paths, queue)) == ModulePathsOf(db, krate)
      decreases Remaining(db, krate, Search(paths, queue))
    {
      ghost var next := Next(db, krate, Search(paths, queue));
      paths, queue := ScanScope(db, krate, queue[0], paths[queue[0]], paths, queue[1..]);
      assert Search(paths, queue) == next;
    }
    ModulePathsAreExact(db, krate);
  }

  // ---------------------------------------------------------------------
  // The memo of one file
  // ---------------------------------------------------------------------

  /** The tables of the dependencies that one file asked about. */
  class ModulePaths {
    var byCrate: map<Crate, map<ModuleId, Segments>>

    ghost predicate Valid(db: Database)
      reads this
    {
      forall krate :: krate in byCrate ==> byCrate[krate] == ModulePathsOf(db, krate)
    }

    constructor ()
      ensures byCrate == map[]
      ensures forall db :: Valid(db)
    {
      byCrate := map[];
    }

    /** Whatever was asked before, the answer is that of a fresh walk. */
    method Of(db: Database, krate: Crate) returns (paths: map<ModuleId, Segments>)
      requires Valid(db)
      modifies this
      ensures Valid(db)
      ensures paths == ModulePathsOf(db, krate) && IsPathTable(db, krate, paths)
      ensures byCrate == old(byCrate)[krate := paths]
    {
      hide ModulePathsOf, IsPathTable;
      if krate !in byCrate {
        var walked := PublicModulePaths(db, krate);
        byCrate := byCrate[krate := walked];
      }
      ModulePathsAreExact(db, krate);
      paths := byCrate[krate];
    }
  }

  // ---------------------------------------------------------------------
  // The shortest public path through each dependency
  // ---------------------------------------------------------------------

  /** Fewest segments first, and alphabetic among equals. */
  predicate Before(a: Segments, b: Segments) {
    |a| < |b| || (|a| == |b| && LexLe(StringLe, a, b))
  }

  /** In alphabetical order: one starts the other, or has the smaller character where they first differ. */
  ghost predicate Alphabetical(a: string, b: string) {
    a <= b || exists i: nat :: DifferAt(a, b, i) && a[i] <= b[i]
  }

  /** `a` has fewer segments, or as many and the one that comes first in alphabetical order where they first differ. */
  ghost predicate ComesFirst(a: Segments, b: Segments) {
    || |a| < |b|
    || a == b
    || (|a| == |b| && exists k: nat :: DifferAt(a, b, k) && Alphabetical(a[k], b[k]))
  }

  lemma BeforeMeans(a: Segments, b: Segments)
    ensures Before(a, b) <==> ComesFirst(a, b)
  {
    LexMeans(StringLe, a, b);
    forall x: string, y: string ensures StringLe(x, y) <==> Alphabetical(x, y) {
      LexMeans(CharLe, x, y);
    }
  }

  lemma BeforeIsTotalOrder()
    ensures TotalOrder(Before)
  {
    StringLeIsTotalOrder();
    forall a, b
      ensures Before(a, b) || Before(b, a)
      ensures Before(a, b) && Before(b, a) ==> a == b
    {
      LexTotal(StringLe, a, b);
    }
    forall a, b, c | Before(a, b) && Before(b, c)
      ensures Before(a, c)
    {
      if |a| == |b| == |c| {
        LexTransitive(StringLe, a, b, c);
      }
    }
  }

  /** The path of each place that is not hidden and sits in a module of the table. */
  function Candidates(modules: map<ModuleId, Segments>, infos: seq<ImportInfo>): seq<Segments> {
    if infos == [] then []
    else
      var info, rest := infos[0], Candidates(modules, infos[1..]);
      if info.docHidden || info.container !in modules then rest
      else [modules[info.container] + [info.name]] + rest
  }

  function Least(candidates: seq<Segments>): Option<Segments> {
    if candidates == [] then None
    else match Least(candidates[1..])
      case None => Some(candidates[0])
      case Some(least) => Some(if Before(candidates[0], least) then candidates[0] else least)
  }

  lemma LeastIsLeast(candidates: seq<Segments>)
    ensures Least(candidates).None? <==> candidates == []
    ensures Least(candidates).Some? ==>
      && Least(candidates).value in candidates
      && forall c :: c in candidates ==> ComesFirst(Least(candidates).value, c)
  {
    LeastIsBefore(candidates);
    if Least(candidates).Some? {
      forall c | c in candidates ensures ComesFirst(Least(candidates).value, c) {
        BeforeMeans(Least(candidates).value, c);
      }
    }
  }

  lemma {:induction false} LeastIsBefore(candidates: seq<Segments>)
    ensures Least(candidates).None? <==> candidates == []
    ensures Least(candidates).Some? ==>
      && Least(candidates).value in candidates
      && forall c :: c in candidates ==> Before(Least(candidates).value, c)
  {
    if candidates != [] {
      LeastIsBefore(candidates[1..]);
      BeforeIsTotalOrder();
      assert candidates == [candidates[0]] + candidates[1..];
    }
  }

  /** The item whose path the search looks for, and what follows that path. */
  function Target(def: ModuleDef): (ModuleDef, Segments) {
    match def
    case Variant(parent, name) => (parent, [name])
    case _ => (def, [])
  }

  /** Whether a path through `krate` could name an item of `defining` at all. */
  predicate Exposing(db: Database, defining: Crate, krate: Crate) {
    krate != defining && defining in db.reverseDependencies && krate in db.reverseDependencies[defining]
  }

  function Chosen(db: Database, defining: Crate, item: ModuleDef, krate: Crate): Option<Segments> {
    if !Exposing(db, defining, krate) || db.ImportInfos(krate, item).None? then None
    else Least(Candidates(ModulePathsOf(db, krate), db.ImportInfos(krate, item).value))
  }

  function Listed(db: Database, defining: Crate, item: ModuleDef, suffix: Segments, dependencies: seq<Dependency>): seq<PublicPath> {
    if dependencies == [] then []
    else
      var rest := Listed(db, defining, item, suffix, dependencies[1..]);
      match Chosen(db, defining, item, dependencies[0].krate)
      case None => rest
      case Some(segments) => [PublicPath(dependencies[0].name, segments + suffix)] + rest
  }

  /** Whether `def` gets any paths: not if it is associated, builtin, local or keyless. */
  predicate Foreign(db: Database, def: ModuleDef) {
    var item := Target(def).0;
    && def !in db.associated
    && item in db.definedIn && db.definedIn[item] != db.current
    && item !in db.keyless
  }

  function PathsTo(db: Database, def: ModuleDef): seq<PublicPath> {
    if !Foreign(db, def) then []
    else
      var (item, suffix) := Target(def);
      Listed(db, db.definedIn[item], item, suffix, db.dependencies)
  }

  // The reference: what a public path is, whatever the search does.

  /** `segments` is an offered walk of `krate` and, after it, a name that exposes `item`. */
  ghost predicate Names(db: Database, krate: Crate, item: ModuleDef, walk: Walk, info: ImportInfo, segments: Segments) {
    && IsListedAt(db, krate, item, info) && !info.docHidden
    && WalkTo(db, krate, walk, info.container)
    && segments == Spelling(walk) + [info.name]
  }

  ghost predicate IsPublicPath(db: Database, krate: Crate, item: ModuleDef, segments: Segments) {
    exists walk, info :: Names(db, krate, item, walk, info, segments)
  }

  ghost predicate IsShortestPublicPath(db: Database, krate: Crate, item: ModuleDef, segments: Segments) {
    && IsPublicPath(db, krate, item, segments)
    && forall other :: IsPublicPath(db, krate, item, other) ==> |segments| <= |other|
  }

  /** Whether a path through the dependency can name the item: another crate that depends on its crate, and exposes it. */
  ghost predicate Qualifies(db: Database, defining: Crate, item: ModuleDef, dependency: Dependency) {
    && dependency.krate != defining
    && defining in db.reverseDependencies && dependency.krate in db.reverseDependencies[defining]
    && exists segments :: IsPublicPath(db, dependency.krate, item, segments)
  }

  /** Of the paths that end at a place where `krate` lists the item, along the paths of the table, `segments` comes first. */
  ghost predicate IsFirstListed(db: Database, krate: Crate, item: ModuleDef, segments: Segments) {
    forall info :: IsListedAt(db, krate, item, info) && !info.docHidden && info.container in ModulePathsOf(db, krate) ==>
      ComesFirst(segments, ModulePathsOf(db, krate)[info.container] + [info.name])
  }

  lemma {:induction false} CandidateOf(modules: map<ModuleId, Segments>, infos: seq<ImportInfo>, info: ImportInfo)
    requires info in infos && !info.docHidden && info.container in modules
    ensures modules[info.container] + [info.name] in Candidates(modules, infos)
  {
    if infos[0] != info {
      CandidateOf(modules, infos[1..], info);
    }
  }

  lemma {:induction false} InfoOf(modules: map<ModuleId, Segments>, infos: seq<ImportInfo>, c: Segments) returns (info: ImportInfo)
    requires c in Candidates(modules, infos)
    ensures info in infos && !info.docHidden && info.container in modules
    ensures c == modules[info.container] + [info.name]
  {
    info := infos[0];
    if info.docHidden || info.container !in modules || c != modules[info.container] + [info.name] {
      info := InfoOf(modules, infos[1..], c);
    }
  }

  lemma CandidateIsPublic(db: Database, krate: Crate, item: ModuleDef, modules: map<ModuleId, Segments>, c: Segments)
    requires IsPathTable(db, krate, modules)
    requires db.ImportInfos(krate, item).Some?
    requires c in Candidates(modules, db.ImportInfos(krate, item).value)
    ensures IsPublicPath(db, krate, item, c)
  {
    var info := InfoOf(modules, db.ImportInfos(krate, item).value, c);
    assert IsShortest(db, krate, info.container, modules[info.container]);
    var walk :| WalkTo(db, krate, walk, info.container) && Spelling(walk) == modules[info.container];
    assert Names(db, krate, item, walk, info, c);
  }

  lemma CandidateAsShort(db: Database, krate: Crate, item: ModuleDef, modules: map<ModuleId, Segments>, path: Segments) returns (c: Segments)
    requires IsPathTable(db, krate, modules)
    requires db.ImportInfos(krate, item).Some?
    requires IsPublicPath(db, krate, item, path)
    ensures c in Candidates(modules, db.ImportInfos(krate, item).value) && |c| <= |path|
  {
    var walk, info :| Names(db, krate, item, walk, info, path);
    assert Reachable(db, krate, info.container);
    assert IsShortest(db, krate, info.container, modules[info.container]);
    CandidateOf(modules, db.ImportInfos(krate, item).value, info);
    c := modules[info.container] + [info.name];
  }

  /** The least candidate is a shortest public path, and is missing only when there is none. */
  lemma LeastIsShortest(db: Database, krate: Crate, item: ModuleDef, modules: map<ModuleId, Segments>, least: Option<Segments>)
    requires IsPathTable(db, krate, modules)
    requires db.ImportInfos(krate, item).Some?
    requires least == Least(Candidates(modules, db.ImportInfos(krate, item).value))
    ensures least.Some? <==> exists segments :: IsPublicPath(db, krate, item, segments)
    ensures least.Some? ==> IsShortestPublicPath(db, krate, item, least.value)
    ensures least.Some? ==> forall info :: IsListedAt(db, krate, item, info) && !info.docHidden && info.container in modules ==>
      ComesFirst(least.value, modules[info.container] + [info.name])
  {
    hide IsPublicPath, IsPathTable, Candidates, Alphabetical;
    var candidates := Candidates(modules, db.ImportInfos(krate, item).value);
    LeastIsLeast(candidates);
    forall info | IsListedAt(db, krate, item, info) && !info.docHidden && info.container in modules
      ensures modules[info.container] + [info.name] in candidates
    {
      CandidateOf(modules, db.ImportInfos(krate, item).value, info);
    }
    if least.Some? {
      CandidateIsPublic(db, krate, item, modules, least.value);
    }
    forall path | IsPublicPath(db, krate, item, path)
      ensures least.Some? && |least.value| <= |path|
    {
      var c := CandidateAsShort(db, krate, item, modules, path);
    }
  }

  /** The choice for one dependency: a shortest public path, the first listed one, or none when there is none. */
  lemma ChosenIsShortest(db: Database, defining: Crate, item: ModuleDef, dependency: Dependency)
    ensures Chosen(db, defining, item, dependency.krate).Some? <==> Qualifies(db, defining, item, dependency)
    ensures Chosen(db, defining, item, dependency.krate).Some? ==>
      && IsShortestPublicPath(db, dependency.krate, item, Chosen(db, defining, item, dependency.krate).value)
      && IsFirstListed(db, dependency.krate, item, Chosen(db, defining, item, dependency.krate).value)
  {
    hide ModulePathsOf, IsPathTable;
    var krate := dependency.krate;
    if Exposing(db, defining, krate) && db.ImportInfos(krate, item).Some? {
      ModulePathsAreExact(db, krate);
      LeastIsShortest(db, krate, item, ModulePathsOf(db, krate), Chosen(db, defining, item, krate));
    }
  }

  /** `path` goes through the dependency: a shortest public path to the item, the first listed one, and then `suffix`. */
  ghost predicate IsPathThrough(db: Database, item: ModuleDef, suffix: Segments, dependency: Dependency, path: PublicPath) {
    path.krate == dependency.name && exists segments ::
      && IsShortestPublicPath(db, dependency.krate, item, segments) && IsFirstListed(db, dependency.krate, item, segments)
      && path.segments == segments + suffix
  }

  ghost function QualifiesFor(db: Database, defining: Crate, item: ModuleDef): Dependency -> bool {
    (dependency: Dependency) => Qualifies(db, defining, item, dependency)
  }

  /** `paths` has one path through each of `dependencies`, in order. */
  ghost predicate GoThrough(db: Database, item: ModuleDef, suffix: Segments, dependencies: seq<Dependency>, paths: seq<PublicPath>) {
    |paths| == |dependencies| && forall k :: 0 <= k < |paths| ==> IsPathThrough(db, item, suffix, dependencies[k], paths[k])
  }

  /** The list has one path through each dependency that qualifies, in order, and no other. */
  lemma {:induction false} ListedIsExact(db: Database, defining: Crate, item: ModuleDef, suffix: Segments, dependencies: seq<Dependency>)
    returns (at: seq<nat>, picked: seq<Dependency>)
    ensures Filters(dependencies, QualifiesFor(db, defining, item), at, picked)
    ensures GoThrough(db, item, suffix, picked, Listed(db, defining, item, suffix, dependencies))
  {
    if dependencies == [] {
      at, picked := [], [];
    } else {
      hide Chosen, Qualifies, IsShortestPublicPath, IsFirstListed, Filters;
      var first, holds := dependencies[0], QualifiesFor(db, defining, item);
      assert holds(first) <==> Qualifies(db, defining, item, first);
      hide QualifiesFor;
      at, picked := ListedIsExact(db, defining, item, suffix, dependencies[1..]);
      FiltersLater(dependencies, holds, at, picked);
      ChosenIsShortest(db, defining, item, first);
      var chosen, paths := Chosen(db, defining, item, first.krate), Listed(db, defining, item, suffix, dependencies[1..]);
      if chosen.Some? {
        var path := PublicPath(first.name, chosen.value + suffix);
        assert IsPathThrough(db, item, suffix, first, path);
        GoThroughMore(db, item, suffix, first, picked, path, paths);
        at, picked := [0] + Shifted(at), [first] + picked;
      } else {
        at := Shifted(at);
      }
    }
  }

  lemma GoThroughMore(db: Database, item: ModuleDef, suffix: Segments, first: Dependency, picked: seq<Dependency>, path: PublicPath, paths: seq<PublicPath>)
    requires GoThrough(db, item, suffix, picked, paths) && IsPathThrough(db, item, suffix, first, path)
    ensures GoThrough(db, item, suffix, [first] + picked, [path] + paths)
  {
    hide IsPathThrough;
  }

  /**
   The paths of `def`, whose item is `item` with `suffix` after it: none if `def`
   is associated or the item builtin, local or keyless, and otherwise one through
   each dependency that qualifies, in order.
   */
  ghost predicate IsListing(db: Database, def: ModuleDef, item: ModuleDef, suffix: Segments, paths: seq<PublicPath>) {
    if def in db.associated || item !in db.definedIn || db.definedIn[item] == db.current || item in db.keyless
    then paths == []
    else exists at, picked ::
      && Filters(db.dependencies, QualifiesFor(db, db.definedIn[item], item), at, picked)
      && GoThrough(db, item, suffix, picked, paths)
  }

  /** A variant takes the paths of its enum, with its own name after them; any other item takes its own. */
  ghost predicate AreItsPaths(db: Database, def: ModuleDef, paths: seq<PublicPath>) {
    match def
    case Variant(parent, name) => IsListing(db, def, parent, [name], paths)
    case Module(_) => IsListing(db, def, def, [], paths)
    case Item(_) => IsListing(db, def, def, [], paths)
  }

  /**
   The listing is exact: in dependency order, one shortest public path for each
   dependency that exposes the item, and nothing else; an item that is
   associated, builtin, local or keyless gets no path.
   */
  lemma PathsToIsExact(db: Database, def: ModuleDef)
    ensures AreItsPaths(db, def, PathsTo(db, def))
  {
    hide Listed, Filters, GoThrough;
    var (item, suffix) := Target(def);
    if Foreign(db, def) {
      var at, picked := ListedIsExact(db, db.definedIn[item], item, suffix, db.dependencies);
    }
  }

  /** The choice for one dependency, made with the memo of the file. */
  method Choose(db: Database, memo: ModulePaths, defining: Crate, item: ModuleDef, krate: Crate) returns (chosen: Option<Segments>)
    requires memo.Valid(db)
    modifies memo
    ensures memo.Valid(db)
    ensures chosen == Chosen(db, defining, item, krate)
  {
    hide ModulePathsOf, IsPathTable;
    if !Exposing(db, defining, krate) {
      return None;
    }
    var infos := db.ImportInfos(krate, item);
    if infos.None? {
      return None;
    }
    var modules := memo.Of(db, krate);
    chosen := Least(Candidates(modules, infos.value));
  }

  /** The loop over the dependencies, which asks the memo of the file. */
  method PublicPathsTo(db: Database, memo: ModulePaths, def: ModuleDef) returns (paths: seq<PublicPath>)
    requires memo.Valid(db)
    modifies memo
    ensures memo.Valid(db)
    ensures paths == PathsTo(db, def) && AreItsPaths(db, def, paths)
  {
    PathsToIsExact(db, def);
    hide Chosen, ModulePathsOf, AreItsPaths;
    paths := [];
    if !Foreign(db, def) {
      return;
    }
    var (item, suffix) := Target(def);
    var defining, dependencies := db.definedIn[item], db.dependencies;
    for i := 0 to |dependencies|
      invariant memo.Valid(db)
      invariant paths + Listed(db, defining, item, suffix, dependencies[i..])
             == Listed(db, defining, item, suffix, dependencies)
    {
      assert dependencies[i..][1..] == dependencies[i + 1..];
      var chosen := Choose(db, memo, defining, item, dependencies[i].krate);
      if chosen.Some? {
        paths := paths + [PublicPath(dependencies[i].name, chosen.value + suffix)];
      }
    }
  }
}
