/** The crates that a bundle needs: a worklist over the dependencies of a workspace. */
module Closure {
  import opened Common
  import opened Ordering

  datatype Dependency = Dependency(name: string, kind: Option<string>)

  datatype Package = Package(name: string, dependencies: seq<Dependency>)

  /** The packages by name; a later one of a name replaces an earlier one. */
  function ByName(packages: seq<Package>): map<string, Package> {
    if packages == [] then map[]
    else ByName(packages[..|packages| - 1])[packages[|packages| - 1].name := packages[|packages| - 1]]
  }

  /** Whether a dependency that is not for tests only has this name, among the first `count`. */
  ghost predicate AmongFirst(dependencies: seq<Dependency>, count: nat, name: string)
    requires count <= |dependencies|
  {
    exists j :: 0 <= j < count && dependencies[j].name == name && !(dependencies[j].kind.Some? && dependencies[j].kind.value == "dev")
  }

  /** Whether `next` is a crate of the workspace that a build of `from` needs. */
  ghost predicate Needs(workspace: map<string, Package>, from: string, next: string) {
    && from in workspace && next in workspace
    && AmongFirst(workspace[from].dependencies, |workspace[from].dependencies|, next)
  }

  // ---------------------------------------------------------------------
  // The reference: reachability
  // ---------------------------------------------------------------------

  ghost predicate IsChain(workspace: map<string, Package>, roots: seq<string>, chain: seq<string>) {
    && |chain| > 0 && chain[0] in roots && chain[0] in workspace
    && forall i :: 0 <= i < |chain| - 1 ==> Needs(workspace, chain[i], chain[i + 1])
  }

  ghost predicate ChainTo(workspace: map<string, Package>, roots: seq<string>, chain: seq<string>, name: string) {
    IsChain(workspace, roots, chain) && chain[|chain| - 1] == name
  }

  ghost predicate Reachable(workspace: map<string, Package>, roots: seq<string>, name: string) {
    exists chain :: ChainTo(workspace, roots, chain, name)
  }

  lemma RootIsReachable(workspace: map<string, Package>, roots: seq<string>, root: string)
    requires root in roots && root in workspace
    ensures Reachable(workspace, roots, root)
  {
    assert ChainTo(workspace, roots, [root], root);
  }

  lemma NextIsReachable(workspace: map<string, Package>, roots: seq<string>, from: string, next: string)
    requires Reachable(workspace, roots, from) && Needs(workspace, from, next)
    ensures Reachable(workspace, roots, next)
  {
    var chain :| ChainTo(workspace, roots, chain, from);
    var longer := chain + [next];
    forall i | 0 <= i < |longer| - 1 ensures Needs(workspace, longer[i], longer[i + 1]) {
      if i + 1 < |chain| {
        assert Needs(workspace, chain[i], chain[i + 1]);
      }
    }
    assert ChainTo(workspace, roots, longer, next);
  }

  /** A set that holds the roots and what its members need holds all that is reachable. */
  lemma {:induction false} ClosedHoldsChain(workspace: map<string, Package>, roots: seq<string>, closed: set<string>, chain: seq<string>)
    requires forall root :: root in roots ==> root in closed
    requires forall from, next :: from in closed && Needs(workspace, from, next) ==> next in closed
    requires IsChain(workspace, roots, chain)
    ensures chain[|chain| - 1] in closed
    decreases |chain|
  {
    if |chain| > 1 {
      var most := chain[..|chain| - 1];
      forall i | 0 <= i < |most| - 1 ensures Needs(workspace, most[i], most[i + 1]) {
        assert Needs(workspace, chain[i], chain[i + 1]);
      }
      ClosedHoldsChain(workspace, roots, closed, most);
      assert Needs(workspace, chain[|chain| - 2], chain[|chain| - 2 + 1]);
    }
  }

  // ---------------------------------------------------------------------
  // The worklist
  // ---------------------------------------------------------------------

  /** What has been seen is reachable, and what it needs is seen or pending. */
  ghost predicate Pending(workspace: map<string, Package>, roots: seq<string>, seen: set<string>, pending: seq<string>) {
    && seen <= workspace.Keys
    && (forall name :: name in seen ==> Reachable(workspace, roots, name))
    && (forall name :: name in pending ==> if name in workspace then Reachable(workspace, roots, name) else name in roots)
    && (forall root :: root in roots ==> root in seen || root in pending)
    && (forall from, next :: from in seen && Needs(workspace, from, next) ==> next in seen || next in pending)
  }

  /** Pushes the crates that `name` needs. */
  method PushNeeded(workspace: map<string, Package>, name: string, pending: seq<string>) returns (more: seq<string>)
    requires name in workspace
    ensures forall next :: next in more <==> next in pending || Needs(workspace, name, next)
  {
    more := pending;
    var dependencies := workspace[name].dependencies;
    for i := 0 to |dependencies|
      invariant forall next ::
        (next in more <==> next in pending || (next in workspace && AmongFirst(dependencies, i, next)))
    {
      if dependencies[i].kind != Some("dev") && dependencies[i].name in workspace {
        more := more + [dependencies[i].name];
      }
    }
  }

  lemma PopKeeps(workspace: map<string, Package>, roots: seq<string>, seen: set<string>, pending: seq<string>, more: seq<string>)
    requires Pending(workspace, roots, seen, pending) && pending != [] && pending[|pending| - 1] in workspace
    requires var name, rest := pending[|pending| - 1], pending[..|pending| - 1];
      if name in seen then more == rest
      else forall next :: next in more <==> next in rest || Needs(workspace, name, next)
    ensures Pending(workspace, roots, seen + {pending[|pending| - 1]}, more)
  {
    var name, rest := pending[|pending| - 1], pending[..|pending| - 1];
    assert pending == rest + [name];
    assert Reachable(workspace, roots, name) by { assert name in pending; }
    forall next | next in more
      ensures if next in workspace then Reachable(workspace, roots, next) else next in roots
    {
      if Needs(workspace, name, next) {
        NextIsReachable(workspace, roots, name, next);
      } else {
        assert next in pending;
      }
    }
    forall root | root in roots ensures root in seen + {name} || root in more {
      assert root in seen || root in pending;
    }
    forall from, next | from in seen + {name} && Needs(workspace, from, next)
      ensures next in seen + {name} || next in more
    {
      assert from in seen ==> next in seen || next in pending;
    }
  }

  /** The crates that the roots reach, or a root that the workspace lacks. */
  method Collect(workspace: map<string, Package>, roots: seq<string>) returns (r: Result<set<string>, string>)
    ensures r.Err? <==> exists root :: root in roots && root !in workspace
    ensures r.Err? ==> r.error in roots && r.error !in workspace
    ensures r.Ok? ==> forall name :: name in r.value <==> Reachable(workspace, roots, name)
  {
    var seen: set<string> := {};
    var pending := roots;
    forall root | root in roots && root in workspace ensures Reachable(workspace, roots, root) {
      RootIsReachable(workspace, roots, root);
    }
    while pending != []
      invariant Pending(workspace, roots, seen, pending)
      decreases workspace.Keys - seen, |pending|
    {
      hide Reachable, Needs;
      var name, rest := pending[|pending| - 1], pending[..|pending| - 1];
      if name !in workspace {
        assert name in pending;
        return Err(name);
      }
      var more := rest;
      if name !in seen {
        more := PushNeeded(workspace, name, rest);
        assert name in workspace.Keys - seen && name !in workspace.Keys - (seen + {name});
      }
      PopKeeps(workspace, roots, seen, pending, more);
      seen, pending := seen + {name}, more;
    }
    forall name ensures name in seen <==> Reachable(workspace, roots, name) {
      if Reachable(workspace, roots, name) {
        var chain :| ChainTo(workspace, roots, chain, name);
        ClosedHoldsChain(workspace, roots, seen, chain);
      }
    }
    r := Ok(seen);
  }

  // ---------------------------------------------------------------------
  // The result
  // ---------------------------------------------------------------------

  lemma {:induction false} InsertStrictly(x: string, s: seq<string>)
    requires StrictlySorted(StringLt, s) && x !in s
    ensures StrictlySorted(StringLt, Insert(StringLe, x, s))
    ensures forall y :: y in Insert(StringLe, x, s) <==> y == x || y in s
  {
    StringLeIsTotalOrder();
    if s != [] && !StringLe(x, s[0]) {
      InsertStrictly(x, s[1..]);
      assert forall y :: y in s <==> y == s[0] || y in s[1..];
      assert forall y :: y in s[1..] ==> StringLt(s[0], y);
      var rest := Insert(StringLe, x, s[1..]);
      assert forall i :: 0 <= i < |rest| ==> rest[i] in rest;
    } else if s != [] {
      assert forall i :: 1 <= i < |s| ==> StringLt(s[0], s[i]);
      assert forall i :: 0 <= i < |s| ==> s[i] in s;
      assert forall i :: 0 <= i < |s| ==> StringLt(x, s[i]);
    }
  }

  /** The members of an ordered set, in order. */
  method InOrder(names: set<string>) returns (sorted: seq<string>)
    ensures StrictlySorted(StringLt, sorted)
    ensures forall name :: name in sorted <==> name in names
  {
    sorted := [];
    var left := names;
    while left != {}
      invariant left <= names
      invariant StrictlySorted(StringLt, sorted)
      invariant forall name :: name in sorted <==> name in names && name !in left
    {
      var name :| name in left;
      InsertStrictly(name, sorted);
      sorted := Insert(StringLe, name, sorted);
      left := left - {name};
    }
  }

  ghost function NamesOf(packages: seq<Package>): seq<string> {
    seq(|packages|, i requires 0 <= i < |packages| => packages[i].name)
  }

  /** The closure: each reachable crate once, in order of name. */
  ghost predicate IsClosure(workspace: map<string, Package>, roots: seq<string>, packages: seq<Package>) {
    && StrictlySorted(StringLt, NamesOf(packages))
    && (forall name :: name in NamesOf(packages) <==> Reachable(workspace, roots, name))
    && forall i :: 0 <= i < |packages| ==> packages[i].name in workspace && packages[i] == workspace[packages[i].name]
  }

  /** The package at `i` is the last of its name. */
  ghost predicate IsLastOf(packages: seq<Package>, i: nat, name: string) {
    i < |packages| && packages[i].name == name && forall j :: i < j < |packages| ==> packages[j].name != name
  }

  /** The workspace is the packages by name: each name that one has, with the last that has it. */
  ghost predicate IsByName(packages: seq<Package>, workspace: map<string, Package>) {
    && (forall name :: name in workspace <==> exists i :: 0 <= i < |packages| && packages[i].name == name)
    && (forall i: nat, name :: IsLastOf(packages, i, name) ==> name in workspace && workspace[name] == packages[i])
    && (forall name :: name in workspace ==> workspace[name].name == name)
  }

  lemma {:induction false} ByNameIsExact(packages: seq<Package>)
    ensures IsByName(packages, ByName(packages))
  {
    if packages != [] {
      var most, last := packages[..|packages| - 1], packages[|packages| - 1];
      ByNameIsExact(most);
      var workspace := ByName(packages);
      forall name ensures name in workspace <==> exists i :: 0 <= i < |packages| && packages[i].name == name {
        assert packages[|packages| - 1] == last;
        if i :| 0 <= i < |packages| && packages[i].name == name {
          assert i < |most| ==> most[i].name == name;
        }
        if name in ByName(most) {
          var i :| 0 <= i < |most| && most[i].name == name;
          assert packages[i].name == name;
        }
      }
      forall i: nat, name | IsLastOf(packages, i, name) ensures name in workspace && workspace[name] == packages[i] {
        if i < |most| {
          assert packages[|packages| - 1].name != name;
          assert IsLastOf(most, i, name);
        }
      }
    }
  }

  lemma ReachableIsInWorkspace(workspace: map<string, Package>, roots: seq<string>, name: string)
    requires Reachable(workspace, roots, name)
    ensures name in workspace
  {
    var chain :| ChainTo(workspace, roots, chain, name);
    if |chain| > 1 {
      assert Needs(workspace, chain[|chain| - 2], chain[|chain| - 2 + 1]);
    }
  }

  /** Fails exactly when a root is no crate of the workspace, and otherwise returns the closure. */
  method ClosureOf(packages: seq<Package>, roots: seq<string>) returns (r: Result<seq<Package>, string>)
    ensures r.Err? <==> exists root :: root in roots && forall i :: 0 <= i < |packages| ==> packages[i].name != root
    ensures r.Err? ==> r.error in roots && forall i :: 0 <= i < |packages| ==> packages[i].name != r.error
    ensures r.Ok? ==> IsByName(packages, ByName(packages)) && IsClosure(ByName(packages), roots, r.value)
  {
    var workspace := ByName(packages);
    ByNameIsExact(packages);
    var collected := Collect(workspace, roots);
    if collected.Err? {
      return Err(collected.error);
    }
    hide Reachable, ByName, IsByName;
    forall name | Reachable(workspace, roots, name) ensures name in workspace {
      ReachableIsInWorkspace(workspace, roots, name);
    }
    var sorted := InOrder(collected.value);
    var found: seq<Package> := [];
    for i := 0 to |sorted|
      invariant |found| == i
      invariant forall j :: 0 <= j < i ==> sorted[j] in workspace && found[j] == workspace[sorted[j]]
    {
      assert sorted[i] in sorted;
      found := found + [workspace[sorted[i]]];
    }
    assert NamesOf(found) == sorted;
    r := Ok(found);
  }

  /** The closure depends on which roots there are, not on their order. */
  lemma ClosureIgnoresOrder(workspace: map<string, Package>, a: seq<string>, b: seq<string>, closureA: seq<Package>, closureB: seq<Package>)
    requires forall root :: root in a <==> root in b
    requires IsClosure(workspace, a, closureA) && IsClosure(workspace, b, closureB)
    ensures closureA == closureB
  {
    forall name ensures Reachable(workspace, a, name) <==> Reachable(workspace, b, name) {
      if Reachable(workspace, a, name) {
        var chain :| ChainTo(workspace, a, chain, name);
        assert ChainTo(workspace, b, chain, name);
      }
      if Reachable(workspace, b, name) {
        var chain :| ChainTo(workspace, b, chain, name);
        assert ChainTo(workspace, a, chain, name);
      }
    }
    StringLtIsStrict();
    StrictIsUnique(StringLt, NamesOf(closureA), NamesOf(closureB));
    assert forall i :: 0 <= i < |closureA| ==> NamesOf(closureA)[i] == closureA[i].name;
    assert forall i :: 0 <= i < |closureB| ==> NamesOf(closureB)[i] == closureB[i].name;
  }
}
