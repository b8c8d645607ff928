/**
 The visit of a token tree as a sweep over its identifiers in reading order: the
 first that cannot be read stops it, and each of the others adds what it calls for.
 */
module Sweep {
  import opened Common
  import opened Sequences
  import opened Tokens
  import opened Splice
  import opened Rewrite
  import opened BundleMeaning

  // ---------------------------------------------------------------------
  // The identifiers of a tree
  // ---------------------------------------------------------------------

  /** Where an identifier stands: in which list, and at which index. */
  datatype Spot = Spot(place: Place, at: nat)
  {
    ghost function First(): nat {
      if place.Top? then at else place.index
    }
  }

  ghost predicate IsSpot(tokens: seq<Token>, spot: Spot) {
    IsPlace(tokens, spot.place) && IsIdent(ListAt(tokens, spot.place), spot.at)
  }

  ghost function IdentAt(tokens: seq<Token>, spot: Spot): (ident: Token)
    requires IsSpot(tokens, spot)
    ensures ident.Ident?
  {
    ListAt(tokens, spot.place)[spot.at]
  }

  /** The spots of the group at `index`, as spots of the list that the group is in. */
  ghost function Within(index: nat, spots: seq<Spot>): seq<Spot> {
    seq(|spots|, k requires 0 <= k < |spots| => Spot(Inside(index, spots[k].place), spots[k].at))
  }

  ghost function SpotsAt(tokens: seq<Token>, index: nat): seq<Spot>
    requires index < |tokens|
    decreases tokens, 0, 0
  {
    match tokens[index]
    case Ident(_, _, _) => [Spot(Top, index)]
    case Group(_, inner, _, _) => Within(index, Spots(inner, 0))
    case _ => []
  }

  /** The spots from `tokens[index]` on, in reading order. */
  ghost function Spots(tokens: seq<Token>, index: nat): seq<Spot>
    requires index <= |tokens|
    decreases tokens, 1, |tokens| - index
  {
    if index == |tokens| then [] else SpotsAt(tokens, index) + Spots(tokens, index + 1)
  }

  lemma WithinHas(index: nat, spots: seq<Spot>, spot: Spot)
    ensures spot in Within(index, spots) <==>
      spot.place.Inside? && spot.place.index == index && Spot(spot.place.rest, spot.at) in spots
  {
    if spot.place.Inside? && spot.place.index == index && Spot(spot.place.rest, spot.at) in spots {
      var k :| 0 <= k < |spots| && spots[k] == Spot(spot.place.rest, spot.at);
      assert Within(index, spots)[k] == spot;
    }
  }

  /** Every identifier of the tree is among the spots. */
  lemma {:induction false} SpotsHold(tokens: seq<Token>, index: nat, spot: Spot)
    requires index <= |tokens|
    ensures spot in Spots(tokens, index) <==> IsSpot(tokens, spot) && spot.First() >= index
    decreases tokens, |tokens| - index
  {
    if index < |tokens| {
      SpotsHold(tokens, index + 1, spot);
      if tokens[index].Group? {
        var inner := tokens[index].tokens;
        WithinHas(index, Spots(inner, 0), spot);
        if spot.place.Inside? && spot.place.index == index {
          SpotsHold(inner, 0, Spot(spot.place.rest, spot.at));
        }
      }
    }
  }

  /** The identifiers come in order, one after the end of the other, between `low` and `high`. */
  ghost predicate InOrder(tokens: seq<Token>, spots: seq<Spot>, low: nat, high: nat) {
    && (forall k :: 0 <= k < |spots| ==> IsSpot(tokens, spots[k]))
    && (forall k :: 0 <= k < |spots| ==>
        low <= IdentAt(tokens, spots[k]).start <= IdentAt(tokens, spots[k]).end <= high)
    && (forall k, l :: 0 <= k < l < |spots| ==> IdentAt(tokens, spots[k]).end <= IdentAt(tokens, spots[l]).start)
  }

  lemma InOrderConcat(tokens: seq<Token>, a: seq<Spot>, b: seq<Spot>, low: nat, middle: nat, high: nat)
    requires InOrder(tokens, a, low, middle) && InOrder(tokens, b, middle, high) && low <= middle <= high
    ensures InOrder(tokens, a + b, low, high)
  {
    hide IsSpot, IdentAt;
    forall k, l | 0 <= k < l < |a + b| ensures IdentAt(tokens, (a + b)[k]).end <= IdentAt(tokens, (a + b)[l]).start {
      if k < |a| <= l {
        assert IdentAt(tokens, a[k]).end <= middle <= IdentAt(tokens, b[l - |a|]).start;
      }
    }
  }

  lemma WithinInOrder(tokens: seq<Token>, index: nat, spots: seq<Spot>, low: nat, high: nat)
    requires index < |tokens| && tokens[index].Group? && InOrder(tokens[index].tokens, spots, low, high)
    ensures InOrder(tokens, Within(index, spots), low, high)
  {
    var inner, within := tokens[index].tokens, Within(index, spots);
    forall k | 0 <= k < |spots| ensures IsSpot(tokens, within[k]) && IdentAt(tokens, within[k]) == IdentAt(inner, spots[k]) {
      assert ListAt(tokens, within[k].place) == ListAt(inner, spots[k].place);
    }
  }

  /** Reading order is the order of the text. */
  lemma {:induction false} SpotsInOrder(tokens: seq<Token>, index: nat, low: nat, high: nat)
    requires index <= |tokens| && Nested(tokens, index, low, high)
    ensures low <= high && InOrder(tokens, Spots(tokens, index), low, high)
    decreases tokens, |tokens| - index
  {
    NestedBounds(tokens, index, low, high);
    if index < |tokens| {
      var here, rest := SpotsAt(tokens, index), Spots(tokens, index + 1);
      match tokens[index] {
        case Ident(_, start, end) =>
          SpotsInOrder(tokens, index + 1, end, high);
          InOrderConcat(tokens, here, rest, low, end, high);
        case Group(_, inner, start, end) =>
          SpotsInOrder(tokens, index + 1, end, high);
          SpotsInOrder(inner, 0, start, end);
          WithinInOrder(tokens, index, Spots(inner, 0), start, end);
          InOrderConcat(tokens, here, rest, low, end, high);
        case _ =>
          SpotsInOrder(tokens, index + 1, low, high);
          assert here + rest == rest;
      }
    }
  }

  // ---------------------------------------------------------------------
  // The visit is a sweep
  // ---------------------------------------------------------------------

  ghost function Calls(names: Names, home: string, tokens: seq<Token>, spot: Spot): Result<Found, string>
    requires IsSpot(tokens, spot)
  {
    AtIdent(names, home, ListAt(tokens, spot.place), spot.at)
  }

  ghost predicate AreSpots(tokens: seq<Token>, spots: seq<Spot>) {
    forall k :: 0 <= k < |spots| ==> IsSpot(tokens, spots[k])
  }

  /** What the identifiers call for, one after the other, up to the first that cannot be read. */
  ghost function Swept(names: Names, home: string, tokens: seq<Token>, spots: seq<Spot>): Result<Found, string>
    requires AreSpots(tokens, spots)
    decreases |spots|
  {
    if spots == [] then Ok(NOTHING)
    else match Calls(names, home, tokens, spots[0])
      case Err(e) => Err(e)
      case Ok(here) =>
        match Swept(names, home, tokens, spots[1..])
        case Err(e) => Err(e)
        case Ok(rest) => Ok(here.Then(rest))
  }

  lemma {:induction false} SweptConcat(names: Names, home: string, tokens: seq<Token>, a: seq<Spot>, b: seq<Spot>)
    requires AreSpots(tokens, a) && AreSpots(tokens, b)
    ensures AreSpots(tokens, a + b)
    ensures Swept(names, home, tokens, a + b) ==
      match Swept(names, home, tokens, a)
      case Err(e) => Err(e)
      case Ok(first) => Onto(first, Swept(names, home, tokens, b))
    decreases |a|
  {
    hide Calls;
    if a == [] {
      assert a + b == b;
      var swept := Swept(names, home, tokens, b);
      assert swept.Ok? ==> NOTHING.Then(swept.value) == swept.value;
    } else {
      assert (a + b)[0] == a[0] && (a + b)[1..] == a[1..] + b;
      SweptConcat(names, home, tokens, a[1..], b);
      var here := Calls(names, home, tokens, a[0]);
      var x, y := Swept(names, home, tokens, a[1..]), Swept(names, home, tokens, b);
      if here.Ok? && x.Ok? && y.Ok? {
        assert here.value.Then(x.value.Then(y.value)) == here.value.Then(x.value).Then(y.value);
      }
    }
  }

  lemma {:induction false} SweptWithin(names: Names, home: string, tokens: seq<Token>, index: nat, spots: seq<Spot>)
    requires index < |tokens| && tokens[index].Group? && AreSpots(tokens[index].tokens, spots)
    ensures AreSpots(tokens, Within(index, spots))
    ensures Swept(names, home, tokens, Within(index, spots)) == Swept(names, home, tokens[index].tokens, spots)
    decreases |spots|
  {
    var inner, within := tokens[index].tokens, Within(index, spots);
    forall k | 0 <= k < |spots| ensures IsSpot(tokens, within[k]) {
      assert ListAt(tokens, within[k].place) == ListAt(inner, spots[k].place);
    }
    if spots != [] {
      assert within[1..] == Within(index, spots[1..]);
      SweptWithin(names, home, tokens, index, spots[1..]);
      assert ListAt(tokens, within[0].place) == ListAt(inner, spots[0].place);
    }
  }

  lemma {:induction false} SpotsAreSpots(tokens: seq<Token>, index: nat)
    requires index <= |tokens|
    ensures AreSpots(tokens, Spots(tokens, index))
  {
    forall k | 0 <= k < |Spots(tokens, index)| ensures IsSpot(tokens, Spots(tokens, index)[k]) {
      SpotsHold(tokens, index, Spots(tokens, index)[k]);
    }
  }

  /** The visit sweeps over the identifiers in reading order. */
  lemma {:induction false} SpanIsSweep(names: Names, home: string, tokens: seq<Token>, index: nat)
    requires index <= |tokens|
    ensures AreSpots(tokens, Spots(tokens, index))
    ensures Span(names, home, tokens, index, |tokens|) == Swept(names, home, tokens, Spots(tokens, index))
    decreases tokens, |tokens| - index
  {
    SpotsAreSpots(tokens, index);
    if index < |tokens| {
      var here, rest := SpotsAt(tokens, index), Spots(tokens, index + 1);
      SpanIsSweep(names, home, tokens, index + 1);
      match tokens[index] {
        case Ident(_, _, _) =>
          assert here[1..] == [];
          SweptOne(names, home, tokens, index);
        case Group(_, inner, _, _) =>
          SpanIsSweep(names, home, inner, 0);
          SweptWithin(names, home, tokens, index, Spots(inner, 0));
        case _ =>
      }
      assert Swept(names, home, tokens, here) == AtToken(names, home, tokens, index);
      SweptConcat(names, home, tokens, here, rest);
    }
  }

  lemma SweptOne(names: Names, home: string, tokens: seq<Token>, index: nat)
    requires IsIdent(tokens, index)
    ensures AreSpots(tokens, [Spot(Top, index)])
    ensures Swept(names, home, tokens, [Spot(Top, index)]) == AtIdent(names, home, tokens, index)
  {
    var spot := Spot(Top, index);
    assert ListAt(tokens, spot.place) == tokens && IsSpot(tokens, spot);
    assert [spot][1..] == [];
    var here := AtIdent(names, home, tokens, index);
    assert here.Ok? ==> here.value.Then(NOTHING) == here.value;
  }

  // ---------------------------------------------------------------------
  // Which visits fail, and which files they list
  // ---------------------------------------------------------------------

  /** The identifier calls a macro of this set, which no crate has the name of, with one literal. */
  ghost predicate CallsMacro(names: Names, tokens: seq<Token>, spot: Spot, macros: set<string>, text: string) {
    && IsSpot(tokens, spot)
    && IdentAt(tokens, spot).name in macros && IdentAt(tokens, spot).name !in names.crates
    && CallsWith(ListAt(tokens, spot.place), spot.at, text)
  }

  /** A call of `env!` or of an include whose string holds an escape. */
  ghost predicate IsUnreadable(names: Names, tokens: seq<Token>, spot: Spot, value: string) {
    CallsMacro(names, tokens, spot, {"env", "include_str", "include_bytes"}, Quoted(value)) && '\\' in value
  }

  /** An include of the file that `value` names. */
  ghost predicate IsInclude(names: Names, tokens: seq<Token>, spot: Spot, value: string) {
    CallsMacro(names, tokens, spot, {"include_str", "include_bytes"}, Quoted(value)) && '\\' !in value
  }

  lemma CallFails(names: Names, home: string, tokens: seq<Token>, spot: Spot, value: string)
    requires IsSpot(tokens, spot)
    ensures IsUnreadable(names, tokens, spot, value) ==> Calls(names, home, tokens, spot) == Err(Quoted(value))
    ensures Calls(names, home, tokens, spot).Err? ==> exists other :: IsUnreadable(names, tokens, spot, other)
  {
    var list := ListAt(tokens, spot.place);
    MacroLiteralIsExact(list, spot.at, value, 0);
    if Calls(names, home, tokens, spot).Err? {
      var other :| CallsWith(list, spot.at, Quoted(other)) && '\\' in other;
      assert IsUnreadable(names, tokens, spot, other);
    }
  }

  lemma CallIncludes(names: Names, home: string, tokens: seq<Token>, spot: Spot)
    requires IsSpot(tokens, spot) && Calls(names, home, tokens, spot).Ok?
    ensures var includes := Calls(names, home, tokens, spot).value.includes;
      && |includes| <= 1
      && (includes != [] ==> IsInclude(names, tokens, spot, includes[0]))
      && (includes == [] ==> forall value :: !IsInclude(names, tokens, spot, value))
  {
    var list, at := ListAt(tokens, spot.place), spot.at;
    var literal := MacroLiteral(list, at);
    if literal.Ok? && literal.value.Some? {
      MacroLiteralIsExact(list, at, literal.value.value.0, literal.value.value.1);
    }
    forall value | IsInclude(names, tokens, spot, value)
      ensures literal == Ok(Some((value, list[at + 2].end)))
    {
      MacroLiteralIsExact(list, at, value, list[at + 2].end);
    }
  }

  /** The first identifier that cannot be read stops the sweep. */
  lemma {:induction false} SweptFails(names: Names, home: string, tokens: seq<Token>, spots: seq<Spot>) returns (k: nat)
    requires AreSpots(tokens, spots) && Swept(names, home, tokens, spots).Err?
    ensures k < |spots| && Calls(names, home, tokens, spots[k]) == Err(Swept(names, home, tokens, spots).error)
    ensures forall j :: 0 <= j < k ==> Calls(names, home, tokens, spots[j]).Ok?
    decreases |spots|
  {
    hide Calls;
    k := 0;
    if Calls(names, home, tokens, spots[0]).Ok? {
      k := SweptFails(names, home, tokens, spots[1..]);
      k := k + 1;
    }
  }

  lemma {:induction false} SweptPasses(names: Names, home: string, tokens: seq<Token>, spots: seq<Spot>, k: nat)
    requires AreSpots(tokens, spots) && Swept(names, home, tokens, spots).Ok? && k < |spots|
    ensures Calls(names, home, tokens, spots[k]).Ok?
    decreases |spots|
  {
    hide Calls;
    if k > 0 {
      SweptPasses(names, home, tokens, spots[1..], k - 1);
    }
  }

  /** A visit fails exactly when some call of the tree, at any depth, has a string with an escape. */
  lemma VisitFailsExactly(names: Names, home: string, tokens: seq<Token>)
    ensures Visited(names, home, tokens).Err? <==> exists spot, value :: IsUnreadable(names, tokens, spot, value)
  {
    var spots := Spots(tokens, 0);
    SpanIsSweep(names, home, tokens, 0);
    hide Swept, Spots, Span, IsUnreadable;
    if Visited(names, home, tokens).Err? {
      var k := SweptFails(names, home, tokens, spots);
      CallFails(names, home, tokens, spots[k], "");
    }
    if spot, value :| IsUnreadable(names, tokens, spot, value) {
      assert IsSpot(tokens, spot) by { UnreadableIsSpot(names, tokens, spot, value); }
      SpotsHold(tokens, 0, spot);
      var k :| 0 <= k < |spots| && spots[k] == spot;
      CallFails(names, home, tokens, spot, value);
      if Visited(names, home, tokens).Ok? {
        SweptPasses(names, home, tokens, spots, k);
      }
    }
  }

  lemma UnreadableIsSpot(names: Names, tokens: seq<Token>, spot: Spot, value: string)
    requires IsUnreadable(names, tokens, spot, value)
    ensures IsSpot(tokens, spot)
  {
  }

  /** The failure names the string of the first such call in reading order. */
  lemma VisitFailsFirst(names: Names, home: string, tokens: seq<Token>) returns (k: nat, value: string)
    requires Visited(names, home, tokens).Err?
    ensures k < |Spots(tokens, 0)| && IsUnreadable(names, tokens, Spots(tokens, 0)[k], value)
    ensures Visited(names, home, tokens).error == Quoted(value)
    ensures forall j, other :: 0 <= j < k ==> !IsUnreadable(names, tokens, Spots(tokens, 0)[j], other)
  {
    var spots := Spots(tokens, 0);
    SpanIsSweep(names, home, tokens, 0);
    hide Swept, Spots, Span, IsUnreadable;
    k := SweptFails(names, home, tokens, spots);
    CallFails(names, home, tokens, spots[k], "");
    value :| IsUnreadable(names, tokens, spots[k], value);
    CallFails(names, home, tokens, spots[k], value);
    forall j, other | 0 <= j < k ensures !IsUnreadable(names, tokens, spots[j], other) {
      CallFails(names, home, tokens, spots[j], other);
    }
  }

  ghost function Includes(names: Names, tokens: seq<Token>): Spot -> bool {
    (spot: Spot) => exists value :: IsInclude(names, tokens, spot, value)
  }

  /** `includes` are the files that the includes at `spots` name. */
  ghost predicate Name(names: Names, tokens: seq<Token>, spots: seq<Spot>, includes: seq<string>) {
    |includes| == |spots| && forall k :: 0 <= k < |spots| ==> IsInclude(names, tokens, spots[k], includes[k])
  }

  lemma {:induction false} SweptLists(names: Names, home: string, tokens: seq<Token>, spots: seq<Spot>)
    returns (at: seq<nat>, picked: seq<Spot>)
    requires AreSpots(tokens, spots) && Swept(names, home, tokens, spots).Ok?
    ensures Filters(spots, Includes(names, tokens), at, picked)
    ensures Name(names, tokens, picked, Swept(names, home, tokens, spots).value.includes)
    decreases |spots|
  {
    if spots == [] {
      at, picked := [], [];
    } else {
      hide Calls, IsInclude, Filters;
      var first, holds := spots[0], Includes(names, tokens);
      assert holds(first) <==> exists value :: IsInclude(names, tokens, first, value);
      hide Includes;
      at, picked := SweptLists(names, home, tokens, spots[1..]);
      CallIncludes(names, home, tokens, first);
      FiltersLater(spots, holds, at, picked);
      var here, later := Calls(names, home, tokens, first).value.includes, Swept(names, home, tokens, spots[1..]).value.includes;
      if here == [] {
        at := Shifted(at);
        assert here + later == later;
      } else {
        assert here == [here[0]];
        NameMore(names, tokens, first, picked, here[0], later);
        at, picked := [0] + Shifted(at), [first] + picked;
      }
    }
  }

  lemma NameMore(names: Names, tokens: seq<Token>, first: Spot, picked: seq<Spot>, value: string, includes: seq<string>)
    requires Name(names, tokens, picked, includes) && IsInclude(names, tokens, first, value)
    ensures Name(names, tokens, [first] + picked, [value] + includes)
  {
    hide IsInclude;
  }

  /** A visit lists the files that the tree includes, each as often as it does and in reading order. */
  lemma IncludesAreExact(names: Names, home: string, tokens: seq<Token>) returns (at: seq<nat>, picked: seq<Spot>)
    requires Visited(names, home, tokens).Ok?
    ensures Filters(Spots(tokens, 0), Includes(names, tokens), at, picked)
    ensures Name(names, tokens, picked, Visited(names, home, tokens).value.includes)
  {
    SpanIsSweep(names, home, tokens, 0);
    at, picked := SweptLists(names, home, tokens, Spots(tokens, 0));
  }

  // ---------------------------------------------------------------------
  // What an identifier calls for, token by token
  // ---------------------------------------------------------------------

  ghost predicate IsColon(tokens: seq<Token>, index: nat) {
    index < |tokens| && tokens[index].Punct? && tokens[index].character == ':'
  }

  /** `::` stands at `index`: two colons, with nothing between them. */
  ghost predicate AreColons(tokens: seq<Token>, index: nat) {
    IsColon(tokens, index) && IsColon(tokens, index + 1) && tokens[index].joint
  }

  ghost predicate FollowsDot(tokens: seq<Token>, index: nat) {
    index > 0 && index <= |tokens| && tokens[index - 1].Punct? && tokens[index - 1].character == '.'
  }

  /** The name of an exported macro stands at `index`, and no `::` after it. */
  ghost predicate EndsWithMacro(names: Names, tokens: seq<Token>, index: nat) {
    index < |tokens| && tokens[index].Ident? && tokens[index].name in names.exported && !AreColons(tokens, index + 1)
  }

  /** A `crate` gets the name of its crate exactly before a `::` that does not lead to a macro. */
  lemma CrateIsMoved(names: Names, home: string, tokens: seq<Token>, index: nat)
    requires IsIdent(tokens, index) && tokens[index].name == "crate"
    ensures AtIdent(names, home, tokens, index) == Ok(Found(
      if AreColons(tokens, index + 1) && !EndsWithMacro(names, tokens, index + 3)
      then [Edit(tokens[index].end, tokens[index].end, "::" + home)] else [], []))
  {
  }

  /** The name of a crate gets a `crate::` unless it comes right after `::` or `.`, and gives way to it before a macro. */
  lemma CrateNameIsMoved(names: Names, home: string, tokens: seq<Token>, index: nat)
    requires IsIdent(tokens, index) && tokens[index].name in names.crates && tokens[index].name != "crate"
    ensures AtIdent(names, home, tokens, index) == Ok(Found(
      if FollowsDot(tokens, index) || (index >= 2 && AreColons(tokens, index - 2)) then []
      else if AreColons(tokens, index + 1) && EndsWithMacro(names, tokens, index + 3)
      then [Edit(tokens[index].start, tokens[index + 3].start, "crate::")]
      else [Edit(tokens[index].start, tokens[index].start, "crate::")], []))
  {
  }
}
