/** The bundler's rewriter: the edits that it finds in a token tree. */
module Rewrite {
  import opened Common
  import opened Ordering
  import opened Splice
  import opened Tokens

  /** The crates of the bundle, and the macros they export. */
  datatype Names = Names(crates: set<string>, exported: set<string>)
  {
    /** Whether an exported macro is named at `tokens[index]`, and no `::` leads on from it. */
    predicate NamesMacro(tokens: seq<Token>, index: nat) {
      IsIdent(tokens, index) && tokens[index].name in exported && !IsPathSeparator(tokens, index + 1)
    }
  }

  /** What a visit records: the edits, and the files that includes name. */
  datatype Found = Found(edits: seq<Edit>, includes: seq<string>)
  {
    function Then(next: Found): Found {
      Found(edits + next.edits, includes + next.includes)
    }
  }

  const NOTHING := Found([], [])

  function ManifestDir(home: string): string {
    "concat!(env!(\"CARGO_MANIFEST_DIR\"), \"/" + home + "\")"
  }

  /** What the identifier at `tokens[index]` of a file of the crate `home` calls for. */
  function AtIdent(names: Names, home: string, tokens: seq<Token>, index: nat): Result<Found, string>
    requires IsIdent(tokens, index)
  {
    var Ident(name, start, end) := tokens[index];
    if name == "crate" then
      if IsPathSeparator(tokens, index + 1) && !names.NamesMacro(tokens, index + 3)
      then Ok(Found([Edit(end, end, "::" + home)], []))
      else Ok(NOTHING)
    else if name in names.crates then
      if FollowsPathOrField(tokens, index) then Ok(NOTHING)
      else if IsPathSeparator(tokens, index + 1) && names.NamesMacro(tokens, index + 3)
      then Ok(Found([Edit(start, tokens[index + 3].start, "crate::")], []))
      else Ok(Found([Edit(start, start, "crate::")], []))
    else if name == "env" then
      match MacroLiteral(tokens, index)
      case Err(e) => Err(e)
      case Ok(None) => Ok(NOTHING)
      case Ok(Some((literal, stop))) =>
        if literal == "CARGO_MANIFEST_DIR" then Ok(Found([Edit(start, stop, ManifestDir(home))], []))
        else Ok(NOTHING)
    else if name == "include_str" || name == "include_bytes" then
      match MacroLiteral(tokens, index)
      case Err(e) => Err(e)
      case Ok(None) => Ok(NOTHING)
      case Ok(Some((literal, _))) => Ok(Found([], [literal]))
    else Ok(NOTHING)
  }

  /** What the token at `tokens[index]` calls for, with all that a group holds. */
  function AtToken(names: Names, home: string, tokens: seq<Token>, index: nat): Result<Found, string>
    requires index < |tokens|
    decreases tokens, 0, 0
  {
    match tokens[index]
    case Group(_, inner, _, _) => Span(names, home, inner, 0, |inner|)
    case Ident(_, _, _) => AtIdent(names, home, tokens, index)
    case _ => Ok(NOTHING)
  }

  /** What the tokens from `index` up to `stop` call for, in order. */
  function Span(names: Names, home: string, tokens: seq<Token>, index: nat, stop: nat): Result<Found, string>
    requires index <= stop <= |tokens|
    decreases tokens, 1, stop - index
  {
    if index == stop then Ok(NOTHING)
    else match AtToken(names, home, tokens, index)
      case Err(e) => Err(e)
      case Ok(here) =>
        match Span(names, home, tokens, index + 1, stop)
        case Err(e) => Err(e)
        case Ok(rest) => Ok(here.Then(rest))
  }

  function Visited(names: Names, home: string, tokens: seq<Token>): Result<Found, string> {
    Span(names, home, tokens, 0, |tokens|)
  }

  /** A longer span records what its two parts record. */
  lemma {:induction false} SpanSplits(names: Names, home: string, tokens: seq<Token>, index: nat, middle: nat, stop: nat)
    requires index <= middle <= stop <= |tokens|
    requires Span(names, home, tokens, index, stop).Ok?
    ensures Span(names, home, tokens, index, middle).Ok? && Span(names, home, tokens, middle, stop).Ok?
    ensures Span(names, home, tokens, index, stop).value
         == Span(names, home, tokens, index, middle).value.Then(Span(names, home, tokens, middle, stop).value)
    decreases middle - index
  {
    hide AtToken;
    if index < middle {
      SpanSplits(names, home, tokens, index + 1, middle, stop);
      var here := AtToken(names, home, tokens, index).value;
      var a, b := Span(names, home, tokens, index + 1, middle).value, Span(names, home, tokens, middle, stop).value;
      assert here.Then(a.Then(b)) == here.Then(a).Then(b);
    }
  }

  /** What the two lists hold once a visit has appended to them. */
  function Onto(found: Found, visit: Result<Found, string>): Result<Found, string> {
    match visit
    case Err(e) => Err(e)
    case Ok(more) => Ok(found.Then(more))
  }

  lemma OntoSpan(names: Names, home: string, tokens: seq<Token>, index: nat, found: Found)
    requires index < |tokens|
    ensures Onto(found, Span(names, home, tokens, index, |tokens|)) ==
      match Onto(found, AtToken(names, home, tokens, index))
      case Err(e) => Err(e)
      case Ok(next) => Onto(next, Span(names, home, tokens, index + 1, |tokens|))
  {
    var here, rest := AtToken(names, home, tokens, index), Span(names, home, tokens, index + 1, |tokens|);
    if here.Ok? && rest.Ok? {
      assert found.Then(here.value.Then(rest.value)) == found.Then(here.value).Then(rest.value);
    }
  }

  /** The recursive loop of the source, which appends to the two lists it is given. */
  method Visit(names: Names, home: string, tokens: seq<Token>, edits: seq<Edit>, includes: seq<string>)
    returns (r: Result<Found, string>)
    ensures r == Onto(Found(edits, includes), Visited(names, home, tokens))
    decreases tokens, 1
  {
    var found := Found(edits, includes);
    for index := 0 to |tokens|
      invariant Onto(found, Span(names, home, tokens, index, |tokens|))
             == Onto(Found(edits, includes), Visited(names, home, tokens))
    {
      OntoSpan(names, home, tokens, index, found);
      var here := VisitToken(names, home, tokens, index, found);
      if here.Err? {
        return here;
      }
      found := here.value;
    }
    assert found.Then(NOTHING) == found;
    r := Ok(found);
  }

  method VisitToken(names: Names, home: string, tokens: seq<Token>, index: nat, found: Found)
    returns (r: Result<Found, string>)
    requires index < |tokens|
    ensures r == Onto(found, AtToken(names, home, tokens, index))
    decreases tokens, 0
  {
    match tokens[index]
    case Group(_, inner, _, _) =>
      r := Visit(names, home, inner, found.edits, found.includes);
    case Ident(_, _, _) =>
      r := Onto(found, AtIdent(names, home, tokens, index));
    case _ =>
      assert found.Then(NOTHING) == found;
      r := Ok(found);
  }

  // ---------------------------------------------------------------------
  // The edits of a visit never overlap
  // ---------------------------------------------------------------------

  lemma SkipNothing(names: Names, home: string, tokens: seq<Token>, index: nat, stop: nat)
    requires index < stop <= |tokens| && AtToken(names, home, tokens, index) == Ok(NOTHING)
    ensures Span(names, home, tokens, index, stop) == Span(names, home, tokens, index + 1, stop)
  {
    var rest := Span(names, home, tokens, index + 1, stop);
    if rest.Ok? {
      assert NOTHING.Then(rest.value) == rest.value;
    }
  }

  /** An edit that runs past its identifier runs over tokens that record nothing. */
  lemma IdentReach(names: Names, home: string, tokens: seq<Token>, index: nat, stop: nat, low: nat, high: nat) returns (later: nat, next: nat)
    requires IsIdent(tokens, index) && Nested(tokens, index, low, high)
    requires index < stop <= |tokens| && Boundary(tokens, stop)
    requires AtIdent(names, home, tokens, index).Ok?
    ensures Ordered(AtIdent(names, home, tokens, index).value.edits, low, next)
    ensures index < later <= stop && Nested(tokens, later, next, high)
    ensures Span(names, home, tokens, index + 1, stop) == Span(names, home, tokens, later, stop)
  {
    var Ident(name, start, end) := tokens[index];
    later, next := index + 1, end;
    var here := AtIdent(names, home, tokens, index).value;
    assert Nested(tokens, index + 1, end, high);
    if here.edits != [] && name != "crate" && (name !in names.crates || here.edits[0].end != start) {
      later, next := index + 3, here.edits[0].end;
      assert tokens[index + 1].Punct? && index + 2 < |tokens|;
      assert Nested(tokens, index + 2, end, high);
      SkipNothing(names, home, tokens, index + 1, stop);
      if name in names.crates {
        assert tokens[index + 2].Punct? && IsIdent(tokens, index + 3);
        assert Nested(tokens, index + 3, end, high);
        assert Nested(tokens, index + 3, next, high);
      } else {
        assert Nested(tokens, index + 3, next, high);
        OneLiteralIsNothing(names, home, tokens, index + 2);
      }
      SkipNothing(names, home, tokens, index + 2, stop);
    }
  }

  lemma OneLiteralIsNothing(names: Names, home: string, tokens: seq<Token>, index: nat)
    requires index < |tokens| && HoldsOneLiteral(tokens[index])
    ensures AtToken(names, home, tokens, index) == Ok(NOTHING)
  {
    var inner := tokens[index].tokens;
    assert Span(names, home, inner, 1, 1) == Ok(NOTHING);
    SkipNothing(names, home, inner, 0, 1);
  }

  /** The edits of a span are in order, and stop where the next token starts. */
  lemma {:induction false} SpanIsOrdered(names: Names, home: string, tokens: seq<Token>, index: nat, stop: nat, low: nat, high: nat)
    requires index <= stop <= |tokens| && Boundary(tokens, stop)
    requires Nested(tokens, index, low, high)
    requires Span(names, home, tokens, index, stop).Ok?
    ensures Ordered(Span(names, home, tokens, index, stop).value.edits, low, Floor(tokens, stop, high))
    decreases tokens, stop - index
  {
    NestedFrom(tokens, index, stop, low, high);
    if index < stop {
      match tokens[index] {
        case Group(_, inner, start, end) =>
          SpanIsOrdered(names, home, inner, 0, |inner|, start, end);
          SpanIsOrdered(names, home, tokens, index + 1, stop, end, high);
          OrderedConcat(Span(names, home, inner, 0, |inner|).value.edits,
            Span(names, home, tokens, index + 1, stop).value.edits, low, end, Floor(tokens, stop, high));
        case Ident(_, _, _) =>
          var later, next := IdentReach(names, home, tokens, index, stop, low, high);
          SpanIsOrdered(names, home, tokens, later, stop, next, high);
          OrderedConcat(AtIdent(names, home, tokens, index).value.edits,
            Span(names, home, tokens, later, stop).value.edits, low, next, Floor(tokens, stop, high));
        case _ =>
          SkipNothing(names, home, tokens, index, stop);
          SpanIsOrdered(names, home, tokens, index + 1, stop, low, high);
      }
    }
  }

  /** The edits of a file are in order, so their sort changes nothing and none overlap. */
  lemma VisitedIsOrdered(names: Names, home: string, tokens: seq<Token>, size: nat)
    requires Nested(tokens, 0, 0, size) && Visited(names, home, tokens).Ok?
    ensures Ordered(Visited(names, home, tokens).value.edits, 0, size)
    ensures NonOverlapping(multiset(Visited(names, home, tokens).value.edits))
    ensures Sort(ByRange, Visited(names, home, tokens).value.edits) == Visited(names, home, tokens).value.edits
  {
    var edits := Visited(names, home, tokens).value.edits;
    SpanIsOrdered(names, home, tokens, 0, |tokens|, 0, size);
    OrderedDoNotOverlap(edits, 0, size);
    SortOfSorted(ByRange, edits);
  }

  /** The new text of a file, with the files that it includes. */
  datatype Rewritten = Rewritten(text: string, includes: seq<string>)

  datatype RewriteError = Unreadable(literal: string) | Overlap(at: nat)

  /** Rewrites a file of the crate `home`. The overlap check of the splice never fires. */
  method RewriteFile(names: Names, home: string, text: string, tokens: seq<Token>) returns (r: Result<Rewritten, RewriteError>)
    requires Nested(tokens, 0, 0, |text|)
    ensures r.Ok? <==> Visited(names, home, tokens).Ok?
    ensures r.Err? ==> r.error == Unreadable(Visited(names, home, tokens).error)
    ensures r.Ok? ==>
      var found := Visited(names, home, tokens).value;
      && Ordered(found.edits, 0, |text|)
      && r.value == Rewritten(Spliced(text, found.edits, 0, |text|), found.includes)
  {
    var visit := Visit(names, home, tokens, [], []);
    if visit.Err? {
      r := Err(Unreadable(visit.error));
      return;
    }
    assert NOTHING.Then(Visited(names, home, tokens).value) == Visited(names, home, tokens).value;
    VisitedIsOrdered(names, home, tokens, |text|);
    var applied := Apply(text, visit.value.edits);
    r := match applied
      case Ok(output) => Ok(Rewritten(output, visit.value.includes))
      case Err(at) => Err(Overlap(at));
  }
}
