/**
 What the rewrite makes of a path: where its image stands in the rewritten text,
 and how it is spelled there.
 */
module BundleMeaning {
  import opened Common
  import opened Tokens
  import opened Splice
  import opened Rewrite

  // ---------------------------------------------------------------------
  // Paths in a token tree
  // ---------------------------------------------------------------------

  /** A list of tokens in a tree: the top one, or the one inside a group. */
  datatype Place = Top | Inside(index: nat, rest: Place)

  ghost predicate IsPlace(tokens: seq<Token>, place: Place) {
    match place
    case Top => true
    case Inside(index, rest) => index < |tokens| && tokens[index].Group? && IsPlace(tokens[index].tokens, rest)
  }

  ghost function ListAt(tokens: seq<Token>, place: Place): seq<Token>
    requires IsPlace(tokens, place)
  {
    match place
    case Top => tokens
    case Inside(index, rest) => ListAt(tokens[index].tokens, rest)
  }

  /** Whether an identifier and `count` segments after it start at `tokens[head]`. */
  ghost predicate IsPath(tokens: seq<Token>, head: nat, count: nat)
    decreases count
  {
    && IsIdent(tokens, head)
    && (count > 0 ==>
      IsPathSeparator(tokens, head + 1) && IsIdent(tokens, head + 3) && IsPath(tokens, head + 3, count - 1))
  }

  ghost function Last(head: nat, count: nat): nat { head + 3 * count }

  ghost function Segments(tokens: seq<Token>, head: nat, count: nat): seq<string>
    requires IsPath(tokens, head, count)
    decreases count
  {
    if count == 0 then [] else [tokens[head + 3].name] + Segments(tokens, head + 3, count - 1)
  }

  lemma {:induction false} LastIsIdent(tokens: seq<Token>, head: nat, count: nat)
    requires IsPath(tokens, head, count)
    ensures IsIdent(tokens, Last(head, count))
    decreases count
  {
    if count > 0 {
      LastIsIdent(tokens, head + 3, count - 1);
    }
  }

  /** Whether `::` follows the path, as before a brace or a generic argument. */
  ghost predicate Continues(tokens: seq<Token>, head: nat, count: nat) {
    IsPathSeparator(tokens, Last(head, count) + 1)
  }

  /** Whether `tokens[index]` calls `env!("CARGO_MANIFEST_DIR")`. */
  ghost predicate IsManifestDirCall(tokens: seq<Token>, index: nat) {
    && IsIdent(tokens, index) && tokens[index].name == "env"
    && MacroLiteral(tokens, index).Ok? && MacroLiteral(tokens, index).value.Some?
    && MacroLiteral(tokens, index).value.value.0 == "CARGO_MANIFEST_DIR"
  }

  /**
   The names of a path that stand next to each other, from a head that no `::`
   or `.` precedes, with every segment there is and none of them the keyword
   `crate`. A path is one such run, unless braces follow it: each entry of the
   braces starts another.
   */
  ghost predicate IsRun(tokens: seq<Token>, head: nat, count: nat) {
    && IsPath(tokens, head, count)
    && !(Continues(tokens, head, count) && IsIdent(tokens, Last(head, count) + 3))
    && "crate" !in Segments(tokens, head, count)
    && !IsManifestDirCall(tokens, Last(head, count))
    && (tokens[head].name == "crate" || !FollowsPathOrField(tokens, head))
  }

  ghost function NamesAt(tokens: seq<Token>, head: nat, count: nat): (run: seq<string>)
    requires IsPath(tokens, head, count)
    ensures run != []
  {
    [tokens[head].name] + Segments(tokens, head, count)
  }

  /** Whether one segment follows the head and ends the path, with the name of an exported macro. */
  ghost predicate EndsAtMacro(names: Names, segments: seq<string>, continues: bool) {
    |segments| == 1 && !continues && segments[0] in names.exported
  }

  // ---------------------------------------------------------------------
  // The edits of a path
  // ---------------------------------------------------------------------

  lemma {:induction false} SegmentsRecordNoEdit(names: Names, home: string, tokens: seq<Token>, head: nat, count: nat)
    requires IsPath(tokens, head, count) && "crate" !in Segments(tokens, head, count)
    requires !IsManifestDirCall(tokens, Last(head, count))
    requires IsIdent(tokens, Last(head, count)) && Span(names, home, tokens, head + 1, Last(head, count) + 1).Ok?
    ensures Span(names, home, tokens, head + 1, Last(head, count) + 1).value.edits == []
    decreases count
  {
    if count > 0 {
      var stop := Last(head, count) + 1;
      SkipNothing(names, home, tokens, head + 1, stop);
      SkipNothing(names, home, tokens, head + 2, stop);
      assert FollowsPathOrField(tokens, head + 3);
      assert AtToken(names, home, tokens, head + 3).value.edits == [];
      SegmentsRecordNoEdit(names, home, tokens, head + 3, count - 1);
    }
  }

  /** The byte positions of a path do not go back, and stay below `high`. */
  ghost predicate IsForward(tokens: seq<Token>, head: nat, count: nat, high: nat)
    requires IsPath(tokens, head, count)
  {
    var last := Last(head, count);
    && IsIdent(tokens, last)
    && tokens[head].start <= tokens[head].end <= tokens[last].end <= high
    && (count > 0 ==> tokens[head].end <= tokens[head + 3].start <= tokens[last].end)
  }

  lemma {:induction false} PathIsForward(tokens: seq<Token>, head: nat, count: nat, low: nat, high: nat)
    requires IsPath(tokens, head, count) && Nested(tokens, head, low, high)
    ensures IsForward(tokens, head, count, high)
    decreases count
  {
    NestedBounds(tokens, head + 1, tokens[head].end, high);
    if count > 0 {
      var end := tokens[head].end;
      assert Nested(tokens, head + 1, end, high) && Nested(tokens, head + 2, end, high) && Nested(tokens, head + 3, end, high);
      PathIsForward(tokens, head + 3, count - 1, end, high);
    }
  }

  /** A span of a list: from an identifier up to past a token with a span. */
  ghost predicate IsSpan(tokens: seq<Token>, from: nat, until: nat) {
    IsIdent(tokens, from) && from < until <= |tokens| && HasSpan(tokens, until - 1)
  }

  /** The edits of a file are those before a span of one of its lists, those of the span, and those after it. */
  lemma {:induction false} Locate(names: Names, home: string, tokens: seq<Token>, place: Place, from: nat, until: nat, low: nat, high: nat)
    returns (before: seq<Edit>, after: seq<Edit>, upper: nat)
    requires Nested(tokens, 0, low, high) && Visited(names, home, tokens).Ok?
    requires IsPlace(tokens, place) && IsSpan(ListAt(tokens, place), from, until)
    ensures var list := ListAt(tokens, place);
      && Nested(list, from, list[from].start, upper) && list[until - 1].end <= upper <= high
      && Span(names, home, list, from, until).Ok?
      && Ordered(before, low, list[from].start)
      && Ordered(after, list[until - 1].end, high)
      && Visited(names, home, tokens).value.edits == before + Span(names, home, list, from, until).value.edits + after
    decreases place
  {
    match place
    case Top =>
      before, after := LocateAtTop(names, home, tokens, from, until, low, high);
      upper := high;
    case Inside(index, rest) =>
      var inner := tokens[index].tokens;
      assert ListAt(inner, rest) == ListAt(tokens, place);
      assert rest.Top? ==> IsIdent(inner, from);
      var left, right := AroundGroup(names, home, tokens, index, low, high);
      hide Visited, Nested, Ordered, Span;
      before, after, upper := Locate(names, home, inner, rest, from, until, tokens[index].start, tokens[index].end);
      OrderedConcat(left, before, low, tokens[index].start, ListAt(inner, rest)[from].start);
      OrderedConcat(after, right, ListAt(inner, rest)[until - 1].end, tokens[index].end, high);
      Regroup(left, before, Span(names, home, ListAt(inner, rest), from, until).value.edits, after, right);
      before, after := left + before, after + right;
  }

  lemma Regroup(left: seq<Edit>, before: seq<Edit>, edits: seq<Edit>, after: seq<Edit>, right: seq<Edit>)
    ensures left + (before + edits + after) + right == (left + before) + edits + (after + right)
  {
  }

  /** The edits of a list are those before a group, those inside it, and those after it. */
  lemma AroundGroup(names: Names, home: string, tokens: seq<Token>, index: nat, low: nat, high: nat)
    returns (left: seq<Edit>, right: seq<Edit>)
    requires Nested(tokens, 0, low, high) && Visited(names, home, tokens).Ok?
    requires index < |tokens| && tokens[index].Group? && !HoldsOneLiteral(tokens[index])
    ensures Nested(tokens[index].tokens, 0, tokens[index].start, tokens[index].end) && tokens[index].end <= high
    ensures Visited(names, home, tokens[index].tokens).Ok?
    ensures Ordered(left, low, tokens[index].start) && Ordered(right, tokens[index].end, high)
    ensures Visited(names, home, tokens).value.edits == left + Visited(names, home, tokens[index].tokens).value.edits + right
  {
    NestedFrom(tokens, 0, index, low, high);
    SpanSplits(names, home, tokens, 0, index, |tokens|);
    SpanIsOrdered(names, home, tokens, 0, index, low, high);
    SpanIsOrdered(names, home, tokens, index + 1, |tokens|, tokens[index].end, high);
    left := Span(names, home, tokens, 0, index).value.edits;
    right := Span(names, home, tokens, index + 1, |tokens|).value.edits;
  }

  lemma LocateAtTop(names: Names, home: string, tokens: seq<Token>, from: nat, until: nat, low: nat, high: nat)
    returns (before: seq<Edit>, after: seq<Edit>)
    requires Nested(tokens, 0, low, high) && Visited(names, home, tokens).Ok? && IsSpan(tokens, from, until)
    ensures Nested(tokens, from, tokens[from].start, high) && tokens[until - 1].end <= high
    ensures Span(names, home, tokens, from, until).Ok?
    ensures Ordered(before, low, tokens[from].start) && Ordered(after, tokens[until - 1].end, high)
    ensures Visited(names, home, tokens).value.edits == before + Span(names, home, tokens, from, until).value.edits + after
  {
    NestedFrom(tokens, 0, from, low, high);
    NestedFrom(tokens, 0, until - 1, low, high);
    SpanSplits(names, home, tokens, 0, from, |tokens|);
    SpanSplits(names, home, tokens, from, until, |tokens|);
    SpanIsOrdered(names, home, tokens, 0, from, low, high);
    SpanIsOrdered(names, home, tokens, until, |tokens|, tokens[until - 1].end, high);
    hide Span, Nested;
    before := Span(names, home, tokens, 0, from).value.edits;
    after := Span(names, home, tokens, until, |tokens|).value.edits;
  }

  /** A run records the edit of its head and no other. */
  lemma PathRecordsHead(names: Names, home: string, tokens: seq<Token>, head: nat, count: nat)
    requires IsRun(tokens, head, count) && IsIdent(tokens, Last(head, count))
    requires Span(names, home, tokens, head, Last(head, count) + 1).Ok?
    ensures AtIdent(names, home, tokens, head).Ok?
    ensures Span(names, home, tokens, head, Last(head, count) + 1).value.edits == AtIdent(names, home, tokens, head).value.edits
  {
    SegmentsRecordNoEdit(names, home, tokens, head, count);
  }

  // ---------------------------------------------------------------------
  // The text of a path
  // ---------------------------------------------------------------------

  /** What stands in the rewritten file in place of the run at `tokens[head]`. */
  ghost function Image(names: Names, home: string, text: string, tokens: seq<Token>, head: nat, count: nat): string
    requires IsPath(tokens, head, count) && IsForward(tokens, head, count, |text|)
  {
    var Ident(name, start, end), stop := tokens[head], tokens[Last(head, count)].end;
    var continues := Continues(tokens, head, count);
    var toMacro := EndsAtMacro(names, Segments(tokens, head, count), continues);
    if name == "crate" then
      if toMacro || (count == 0 && !continues) then text[start..stop]
      else text[start..end] + ("::" + home) + text[end..stop]
    else if name in names.crates then
      if toMacro then "crate::" + text[tokens[head + 3].start..stop] else "crate::" + text[start..stop]
    else text[start..stop]
  }

  /** The look-ahead of the rewriter tells a path to a macro from every other one. */
  lemma LookAheadIsRight(names: Names, tokens: seq<Token>, head: nat, count: nat)
    requires IsRun(tokens, head, count)
    ensures IsPathSeparator(tokens, head + 1) <==> count > 0 || Continues(tokens, head, count)
    ensures IsPathSeparator(tokens, head + 1) && names.NamesMacro(tokens, head + 3)
      <==> EndsAtMacro(names, Segments(tokens, head, count), Continues(tokens, head, count))
  {
    if count > 0 {
      assert IsPath(tokens, head + 3, count - 1);
    }
  }

  /** The edit of a run, told by what the run is. */
  ghost function HeadEdits(names: Names, home: string, tokens: seq<Token>, head: nat, count: nat): seq<Edit>
    requires IsPath(tokens, head, count)
  {
    var continues := Continues(tokens, head, count);
    var toMacro := EndsAtMacro(names, Segments(tokens, head, count), continues);
    if tokens[head].name == "crate" then
      if toMacro || (count == 0 && !continues) then [] else [Edit(tokens[head].end, tokens[head].end, "::" + home)]
    else if tokens[head].name in names.crates then
      if toMacro then [Edit(tokens[head].start, tokens[head + 3].start, "crate::")]
      else [Edit(tokens[head].start, tokens[head].start, "crate::")]
    else []
  }

  lemma HeadEditsAre(names: Names, home: string, tokens: seq<Token>, head: nat, count: nat)
    requires IsRun(tokens, head, count) && AtIdent(names, home, tokens, head).Ok?
    ensures AtIdent(names, home, tokens, head).value.edits == HeadEdits(names, home, tokens, head, count)
  {
    LookAheadIsRight(names, tokens, head, count);
  }

  lemma HeadEditMakesImage(names: Names, home: string, text: string, tokens: seq<Token>, head: nat, count: nat)
    requires IsPath(tokens, head, count) && IsForward(tokens, head, count, |text|)
    ensures Ordered(HeadEdits(names, home, tokens, head, count), tokens[head].start, tokens[Last(head, count)].end)
    ensures Spliced(text, HeadEdits(names, home, tokens, head, count), tokens[head].start, tokens[Last(head, count)].end)
         == Image(names, home, text, tokens, head, count)
  {
    assert IsIdent(tokens, head);
    var start, stop := tokens[head].start, tokens[Last(head, count)].end;
    var edits := HeadEdits(names, home, tokens, head, count);
    hide IsPath, Segments, EndsAtMacro;
    if edits == [] {
      assert Spliced(text, [], start, stop) == text[start..stop];
    } else {
      hide Spliced;
      var Edit(from, until, added) := edits[0];
      SplicedOne(text, edits[0], start, stop);
      if tokens[head].name != "crate" {
        assert text[start..from] + added == added;
      }
    }
  }

  /**
   `edits` turn `text[start..stop]` into `image`: they are those before the range,
   those inside it, which make the image, and those after it.
   */
  ghost predicate Stands(text: string, edits: seq<Edit>, start: nat, stop: nat, image: string) {
    && start <= stop <= |text|
    && exists before, inside, after ::
        && edits == before + inside + after
        && Ordered(before, 0, start) && Ordered(inside, start, stop) && Ordered(after, stop, |text|)
        && Spliced(text, inside, start, stop) == image
  }

  /** What stands in place of a range does so in the output: the rewrite is cut around it. */
  lemma StandsInOutput(text: string, edits: seq<Edit>, start: nat, stop: nat, image: string)
    returns (before: seq<Edit>, inside: seq<Edit>, after: seq<Edit>)
    requires Stands(text, edits, start, stop, image)
    ensures edits == before + inside + after && Ordered(edits, 0, |text|)
    ensures Ordered(before, 0, start) && Ordered(inside, start, stop) && Ordered(after, stop, |text|)
    ensures Spliced(text, edits, 0, |text|)
         == Spliced(text, before, 0, start) + image + Spliced(text, after, stop, |text|)
  {
    before, inside, after :|
      && edits == before + inside + after
      && Ordered(before, 0, start) && Ordered(inside, start, stop) && Ordered(after, stop, |text|)
      && Spliced(text, inside, start, stop) == image;
    SplicedAround(text, before, inside, after, start, stop);
  }

  /** In the rewritten file, the image of each run stands where the run stood. */
  lemma ImageStands(names: Names, home: string, text: string, tokens: seq<Token>, place: Place, head: nat, count: nat)
    requires Nested(tokens, 0, 0, |text|) && Visited(names, home, tokens).Ok?
    requires IsPlace(tokens, place) && IsRun(ListAt(tokens, place), head, count)
    ensures var list := ListAt(tokens, place);
      && IsForward(list, head, count, |text|)
      && Stands(text, Visited(names, home, tokens).value.edits, list[head].start, list[Last(head, count)].end,
           Image(names, home, text, list, head, count))
  {
    var list := ListAt(tokens, place);
    LastIsIdent(list, head, count);
    hide Spliced, Visited, ListAt, Ordered, HeadEdits, Image, Span, AtIdent;
    var before, after, upper := Locate(names, home, tokens, place, head, Last(head, count) + 1, 0, |text|);
    PathIsForward(list, head, count, list[head].start, upper);
    hide Nested;
    PathRecordsHead(names, home, list, head, count);
    HeadEditsAre(names, home, list, head, count);
    HeadEditMakesImage(names, home, text, list, head, count);
  }

  /** The call `env!("CARGO_MANIFEST_DIR")` turns into one that adds the directory of its crate. */
  lemma ManifestDirStands(names: Names, home: string, text: string, tokens: seq<Token>, place: Place, index: nat)
    requires Nested(tokens, 0, 0, |text|) && Visited(names, home, tokens).Ok? && "env" !in names.crates
    requires IsPlace(tokens, place) && IsManifestDirCall(ListAt(tokens, place), index)
    ensures var list := ListAt(tokens, place);
      Stands(text, Visited(names, home, tokens).value.edits, list[index].start, list[index + 2].end, ManifestDir(home))
  {
    var before, edit, after := LocateManifestDir(names, home, tokens, place, index, |text|);
    hide Visited, ListAt, Ordered, ManifestDir, Nested, Stands;
    EditStands(text, before, edit, after);
  }

  /** The value of a `concat!` of the directory of the bundle and one plain string. */
  ghost predicate Evaluates(call: string, directory: string, value: string) {
    exists tail :: call == "concat!(env!(\"CARGO_MANIFEST_DIR\"), " + Quoted(tail) + ")" && value == directory + tail
  }

  /** The new call names the directory of the crate inside that of the bundle. */
  lemma ManifestDirMeans(home: string, directory: string, value: string)
    ensures Evaluates(ManifestDir(home), directory, value) <==> value == directory + "/" + home
  {
    var front, tail := "concat!(env!(\"CARGO_MANIFEST_DIR\"), ", "/" + home;
    assert ManifestDir(home) == front + Quoted(tail) + ")";
    assert directory + "/" + home == directory + tail;
    forall other | front + Quoted(tail) + ")" == front + Quoted(other) + ")" ensures other == tail {
      SameMiddle(front, other, tail);
    }
  }

  lemma SameMiddle(front: string, a: string, b: string)
    requires front + Quoted(a) + ")" == front + Quoted(b) + ")"
    ensures a == b
  {
    var text := front + Quoted(a) + ")";
    assert a == text[|front| + 1..|text| - 2];
    assert b == text[|front| + 1..|text| - 2];
  }

  lemma EditStands(text: string, before: seq<Edit>, edit: Edit, after: seq<Edit>)
    requires Ordered(before, 0, edit.start) && Ordered([edit], edit.start, edit.end) && Ordered(after, edit.end, |text|)
    ensures Stands(text, before + [edit] + after, edit.start, edit.end, edit.replacement)
  {
    SplicedWhole(text, edit);
  }

  lemma LocateManifestDir(names: Names, home: string, tokens: seq<Token>, place: Place, index: nat, high: nat)
    returns (before: seq<Edit>, edit: Edit, after: seq<Edit>)
    requires Nested(tokens, 0, 0, high) && Visited(names, home, tokens).Ok? && "env" !in names.crates
    requires IsPlace(tokens, place) && IsManifestDirCall(ListAt(tokens, place), index)
    ensures edit == Edit(ListAt(tokens, place)[index].start, ListAt(tokens, place)[index + 2].end, ManifestDir(home))
    ensures edit.start <= edit.end <= high
    ensures Ordered(before, 0, edit.start) && Ordered([edit], edit.start, edit.end) && Ordered(after, edit.end, high)
    ensures Visited(names, home, tokens).value.edits == before + [edit] + after
  {
    var list := ListAt(tokens, place);
    assert IsSpan(list, index, index + 3);
    hide Visited, ListAt, Ordered, Span, ManifestDir, Nested, IsManifestDirCall;
    var upper: nat;
    before, after, upper := Locate(names, home, tokens, place, index, index + 3, 0, high);
    ManifestDirRecords(names, home, list, index, upper);
    edit := Edit(list[index].start, list[index + 2].end, ManifestDir(home));
  }

  lemma ManifestDirRecords(names: Names, home: string, tokens: seq<Token>, index: nat, high: nat)
    requires IsManifestDirCall(tokens, index) && "env" !in names.crates && Span(names, home, tokens, index, index + 3).Ok?
    requires Nested(tokens, index, tokens[index].start, high)
    ensures tokens[index].start <= tokens[index + 2].end
    ensures Span(names, home, tokens, index, index + 3).value.edits == [Edit(tokens[index].start, tokens[index + 2].end, ManifestDir(home))]
    ensures Ordered([Edit(tokens[index].start, tokens[index + 2].end, ManifestDir(home))], tokens[index].start, tokens[index + 2].end)
  {
    assert Nested(tokens, index + 1, tokens[index].end, high) && Nested(tokens, index + 2, tokens[index].end, high);
    SkipNothing(names, home, tokens, index + 1, index + 3);
    OneLiteralIsNothing(names, home, tokens, index + 2);
    SkipNothing(names, home, tokens, index + 2, index + 3);
  }

  /** Every edit comes from one identifier of the file: nothing else is touched. */
  lemma {:induction false} EditHasOrigin(names: Names, home: string, tokens: seq<Token>, index: nat, edit: Edit)
    returns (place: Place, at: nat)
    requires index <= |tokens| && Span(names, home, tokens, index, |tokens|).Ok?
    requires edit in Span(names, home, tokens, index, |tokens|).value.edits
    ensures IsPlace(tokens, place) && IsIdent(ListAt(tokens, place), at)
    ensures AtIdent(names, home, ListAt(tokens, place), at).Ok? && edit in AtIdent(names, home, ListAt(tokens, place), at).value.edits
    ensures var name := ListAt(tokens, place)[at].name; name == "crate" || name == "env" || name in names.crates
    decreases tokens, |tokens| - index
  {
    var here := AtToken(names, home, tokens, index).value;
    if edit !in here.edits {
      place, at := EditHasOrigin(names, home, tokens, index + 1, edit);
    } else if tokens[index].Group? {
      place, at := EditHasOrigin(names, home, tokens[index].tokens, 0, edit);
      place := Inside(index, place);
    } else {
      place, at := Top, index;
    }
  }

  /** Whether `tokens[index]` includes the file that `literal` names. */
  ghost predicate Includes(tokens: seq<Token>, index: nat, literal: string) {
    && IsIdent(tokens, index) && tokens[index].name in {"include_str", "include_bytes"}
    && MacroLiteral(tokens, index).Ok? && MacroLiteral(tokens, index).value.Some?
    && MacroLiteral(tokens, index).value.value.0 == literal
  }

  /** Every file that the visit lists is included somewhere in the file. */
  lemma {:induction false} IncludeHasOrigin(names: Names, home: string, tokens: seq<Token>, index: nat, literal: string)
    returns (place: Place, at: nat)
    requires index <= |tokens| && Span(names, home, tokens, index, |tokens|).Ok?
    requires literal in Span(names, home, tokens, index, |tokens|).value.includes
    ensures IsPlace(tokens, place) && Includes(ListAt(tokens, place), at, literal)
    decreases tokens, |tokens| - index
  {
    var here := AtToken(names, home, tokens, index).value;
    if literal !in here.includes {
      place, at := IncludeHasOrigin(names, home, tokens, index + 1, literal);
    } else if tokens[index].Group? {
      place, at := IncludeHasOrigin(names, home, tokens[index].tokens, 0, literal);
      place := Inside(index, place);
    } else {
      place, at := Top, index;
    }
  }

  /** Every include of the file is listed, unless a crate has the name of the macro. */
  lemma {:induction false} IncludeIsListed(names: Names, home: string, tokens: seq<Token>, place: Place, at: nat, literal: string)
    requires Visited(names, home, tokens).Ok? && names.crates !! {"include_str", "include_bytes"}
    requires IsPlace(tokens, place) && Includes(ListAt(tokens, place), at, literal)
    ensures literal in Visited(names, home, tokens).value.includes
    decreases place
  {
    var index := if place.Top? then at else place.index;
    SpanSplits(names, home, tokens, 0, index, |tokens|);
    if place.Inside? {
      IncludeIsListed(names, home, tokens[index].tokens, place.rest, at, literal);
    }
    assert literal in AtToken(names, home, tokens, index).value.includes;
  }

  // ---------------------------------------------------------------------
  // The spelling of a path
  // ---------------------------------------------------------------------

  /**
   What the rewriter makes of the names of a run: a `crate` with no `::` after it
   stays, and so does every head that is neither `crate` nor the name of a crate.
   */
  ghost function Moved(names: Names, home: string, run: seq<string>, continues: bool): (moved: seq<string>)
    requires run != []
    ensures moved != []
  {
    var segments := run[1..];
    if run[0] == "crate" then
      if EndsAtMacro(names, segments, continues) || (segments == [] && !continues) then run
      else ["crate", home] + segments
    else if run[0] in names.crates then
      if EndsAtMacro(names, segments, continues) then ["crate"] + segments else ["crate"] + run
    else run
  }

  /** A path as a programmer writes it, with nothing around its separators. */
  ghost function Spelled(head: string, segments: seq<string>): string
    decreases |segments|
  {
    if segments == [] then head else head + "::" + Spelled(segments[0], segments[1..])
  }

  /** The text of each identifier is its name, and nothing but `::` comes between them. */
  ghost predicate IsSpelledAt(text: string, tokens: seq<Token>, head: nat, count: nat)
    requires IsPath(tokens, head, count) && IsForward(tokens, head, count, |text|)
  {
    var stop := tokens[Last(head, count)].end;
    && text[tokens[head].start..tokens[head].end] == tokens[head].name
    && text[tokens[head].start..stop] == Spelled(tokens[head].name, Segments(tokens, head, count))
    && (count > 0 ==>
        text[tokens[head + 3].start..stop] == Spelled(tokens[head + 3].name, Segments(tokens, head, count)[1..]))
  }

  /** The image of a run that is spelled plainly is the moved run, spelled plainly. */
  lemma ImageIsSpelled(names: Names, home: string, text: string, tokens: seq<Token>, head: nat, count: nat)
    requires IsRun(tokens, head, count) && IsForward(tokens, head, count, |text|)
    requires IsSpelledAt(text, tokens, head, count)
    ensures var moved := Moved(names, home, NamesAt(tokens, head, count), Continues(tokens, head, count));
      Image(names, home, text, tokens, head, count) == Spelled(moved[0], moved[1..])
  {
    assert IsPath(tokens, head, count);
    hide IsRun, Spelled, Moved, Continues;
    var name, segments := tokens[head].name, Segments(tokens, head, count);
    var start, end, stop := tokens[head].start, tokens[head].end, tokens[Last(head, count)].end;
    var rest := text[end..stop];
    assert NamesAt(tokens, head, count) == [name] + segments && (segments == [] <==> count == 0);
    assert count > 0 ==> segments[0] == tokens[head + 3].name;
    MovedIsSpelled(names, home, name, segments, Continues(tokens, head, count));
    assert text[start..stop] == name + rest;
    SpelledHead(name, segments);
    hide IsPath, Segments;
    assert rest == Spelled("", segments) by {
      assert (name + rest)[|name|..] == rest && (name + Spelled("", segments))[|name|..] == Spelled("", segments);
    }
  }

  /** How a moved run is spelled, case by case. */
  lemma MovedIsSpelled(names: Names, home: string, name: string, segments: seq<string>, continues: bool)
    ensures var moved, toMacro := Moved(names, home, [name] + segments, continues), EndsAtMacro(names, segments, continues);
      Spelled(moved[0], moved[1..]) ==
        if name == "crate" then
          if toMacro || (segments == [] && !continues) then Spelled(name, segments)
          else "crate" + ("::" + home) + Spelled("", segments)
        else if name in names.crates then
          if toMacro then "crate::" + Spelled(segments[0], segments[1..]) else "crate::" + Spelled(name, segments)
        else Spelled(name, segments)
  {
    assert ([name] + segments)[1..] == segments && (["crate"] + segments)[1..] == segments;
    assert (["crate", home] + segments)[1..] == [home] + segments;
    assert (["crate"] + ([name] + segments))[1..] == [name] + segments;
    SpelledMoved(home, segments);
    SpelledMoved(name, segments);
  }

  lemma SpelledHead(head: string, segments: seq<string>)
    ensures Spelled(head, segments) == head + Spelled("", segments)
  {
    if segments != [] {
      assert head + "::" + Spelled(segments[0], segments[1..]) == head + ("" + "::" + Spelled(segments[0], segments[1..]));
    }
  }

  /** A path under `crate`, in the two ways that an edit writes it. */
  lemma SpelledMoved(krate: string, segments: seq<string>)
    ensures Spelled("crate", [krate] + segments) == "crate::" + Spelled(krate, segments)
    ensures Spelled("crate", [krate] + segments) == "crate" + ("::" + krate) + Spelled("", segments)
  {
    SpelledHead(krate, segments);
    assert ([krate] + segments)[1..] == segments;
    hide Spelled;
    var rest := Spelled("", segments);
    assert "crate" + "::" + (krate + rest) == "crate" + ("::" + krate) + rest;
  }
}
