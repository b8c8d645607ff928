/**
 The splice that applies edits to a text, where a text is the sequence of its
 bytes: when it succeeds, what it keeps, and how long the result is.
 */
module Splice {
  import opened Common
  import opened Ordering

  /** An edit: the bytes from `start` up to `end` give way to `replacement`. */
  datatype Edit = Edit(start: nat, end: nat, replacement: string)

  /** Edits in order between `low` and `high`, each after the end of the one before. */
  ghost predicate Ordered(edits: seq<Edit>, low: nat, high: nat) {
    && low <= high
    && (forall i :: 0 <= i < |edits| ==> low <= edits[i].start <= edits[i].end <= high)
    && (forall i, j :: 0 <= i < j < |edits| ==> edits[i].end <= edits[j].start)
  }

  lemma OrderedConcat(a: seq<Edit>, b: seq<Edit>, low: nat, middle: nat, high: nat)
    requires Ordered(a, low, middle) && Ordered(b, middle, high)
    ensures Ordered(a + b, low, high)
  {
    forall i, j | 0 <= i < j < |a + b| ensures (a + b)[i].end <= (a + b)[j].start {
      if i < |a| <= j {
        assert a[i].end <= middle <= b[j - |a|].start;
      }
    }
  }

  /** `text[from..to]` with `edits` applied to it. */
  function Spliced(text: string, edits: seq<Edit>, from: nat, until: nat): string
    requires Ordered(edits, from, until) && until <= |text|
  {
    if edits == [] then text[from..until]
    else text[from..edits[0].start] + edits[0].replacement + Spliced(text, edits[1..], edits[0].end, until)
  }

  predicate ByRange(a: Edit, b: Edit) {
    a.start < b.start || (a.start == b.start && a.end <= b.end)
  }

  ghost predicate Apart(a: Edit, b: Edit) {
    a.end <= b.start || b.end <= a.start
  }

  /** Any two edits of the batch are apart, and a repeated one is an insertion. */
  ghost predicate NonOverlapping(edits: multiset<Edit>) {
    && (forall a, b :: a in edits && b in edits && a != b ==> Apart(a, b))
    && (forall a :: a in edits && edits[a] > 1 ==> a.start == a.end)
  }

  lemma TwiceInSequence(s: seq<Edit>, i: nat, j: nat)
    requires i < j < |s| && s[i] == s[j]
    ensures multiset(s)[s[i]] > 1
  {
    assert s == s[..j] + s[j..];
    assert s[i] in s[..j] by { assert s[..j][i] == s[i]; }
    assert s[j] in s[j..] by { assert s[j..][0] == s[j]; }
    assert multiset(s) == multiset(s[..j]) + multiset(s[j..]);
  }

  lemma TwiceInMultiset(s: seq<Edit>, a: Edit) returns (i: nat, j: nat)
    requires multiset(s)[a] > 1
    ensures i < j < |s| && s[i] == s[j] == a
  {
    assert a in s;
    i :| 0 <= i < |s| && s[i] == a;
    assert s == s[..i] + [a] + s[i + 1..];
    assert multiset(s) == multiset(s[..i]) + multiset{a} + multiset(s[i + 1..]);
    if a in s[i + 1..] {
      var k :| 0 <= k < |s[i + 1..]| && s[i + 1..][k] == a;
      j := i + 1 + k;
    } else {
      assert a in s[..i];
      var k :| 0 <= k < |s[..i]| && s[..i][k] == a;
      i, j := k, i;
    }
  }

  lemma OrderedDoNotOverlap(edits: seq<Edit>, low: nat, high: nat)
    requires Ordered(edits, low, high)
    ensures NonOverlapping(multiset(edits))
  {
    forall a, b | a in multiset(edits) && b in multiset(edits) && a != b ensures Apart(a, b) {
      assert a in edits && b in edits;
      var i :| 0 <= i < |edits| && edits[i] == a;
      var j :| 0 <= j < |edits| && edits[j] == b;
    }
    forall a | a in multiset(edits) && multiset(edits)[a] > 1 ensures a.start == a.end {
      var i, j := TwiceInMultiset(edits, a);
    }
  }

  /** Once sorted, edits are in order exactly when no two of them overlap. */
  lemma SortedIsOrdered(sorted: seq<Edit>, high: nat)
    requires SortedBy(ByRange, sorted)
    requires forall i :: 0 <= i < |sorted| ==> sorted[i].start <= sorted[i].end <= high
    ensures Ordered(sorted, 0, high) <==> NonOverlapping(multiset(sorted))
  {
    if NonOverlapping(multiset(sorted)) {
      forall i, j | 0 <= i < j < |sorted| ensures sorted[i].end <= sorted[j].start {
        assert ByRange(sorted[i], sorted[j]);
        if sorted[i] == sorted[j] {
          TwiceInSequence(sorted, i, j);
        } else {
          assert Apart(sorted[i], sorted[j]);
        }
      }
    }
    if Ordered(sorted, 0, high) {
      OrderedDoNotOverlap(sorted, 0, high);
    }
  }

  ghost predicate InBounds(edits: seq<Edit>, high: nat) {
    forall i :: 0 <= i < |edits| ==> edits[i].start <= edits[i].end <= high
  }

  /** The splice of the source, which stops at an edit that starts too early. */
  function TrySplice(text: string, edits: seq<Edit>, position: nat): Option<string>
    requires InBounds(edits, |text|) && position <= |text|
  {
    if edits == [] then Some(text[position..])
    else if edits[0].start < position then None
    else match TrySplice(text, edits[1..], edits[0].end)
      case None => None
      case Some(rest) => Some(text[position..edits[0].start] + edits[0].replacement + rest)
  }

  lemma {:induction false} TrySpliceIsExact(text: string, edits: seq<Edit>, position: nat)
    requires InBounds(edits, |text|) && position <= |text|
    ensures TrySplice(text, edits, position).Some? <==> Ordered(edits, position, |text|)
    ensures TrySplice(text, edits, position).Some? ==>
      TrySplice(text, edits, position).value == Spliced(text, edits, position, |text|)
  {
    if edits != [] {
      TrySpliceIsExact(text, edits[1..], edits[0].end);
      var first, rest := edits[0], edits[1..];
      assert edits == [first] + rest;
      if position <= first.start && Ordered(rest, first.end, |text|) {
        OrderedConcat([first], rest, position, first.end, |text|);
      }
      if Ordered(edits, position, |text|) {
        assert forall i :: 0 <= i < |rest| ==> rest[i] == edits[i + 1];
        assert Ordered(rest, first.end, |text|);
      }
    }
  }

  /** Applies `edits` to `text`; an overlap is the only way to fail. */
  method Apply(text: string, edits: seq<Edit>) returns (r: Result<string, nat>)
    requires InBounds(edits, |text|)
    ensures r.Ok? <==> NonOverlapping(multiset(edits))
    ensures r.Err? ==> exists i: nat :: OverlapsFirst(Sort(ByRange, edits), i) && r.error == Sort(ByRange, edits)[i].start
    ensures r.Ok? ==>
      Ordered(Sort(ByRange, edits), 0, |text|) && r.value == Spliced(text, Sort(ByRange, edits), 0, |text|)
  {
    var sorted := Sort(ByRange, edits);
    SortSorts(ByRange, edits);
    assert InBounds(sorted, |text|) by { assert forall i :: 0 <= i < |sorted| ==> sorted[i] in edits; }
    SortedIsOrdered(sorted, |text|);
    TrySpliceIsExact(text, sorted, 0);
    r := SpliceSorted(text, sorted);
  }

  /** No edit among the first `count` starts before the end of the one ahead of it. */
  ghost predicate FollowOn(sorted: seq<Edit>, count: nat)
    requires count <= |sorted|
  {
    forall j :: 0 < j < count ==> sorted[j - 1].end <= sorted[j].start
  }

  /** The edit at `i` is the first that starts before the end of the one ahead of it. */
  ghost predicate OverlapsFirst(sorted: seq<Edit>, i: nat) {
    0 < i < |sorted| && sorted[i].start < sorted[i - 1].end && FollowOn(sorted, i)
  }

  /** What the loop has built, and what is left to do. */
  ghost predicate Builds(text: string, sorted: seq<Edit>, i: nat, position: nat, output: string)
    requires InBounds(sorted, |text|) && i <= |sorted| && position <= |text|
  {
    match TrySplice(text, sorted[i..], position)
    case None => TrySplice(text, sorted, 0).None?
    case Some(rest) => TrySplice(text, sorted, 0) == Some(output + rest)
  }

  lemma BuildsStart(text: string, sorted: seq<Edit>)
    requires InBounds(sorted, |text|)
    ensures Builds(text, sorted, 0, 0, "")
  {
    assert sorted[0..] == sorted;
    var whole := TrySplice(text, sorted, 0);
    assert whole.Some? ==> "" + whole.value == whole.value;
  }

  lemma BuildsNext(text: string, sorted: seq<Edit>, i: nat, position: nat, output: string)
    requires InBounds(sorted, |text|) && i < |sorted| && position <= |text| && Builds(text, sorted, i, position, output)
    ensures sorted[i].start < position ==> TrySplice(text, sorted, 0).None?
    ensures position <= sorted[i].start ==>
      Builds(text, sorted, i + 1, sorted[i].end, output + text[position..sorted[i].start] + sorted[i].replacement)
  {
    var Edit(start, end, replacement) := sorted[i];
    assert sorted[i..][1..] == sorted[i + 1..];
    var tail := TrySplice(text, sorted[i + 1..], end);
    if position <= start && tail.Some? {
      assert output + (text[position..start] + replacement + tail.value)
          == output + text[position..start] + replacement + tail.value;
    }
  }

  /** The loop of the source, over the sorted edits. */
  method SpliceSorted(text: string, sorted: seq<Edit>) returns (r: Result<string, nat>)
    requires InBounds(sorted, |text|)
    ensures r.Ok? <==> TrySplice(text, sorted, 0).Some?
    ensures r.Ok? ==> r.value == TrySplice(text, sorted, 0).value
    ensures r.Err? ==> exists i: nat :: OverlapsFirst(sorted, i) && r.error == sorted[i].start
  {
    var output, position := "", 0;
    BuildsStart(text, sorted);
    for i := 0 to |sorted|
      invariant position <= |text| && position == if i == 0 then 0 else sorted[i - 1].end
      invariant FollowOn(sorted, i) && Builds(text, sorted, i, position, output)
    {
      hide Builds, TrySplice;
      BuildsNext(text, sorted, i, position, output);
      var Edit(start, end, replacement) := sorted[i];
      if start < position {
        assert OverlapsFirst(sorted, i);
        r := Err(start);
        return;
      }
      output := output + text[position..start] + replacement;
      position := end;
    }
    output := output + text[position..];
    r := Ok(output);
  }

  lemma SliceJoins(text: string, from: nat, middle: nat, until: nat, added: string, tail: string)
    requires from <= middle <= until <= |text|
    ensures (text[from..until] + added) + tail == text[from..middle] + ((text[middle..until] + added) + tail)
  {
  }

  lemma SplicedFromEarlier(text: string, edits: seq<Edit>, from: nat, middle: nat, until: nat)
    requires from <= middle && Ordered(edits, middle, until) && until <= |text|
    ensures Ordered(edits, from, until)
    ensures Spliced(text, edits, from, until) == text[from..middle] + Spliced(text, edits, middle, until)
  {
    if edits == [] {
      assert text[from..until] == text[from..middle] + text[middle..until];
    } else {
      SplicedStep(text, edits, from, until);
      SplicedStep(text, edits, middle, until);
      SliceJoins(text, from, middle, edits[0].start, edits[0].replacement, Spliced(text, edits[1..], edits[0].end, until));
    }
  }

  /** The splice of two adjacent ranges is the two splices, one after the other. */
  lemma {:induction false} SplicedConcat(text: string, a: seq<Edit>, b: seq<Edit>, from: nat, middle: nat, until: nat)
    requires Ordered(a, from, middle) && Ordered(b, middle, until) && until <= |text|
    ensures Ordered(a + b, from, until)
    ensures Spliced(text, a + b, from, until) == Spliced(text, a, from, middle) + Spliced(text, b, middle, until)
    decreases |a|
  {
    hide Spliced;
    OrderedConcat(a, b, from, middle, until);
    if a == [] {
      assert a + b == b;
      SplicedNone(text, from, middle);
      SplicedFromEarlier(text, b, from, middle, until);
    } else {
      assert (a + b)[1..] == a[1..] + b && (a + b)[0] == a[0];
      SplicedStep(text, a, from, middle);
      SplicedStep(text, a + b, from, until);
      SplicedConcat(text, a[1..], b, a[0].end, middle, until);
      hide Ordered;
      var front, x, y := text[from..a[0].start] + a[0].replacement, Spliced(text, a[1..], a[0].end, middle), Spliced(text, b, middle, until);
      assert front + (x + y) == front + x + y;
    }
  }

  lemma SplicedNone(text: string, from: nat, until: nat)
    requires from <= until <= |text|
    ensures Spliced(text, [], from, until) == text[from..until]
  {
  }

  lemma SplicedStep(text: string, edits: seq<Edit>, from: nat, until: nat)
    requires Ordered(edits, from, until) && until <= |text| && edits != []
    ensures Ordered(edits[1..], edits[0].end, until)
    ensures Spliced(text, edits, from, until)
         == (text[from..edits[0].start] + edits[0].replacement) + Spliced(text, edits[1..], edits[0].end, until)
  {
  }

  /** A splice in three parts: before a range, inside it, and after it. */
  lemma SplicedAround(text: string, before: seq<Edit>, edits: seq<Edit>, after: seq<Edit>, start: nat, stop: nat)
    requires Ordered(before, 0, start) && Ordered(edits, start, stop) && Ordered(after, stop, |text|)
    ensures Ordered(before + edits + after, 0, |text|)
    ensures Spliced(text, before + edits + after, 0, |text|)
         == Spliced(text, before, 0, start) + Spliced(text, edits, start, stop) + Spliced(text, after, stop, |text|)
  {
    SplicedConcat(text, before, edits, 0, start, stop);
    SplicedConcat(text, before + edits, after, 0, stop, |text|);
  }

  lemma SplicedOne(text: string, edit: Edit, from: nat, until: nat)
    requires from <= edit.start <= edit.end <= until <= |text|
    ensures Spliced(text, [edit], from, until) == text[from..edit.start] + edit.replacement + text[edit.end..until]
  {
    assert [edit][1..] == [];
  }

  lemma SplicedWhole(text: string, edit: Edit)
    requires edit.start <= edit.end <= |text|
    ensures Spliced(text, [edit], edit.start, edit.end) == edit.replacement
  {
    SplicedOne(text, edit, edit.start, edit.end);
    assert text[edit.start..edit.start] + edit.replacement + text[edit.end..edit.end] == edit.replacement;
  }

  // ---------------------------------------------------------------------
  // What a splice keeps
  // ---------------------------------------------------------------------

  /** One byte of a result: a byte of the text, or one that an edit adds. */
  datatype Piece = Kept(at: nat) | Added(character: char)

  function KeptRange(from: nat, until: nat): seq<Piece>
    requires from <= until
  {
    seq(until - from, i requires 0 <= i => Kept(from + i))
  }

  function AddedAll(replacement: string): seq<Piece> {
    seq(|replacement|, i requires 0 <= i < |replacement| => Added(replacement[i]))
  }

  function Pieces(edits: seq<Edit>, from: nat, until: nat): seq<Piece>
    requires Ordered(edits, from, until)
  {
    if edits == [] then KeptRange(from, until)
    else KeptRange(from, edits[0].start) + AddedAll(edits[0].replacement) + Pieces(edits[1..], edits[0].end, until)
  }

  ghost predicate Renders(text: string, pieces: seq<Piece>, output: string) {
    && |pieces| == |output|
    && forall i :: 0 <= i < |pieces| ==>
        match pieces[i]
        case Kept(at) => at < |text| && output[i] == text[at]
        case Added(character) => output[i] == character
  }

  ghost function Positions(pieces: seq<Piece>): seq<nat> {
    if pieces == [] then []
    else (if pieces[0].Kept? then [pieces[0].at] else []) + Positions(pieces[1..])
  }

  ghost predicate Covered(edits: seq<Edit>, at: nat) {
    exists i :: 0 <= i < |edits| && edits[i].start <= at < edits[i].end
  }

  /** Every position from `from` up to `until` that no edit covers, in order. */
  ghost function Uncovered(edits: seq<Edit>, from: nat, until: nat): seq<nat>
    requires from <= until
    decreases until - from
  {
    if from == until then []
    else (if Covered(edits, from) then [] else [from]) + Uncovered(edits, from + 1, until)
  }

  lemma {:induction false} SplicedRenders(text: string, edits: seq<Edit>, from: nat, until: nat)
    requires Ordered(edits, from, until) && until <= |text|
    ensures Renders(text, Pieces(edits, from, until), Spliced(text, edits, from, until))
  {
    if edits != [] {
      SplicedRenders(text, edits[1..], edits[0].end, until);
    }
  }

  lemma {:induction false} PositionsConcat(a: seq<Piece>, b: seq<Piece>)
    ensures Positions(a + b) == Positions(a) + Positions(b)
  {
    if a == [] {
      assert a + b == b;
    } else {
      var first := if a[0].Kept? then [a[0].at] else [];
      assert (a + b)[1..] == a[1..] + b && (a + b)[0] == a[0];
      PositionsConcat(a[1..], b);
      assert first + (Positions(a[1..]) + Positions(b)) == first + Positions(a[1..]) + Positions(b);
    }
  }

  lemma {:induction false} PositionsOfAdded(pieces: seq<Piece>)
    requires forall i :: 0 <= i < |pieces| ==> pieces[i].Added?
    ensures Positions(pieces) == []
  {
    if pieces != [] {
      PositionsOfAdded(pieces[1..]);
    }
  }

  lemma {:induction false} PositionsOfKept(edits: seq<Edit>, from: nat, until: nat)
    requires from <= until && forall at :: from <= at < until ==> !Covered(edits, at)
    ensures Positions(KeptRange(from, until)) == Uncovered(edits, from, until)
    decreases until - from
  {
    if from < until {
      PositionsOfKept(edits, from + 1, until);
      assert KeptRange(from, until)[1..] == KeptRange(from + 1, until);
    }
  }

  lemma {:induction false} UncoveredConcat(edits: seq<Edit>, from: nat, middle: nat, until: nat)
    requires from <= middle <= until
    ensures Uncovered(edits, from, until) == Uncovered(edits, from, middle) + Uncovered(edits, middle, until)
    decreases middle - from
  {
    if from < middle {
      UncoveredConcat(edits, from + 1, middle, until);
    }
  }

  lemma {:induction false} UncoveredOfCovered(edits: seq<Edit>, from: nat, until: nat)
    requires from <= until && forall at :: from <= at < until ==> Covered(edits, at)
    ensures Uncovered(edits, from, until) == []
    decreases until - from
  {
    if from < until {
      UncoveredOfCovered(edits, from + 1, until);
    }
  }

  lemma {:induction false} UncoveredSame(a: seq<Edit>, b: seq<Edit>, from: nat, until: nat)
    requires from <= until && forall at :: from <= at < until ==> (Covered(a, at) <==> Covered(b, at))
    ensures Uncovered(a, from, until) == Uncovered(b, from, until)
    decreases until - from
  {
    if from < until {
      UncoveredSame(a, b, from + 1, until);
    }
  }

  /** Ordered edits cover nothing before the first, all of it, and then what the rest cover. */
  lemma CoverOfFirst(edits: seq<Edit>, from: nat, until: nat)
    requires Ordered(edits, from, until) && edits != []
    ensures forall at :: from <= at < edits[0].start ==> !Covered(edits, at)
    ensures forall at :: edits[0].start <= at < edits[0].end ==> Covered(edits, at)
    ensures forall at :: edits[0].end <= at < until ==> (Covered(edits, at) <==> Covered(edits[1..], at))
  {
    forall at | edits[0].end <= at < until && Covered(edits, at) ensures Covered(edits[1..], at) {
      var i :| 0 <= i < |edits| && edits[i].start <= at < edits[i].end;
      assert edits[1..][i - 1] == edits[i];
    }
  }

  /** A splice keeps exactly the bytes outside the edits, each once and in order. */
  lemma {:induction false} KeepsTheRest(edits: seq<Edit>, from: nat, until: nat)
    requires Ordered(edits, from, until)
    ensures Positions(Pieces(edits, from, until)) == Uncovered(edits, from, until)
    decreases |edits|
  {
    if edits == [] {
      PositionsOfKept(edits, from, until);
    } else {
      assert Ordered(edits[1..], edits[0].end, until);
      hide Positions, Uncovered, Pieces, Ordered;
      KeepsTheRest(edits[1..], edits[0].end, until);
      PositionsOfPieces(edits, from, until);
      UncoveredOfEdits(edits, from, until);
    }
  }

  /** The positions that the pieces keep: those before the first edit, and those of the rest. */
  lemma PositionsOfPieces(edits: seq<Edit>, from: nat, until: nat)
    requires edits != [] && Ordered(edits, from, until) && Ordered(edits[1..], edits[0].end, until)
    ensures Positions(Pieces(edits, from, until))
         == Uncovered(edits, from, edits[0].start) + Positions(Pieces(edits[1..], edits[0].end, until))
  {
    hide Positions, Uncovered;
    var kept, added := KeptRange(from, edits[0].start), AddedAll(edits[0].replacement);
    var rest := Pieces(edits[1..], edits[0].end, until);
    PositionsConcat(kept + added, rest);
    PositionsConcat(kept, added);
    PositionsOfAdded(added);
    CoverOfFirst(edits, from, until);
    PositionsOfKept(edits, from, edits[0].start);
    assert Positions(kept) + [] == Positions(kept);
  }

  lemma UncoveredOfEdits(edits: seq<Edit>, from: nat, until: nat)
    requires edits != [] && Ordered(edits, from, until) && Ordered(edits[1..], edits[0].end, until)
    ensures Uncovered(edits, from, until) == Uncovered(edits, from, edits[0].start) + Uncovered(edits[1..], edits[0].end, until)
  {
    hide Uncovered;
    var start, end := edits[0].start, edits[0].end;
    CoverOfFirst(edits, from, until);
    UncoveredConcat(edits, from, start, until);
    UncoveredConcat(edits, start, end, until);
    UncoveredOfCovered(edits, start, end);
    UncoveredSame(edits, edits[1..], end, until);
    assert [] + Uncovered(edits, end, until) == Uncovered(edits, end, until);
  }

  ghost function Removed(edits: seq<Edit>): int {
    if edits == [] then 0 else edits[0].end - edits[0].start + Removed(edits[1..])
  }

  ghost function Inserted(edits: seq<Edit>): nat {
    if edits == [] then 0 else |edits[0].replacement| + Inserted(edits[1..])
  }

  /** The length of a splice: what the text had, less what went, plus what came. */
  lemma {:induction false} SplicedLength(text: string, edits: seq<Edit>, from: nat, until: nat)
    requires Ordered(edits, from, until) && until <= |text|
    ensures |Spliced(text, edits, from, until)| == until - from - Removed(edits) + Inserted(edits)
  {
    if edits != [] {
      SplicedLength(text, edits[1..], edits[0].end, until);
    }
  }
}
