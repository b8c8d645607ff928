/** Sequences without repeats, as a first-come filter makes them, and flattening. */
module Sequences {

  ghost predicate Distinct<T>(s: seq<T>) {
    forall i, j :: 0 <= i < j < |s| ==> s[i] != s[j]
  }

  /** `s` with the first occurrence of each element only. */
  function Dedup<T(==)>(s: seq<T>): seq<T> {
    if s == [] then []
    else
      var kept := Dedup(s[..|s| - 1]);
      if s[|s| - 1] in kept then kept else kept + [s[|s| - 1]]
  }

  lemma DedupStep<T>(s: seq<T>, x: T)
    ensures Dedup(s + [x]) == if x in Dedup(s) then Dedup(s) else Dedup(s) + [x]
  {
    assert (s + [x])[..|s|] == s;
  }

  lemma {:induction false} DedupHolds<T>(s: seq<T>)
    ensures Distinct(Dedup(s))
    ensures forall x :: x in Dedup(s) <==> x in s
  {
    if s != [] {
      DedupHolds(s[..|s| - 1]);
      assert s == s[..|s| - 1] + [s[|s| - 1]];
    }
  }

  lemma {:induction false} DedupOfDistinct<T>(s: seq<T>)
    requires Distinct(s)
    ensures Dedup(s) == s
  {
    if s != [] {
      var most := s[..|s| - 1];
      DedupOfDistinct(most);
      assert s == most + [s[|s| - 1]];
    }
  }

  /** Removing the repeats of a part first changes nothing. */
  lemma {:induction false} DedupOfParts<T>(a: seq<T>, b: seq<T>)
    ensures Dedup(a + Dedup(b)) == Dedup(a + b)
  {
    if b != [] {
      var most, x := b[..|b| - 1], b[|b| - 1];
      DedupOfParts(a, most);
      assert a + b == (a + most) + [x];
      DedupStep(a + most, x);
      if x in Dedup(most) {
        DedupHolds(a + Dedup(most));
      } else {
        assert a + Dedup(b) == (a + Dedup(most)) + [x];
        DedupStep(a + Dedup(most), x);
      }
    }
  }

  lemma {:induction false} DedupOfFront<T>(front: seq<T>, rest: seq<T>)
    ensures Dedup(Dedup(front) + rest) == Dedup(front + rest)
    decreases |rest|
  {
    if rest == [] {
      assert Dedup(front) + rest == Dedup(front) && front + rest == front;
      DedupHolds(front);
      DedupOfDistinct(Dedup(front));
    } else {
      var most, x := rest[..|rest| - 1], rest[|rest| - 1];
      DedupOfFront(front, most);
      assert front + rest == (front + most) + [x] && Dedup(front) + rest == (Dedup(front) + most) + [x];
      DedupStep(front + most, x);
      DedupStep(Dedup(front) + most, x);
    }
  }

  // ---------------------------------------------------------------------
  // Picking
  // ---------------------------------------------------------------------

  ghost predicate Increasing(at: seq<nat>, count: nat) {
    && (forall i :: 0 <= i < |at| ==> at[i] < count)
    && (forall i, j :: 0 <= i < j < |at| ==> at[i] < at[j])
  }

  lemma {:induction false} IncreasingFrom(at: seq<nat>, count: nat, i: nat)
    requires Increasing(at, count) && i < |at|
    ensures at[i] >= i
  {
    if i > 0 {
      IncreasingFrom(at, count, i - 1);
    }
  }

  lemma IncreasingFits(at: seq<nat>, count: nat)
    requires Increasing(at, count)
    ensures |at| <= count
  {
    if at != [] {
      IncreasingFrom(at, count, |at| - 1);
    }
  }

  /** The greatest index comes last, if it is there at all. */
  lemma IncreasingLast(at: seq<nat>, count: nat)
    requires Increasing(at, count) && count > 0
    ensures count - 1 in at ==> at[|at| - 1] == count - 1 && Increasing(at[..|at| - 1], count - 1)
    ensures count - 1 in at ==> forall i :: i in at <==> i == count - 1 || i in at[..|at| - 1]
    ensures count - 1 !in at ==> Increasing(at, count - 1)
  {
    if count - 1 in at {
      var k :| 0 <= k < |at| && at[k] == count - 1;
      assert at[k] <= at[|at| - 1];
      assert at == at[..|at| - 1] + [at[|at| - 1]];
    } else {
      assert forall i :: 0 <= i < |at| ==> at[i] in at;
    }
  }

  /** `picked` is what stands at the indices `at`, in order. */
  ghost predicate Picks<T>(s: seq<T>, at: seq<nat>, picked: seq<T>) {
    && Increasing(at, |s|) && |picked| == |at|
    && forall k :: 0 <= k < |at| ==> picked[k] == s[at[k]]
  }

  /** The indices of `s`, each moved up by one. */
  ghost function Shifted(at: seq<nat>): seq<nat> {
    seq(|at|, k requires 0 <= k < |at| => at[k] + 1)
  }

  lemma ShiftedHas(at: seq<nat>, i: nat)
    ensures i in Shifted(at) <==> i > 0 && i - 1 in at
    ensures i in [0] + Shifted(at) <==> i == 0 || i in Shifted(at)
  {
    if i > 0 && i - 1 in at {
      var k :| 0 <= k < |at| && at[k] == i - 1;
      assert Shifted(at)[k] == i;
    }
  }

  /** Picks from the rest of a sequence are picks from the sequence. */
  lemma PicksLater<T>(s: seq<T>, at: seq<nat>, picked: seq<T>)
    requires s != [] && Picks(s[1..], at, picked)
    ensures Picks(s, Shifted(at), picked) && Picks(s, [0] + Shifted(at), [s[0]] + picked)
  {
  }

  /** `picked` is every element that `holds` is true of, in order, and `at` are their indices. */
  ghost predicate Filters<T>(s: seq<T>, holds: T -> bool, at: seq<nat>, picked: seq<T>) {
    && Picks(s, at, picked)
    && forall i: nat :: i < |s| ==> (i in at <==> holds(s[i]))
  }

  lemma IndicesLater<T>(s: seq<T>, holds: T -> bool, at: seq<nat>, i: nat)
    requires s != [] && i < |s| && forall k: nat :: k < |s[1..]| ==> (k in at <==> holds(s[1..][k]))
    ensures i > 0 ==> (i in Shifted(at) <==> holds(s[i]))
    ensures 0 !in Shifted(at) && (i in [0] + Shifted(at) <==> i == 0 || i in Shifted(at))
  {
    ShiftedHas(at, i);
    ShiftedHas(at, 0);
    if i > 0 {
      assert s[1..][i - 1] == s[i];
    }
  }

  /** A filter of the rest of a sequence, and its first element if that passes. */
  lemma FiltersLater<T>(s: seq<T>, holds: T -> bool, at: seq<nat>, picked: seq<T>)
    requires s != [] && Filters(s[1..], holds, at, picked)
    ensures holds(s[0]) ==> Filters(s, holds, [0] + Shifted(at), [s[0]] + picked)
    ensures !holds(s[0]) ==> Filters(s, holds, Shifted(at), picked)
  {
    PicksLater(s, at, picked);
    hide Picks;
    forall i: nat | i < |s|
      ensures i > 0 ==> (i in Shifted(at) <==> holds(s[i]))
      ensures 0 !in Shifted(at) && (i in [0] + Shifted(at) <==> i == 0 || i in Shifted(at))
    {
      IndicesLater(s, holds, at, i);
    }
  }

  /** Picks from all but the last of a sequence are picks from the sequence. */
  lemma PicksMore<T>(s: seq<T>, at: seq<nat>, picked: seq<T>)
    requires s != [] && Picks(s[..|s| - 1], at, picked)
    ensures Picks(s, at, picked) && Picks(s, at + [|s| - 1], picked + [s[|s| - 1]])
    ensures |s| - 1 !in at
  {
  }

  /** `at` are the indices at which an element of `s` occurs for the first time. */
  ghost predicate AreFirsts<T>(s: seq<T>, at: seq<nat>) {
    forall i: nat :: i < |s| ==> (i in at <==> s[i] !in s[..i])
  }

  lemma FirstsMore<T>(s: seq<T>, before: seq<nat>)
    requires s != [] && |s| - 1 !in before && AreFirsts(s[..|s| - 1], before)
    ensures AreFirsts(s, if s[|s| - 1] in s[..|s| - 1] then before else before + [|s| - 1])
  {
    var most := s[..|s| - 1];
    var at := if s[|s| - 1] in most then before else before + [|s| - 1];
    forall i: nat | i < |s| ensures i in at <==> s[i] !in s[..i] {
      if i < |most| {
        assert most[..i] == s[..i] && most[i] == s[i];
        assert i in before <==> most[i] !in most[..i];
      }
    }
  }

  /** Removing repeats picks the first occurrence of each element. */
  lemma {:induction false} DedupPicks<T>(s: seq<T>) returns (at: seq<nat>)
    ensures Picks(s, at, Dedup(s)) && AreFirsts(s, at)
    decreases |s|
  {
    if s == [] {
      at := [];
    } else {
      var most, last := s[..|s| - 1], s[|s| - 1];
      at := DedupPicks(most);
      DedupHolds(most);
      PicksMore(s, at, Dedup(most));
      FirstsMore(s, at);
      hide Picks, AreFirsts;
      if last !in most {
        at := at + [|s| - 1];
      }
    }
  }

  // ---------------------------------------------------------------------
  // Flattening
  // ---------------------------------------------------------------------

  function Flatten<T>(parts: seq<seq<T>>): seq<T> {
    if parts == [] then [] else Flatten(parts[..|parts| - 1]) + parts[|parts| - 1]
  }

  lemma {:induction false} FlattenConcat<T>(a: seq<seq<T>>, b: seq<seq<T>>)
    ensures Flatten(a + b) == Flatten(a) + Flatten(b)
    decreases |b|
  {
    if b == [] {
      assert a + b == a;
    } else {
      var most := b[..|b| - 1];
      assert (a + b)[..|a + b| - 1] == a + most;
      FlattenConcat(a, most);
    }
  }

  lemma FlattenOne<T>(part: seq<T>)
    ensures Flatten([part]) == part
  {
    assert Flatten([part]) == [] + part;
  }

  lemma FlattenFirst<T>(part: seq<T>, rest: seq<seq<T>>)
    ensures Flatten([part] + rest) == part + Flatten(rest)
  {
    FlattenConcat([part], rest);
    FlattenOne(part);
  }

  lemma {:induction false} FlattenHolds<T>(parts: seq<seq<T>>, index: nat, x: T)
    requires index < |parts| && x in parts[index]
    ensures x in Flatten(parts)
    decreases |parts|
  {
    if index < |parts| - 1 {
      FlattenHolds(parts[..|parts| - 1], index, x);
    }
  }
}
