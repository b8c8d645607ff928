/**
 The event hub of the docs desk: it numbers each committed change and keeps the
 latest of them for the streams that follow it.
 */
module DeskHub {
  import opened DeskStore

  const HISTORY: nat := 1000

  /** The number of the last change, and the changes kept with their numbers. */
  datatype HubState = HubState(number: nat, log: seq<(nat, Change)>)

  /** What a waiting stream gets: the number it has reached, and the changes unless it lost some. */
  datatype Reply = Reset(number: nat) | Changes(number: nat, changes: seq<Change>)

  function Append(hub: HubState, change: Change): HubState {
    HubState(hub.number + 1, hub.log + [(hub.number + 1, change)])
  }

  function Trim(hub: HubState): HubState {
    if |hub.log| <= HISTORY then hub else hub.(log := hub.log[|hub.log| - HISTORY..])
  }

  function AppendAll(hub: HubState, changes: seq<Change>): HubState
    decreases |changes|
  {
    if changes == [] then hub else AppendAll(Append(hub, changes[0]), changes[1..])
  }

  /** The changes of the log with a number above `after`, in order. */
  function Above(log: seq<(nat, Change)>, after: nat): seq<Change> {
    if log == [] then []
    else (if log[0].0 > after then [log[0].1] else []) + Above(log[1..], after)
  }

  /** The answer to a stream that has everything up to `after`, once it wakes. */
  function Answer(hub: HubState, after: nat): Reply {
    if after > hub.number || (hub.log != [] && hub.log[0].0 > after + 1) then Reset(hub.number)
    else Changes(hub.number, Above(hub.log, after))
  }

  // ---------------------------------------------------------------------
  // The log is the end of everything published
  // ---------------------------------------------------------------------

  /** The log holds the last of `all`, in order, each with its number. */
  ghost predicate Reflects(hub: HubState, all: seq<Change>) {
    && hub.number == |all|
    && |hub.log| <= |all|
    && forall i :: 0 <= i < |hub.log| ==>
        hub.log[i] == (|all| - |hub.log| + i + 1, all[|all| - |hub.log| + i])
  }

  /** Between two publications the log is as long as it can be, and no longer. */
  ghost predicate IsTrimmed(hub: HubState) {
    |hub.log| == if hub.number < HISTORY then hub.number else HISTORY
  }

  lemma AppendReflects(hub: HubState, all: seq<Change>, change: Change)
    requires Reflects(hub, all)
    ensures Reflects(Append(hub, change), all + [change])
  {
  }

  lemma {:induction false} AppendAllReflects(hub: HubState, all: seq<Change>, changes: seq<Change>)
    requires Reflects(hub, all)
    ensures Reflects(AppendAll(hub, changes), all + changes)
    ensures |AppendAll(hub, changes).log| == |hub.log| + |changes|
    decreases |changes|
  {
    if changes == [] {
      assert all + changes == all;
    } else {
      AppendReflects(hub, all, changes[0]);
      AppendAllReflects(Append(hub, changes[0]), all + [changes[0]], changes[1..]);
      assert all + [changes[0]] + changes[1..] == all + changes;
    }
  }

  lemma TrimReflects(hub: HubState, all: seq<Change>)
    requires Reflects(hub, all) && (|hub.log| >= HISTORY || |hub.log| == |all|)
    ensures Reflects(Trim(hub), all) && IsTrimmed(Trim(hub))
  {
  }

  lemma {:induction false} AboveIsTail(log: seq<(nat, Change)>, after: nat, first: nat)
    requires first <= after + 1 && after + 1 <= first + |log|
    requires forall i :: 0 <= i < |log| ==> log[i].0 == first + i
    ensures |Above(log, after)| == first + |log| - (after + 1)
    ensures forall i :: 0 <= i < |Above(log, after)| ==> Above(log, after)[i] == log[after + 1 - first + i].1
    decreases |log|
  {
    if log != [] {
      if first <= after {
        AboveIsTail(log[1..], after, first + 1);
      } else {
        AboveIsWhole(log, after);
      }
    }
  }

  lemma {:induction false} AboveIsWhole(log: seq<(nat, Change)>, after: nat)
    requires forall i :: 0 <= i < |log| ==> log[i].0 > after
    ensures |Above(log, after)| == |log|
    ensures forall i :: 0 <= i < |log| ==> Above(log, after)[i] == log[i].1
  {
    if log != [] {
      AboveIsWhole(log[1..], after);
    }
  }

  /**
   A stream gets exactly the changes numbered above what it has, in order, as
   long as the log still holds them and it is not ahead of the hub; otherwise a
   reset.
   */
  lemma AnswerIsExact(hub: HubState, all: seq<Change>, after: nat)
    requires Reflects(hub, all) && (all != [] ==> hub.log != [])
    ensures Answer(hub, after) ==
      if |all| - |hub.log| <= after <= |all| then Changes(|all|, all[after..]) else Reset(|all|)
  {
    if |all| - |hub.log| <= after <= |all| {
      AboveIsTail(hub.log, after, |all| - |hub.log| + 1);
    }
  }

  // ---------------------------------------------------------------------
  // The hub
  // ---------------------------------------------------------------------

  class Hub {
    var number: nat
    var log: seq<(nat, Change)>
    /** Every change published so far. */
    ghost var all: seq<Change>

    ghost predicate Valid()
      reads this
    {
      Reflects(HubState(number, log), all) && IsTrimmed(HubState(number, log))
    }

    constructor ()
      ensures Valid() && all == []
    {
      number, log, all := 0, [], [];
    }

    method Publish(changes: seq<Change>)
      requires Valid()
      modifies this
      ensures Valid() && all == old(all) + changes && |log| <= 1000
      ensures HubState(number, log) == Trim(AppendAll(old(HubState(number, log)), changes))
    {
      ghost var before := HubState(number, log);
      assert changes[0..] == changes;
      for i := 0 to |changes|
        invariant AppendAll(HubState(number, log), changes[i..]) == AppendAll(before, changes)
        invariant all == old(all)
      {
        assert changes[i..][1..] == changes[i + 1..];
        number := number + 1;
        log := log + [(number, changes[i])];
      }
      AppendAllReflects(before, all, changes);
      all := all + changes;
      TrimReflects(HubState(number, log), all);
      if |log| > HISTORY {
        log := log[|log| - HISTORY..];
      }
    }

    /**
     What `wait` returns once it wakes: the changes above `after`, or a reset. It
     makes its first test before it sleeps; the number only grows meanwhile, so
     the test comes out the same when it wakes.
     */
    method Wait(after: nat) returns (reply: Reply)
      requires Valid()
      ensures reply == Answer(HubState(number, log), after)
      ensures reply == if |all| - HISTORY <= after <= |all| then Changes(|all|, all[after..]) else Reset(|all|)
    {
      AnswerIsExact(HubState(number, log), all, after);
      if after > number {
        return Reset(number);
      }
      if |log| > 0 && log[0].0 > after + 1 {
        return Reset(number);
      }
      reply := Changes(number, Above(log, after));
    }
  }
}
