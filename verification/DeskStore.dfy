/**
 The store of the docs desk: versioned documents, writes that name the version
 they replace, and batches that apply in full or not at all. SQLite is not part
 of this model; a transaction is one step.
 */
module DeskStore {
  import opened Common

  const COLLECTIONS := {"files", "sections", "facts"}

  datatype Key = Key(collection: string, id: string)

  /** The top-level fields of a document. */
  type Data = map<string, string>

  datatype Doc = Doc(version: int, data: Data)

  type Docs = map<Key, Doc>

  datatype Op = Put | Patch | Delete | UnknownOp

  /**
   The version a write names, as Python compares it: absent or null, equal to
   an integer, or equal to none.
   */
  datatype Expected = Absent | Version(number: int) | NoVersion

  /** A write as it arrives; None stands for a value of the wrong type. */
  datatype Write =
    | NotAnObject
    | Write(op: Op, collection: Option<string>, id: Option<string>, expected: Expected, data: Option<Data>)

  datatype Refusal = Invalid | Conflict(key: Key, current: Option<Doc>)

  /** An accepted write, with the document before and after it. */
  datatype Event = Event(write: Write, key: Key, before: Option<Doc>, after: Option<Doc>)

  /** What an accepted write answers, and the hub publishes. */
  datatype Change = Stored(key: Key, doc: Doc) | Deleted(key: Key)

  function ChangeOf(event: Event): Change {
    match event.after
    case None => Deleted(event.key)
    case Some(doc) => Stored(event.key, doc)
  }

  function Lookup(docs: Docs, key: Key): Option<Doc> {
    if key in docs then Some(docs[key]) else None
  }

  function After(docs: Docs, event: Event): Docs {
    match event.after
    case None => docs - {event.key}
    case Some(doc) => docs[event.key := doc]
  }

  /** What one write does to the documents, or why it is refused. */
  function Applied(docs: Docs, write: Write): Result<Event, Refusal> {
    if write.NotAnObject? || write.collection.None? || write.collection.value !in COLLECTIONS
       || write.id.None? || write.id.value == "" || write.op.UnknownOp?
    then Err(Invalid)
    else
      var key := Key(write.collection.value, write.id.value);
      var current := Lookup(docs, key);
      if current.None? && (write.op != Put || write.expected !in {Absent, Version(0)}) then Err(Conflict(key, None))
      else if current.Some? && write.expected != Version(current.value.version) then Err(Conflict(key, current))
      else if write.op == Delete then Ok(Event(write, key, current, None))
      else if write.data.None? then Err(Invalid)
      else
        var data := if write.op == Patch then current.value.data + write.data.value else write.data.value;
        var version := if current.Some? then current.value.version + 1 else 1;
        Ok(Event(write, key, current, Some(Doc(version, data))))
  }

  // The reference: which writes are taken, what they do, and how the others are refused.

  /** An object with a known operation, and a document as its target. */
  ghost predicate HasTarget(write: Write) {
    && write.Write? && write.op in {Put, Patch, Delete}
    && write.collection.Some? && write.collection.value in {"files", "sections", "facts"}
    && write.id.Some? && |write.id.value| > 0
  }

  ghost function TargetOf(write: Write): Key
    requires HasTarget(write)
  {
    Key(write.collection.value, write.id.value)
  }

  /** A creation names no version or version 0, and any other write the version of its document. */
  ghost predicate NamesCurrent(docs: Docs, write: Write)
    requires HasTarget(write)
  {
    if TargetOf(write) in docs then write.expected == Version(docs[TargetOf(write)].version)
    else write.op == Put && (write.expected == Absent || write.expected == Version(0))
  }

  ghost predicate Accepts(docs: Docs, write: Write) {
    HasTarget(write) && NamesCurrent(docs, write) && (write.op != Delete ==> write.data.Some?)
  }

  /** A patch takes each field from the write if that has it, and otherwise from the document. */
  ghost predicate IsPatched(before: Data, given: Data, after: Data) {
    forall field ::
      && (field in after <==> field in before || field in given)
      && (field in given ==> after[field] == given[field])
      && (field in before && field !in given ==> after[field] == before[field])
  }

  /** An accepted write changes its document and no other: the data by its operation, and the version by one. */
  ghost predicate IsEffect(docs: Docs, write: Write, after: Docs)
    requires Accepts(docs, write)
  {
    var target := TargetOf(write);
    && (forall key :: key != target ==> (key in after <==> key in docs) && (key in docs ==> after[key] == docs[key]))
    && (target in after <==> write.op != Delete)
    && (target in after ==> after[target].version == if target in docs then docs[target].version + 1 else 1)
    && (write.op == Put ==> after[target].data == write.data.value)
    && (write.op == Patch ==> IsPatched(docs[target].data, write.data.value, after[target].data))
  }

  /** A write is refused as invalid, or as a conflict that carries the current document if there is one. */
  ghost predicate IsRefusal(docs: Docs, write: Write, refusal: Refusal) {
    if HasTarget(write) && !NamesCurrent(docs, write) then
      && refusal.Conflict? && refusal.key == TargetOf(write)
      && (refusal.current.Some? <==> refusal.key in docs)
      && (refusal.current.Some? ==> refusal.current.value == docs[refusal.key])
    else refusal.Invalid?
  }

  /** Exactly which writes are accepted, what an accepted one does, and how the others are refused. */
  lemma AppliedIsExact(docs: Docs, write: Write)
    ensures Applied(docs, write).Ok? <==> Accepts(docs, write)
    ensures Applied(docs, write).Ok? ==> IsEffect(docs, write, After(docs, Applied(docs, write).value))
    ensures Applied(docs, write).Err? ==> IsRefusal(docs, write, Applied(docs, write).error)
  {
  }

  /** The documents after the first `count` events. */
  function StateAt(docs: Docs, events: seq<Event>, count: nat): Docs
    requires count <= |events|
  {
    if count == 0 then docs else After(StateAt(docs, events, count - 1), events[count - 1])
  }

  function Replay(docs: Docs, events: seq<Event>): Docs {
    StateAt(docs, events, |events|)
  }

  /** What a batch does: every write in turn, or the first refusal. */
  function Batch(docs: Docs, writes: seq<Write>): Result<seq<Event>, Refusal> {
    if writes == [] then Ok([])
    else match Batch(docs, writes[..|writes| - 1])
      case Err(refusal) => Err(refusal)
      case Ok(events) =>
        match Applied(Replay(docs, events), writes[|writes| - 1])
        case Err(refusal) => Err(refusal)
        case Ok(event) => Ok(events + [event])
  }

  lemma {:induction false} StateOfPrefix(docs: Docs, events: seq<Event>, more: seq<Event>, count: nat)
    requires count <= |events|
    ensures StateAt(docs, events + more, count) == StateAt(docs, events, count)
  {
    if count > 0 {
      StateOfPrefix(docs, events, more, count - 1);
    }
  }

  lemma {:induction false} BatchErrStays(docs: Docs, writes: seq<Write>, count: nat)
    requires count <= |writes| && Batch(docs, writes[..count]).Err?
    ensures Batch(docs, writes) == Batch(docs, writes[..count])
    decreases |writes|
  {
    if count < |writes| {
      var most := writes[..|writes| - 1];
      assert most[..count] == writes[..count];
      BatchErrStays(docs, most, count);
    } else {
      assert writes[..count] == writes;
    }
  }

  /** The store, which a connection changes in place. */
  class Store {
    var docs: Docs

    constructor (docs: Docs)
      ensures this.docs == docs
    {
      this.docs := docs;
    }

    method Apply(write: Write) returns (r: Result<Change, Refusal>)
      modifies this
      ensures match Applied(old(docs), write)
              case Err(refusal) => r == Err(refusal) && docs == old(docs)
              case Ok(event) => r == Ok(ChangeOf(event)) && docs == After(old(docs), event)
      ensures r.Ok? <==> Accepts(old(docs), write)
      ensures r.Ok? ==> IsEffect(old(docs), write, docs)
      ensures r.Ok? ==> r.value == if write.op == Delete then Deleted(TargetOf(write)) else Stored(TargetOf(write), docs[TargetOf(write)])
      ensures r.Err? ==> IsRefusal(old(docs), write, r.error)
    {
      AppliedIsExact(docs, write);
      hide IsEffect, IsRefusal;
      if write.NotAnObject? {
        return Err(Invalid);
      }
      if write.collection.None? || write.collection.value !in COLLECTIONS || write.id.None? || write.id.value == "" {
        return Err(Invalid);
      }
      if write.op.UnknownOp? {
        return Err(Invalid);
      }
      var key := Key(write.collection.value, write.id.value);
      var current := Lookup(docs, key);
      if current.None? {
        if write.op != Put || (write.expected != Absent && write.expected != Version(0)) {
          return Err(Conflict(key, None));
        }
      } else if write.expected != Version(current.value.version) {
        return Err(Conflict(key, current));
      }
      if write.op == Delete {
        docs := docs - {key};
        return Ok(Deleted(key));
      }
      if write.data.None? {
        return Err(Invalid);
      }
      var data := write.data.value;
      if write.op == Patch {
        data := current.value.data + data;
      }
      var version := if current.Some? then current.value.version + 1 else 1;
      docs := docs[key := Doc(version, data)];
      return Ok(Stored(key, Doc(version, data)));
    }

    /** The loop of the source; a refusal rolls the documents back. */
    method Transact(writes: seq<Write>) returns (r: Result<seq<Change>, Refusal>)
      modifies this
      ensures match Batch(old(docs), writes)
              case Err(refusal) => r == Err(refusal) && docs == old(docs)
              case Ok(events) => r == Ok(ChangesOf(events)) && docs == Replay(old(docs), events)
    {
      var begin := docs;
      var results: seq<Change> := [];
      ghost var events: seq<Event> := [];
      for i := 0 to |writes|
        invariant Batch(begin, writes[..i]) == Ok(events)
        invariant docs == Replay(begin, events)
        invariant results == ChangesOf(events)
      {
        assert writes[..i + 1][..i] == writes[..i];
        ghost var event := Applied(docs, writes[i]);
        var applied := Apply(writes[i]);
        if applied.Err? {
          BatchErrStays(begin, writes, i + 1);
          docs := begin;
          return Err(applied.error);
        }
        StateOfPrefix(begin, events, [event.value], |events|);
        assert ChangesOf(events + [event.value]) == ChangesOf(events) + [ChangeOf(event.value)];
        events := events + [event.value];
        results := results + [applied.value];
      }
      assert writes[..|writes|] == writes;
      return Ok(results);
    }
  }

  function ChangesOf(events: seq<Event>): seq<Change> {
    seq(|events|, i requires 0 <= i < |events| => ChangeOf(events[i]))
  }

  /** A batch is refused for the first of its writes that is, by the documents it met. */
  lemma {:induction false} BatchRefusesFirst(docs: Docs, writes: seq<Write>) returns (i: nat)
    requires Batch(docs, writes).Err?
    ensures i < |writes| && Batch(docs, writes[..i]).Ok?
    ensures var met := Replay(docs, Batch(docs, writes[..i]).value);
      !Accepts(met, writes[i]) && IsRefusal(met, writes[i], Batch(docs, writes).error)
    decreases |writes|
  {
    hide Applied, Accepts, IsRefusal, Replay;
    var most := writes[..|writes| - 1];
    if Batch(docs, most).Err? {
      i := BatchRefusesFirst(docs, most);
      assert most[..i] == writes[..i];
    } else {
      i := |writes| - 1;
      AppliedIsExact(Replay(docs, Batch(docs, most).value), writes[i]);
    }
  }

  // ---------------------------------------------------------------------
  // What holds over every run of batches
  // ---------------------------------------------------------------------

  /** Every event was accepted by the documents it met. */
  ghost predicate IsHistory(docs: Docs, events: seq<Event>) {
    forall i :: 0 <= i < |events| ==> Applied(StateAt(docs, events, i), events[i].write) == Ok(events[i])
  }

  /** The accepted writes of a run of batches, in the order the store took them. */
  ghost function Run(docs: Docs, batches: seq<seq<Write>>): seq<Event> {
    if batches == [] then []
    else
      var events := Run(docs, batches[..|batches| - 1]);
      match Batch(Replay(docs, events), batches[|batches| - 1])
      case Err(_) => events
      case Ok(more) => events + more
  }

  lemma {:induction false} StateOfSuffix(docs: Docs, events: seq<Event>, more: seq<Event>, count: nat)
    requires count <= |more|
    ensures StateAt(docs, events + more, |events| + count) == StateAt(Replay(docs, events), more, count)
  {
    if count == 0 {
      StateOfPrefix(docs, events, more, |events|);
    } else {
      StateOfSuffix(docs, events, more, count - 1);
    }
  }

  lemma HistoryConcat(docs: Docs, events: seq<Event>, more: seq<Event>)
    requires IsHistory(docs, events) && IsHistory(Replay(docs, events), more)
    ensures IsHistory(docs, events + more)
    ensures Replay(docs, events + more) == Replay(Replay(docs, events), more)
  {
    hide Applied, StateAt;
    forall i | 0 <= i < |events + more|
      ensures Applied(StateAt(docs, events + more, i), (events + more)[i].write) == Ok((events + more)[i])
    {
      if i < |events| {
        StateOfPrefix(docs, events, more, i);
      } else {
        StateOfSuffix(docs, events, more, i - |events|);
      }
    }
    StateOfSuffix(docs, events, more, |more|);
  }

  lemma AppliedKeepsWrite(docs: Docs, write: Write)
    ensures Applied(docs, write).Ok? ==> Applied(docs, write).value.write == write
  {
  }

  lemma OneEventIsHistory(docs: Docs, event: Event)
    requires Applied(docs, event.write) == Ok(event)
    ensures IsHistory(docs, [event])
  {
    assert StateAt(docs, [event], 0) == docs;
  }

  lemma {:induction false} BatchIsHistory(docs: Docs, writes: seq<Write>)
    requires Batch(docs, writes).Ok?
    ensures IsHistory(docs, Batch(docs, writes).value)
    ensures |Batch(docs, writes).value| == |writes|
    ensures forall i :: 0 <= i < |writes| ==> Batch(docs, writes).value[i].write == writes[i]
  {
    hide Applied, StateAt;
    if writes != [] {
      var most := writes[..|writes| - 1];
      BatchIsHistory(docs, most);
      var events := Batch(docs, most).value;
      var event := Applied(Replay(docs, events), writes[|writes| - 1]).value;
      AppliedKeepsWrite(Replay(docs, events), writes[|writes| - 1]);
      OneEventIsHistory(Replay(docs, events), event);
      hide IsHistory, Replay;
      HistoryConcat(docs, events, [event]);
    }
  }

  /** A run of batches is a history, whichever of its batches were refused. */
  lemma {:induction false} RunIsHistory(docs: Docs, batches: seq<seq<Write>>)
    ensures IsHistory(docs, Run(docs, batches))
  {
    hide Applied, StateAt, Replay;
    if batches != [] {
      var events := Run(docs, batches[..|batches| - 1]);
      RunIsHistory(docs, batches[..|batches| - 1]);
      var batch := Batch(Replay(docs, events), batches[|batches| - 1]);
      if batch.Ok? {
        BatchIsHistory(Replay(docs, events), batches[|batches| - 1]);
        HistoryConcat(docs, events, batch.value);
      }
    }
  }

  /** Each accepted write named the version it replaced, and made the next one. */
  lemma AcceptedNamedItsVersion(docs: Docs, events: seq<Event>, i: nat)
    requires IsHistory(docs, events) && i < |events|
    ensures events[i].before == Lookup(StateAt(docs, events, i), events[i].key)
    ensures events[i].before.Some? ==> events[i].write.expected == Version(events[i].before.value.version)
    ensures events[i].before.None? ==> events[i].write.expected in {Absent, Version(0)} && events[i].after.Some?
    ensures events[i].after.Some? ==>
      events[i].after.value.version == if events[i].before.Some? then events[i].before.value.version + 1 else 1
    ensures events[i].after.None? <==> events[i].write.op == Delete
  {
  }

  /** The number of events on `key` from `from` up to `until`. */
  ghost function CountOn(events: seq<Event>, key: Key, from: nat, until: nat): nat
    requires from <= until <= |events|
  {
    if from == until then 0
    else CountOn(events, key, from, until - 1) + if events[until - 1].key == key then 1 else 0
  }

  ghost predicate Deletes(event: Event, key: Key) { event.key == key && event.after.None? }

  ghost predicate Kept(events: seq<Event>, key: Key, from: nat, until: nat)
    requires from <= until <= |events|
  {
    forall d :: from <= d < until ==> !Deletes(events[d], key)
  }

  /** While no event deletes it, a document's version counts the events on it. */
  lemma {:induction false} VersionCounts(docs: Docs, events: seq<Event>, key: Key, from: nat, until: nat)
    requires IsHistory(docs, events) && from <= until <= |events| && Kept(events, key, from, until)
    requires key in StateAt(docs, events, from)
    ensures key in StateAt(docs, events, until)
    ensures StateAt(docs, events, until)[key].version
         == StateAt(docs, events, from)[key].version + CountOn(events, key, from, until)
    ensures CountOn(events, key, from, until) == 0 ==> StateAt(docs, events, until)[key] == StateAt(docs, events, from)[key]
    decreases until
  {
    hide Applied, IsHistory;
    if from < until {
      VersionCounts(docs, events, key, from, until - 1);
      AcceptedNamedItsVersion(docs, events, until - 1);
      assert StateAt(docs, events, until) == After(StateAt(docs, events, until - 1), events[until - 1]);
      hide StateAt;
    }
  }

  /** From its creation on, the versions of a document run 1, 2, 3 and so on. */
  lemma VersionsRunFromOne(docs: Docs, events: seq<Event>, key: Key, created: nat, at: nat)
    requires IsHistory(docs, events) && created < at <= |events|
    requires events[created].key == key && events[created].before.None?
    requires Kept(events, key, created, at)
    ensures key in StateAt(docs, events, at)
    ensures StateAt(docs, events, at)[key].version == CountOn(events, key, created, at)
  {
    hide Applied, IsHistory;
    AcceptedNamedItsVersion(docs, events, created);
    assert StateAt(docs, events, created + 1) == After(StateAt(docs, events, created), events[created]);
    hide StateAt;
    VersionCounts(docs, events, key, created + 1, at);
    CountFrom(events, key, created, at);
  }

  lemma {:induction false} CountFrom(events: seq<Event>, key: Key, from: nat, until: nat)
    requires from < until <= |events|
    ensures CountOn(events, key, from, until)
         == (if events[from].key == key then 1 else 0) + CountOn(events, key, from + 1, until)
    decreases until
  {
    if from + 1 < until {
      CountFrom(events, key, from, until - 1);
    } else {
      assert CountOn(events, key, from, from) == 0;
    }
  }

  /** Of two writers that read one version of a live document, the second is refused. */
  lemma NoLostUpdate(docs: Docs, events: seq<Event>, first: nat, second: nat)
    requires IsHistory(docs, events) && first < second < |events|
    requires events[first].key == events[second].key
    requires events[first].before.Some? && events[second].before.Some?
    requires events[first].write.expected == events[second].write.expected
    ensures !Kept(events, events[first].key, first, second)
  {
    hide Applied, IsHistory, StateAt;
    var key := events[first].key;
    AcceptedNamedItsVersion(docs, events, first);
    AcceptedNamedItsVersion(docs, events, second);
    if Kept(events, key, first, second) {
      VersionCounts(docs, events, key, first, second);
      CountFrom(events, key, first, second);
    }
  }
}
