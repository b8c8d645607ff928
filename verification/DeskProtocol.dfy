/**
 The docs desk under every interleaving: threads that commit a batch and then
 publish it, and a reader that takes a snapshot and follows the stream.

 A commit and its publication are separate steps, and other threads run in
 between. The publication numbers its changes one at a time under the lock of
 the hub; the snapshot reads the number without the lock, and the rows after it.
 */
module DeskProtocol {
  import opened Common
  import opened DeskStore
  import opened DeskHub

  const BATCH_LIMIT: nat := 50

  /** Events of one batch that are still to be numbered. */
  datatype Range = Range(next: nat, end: nat)
  {
    predicate Has(event: nat) { next <= event < end }
  }

  /** The reader: its snapshot, the number it has reached, and its copy of the documents. */
  datatype Client =
    | Idle
    | HasNumber(number: nat)
    | Following(number: nat, rows: Docs, rowsAt: nat, after: nat, delivered: seq<Change>, view: Docs)

  /**
   The desk: the accepted writes in commit order, the batches that no thread has
   published yet, the one being published, the event behind each number, the
   hub, and one reader.
   */
  datatype State = State(
    events: seq<Event>,
    pending: set<Range>,
    publishing: Option<Range>,
    numbered: seq<nat>,
    hub: HubState,
    client: Client)

  datatype Action =
    | Commit(writes: seq<Write>)
    | BeginPublish(batch: Range)
    | PublishOne
    | EndPublish
    | ReadNumber
    | ReadRows
    | Deliver

  const INITIAL := State([], {}, None, [], HubState(0, []), Idle)

  /** How the reader takes a change: a stored document only if it is newer. */
  function ApplyChange(view: Docs, change: Change): Docs {
    match change
    case Deleted(key) => view - {key}
    case Stored(key, doc) =>
      if key in view && view[key].version >= doc.version then view else view[key := doc]
  }

  function Merged(view: Docs, changes: seq<Change>): Docs {
    if changes == [] then view
    else ApplyChange(Merged(view, changes[..|changes| - 1]), changes[|changes| - 1])
  }

  /** The state after one action, or None where the action is not possible. */
  function Step(start: Docs, s: State, action: Action): Option<State> {
    match action
    case Commit(writes) =>
      var batch := Batch(Replay(start, s.events), writes);
      if |writes| > BATCH_LIMIT || batch.Err? then None
      else
        var events := s.events + batch.value;
        Some(s.(events := events, pending := s.pending + {Range(|s.events|, |events|)}))
    case BeginPublish(batch) =>
      if s.publishing.Some? || batch !in s.pending then None
      else Some(s.(publishing := Some(batch), pending := s.pending - {batch}))
    case PublishOne =>
      if s.publishing.None? || s.publishing.value.next >= s.publishing.value.end
         || s.publishing.value.next >= |s.events|
      then None
      else
        var Range(next, end) := s.publishing.value;
        Some(s.(
          publishing := Some(Range(next + 1, end)),
          numbered := s.numbered + [next],
          hub := Append(s.hub, ChangeOf(s.events[next]))))
    case EndPublish =>
      if s.publishing.None? || s.publishing.value.next < s.publishing.value.end then None
      else Some(s.(publishing := None, hub := Trim(s.hub)))
    case ReadNumber =>
      Some(s.(client := HasNumber(s.hub.number)))
    case ReadRows =>
      if !s.client.HasNumber? then None
      else
        var rows := Replay(start, s.events);
        Some(s.(client := Following(s.client.number, rows, |s.events|, s.client.number, [], rows)))
    case Deliver =>
      if s.publishing.Some? || !s.client.Following? then None
      else match Answer(s.hub, s.client.after)
        case Reset(_) => Some(s.(client := Idle))
        case Changes(number, changes) =>
          Some(s.(client := s.client.(
            after := number,
            delivered := s.client.delivered + changes,
            view := Merged(s.client.view, changes))))
  }

  /** A batch of at most fifty writes commits exactly when the store accepts it, and waits to be published. */
  lemma CommitIsPossible(start: Docs, s: State, writes: seq<Write>)
    ensures Step(start, s, Commit(writes)).Some? <==> |writes| <= 50 && Batch(Replay(start, s.events), writes).Ok?
    ensures Step(start, s, Commit(writes)).Some? ==>
      var next, more := Step(start, s, Commit(writes)).value, Batch(Replay(start, s.events), writes).value;
      && next.events == s.events + more && Range(|s.events|, |s.events| + |more|) in next.pending
      && next.numbered == s.numbered && next.hub == s.hub && next.client == s.client
  {
  }

  /** The state after a run of actions, if each of them was possible. */
  function Execute(start: Docs, actions: seq<Action>): Option<State> {
    if actions == [] then Some(INITIAL)
    else match Execute(start, actions[..|actions| - 1])
      case None => None
      case Some(s) => Step(start, s, actions[|actions| - 1])
  }

  // ---------------------------------------------------------------------
  // The invariant
  // ---------------------------------------------------------------------

  /** Whether `event` waits for a thread to number it. */
  ghost predicate Outstanding(s: State, event: nat) {
    || (exists batch :: batch in s.pending && batch.Has(event))
    || (s.publishing.Some? && s.publishing.value.Has(event))
  }

  ghost predicate InBounds(s: State) {
    forall i :: 0 <= i < |s.numbered| ==> s.numbered[i] < |s.events|
  }

  /** The change behind each number. */
  ghost function Published(s: State): seq<Change>
    requires InBounds(s)
  {
    seq(|s.numbered|, i requires 0 <= i < |s.numbered| => ChangeOf(s.events[s.numbered[i]]))
  }

  /** Each event has one number, or waits in one batch. */
  ghost predicate Accounted(s: State) {
    && InBounds(s)
    && (forall i, j :: 0 <= i < j < |s.numbered| ==> s.numbered[i] != s.numbered[j])
    && (forall event :: 0 <= event < |s.events| ==> event in s.numbered || Outstanding(s, event))
    && (forall event :: event in s.numbered ==> !Outstanding(s, event))
    && (forall batch :: batch in s.pending ==> batch.next <= batch.end <= |s.events|)
    && (s.publishing.Some? ==> s.publishing.value.next <= s.publishing.value.end <= |s.events|)
    && (forall a, b, event :: a in s.pending && b in s.pending && a.Has(event) && b.Has(event) ==> a == b)
    && (s.publishing.Some? ==>
        forall a, event :: a in s.pending && s.publishing.value.Has(event) ==> !a.Has(event))
  }

  ghost predicate HubHolds(s: State) {
    && InBounds(s)
    && Reflects(s.hub, Published(s))
    && (|s.hub.log| >= HISTORY || |s.hub.log| == s.hub.number)
  }

  /** What a reader that follows the stream has. */
  ghost predicate ClientHolds(start: Docs, s: State) {
    && InBounds(s)
    && s.hub.number == |s.numbered|
    && (s.client.HasNumber? ==> s.client.number <= |s.numbered|)
    && (s.client.Following? ==>
        var Following(number, rows, rowsAt, after, delivered, view) := s.client;
        && number <= after <= |s.numbered|
        && rowsAt <= |s.events| && rows == StateAt(start, s.events, rowsAt)
        && (forall i :: 0 <= i < number ==> s.numbered[i] < rowsAt)
        && delivered == Published(s)[number..after]
        && view == Merged(rows, delivered))
  }

  ghost predicate Invariant(start: Docs, s: State) {
    && IsHistory(start, s.events)
    && Accounted(s)
    && HubHolds(s)
    && ClientHolds(start, s)
  }

  lemma CommitKeeps(start: Docs, s: State, writes: seq<Write>)
    requires Invariant(start, s) && Step(start, s, Commit(writes)).Some?
    ensures Invariant(start, Step(start, s, Commit(writes)).value)
  {
    hide IsHistory, Batch, StateAt;
    var more := Batch(Replay(start, s.events), writes).value;
    var next := Step(start, s, Commit(writes)).value;
    BatchIsHistory(Replay(start, s.events), writes);
    HistoryConcat(start, s.events, more);
    assert Published(next) == Published(s);
    if s.client.Following? {
      StateOfPrefix(start, s.events, more, s.client.rowsAt);
    }
    CommitAccounts(s, next);
  }

  lemma CommitAccounts(s: State, next: State)
    requires Accounted(s) && s.events <= next.events
    requires next == s.(events := next.events, pending := s.pending + {Range(|s.events|, |next.events|)})
    ensures Accounted(next)
  {
    var batch := Range(|s.events|, |next.events|);
    forall event | Outstanding(next, event)
      ensures Outstanding(s, event) || batch.Has(event)
    {
    }
    forall event | 0 <= event < |next.events| ensures event in next.numbered || Outstanding(next, event) {
      if event >= |s.events| {
        assert batch in next.pending && batch.Has(event);
      } else if event !in s.numbered && !(s.publishing.Some? && s.publishing.value.Has(event)) {
        var other :| other in s.pending && other.Has(event);
        assert other in next.pending;
      }
    }
  }

  lemma BeginPublishKeeps(start: Docs, s: State, batch: Range)
    requires Invariant(start, s) && Step(start, s, BeginPublish(batch)).Some?
    ensures Invariant(start, Step(start, s, BeginPublish(batch)).value)
  {
    hide IsHistory, StateAt;
    var next := Step(start, s, BeginPublish(batch)).value;
    assert Published(next) == Published(s);
    forall event ensures Outstanding(next, event) <==> Outstanding(s, event) {
      if Outstanding(s, event) && !batch.Has(event) {
        var other :| other in s.pending && other.Has(event);
        assert other in next.pending;
      }
    }
  }

  lemma PublishOneKeeps(start: Docs, s: State)
    requires Invariant(start, s) && Step(start, s, PublishOne).Some?
    ensures Invariant(start, Step(start, s, PublishOne).value)
  {
    hide IsHistory, StateAt;
    var next := Step(start, s, PublishOne).value;
    PublishOneAccounts(s, next, s.publishing.value.next);
    AppendReflects(s.hub, Published(s), ChangeOf(s.events[s.publishing.value.next]));
    assert Published(next) == Published(s) + [ChangeOf(s.events[s.publishing.value.next])];
  }

  lemma PublishOneAccounts(s: State, next: State, event: nat)
    requires Accounted(s) && s.publishing.Some? && event == s.publishing.value.next < s.publishing.value.end
    requires next.events == s.events && next.pending == s.pending
    requires next.publishing == Some(Range(event + 1, s.publishing.value.end))
    requires next.numbered == s.numbered + [event]
    ensures Accounted(next)
  {
    assert Outstanding(s, event);
    forall other ensures Outstanding(next, other) <==> Outstanding(s, other) && other != event {
    }
    assert next.numbered[|s.numbered|] == event;
    assert forall i :: 0 <= i < |s.numbered| ==> next.numbered[i] == s.numbered[i];
    forall other | 0 <= other < |next.events| ensures other in next.numbered || Outstanding(next, other) {
      assert other in s.numbered || Outstanding(s, other);
    }
  }

  lemma EndPublishKeeps(start: Docs, s: State)
    requires Invariant(start, s) && Step(start, s, EndPublish).Some?
    ensures Invariant(start, Step(start, s, EndPublish).value)
  {
    hide IsHistory, StateAt;
    var next := Step(start, s, EndPublish).value;
    assert Published(next) == Published(s);
    TrimReflects(s.hub, Published(s));
    forall event ensures Outstanding(next, event) <==> Outstanding(s, event) {
    }
  }

  lemma {:induction false} MergedConcat(view: Docs, a: seq<Change>, b: seq<Change>)
    ensures Merged(view, a + b) == Merged(Merged(view, a), b)
    decreases |b|
  {
    if b == [] {
      assert a + b == a;
    } else {
      var most := b[..|b| - 1];
      assert (a + b)[..|a + b| - 1] == a + most;
      MergedConcat(view, a, most);
    }
  }

  lemma ReaderKeeps(start: Docs, s: State, action: Action)
    requires Invariant(start, s) && action in {ReadNumber, ReadRows, Deliver} && Step(start, s, action).Some?
    ensures Invariant(start, Step(start, s, action).value)
  {
    hide IsHistory, StateAt, Accounted, Reflects;
    var next := Step(start, s, action).value;
    assert Published(next) == Published(s);
    if action == Deliver {
      DeliverExtends(start, s, next);
    }
    AccountedIgnoresReader(s, next);
  }

  /** A delivery sends the reader everything that was numbered since the last one. */
  lemma DeliverExtends(start: Docs, s: State, next: State)
    requires HubHolds(s) && ClientHolds(start, s) && s.client.Following?
    requires Step(start, s, Deliver) == Some(next) && InBounds(next) && Published(next) == Published(s)
    ensures ClientHolds(start, next)
  {
    hide StateAt;
    var all := Published(s);
    AnswerIsExact(s.hub, all, s.client.after);
    if next.client.Following? {
      hide Reflects, Answer;
      var number, after := s.client.number, s.client.after;
      assert all[number..after] + all[after..] == all[number..|all|];
      MergedConcat(s.client.rows, s.client.delivered, all[after..]);
    }
  }

  lemma AccountedIgnoresReader(s: State, next: State)
    requires Accounted(s) && next == s.(client := next.client)
    ensures Accounted(next)
  {
    assert forall event :: Outstanding(next, event) <==> Outstanding(s, event);
  }

  lemma StepKeeps(start: Docs, s: State, action: Action)
    requires Invariant(start, s) && Step(start, s, action).Some?
    ensures Invariant(start, Step(start, s, action).value)
  {
    hide Invariant, Step;
    match action
    case Commit(writes) => CommitKeeps(start, s, writes);
    case BeginPublish(batch) => BeginPublishKeeps(start, s, batch);
    case PublishOne => PublishOneKeeps(start, s);
    case EndPublish => EndPublishKeeps(start, s);
    case _ => ReaderKeeps(start, s, action);
  }

  /** Every state that any interleaving reaches satisfies the invariant. */
  lemma {:induction false} RunsKeep(start: Docs, actions: seq<Action>)
    requires Execute(start, actions).Some?
    ensures Invariant(start, Execute(start, actions).value)
    decreases |actions|
  {
    if actions != [] {
      RunsKeep(start, actions[..|actions| - 1]);
      StepKeeps(start, Execute(start, actions[..|actions| - 1]).value, actions[|actions| - 1]);
    }
  }

  // ---------------------------------------------------------------------
  // What the reader can rely on
  // ---------------------------------------------------------------------

  /** Which of the changes with a number the reader was sent, or is to be sent. */
  ghost predicate Numbered(s: State, event: nat) {
    s.client.Following? && event < |s.events| &&
    exists i :: s.client.number <= i < |s.numbered| && s.numbered[i] == event &&
      (i < s.client.after ==>
        i - s.client.number < |s.client.delivered| && s.client.delivered[i - s.client.number] == ChangeOf(s.events[event]))
  }

  /**
   No change is lost: for a reader that follows the stream, each accepted write
   is in the rows of its snapshot, or has a number above that of the snapshot
   and was sent if the stream has passed it, or still waits for its thread. A
   reset ends the following.
   */
  lemma NoChangeIsLost(start: Docs, actions: seq<Action>, event: nat)
    requires Execute(start, actions).Some? && Execute(start, actions).value.client.Following?
    requires event < |Execute(start, actions).value.events|
    ensures var s := Execute(start, actions).value;
      && s.client.rowsAt <= |s.events| && s.client.rows == StateAt(start, s.events, s.client.rowsAt)
      && (event < s.client.rowsAt || Numbered(s, event) || Outstanding(s, event))
  {
    RunsKeep(start, actions);
    hide Execute, Invariant, Numbered, Outstanding;
    EventHasPlace(start, Execute(start, actions).value, event);
  }

  /** The reader's deliveries, one number after the other. */
  lemma DeliveredAt(start: Docs, s: State, i: nat)
    requires ClientHolds(start, s) && s.client.Following? && i < |s.client.delivered|
    ensures s.client.number + i < s.client.after <= |s.numbered|
    ensures s.numbered[s.client.number + i] < |s.events|
    ensures s.client.delivered[i] == ChangeOf(s.events[s.numbered[s.client.number + i]])
  {
  }

  lemma EventHasPlace(start: Docs, s: State, event: nat)
    requires Invariant(start, s) && s.client.Following? && event < |s.events|
    ensures s.client.rowsAt <= |s.events| && s.client.rows == StateAt(start, s.events, s.client.rowsAt)
    ensures event < s.client.rowsAt || Numbered(s, event) || Outstanding(s, event)
  {
    hide IsHistory, StateAt, HubHolds, Merged, Outstanding;
    if !Outstanding(s, event) && event >= s.client.rowsAt {
      assert event in s.numbered;
      var i: nat :| i < |s.numbered| && s.numbered[i] == event;
      assert s.client.number <= i;
      if i < s.client.after {
        DeliveredAt(start, s, i - s.client.number);
      }
    }
  }

  /**
   What each step of the reader does, in every state that a run reaches: the
   snapshot takes the number of changes published so far, and then all rows; a
   delivery brings every change published since the last, or ends the following
   exactly when the log has lost one of them.
   */
  lemma ReaderIsExact(start: Docs, s: State)
    requires Invariant(start, s)
    ensures Step(start, s, ReadNumber) == Some(s.(client := HasNumber(|s.numbered|)))
    ensures s.client.HasNumber? ==>
      var rows := Replay(start, s.events);
      Step(start, s, ReadRows) == Some(s.(client := Following(s.client.number, rows, |s.events|, s.client.number, [], rows)))
    ensures s.client.Following? && s.publishing.None? ==>
      var since := Published(s)[s.client.after..];
      Step(start, s, Deliver) == Some(s.(client :=
        if s.client.after < |s.numbered| - |s.hub.log| then Idle
        else s.client.(after := |s.numbered|, delivered := s.client.delivered + since, view := Merged(s.client.view, since))))
  {
    hide IsHistory, StateAt, Accounted, Merged;
    if s.client.Following? {
      AnswerIsExact(s.hub, Published(s), s.client.after);
    }
  }

  /** A stream delivers each change numbered above its snapshot once, in order of number. */
  lemma DeliveryIsExact(start: Docs, actions: seq<Action>)
    requires Execute(start, actions).Some? && Execute(start, actions).value.client.Following?
    ensures var s := Execute(start, actions).value;
      && InBounds(s) && s.client.number <= s.client.after <= |s.numbered|
      && s.client.delivered == Published(s)[s.client.number..s.client.after]
      && (forall i, j :: 0 <= i < j < |s.numbered| ==> s.numbered[i] != s.numbered[j])
  {
    RunsKeep(start, actions);
  }
}
