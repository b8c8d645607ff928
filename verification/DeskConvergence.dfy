/**
 The reader of the docs desk keeps a copy of the documents: its snapshot, with
 each change of the stream merged in. When does the copy become the store?
 */
module DeskConvergence {
  import opened Common
  import opened DeskStore
  import opened DeskHub
  import opened DeskProtocol

  /** Nothing waits, and the stream has delivered every number. */
  ghost predicate CaughtUp(s: State) {
    && s.pending == {} && s.publishing == None
    && s.client.Following? && s.client.after == |s.numbered|
  }

  // ---------------------------------------------------------------------
  // What a merge keeps
  // ---------------------------------------------------------------------

  /** The document that a copy is offered: by the row it starts from, or by a change. */
  ghost function Offer(rows: Docs, changes: seq<Change>, key: Key, i: nat): Option<Doc>
    requires i <= |changes|
  {
    if i == 0 then Lookup(rows, key)
    else if changes[i - 1].Stored? && changes[i - 1].key == key then Some(changes[i - 1].doc)
    else None
  }

  /** Offer `i` is one that no later change deletes. */
  ghost predicate Stays(rows: Docs, changes: seq<Change>, key: Key, i: nat) {
    i <= |changes| && Offer(rows, changes, key, i).Some? && Deleted(key) !in changes[i..]
  }

  /** The copy keeps offer `i` over offer `j`: it is newer, or the same, or as new and earlier. */
  ghost predicate Yields(other: Doc, j: nat, doc: Doc, i: nat) {
    other.version < doc.version || other == doc || (other.version == doc.version && i < j)
  }

  /** `doc` is offer `i`, which stays, and each offer that stays yields to it. */
  ghost predicate Wins(rows: Docs, changes: seq<Change>, key: Key, i: nat, doc: Doc) {
    && Stays(rows, changes, key, i) && Offer(rows, changes, key, i) == Some(doc)
    && forall j :: Stays(rows, changes, key, j) ==> Yields(Offer(rows, changes, key, j).value, j, doc, i)
  }

  lemma StaysBefore(rows: Docs, changes: seq<Change>, change: Change, key: Key, i: nat)
    requires i <= |changes|
    ensures Offer(rows, changes + [change], key, i) == Offer(rows, changes, key, i)
    ensures Stays(rows, changes + [change], key, i) <==> Stays(rows, changes, key, i) && change != Deleted(key)
  {
    assert (changes + [change])[i..] == changes[i..] + [change];
  }

  /** A merge holds the offer that wins, and nothing when none stays. */
  lemma {:induction false} MergedIsWinner(rows: Docs, changes: seq<Change>, key: Key) returns (i: nat)
    ensures key in Merged(rows, changes) ==> Wins(rows, changes, key, i, Merged(rows, changes)[key])
    ensures key !in Merged(rows, changes) ==> forall j :: !Stays(rows, changes, key, j)
  {
    if changes == [] {
      i := 0;
    } else {
      var most, change := changes[..|changes| - 1], changes[|changes| - 1];
      i := MergedIsWinner(rows, most, key);
      assert changes == most + [change];
      forall j: nat | j <= |most|
        ensures Offer(rows, changes, key, j) == Offer(rows, most, key, j)
        ensures Stays(rows, changes, key, j) <==> Stays(rows, most, key, j) && change != Deleted(key)
      {
        StaysBefore(rows, most, change, key, j);
      }
      assert changes[|changes|..] == [];
      if change.Stored? && change.key == key && Lookup(Merged(rows, changes), key) != Lookup(Merged(rows, most), key) {
        i := |changes|;
      }
    }
  }

  /** Exactly when a merge holds a document, and exactly when it holds none. */
  lemma MergedIsExact(rows: Docs, changes: seq<Change>, key: Key, doc: Doc)
    ensures Lookup(Merged(rows, changes), key) == Some(doc) <==> exists i :: Wins(rows, changes, key, i, doc)
    ensures Lookup(Merged(rows, changes), key) == None <==> forall i :: !Stays(rows, changes, key, i)
  {
    var winner := MergedIsWinner(rows, changes, key);
    if i :| Wins(rows, changes, key, i, doc) {
      assert Stays(rows, changes, key, i);
    }
  }

  // ---------------------------------------------------------------------
  // The changes of a reader that has caught up
  // ---------------------------------------------------------------------

  /** The changes numbered above the snapshot. */
  ghost function Since(s: State): seq<Change>
    requires InBounds(s) && s.client.Following? && s.client.number <= |s.numbered|
  {
    Published(s)[s.client.number..]
  }

  /** What a reader that has caught up can rely on. */
  ghost predicate Complete(start: Docs, s: State) {
    && s.client.Following? && s.client.number <= |s.numbered| && InBounds(s)
    && IsHistory(start, s.events)
    && (forall event :: 0 <= event < |s.events| ==> event in s.numbered)
    && s.client.rowsAt <= |s.events| && s.client.rows == StateAt(start, s.events, s.client.rowsAt)
    && (forall i :: 0 <= i < s.client.number ==> s.numbered[i] < s.client.rowsAt)
    && s.client.view == Merged(s.client.rows, Since(s))
  }

  lemma CaughtUpIsComplete(start: Docs, s: State)
    requires Invariant(start, s) && CaughtUp(s)
    ensures Complete(start, s)
  {
    hide IsHistory, StateAt, Merged, Reflects;
    forall event | 0 <= event < |s.events| ensures event in s.numbered {
      assert !Outstanding(s, event);
    }
    assert Published(s)[s.client.number..|s.numbered|] == Since(s);
  }

  /** How many events the store had taken when it held offer `i`. */
  ghost function Moment(s: State, i: nat): nat
    requires s.client.Following? && s.client.number + i <= |s.numbered|
  {
    if i == 0 then s.client.rowsAt else s.numbered[s.client.number + i - 1] + 1
  }

  lemma StoredIsPast(start: Docs, events: seq<Event>, event: nat)
    requires IsHistory(start, events) && event < |events|
    ensures Lookup(StateAt(start, events, event + 1), events[event].key) == events[event].after
  {
    hide IsHistory;
  }

  /** Each offer was once the document of the store. */
  lemma OfferIsPast(start: Docs, s: State, key: Key, i: nat)
    requires Complete(start, s) && i <= |Since(s)| && Offer(s.client.rows, Since(s), key, i).Some?
    ensures Moment(s, i) <= |s.events|
    ensures Lookup(StateAt(start, s.events, Moment(s, i)), key) == Offer(s.client.rows, Since(s), key, i)
    ensures i > 0 ==> s.events[Moment(s, i) - 1].key == key && s.events[Moment(s, i) - 1].after.Some?
  {
    hide IsHistory, StateAt, Merged;
    if i > 0 {
      StoredIsPast(start, s.events, s.numbered[s.client.number + i - 1]);
    }
  }

  /** The number of an event, less one. */
  lemma NumberOf(start: Docs, s: State, event: nat) returns (n: nat)
    requires Complete(start, s) && event < |s.events|
    ensures n < |s.numbered| && s.numbered[n] == event
    ensures n < s.client.number ==> event < s.client.rowsAt
    ensures n >= s.client.number ==> n - s.client.number < |Since(s)| && Since(s)[n - s.client.number] == ChangeOf(s.events[event])
  {
    hide IsHistory, StateAt, Merged;
    assert event in s.numbered;
    n :| 0 <= n < |s.numbered| && s.numbered[n] == event;
  }

  lemma {:induction false} Untouched(start: Docs, events: seq<Event>, key: Key, from: nat, until: nat)
    requires from <= until <= |events| && forall d :: from <= d < until ==> events[d].key != key
    ensures Lookup(StateAt(start, events, until), key) == Lookup(StateAt(start, events, from), key)
    decreases until
  {
    if from < until {
      Untouched(start, events, key, from, until - 1);
    }
  }

  lemma {:induction false} LastOn(events: seq<Event>, key: Key, until: nat) returns (last: Option<nat>)
    requires until <= |events|
    ensures last.Some? ==> last.value < until && events[last.value].key == key
    ensures forall d :: (if last.Some? then last.value + 1 else 0) <= d < until ==> events[d].key != key
    decreases until
  {
    if until == 0 {
      last := None;
    } else if events[until - 1].key == key {
      last := Some(until - 1);
    } else {
      last := LastOn(events, key, until - 1);
    }
  }

  // ---------------------------------------------------------------------
  // Convergence
  // ---------------------------------------------------------------------

  /** The events up to and including the last that deletes the document. */
  ghost function Renewal(events: seq<Event>, key: Key, until: nat): (count: nat)
    requires until <= |events|
    ensures count <= until && Kept(events, key, count, until)
    ensures count > 0 ==> Deletes(events[count - 1], key)
  {
    if until == 0 || Deletes(events[until - 1], key) then until else Renewal(events, key, until - 1)
  }

  /** Offer `i` is from before the last deletion of the document. */
  ghost predicate IsOld(s: State, key: Key, i: nat)
    requires s.client.Following? && s.client.number + i <= |s.numbered|
  {
    Moment(s, i) < Renewal(s.events, key, |s.events|)
  }

  /** After the last deletion no document is newer than the store's, and a version names one document. */
  lemma NewIsOlder(start: Docs, s: State, key: Key, i: nat, doc: Doc)
    requires Complete(start, s) && Lookup(Replay(start, s.events), key) == Some(doc)
    requires i <= |Since(s)| && Offer(s.client.rows, Since(s), key, i).Some? && !IsOld(s, key, i)
    ensures var other := Offer(s.client.rows, Since(s), key, i).value; other.version < doc.version || other == doc
  {
    OfferIsPast(start, s, key, i);
    hide IsHistory, StateAt, Merged, Offer;
    VersionCounts(start, s.events, key, Moment(s, i), |s.events|);
  }

  /** `doc` is offer `i`, which stays, and each offer from before the last deletion that stays yields to it. */
  ghost predicate Outlasts(s: State, key: Key, i: nat, doc: Doc)
    requires InBounds(s) && s.client.Following? && s.client.number <= |s.numbered|
  {
    && Stays(s.client.rows, Since(s), key, i) && Offer(s.client.rows, Since(s), key, i) == Some(doc)
    && forall j :: Stays(s.client.rows, Since(s), key, j) && IsOld(s, key, j) ==>
        Yields(Offer(s.client.rows, Since(s), key, j).value, j, doc, i)
  }

  /**
   The order of the numbers brings the store's copy of `key`. When the store has
   no such document, a deletion is numbered after every change that stored it, and
   above the snapshot if that had it. Otherwise the store's document is in the
   snapshot or among the changes with no deletion numbered after it, and whatever
   is left of an earlier life of the document, with no deletion numbered after it
   either, is older, or the same, or as new and numbered later.
   */
  ghost predicate Settles(start: Docs, s: State, key: Key)
    requires InBounds(s) && s.client.Following? && s.client.number <= |s.numbered|
  {
    match Lookup(Replay(start, s.events), key)
    case None => forall i :: !Stays(s.client.rows, Since(s), key, i)
    case Some(doc) => exists i :: Outlasts(s, key, i, doc)
  }

  lemma OutlastsIsWins(start: Docs, s: State, key: Key, i: nat, doc: Doc)
    requires Complete(start, s) && Lookup(Replay(start, s.events), key) == Some(doc)
    ensures Outlasts(s, key, i, doc) <==> Wins(s.client.rows, Since(s), key, i, doc)
  {
    hide IsHistory, Replay, Merged;
    var rows, changes := s.client.rows, Since(s);
    if Outlasts(s, key, i, doc) {
      forall j | Stays(rows, changes, key, j) ensures Yields(Offer(rows, changes, key, j).value, j, doc, i) {
        if !IsOld(s, key, j) {
          NewIsOlder(start, s, key, j, doc);
        }
      }
    }
  }

  lemma CompleteConverges(start: Docs, s: State, key: Key)
    requires Complete(start, s)
    ensures Lookup(s.client.view, key) == Lookup(Replay(start, s.events), key) <==> Settles(start, s, key)
  {
    hide IsHistory, Replay, StateAt, Merged, Wins, Stays, Outlasts;
    var rows, changes := s.client.rows, Since(s);
    match Lookup(Replay(start, s.events), key)
    case None =>
      MergedIsExact(rows, changes, key, Doc(0, map[]));
    case Some(doc) =>
      MergedIsExact(rows, changes, key, doc);
      forall i ensures Outlasts(s, key, i, doc) <==> Wins(rows, changes, key, i, doc) {
        OutlastsIsWins(start, s, key, i, doc);
      }
  }

  /**
   Convergence: once nothing waits and the stream has passed every number, the
   reader holds the store's copy of a document, or none when the store has none,
   exactly when the order of the numbers settles it.
   */
  lemma ReaderConvergesExactly(start: Docs, actions: seq<Action>, key: Key)
    requires Execute(start, actions).Some? && CaughtUp(Execute(start, actions).value)
    ensures var s := Execute(start, actions).value;
      && InBounds(s) && s.client.number <= |s.numbered|
      && (Lookup(s.client.view, key) == Lookup(Replay(start, s.events), key) <==> Settles(start, s, key))
  {
    RunsKeep(start, actions);
    hide Execute, Settles, Replay;
    var s := Execute(start, actions).value;
    CaughtUpIsComplete(start, s);
    hide Invariant;
    CompleteConverges(start, s, key);
  }

  // ---------------------------------------------------------------------
  // Runs that settle a document
  // ---------------------------------------------------------------------

  lemma NotDeleted(start: Docs, s: State, key: Key, from: nat)
    requires Complete(start, s) && from <= |Since(s)|
    requires forall n :: s.client.number + from <= n < |s.numbered| ==> !Deletes(s.events[s.numbered[n]], key)
    ensures Deleted(key) !in Since(s)[from..]
  {
    hide IsHistory, StateAt, Merged;
    forall i | 0 <= i < |Since(s)[from..]| ensures Since(s)[from..][i] != Deleted(key) {
      assert !Deletes(s.events[s.numbered[s.client.number + from + i]], key);
    }
  }

  /** No offer stays that has its number before a deletion. */
  lemma DeletedLater(start: Docs, s: State, key: Key, n: nat, i: nat)
    requires Complete(start, s) && n < |s.numbered| && Deletes(s.events[s.numbered[n]], key)
    ensures s.client.number + i <= n ==> !Stays(s.client.rows, Since(s), key, i)
  {
    hide IsHistory, StateAt, Merged, Offer;
    if s.client.number + i <= n {
      assert Since(s)[i..][n - s.client.number - i] == Deleted(key);
    }
  }

  /** A document that the run never deletes settles, whatever order the threads publish in. */
  lemma NeverDeletedSettles(start: Docs, s: State, key: Key)
    requires Complete(start, s) && Kept(s.events, key, 0, |s.events|)
    ensures Settles(start, s, key)
  {
    hide IsHistory, StateAt, Merged;
    var rows, changes := s.client.rows, Since(s);
    if key !in Replay(start, s.events) {
      forall i ensures !Stays(rows, changes, key, i) {
        if Stays(rows, changes, key, i) {
          OfferIsPast(start, s, key, i);
          VersionCounts(start, s.events, key, Moment(s, i), |s.events|);
        }
      }
    } else {
      var i := OfferOfStore(start, s, key);
      NotDeleted(start, s, key, i);
      assert Outlasts(s, key, i, Replay(start, s.events)[key]);
    }
  }

  /** The store's document is offered: by the row, or by the last change on it. */
  lemma OfferOfStore(start: Docs, s: State, key: Key) returns (i: nat)
    requires Complete(start, s) && key in Replay(start, s.events)
    ensures i <= |Since(s)| && Offer(s.client.rows, Since(s), key, i) == Some(Replay(start, s.events)[key])
  {
    hide IsHistory, StateAt, Merged;
    var last := LastOn(s.events, key, |s.events|);
    if last.None? || last.value < s.client.rowsAt {
      Untouched(start, s.events, key, s.client.rowsAt, |s.events|);
      i := 0;
    } else {
      var n := NumberOf(start, s, last.value);
      Untouched(start, s.events, key, last.value + 1, |s.events|);
      StoredIsPast(start, s.events, last.value);
      i := n - s.client.number + 1;
    }
  }

  /** The changes on `key` got their numbers in commit order. */
  ghost predicate InOrder(s: State, key: Key) {
    InBounds(s) &&
    forall i, j :: 0 <= i < j < |s.numbered| && s.events[s.numbered[i]].key == key && s.events[s.numbered[j]].key == key ==>
      s.numbered[i] < s.numbered[j]
  }

  /** In commit order, no offer from before a deletion stays. */
  lemma OldIsDeleted(start: Docs, s: State, key: Key, deletion: nat, i: nat)
    requires Complete(start, s) && InOrder(s, key) && deletion < |s.events| && Deletes(s.events[deletion], key)
    requires Stays(s.client.rows, Since(s), key, i)
    ensures Moment(s, i) > deletion
  {
    hide IsHistory, StateAt, Merged;
    OfferIsPast(start, s, key, i);
    var n := NumberOf(start, s, deletion);
    DeletedLater(start, s, key, n, i);
  }

  /** In commit order, the row stays or the last change on the document is sent after every deletion. */
  lemma LastStays(start: Docs, s: State, key: Key, last: nat) returns (i: nat)
    requires Complete(start, s) && InOrder(s, key) && last < |s.events| && s.events[last].key == key
    requires s.events[last].after.Some? && forall d :: last < d < |s.events| ==> s.events[d].key != key
    ensures Stays(s.client.rows, Since(s), key, i) && Offer(s.client.rows, Since(s), key, i) == s.events[last].after
  {
    hide IsHistory, StateAt, Merged;
    var n := NumberOf(start, s, last);
    if n < s.client.number {
      i := 0;
      StoredIsPast(start, s.events, last);
      Untouched(start, s.events, key, last + 1, s.client.rowsAt);
    } else {
      i := n - s.client.number + 1;
    }
    forall m | s.client.number + i <= m < |s.numbered| ensures !Deletes(s.events[s.numbered[m]], key) {
      assert n < m;
    }
    NotDeleted(start, s, key, i);
  }

  lemma InOrderSettles(start: Docs, s: State, key: Key)
    requires Complete(start, s) && InOrder(s, key)
    ensures Settles(start, s, key)
  {
    hide IsHistory, StateAt, Merged;
    var rows, changes := s.client.rows, Since(s);
    var last := LastOn(s.events, key, |s.events|);
    if last.None? {
      NeverDeletedSettles(start, s, key);
    } else {
      StoredIsPast(start, s.events, last.value);
      Untouched(start, s.events, key, last.value + 1, |s.events|);
      if s.events[last.value].after.None? {
        forall i ensures !Stays(rows, changes, key, i) {
          if Stays(rows, changes, key, i) {
            OldIsDeleted(start, s, key, last.value, i);
            OfferIsPast(start, s, key, i);
            Untouched(start, s.events, key, last.value + 1, Moment(s, i));
          }
        }
      } else {
        var i := LastStays(start, s, key, last.value);
        var renewal := Renewal(s.events, key, |s.events|);
        forall j | Stays(rows, changes, key, j) ensures !IsOld(s, key, j) {
          if renewal > 0 {
            OldIsDeleted(start, s, key, renewal - 1, j);
          }
        }
        assert Outlasts(s, key, i, s.events[last.value].after.value);
      }
    }
  }

  /**
   A reader that has caught up holds the store's copy of each document that the
   run never deletes, and of each whose changes were numbered in commit order.
   */
  lemma ReaderConverges(start: Docs, actions: seq<Action>, key: Key)
    requires Execute(start, actions).Some? && CaughtUp(Execute(start, actions).value)
    requires var s := Execute(start, actions).value; Kept(s.events, key, 0, |s.events|) || InOrder(s, key)
    ensures var s := Execute(start, actions).value;
      Lookup(s.client.view, key) == Lookup(Replay(start, s.events), key)
  {
    RunsKeep(start, actions);
    hide Execute, Settles, Replay;
    var s := Execute(start, actions).value;
    CaughtUpIsComplete(start, s);
    hide Invariant, Complete;
    if Kept(s.events, key, 0, |s.events|) {
      NeverDeletedSettles(start, s, key);
    } else {
      InOrderSettles(start, s, key);
    }
    CompleteConverges(start, s, key);
  }

  // ---------------------------------------------------------------------
  // A copy that stays wrong
  // ---------------------------------------------------------------------

  const PAGE := Key("files", "page")
  const FIRST: Doc := Doc(1, map[])
  const CREATE := Write(Put, Some("files"), Some("page"), Absent, Some(map[]))
  const REMOVE := Write(Delete, Some("files"), Some("page"), Version(1), None)
  const CREATED := Event(CREATE, PAGE, None, Some(FIRST))
  const REMOVED := Event(REMOVE, PAGE, Some(FIRST), None)

  lemma OneWrite(docs: Docs, write: Write)
    ensures Batch(docs, [write]) == match Applied(docs, write) case Ok(event) => Ok([event]) case Err(e) => Err(e)
  {
    assert [write][..0] == [];
    assert Replay(docs, []) == docs;
    var applied := Applied(docs, write);
    assert applied.Ok? ==> [] + [applied.value] == [applied.value];
  }

  /** A page that is created and then deleted, in two batches. */
  lemma CreateThenRemove()
    ensures Batch(map[], [CREATE]) == Ok([CREATED]) && Replay(map[], [CREATED]) == map[PAGE := FIRST]
    ensures Batch(map[PAGE := FIRST], [REMOVE]) == Ok([REMOVED]) && Replay(map[], [CREATED, REMOVED]) == map[]
  {
    assert Applied(map[], CREATE) == Ok(CREATED);
    assert Applied(map[PAGE := FIRST], REMOVE) == Ok(REMOVED);
    hide Applied;
    OneWrite(map[], CREATE);
    OneWrite(map[PAGE := FIRST], REMOVE);
    var empty: Docs := map[];
    assert StateAt(empty, [CREATED], 0) == empty;
    assert StateAt(empty, [CREATED], 1) == empty[PAGE := FIRST] == map[PAGE := FIRST];
    assert StateAt(empty, [CREATED, REMOVED], 1) == After(StateAt(empty, [CREATED, REMOVED], 0), CREATED);
    assert StateAt(empty, [CREATED, REMOVED], 2) == map[PAGE := FIRST] - {PAGE} == empty;
  }

  lemma Extend(start: Docs, actions: seq<Action>, s: State, action: Action)
    requires Execute(start, actions) == Some(s)
    ensures Execute(start, actions + [action]) == Step(start, s, action)
  {
    assert (actions + [action])[..|actions|] == actions;
  }

  /** The reader takes a snapshot, and two threads commit. */
  const COMMITTED := State([CREATED, REMOVED], {Range(0, 1), Range(1, 2)}, None, [], HubState(0, []),
    Following(0, map[], 0, 0, [], map[]))

  lemma RaceCommits() returns (actions: seq<Action>)
    ensures Execute(map[], actions) == Some(COMMITTED)
  {
    CreateThenRemove();
    hide Batch, Replay;
    actions := [];
    Extend(map[], actions, INITIAL, ReadNumber);
    actions := actions + [ReadNumber];
    var s := INITIAL.(client := HasNumber(0));
    Extend(map[], actions, s, ReadRows);
    actions := actions + [ReadRows];
    assert Replay(map[], []) == map[] by { NothingReplayed(); }
    s := INITIAL.(client := Following(0, map[], 0, 0, [], map[]));
    Extend(map[], actions, s, Commit([CREATE]));
    actions := actions + [Commit([CREATE])];
    assert [] + [CREATED] == [CREATED] && {} + {Range(0, 1)} == {Range(0, 1)};
    s := s.(events := [CREATED], pending := {Range(0, 1)});
    Extend(map[], actions, s, Commit([REMOVE]));
    actions := actions + [Commit([REMOVE])];
    assert [CREATED] + [REMOVED] == [CREATED, REMOVED];
    assert {Range(0, 1)} + {Range(1, 2)} == {Range(0, 1), Range(1, 2)};
  }

  lemma NothingReplayed()
    ensures Replay(map[], []) == map[]
  {
  }

  /** With deletions the copy can stay wrong: the reader keeps a page that is gone. */
  lemma DeletedPageCanStay() returns (actions: seq<Action>)
    ensures Execute(map[], actions).Some? && CaughtUp(Execute(map[], actions).value)
    ensures var s := Execute(map[], actions).value;
      PAGE in s.client.view && PAGE !in Replay(map[], s.events)
  {
    actions := RaceCommits();
    CreateThenRemove();
    hide Replay, Batch, Execute;
    var s := COMMITTED;
    Extend(map[], actions, s, BeginPublish(Range(1, 2)));
    assert {Range(0, 1), Range(1, 2)} - {Range(1, 2)} == {Range(0, 1)};
    actions, s := actions + [BeginPublish(Range(1, 2))], s.(pending := {Range(0, 1)}, publishing := Some(Range(1, 2)));
    Extend(map[], actions, s, PublishOne);
    actions := actions + [PublishOne];
    assert Append(HubState(0, []), Deleted(PAGE)) == HubState(1, [(1, Deleted(PAGE))]) && [] + [1] == [1];
    s := s.(publishing := Some(Range(2, 2)), numbered := [1], hub := HubState(1, [(1, Deleted(PAGE))]));
    Extend(map[], actions, s, EndPublish);
    actions, s := actions + [EndPublish], s.(publishing := None);
    Extend(map[], actions, s, BeginPublish(Range(0, 1)));
    assert {Range(0, 1)} - {Range(0, 1)} == {};
    actions, s := actions + [BeginPublish(Range(0, 1))], s.(pending := {}, publishing := Some(Range(0, 1)));
    Extend(map[], actions, s, PublishOne);
    actions := actions + [PublishOne];
    var log := [(1, Deleted(PAGE)), (2, Stored(PAGE, FIRST))];
    assert Append(s.hub, Stored(PAGE, FIRST)) == HubState(2, log) && [1] + [0] == [1, 0];
    s := s.(publishing := Some(Range(1, 1)), numbered := [1, 0], hub := HubState(2, log));
    Extend(map[], actions, s, EndPublish);
    actions, s := actions + [EndPublish], s.(publishing := None);
    Extend(map[], actions, s, Deliver);
    actions := actions + [Deliver];
    AnswerIsExact(s.hub, [Deleted(PAGE), Stored(PAGE, FIRST)], 0);
    RaceMerges();
  }

  lemma RaceMerges()
    ensures PAGE in Merged(map[], [Deleted(PAGE), Stored(PAGE, FIRST)])
  {
    var changes := [Deleted(PAGE), Stored(PAGE, FIRST)];
    assert changes[..1] == [Deleted(PAGE)] && changes[..1][..0] == [];
    assert Merged(map[], changes[..1]) == map[];
  }
}
