/**
 Merging the node types of several grammars of one language. Reading and writing
 the JSON is not part of this model; a grammar that does not parse is None.
 */
module Grammar {
  import opened Common
  import opened Sequences

  datatype Ref = Ref(kind: string, named: bool)

  datatype NodeType = NodeType(kind: string, named: bool, subtypes: seq<Ref>)
  {
    function Key(): Ref { Ref(kind, named) }
  }

  /** `subtypes` with each of `more` that it lacks, in order. */
  function Extend(subtypes: seq<Ref>, more: seq<Ref>): seq<Ref>
    decreases |more|
  {
    if more == [] then subtypes
    else Extend(if more[0] in subtypes then subtypes else subtypes + [more[0]], more[1..])
  }

  /** `merged` with `node` added: to the entry of its key, or at the end. */
  function Absorb(merged: seq<NodeType>, node: NodeType): seq<NodeType> {
    if merged == [] then [node]
    else if merged[0].Key() == node.Key()
    then [merged[0].(subtypes := Extend(merged[0].subtypes, node.subtypes))] + merged[1..]
    else [merged[0]] + Absorb(merged[1..], node)
  }

  function AbsorbAll(merged: seq<NodeType>, nodes: seq<NodeType>): seq<NodeType>
    decreases |nodes|
  {
    if nodes == [] then merged else AbsorbAll(Absorb(merged, nodes[0]), nodes[1..])
  }

  function Merged(grammars: seq<seq<NodeType>>): seq<NodeType> {
    AbsorbAll([], Flatten(grammars))
  }

  // ---------------------------------------------------------------------
  // The loops of the source
  // ---------------------------------------------------------------------

  /** Adds one node: the search for its key, and the loop over its subtypes. */
  method AbsorbOne(merged: seq<NodeType>, node: NodeType) returns (r: seq<NodeType>)
    ensures r == Absorb(merged, node)
  {
    var at := 0;
    while at < |merged| && merged[at].Key() != node.Key()
      invariant at <= |merged|
      invariant Absorb(merged, node) == merged[..at] + Absorb(merged[at..], node)
    {
      assert merged[at..][1..] == merged[at + 1..];
      assert merged[..at] + ([merged[at]] + Absorb(merged[at + 1..], node)) == merged[..at + 1] + Absorb(merged[at + 1..], node);
      at := at + 1;
    }
    if at == |merged| {
      assert merged[..at] == merged;
      return merged + [node];
    }
    var subtypes := merged[at].subtypes;
    for i := 0 to |node.subtypes|
      invariant Extend(subtypes, node.subtypes[i..]) == Extend(merged[at].subtypes, node.subtypes)
    {
      assert node.subtypes[i..][1..] == node.subtypes[i + 1..];
      if node.subtypes[i] !in subtypes {
        subtypes := subtypes + [node.subtypes[i]];
      }
    }
    assert merged[at..][1..] == merged[at + 1..];
    r := merged[at := merged[at].(subtypes := subtypes)];
    assert r == merged[..at] + ([merged[at].(subtypes := subtypes)] + merged[at + 1..]);
  }

  /** Merges grammars, or reports that one of them does not parse. */
  method MergeNodeTypes(grammars: seq<Option<seq<NodeType>>>) returns (r: Option<seq<NodeType>>)
    ensures r.None? <==> exists i :: 0 <= i < |grammars| && grammars[i].None?
    ensures r.Some? ==> r.value == Merged(Parsed(grammars))
    ensures r.Some? ==> |Parsed(grammars)| == |grammars| && forall i :: 0 <= i < |grammars| ==> grammars[i] == Some(Parsed(grammars)[i])
  {
    var merged: seq<NodeType> := [];
    for i := 0 to |grammars|
      invariant forall j :: 0 <= j < i ==> grammars[j].Some?
      invariant AbsorbAll(merged, Flatten(Parsed(grammars[i..]))) == Merged(Parsed(grammars))
    {
      if grammars[i].None? {
        return None;
      }
      var nodes := grammars[i].value;
      assert grammars[i..][1..] == grammars[i + 1..];
      ghost var rest := Flatten(Parsed(grammars[i + 1..]));
      FlattenFirst(nodes, Parsed(grammars[i + 1..]));
      for k := 0 to |nodes|
        invariant AbsorbAll(merged, nodes[k..] + rest) == Merged(Parsed(grammars))
      {
        assert (nodes[k..] + rest)[0] == nodes[k] && (nodes[k..] + rest)[1..] == nodes[k + 1..] + rest;
        merged := AbsorbOne(merged, nodes[k]);
      }
      assert nodes[|nodes|..] + rest == rest;
    }
    r := Some(merged);
    ParsedHolds(grammars);
  }

  /** If all grammars parse, each is there, in order. */
  lemma {:induction false} ParsedHolds(grammars: seq<Option<seq<NodeType>>>)
    requires forall i :: 0 <= i < |grammars| ==> grammars[i].Some?
    ensures |Parsed(grammars)| == |grammars| && forall i :: 0 <= i < |grammars| ==> grammars[i] == Some(Parsed(grammars)[i])
  {
    if grammars != [] {
      ParsedHolds(grammars[1..]);
    }
  }

  function Parsed(grammars: seq<Option<seq<NodeType>>>): seq<seq<NodeType>> {
    if grammars == [] then []
    else
      var rest := Parsed(grammars[1..]);
      if grammars[0].Some? then [grammars[0].value] + rest else rest
  }

  // ---------------------------------------------------------------------
  // Merging in stages
  // ---------------------------------------------------------------------

  lemma {:induction false} ExtendHolds(subtypes: seq<Ref>, more: seq<Ref>)
    ensures forall r :: r in Extend(subtypes, more) <==> r in subtypes || r in more
    decreases |more|
  {
    if more != [] {
      ExtendHolds(if more[0] in subtypes then subtypes else subtypes + [more[0]], more[1..]);
      assert forall r :: r in more <==> r == more[0] || r in more[1..];
    }
  }

  lemma {:induction false} ExtendLast(subtypes: seq<Ref>, more: seq<Ref>, r: Ref)
    ensures Extend(subtypes, more + [r])
         == if r in Extend(subtypes, more) then Extend(subtypes, more) else Extend(subtypes, more) + [r]
    decreases |more|
  {
    if more == [] {
      assert [r][1..] == [];
    } else {
      assert (more + [r])[1..] == more[1..] + [r];
      ExtendLast(if more[0] in subtypes then subtypes else subtypes + [more[0]], more[1..], r);
    }
  }

  /** Extending by an extension is extending twice. */
  lemma {:induction false} ExtendAssociates(a: seq<Ref>, b: seq<Ref>, c: seq<Ref>)
    ensures Extend(a, Extend(b, c)) == Extend(Extend(a, b), c)
    decreases |c|
  {
    if c != [] {
      ExtendHolds(a, b);
      if c[0] in b {
        ExtendAssociates(a, b, c[1..]);
      } else {
        ExtendLast(a, b, c[0]);
        ExtendAssociates(a, b + [c[0]], c[1..]);
      }
    }
  }

  ghost predicate HasKey(nodes: seq<NodeType>, key: Ref) {
    exists i :: 0 <= i < |nodes| && nodes[i].Key() == key
  }

  ghost predicate UniqueKeys(nodes: seq<NodeType>) {
    forall i, j :: 0 <= i < j < |nodes| ==> nodes[i].Key() != nodes[j].Key()
  }

  /** Absorbing a node and then another of its key is absorbing their union. */
  lemma {:induction false} AbsorbTwice(m: seq<NodeType>, x: NodeType, n: NodeType)
    requires x.Key() == n.Key()
    ensures Absorb(Absorb(m, x), n) == Absorb(m, x.(subtypes := Extend(x.subtypes, n.subtypes)))
  {
    if m != [] {
      if m[0].Key() == x.Key() {
        ExtendAssociates(m[0].subtypes, x.subtypes, n.subtypes);
      } else {
        AbsorbTwice(m[1..], x, n);
      }
    }
  }

  /** A node whose key is there commutes with one of another key. */
  lemma {:induction false} AbsorbCommutes(m: seq<NodeType>, n: NodeType, q: NodeType)
    requires HasKey(m, n.Key()) && n.Key() != q.Key()
    ensures Absorb(Absorb(m, n), q) == Absorb(Absorb(m, q), n)
  {
    if m[0].Key() != n.Key() {
      assert HasKey(m[1..], n.Key()) by {
        var i :| 0 <= i < |m| && m[i].Key() == n.Key();
        assert m[1..][i - 1] == m[i];
      }
      AbsorbCommutes(m[1..], n, q);
    }
  }

  lemma {:induction false} AbsorbHasKeys(m: seq<NodeType>, n: NodeType, key: Ref)
    ensures HasKey(Absorb(m, n), key) <==> HasKey(m, key) || key == n.Key()
  {
    if m == [] {
      assert [n][0] == n;
    } else {
      HasKeyFirst(m, key);
      HasKeyFirst(Absorb(m, n), key);
      if m[0].Key() != n.Key() {
        AbsorbHasKeys(m[1..], n, key);
      }
    }
  }

  lemma HasKeyFirst(nodes: seq<NodeType>, key: Ref)
    requires nodes != []
    ensures HasKey(nodes, key) <==> nodes[0].Key() == key || HasKey(nodes[1..], key)
  {
    if HasKey(nodes, key) && nodes[0].Key() != key {
      var i :| 0 <= i < |nodes| && nodes[i].Key() == key;
      assert nodes[1..][i - 1] == nodes[i];
    }
    if HasKey(nodes[1..], key) {
      var i :| 0 <= i < |nodes[1..]| && nodes[1..][i].Key() == key;
      assert nodes[i + 1] == nodes[1..][i];
    }
  }

  lemma {:induction false} AbsorbPast(m: seq<NodeType>, n: NodeType, rest: seq<NodeType>)
    requires HasKey(m, n.Key()) && !HasKey(rest, n.Key())
    ensures AbsorbAll(Absorb(m, n), rest) == Absorb(AbsorbAll(m, rest), n)
    decreases |rest|
  {
    if rest != [] {
      HasKeyFirst(rest, n.Key());
      AbsorbCommutes(m, n, rest[0]);
      AbsorbHasKeys(m, rest[0], n.Key());
      AbsorbPast(Absorb(m, rest[0]), n, rest[1..]);
    }
  }

  /** Absorbing a node into a list and the list into `m`, in either order. */
  lemma {:induction false} AbsorbAllAbsorb(m: seq<NodeType>, list: seq<NodeType>, n: NodeType)
    requires UniqueKeys(list)
    ensures AbsorbAll(m, Absorb(list, n)) == Absorb(AbsorbAll(m, list), n)
    decreases |list|
  {
    if list == [] {
      assert AbsorbAll(m, [n]) == AbsorbAll(Absorb(m, n), [n][1..]);
    } else {
      var x, rest := list[0], list[1..];
      if x.Key() == n.Key() {
        var both := x.(subtypes := Extend(x.subtypes, n.subtypes));
        assert ([both] + rest)[0] == both && ([both] + rest)[1..] == rest;
        AbsorbTwice(m, x, n);
        AbsorbHasKeys(m, x, n.Key());
        assert !HasKey(rest, n.Key());
        AbsorbPast(Absorb(m, x), n, rest);
      } else {
        assert ([x] + Absorb(rest, n))[0] == x && ([x] + Absorb(rest, n))[1..] == Absorb(rest, n);
        AbsorbAllAbsorb(Absorb(m, x), rest, n);
      }
    }
  }

  lemma {:induction false} AbsorbKeepsUnique(m: seq<NodeType>, n: NodeType)
    requires UniqueKeys(m)
    ensures UniqueKeys(Absorb(m, n))
  {
    if m != [] && m[0].Key() != n.Key() {
      AbsorbKeepsUnique(m[1..], n);
      var rest := Absorb(m[1..], n);
      AbsorbHasKeys(m[1..], n, m[0].Key());
      assert !HasKey(m[1..], m[0].Key());
      assert forall i :: 0 <= i < |rest| ==> rest[i].Key() != m[0].Key();
    }
  }

  lemma {:induction false} AbsorbAllConcat(m: seq<NodeType>, a: seq<NodeType>, b: seq<NodeType>)
    ensures AbsorbAll(m, a + b) == AbsorbAll(AbsorbAll(m, a), b)
    decreases |a|
  {
    if a == [] {
      assert a + b == b;
    } else {
      assert (a + b)[0] == a[0] && (a + b)[1..] == a[1..] + b;
      AbsorbAllConcat(Absorb(m, a[0]), a[1..], b);
    }
  }

  lemma {:induction false} MergedIsUnique(nodes: seq<NodeType>)
    ensures UniqueKeys(AbsorbAll([], nodes))
    decreases |nodes|
  {
    if nodes != [] {
      var most, last := nodes[..|nodes| - 1], nodes[|nodes| - 1];
      MergedIsUnique(most);
      assert nodes == most + [last];
      AbsorbAllConcat([], most, [last]);
      AbsorbKeepsUnique(AbsorbAll([], most), last);
    }
  }

  /** Absorbing what a merge made is absorbing what it was made of. */
  lemma {:induction false} AbsorbMerged(m: seq<NodeType>, nodes: seq<NodeType>)
    ensures AbsorbAll(m, AbsorbAll([], nodes)) == AbsorbAll(m, nodes)
    decreases |nodes|
  {
    if nodes != [] {
      var most, last := nodes[..|nodes| - 1], nodes[|nodes| - 1];
      assert nodes == most + [last];
      AbsorbMerged(m, most);
      AbsorbAllConcat([], most, [last]);
      AbsorbAllConcat(m, most, [last]);
      MergedIsUnique(most);
      AbsorbAllAbsorb(m, AbsorbAll([], most), last);
    }
  }

  /** Merging in stages is merging at once, order included; and a merge of a merge is itself. */
  lemma MergeIsHomomorphism(a: seq<seq<NodeType>>, b: seq<seq<NodeType>>)
    ensures Merged([Merged(a), Merged(b)]) == Merged(a + b)
    ensures Merged([Merged(a)]) == Merged(a)
    ensures UniqueKeys(Merged(a))
  {
    var x, y := Flatten(a), Flatten(b);
    MergedIsUnique(x);
    FlattenConcat(a, b);
    FlattenPair(Merged(a), Merged(b));
    AbsorbAllConcat([], x, y);
    AbsorbAllConcat([], Merged(a), Merged(b));
    AbsorbMerged([], x);
    AbsorbMerged(Merged(a), y);
  }

  lemma FlattenPair(a: seq<NodeType>, b: seq<NodeType>)
    ensures Flatten([a, b]) == a + b && Flatten([a]) == a
  {
    assert [a, b] == [a] + [b];
    FlattenFirst(a, [b]);
    FlattenOne(b);
    FlattenOne(a);
  }

  // ---------------------------------------------------------------------
  // What a merge holds
  // ---------------------------------------------------------------------

  /** Every subtype that a node of this key lists. */
  ghost predicate Lists(nodes: seq<NodeType>, key: Ref, r: Ref) {
    exists i :: 0 <= i < |nodes| && nodes[i].Key() == key && r in nodes[i].subtypes
  }

  ghost function Keys(nodes: seq<NodeType>): seq<Ref> {
    seq(|nodes|, i requires 0 <= i < |nodes| => nodes[i].Key())
  }

  lemma ListsFirst(nodes: seq<NodeType>, key: Ref, r: Ref)
    requires nodes != []
    ensures Lists(nodes, key, r) <==> (nodes[0].Key() == key && r in nodes[0].subtypes) || Lists(nodes[1..], key, r)
  {
    if Lists(nodes, key, r) && !(nodes[0].Key() == key && r in nodes[0].subtypes) {
      var i :| 0 <= i < |nodes| && nodes[i].Key() == key && r in nodes[i].subtypes;
      assert nodes[1..][i - 1] == nodes[i];
    }
    if Lists(nodes[1..], key, r) {
      var i :| 0 <= i < |nodes[1..]| && nodes[1..][i].Key() == key && r in nodes[1..][i].subtypes;
      assert nodes[i + 1] == nodes[1..][i];
    }
  }

  lemma {:induction false} AbsorbLists(m: seq<NodeType>, n: NodeType, key: Ref, r: Ref)
    ensures Lists(Absorb(m, n), key, r) <==> Lists(m, key, r) || (n.Key() == key && r in n.subtypes)
  {
    if m == [] {
      ListsFirst([n], key, r);
    } else {
      ListsFirst(m, key, r);
      ListsFirst(Absorb(m, n), key, r);
      if m[0].Key() == n.Key() {
        ExtendHolds(m[0].subtypes, n.subtypes);
      } else {
        AbsorbLists(m[1..], n, key, r);
      }
    }
  }

  /** The keys and the subtypes of a merge are the unions of those it merged. */
  lemma {:induction false} MergeIsUnion(m: seq<NodeType>, nodes: seq<NodeType>, key: Ref, r: Ref)
    ensures HasKey(AbsorbAll(m, nodes), key) <==> HasKey(m, key) || HasKey(nodes, key)
    ensures Lists(AbsorbAll(m, nodes), key, r) <==> Lists(m, key, r) || Lists(nodes, key, r)
    decreases |nodes|
  {
    if nodes != [] {
      AbsorbHasKeys(m, nodes[0], key);
      AbsorbLists(m, nodes[0], key, r);
      HasKeyFirst(nodes, key);
      ListsFirst(nodes, key, r);
      MergeIsUnion(Absorb(m, nodes[0]), nodes[1..], key, r);
    }
  }

  lemma {:induction false} AbsorbKeys(m: seq<NodeType>, n: NodeType)
    ensures Keys(Absorb(m, n)) == if n.Key() in Keys(m) then Keys(m) else Keys(m) + [n.Key()]
  {
    if m != [] {
      assert Keys(m) == [m[0].Key()] + Keys(m[1..]);
      if m[0].Key() != n.Key() {
        AbsorbKeys(m[1..], n);
        assert Keys(Absorb(m, n)) == [m[0].Key()] + Keys(Absorb(m[1..], n));
      }
    }
  }

  /** Entries keep the order in which their keys first appear. */
  lemma {:induction false} MergeKeepsFirstOrder(nodes: seq<NodeType>)
    ensures Keys(AbsorbAll([], nodes)) == Dedup(Keys(nodes))
    decreases |nodes|
  {
    if nodes != [] {
      var most, last := nodes[..|nodes| - 1], nodes[|nodes| - 1];
      assert nodes == most + [last];
      MergeKeepsFirstOrder(most);
      AbsorbAllConcat([], most, [last]);
      assert [last][1..] == [];
      AbsorbKeys(AbsorbAll([], most), last);
      assert Keys(nodes) == Keys(most) + [last.Key()];
      DedupStep(Keys(most), last.Key());
    }
  }

  /** All that the nodes of a key list, one after the other. */
  ghost function Listing(nodes: seq<NodeType>, key: Ref): seq<Ref> {
    if nodes == [] then []
    else Listing(nodes[..|nodes| - 1], key) + if nodes[|nodes| - 1].Key() == key then nodes[|nodes| - 1].subtypes else []
  }

  lemma {:induction false} ListingConcat(a: seq<NodeType>, b: seq<NodeType>, key: Ref)
    ensures Listing(a + b, key) == Listing(a, key) + Listing(b, key)
    decreases |b|
  {
    if b == [] {
      assert a + b == a;
    } else {
      assert (a + b)[..|a + b| - 1] == a + b[..|b| - 1];
      ListingConcat(a, b[..|b| - 1], key);
    }
  }

  lemma ListingOne(node: NodeType, key: Ref)
    ensures Listing([node], key) == if node.Key() == key then node.subtypes else []
  {
    assert [node][..0] == [];
  }

  /** What a merge adds to a list comes after it, in order, and without what is there already. */
  lemma {:induction false} ExtendIsDedup(subtypes: seq<Ref>, more: seq<Ref>)
    ensures Dedup(Extend(subtypes, more)) == Dedup(subtypes + more)
    ensures subtypes <= Extend(subtypes, more)
    decreases |more|
  {
    hide Dedup;
    if more == [] {
      assert subtypes + more == subtypes;
    } else {
      var next := if more[0] in subtypes then subtypes else subtypes + [more[0]];
      ExtendIsDedup(next, more[1..]);
      assert (subtypes + [more[0]]) + more[1..] == subtypes + more;
      if more[0] in subtypes {
        DedupDrops(subtypes, more[0], more[1..]);
      }
    }
  }

  lemma {:induction false} DedupDrops(a: seq<Ref>, x: Ref, b: seq<Ref>)
    requires x in a
    ensures Dedup(a + b) == Dedup((a + [x]) + b)
    decreases |b|
  {
    if b == [] {
      assert a + b == a && (a + [x]) + b == a + [x];
      DedupHolds(a);
      DedupStep(a, x);
    } else {
      var most, last := b[..|b| - 1], b[|b| - 1];
      DedupDrops(a, x, most);
      assert a + b == (a + most) + [last] && (a + [x]) + b == ((a + [x]) + most) + [last];
      DedupStep(a + most, last);
      DedupStep((a + [x]) + most, last);
    }
  }

  lemma ListingFirst(nodes: seq<NodeType>, key: Ref)
    requires nodes != []
    ensures Listing(nodes, key) == (if nodes[0].Key() == key then nodes[0].subtypes else []) + Listing(nodes[1..], key)
  {
    assert nodes == [nodes[0]] + nodes[1..];
    ListingConcat([nodes[0]], nodes[1..], key);
    ListingOne(nodes[0], key);
  }

  /** A node joins the entry of its key. */
  lemma JoinListing(m: seq<NodeType>, n: NodeType, key: Ref)
    requires UniqueKeys(m) && m != [] && m[0].Key() == n.Key() == key
    ensures Dedup(Listing(Absorb(m, n), key)) == Dedup(Listing(m, key) + n.subtypes)
  {
    var joined := m[0].(subtypes := Extend(m[0].subtypes, n.subtypes));
    ListingFirst(m, key);
    ListingFirst(Absorb(m, n), key);
    NothingListed(m[1..], key);
    ExtendIsDedup(m[0].subtypes, n.subtypes);
    hide Listing, Dedup, Extend, UniqueKeys;
    assert Absorb(m, n)[0] == joined && Absorb(m, n)[1..] == m[1..];
    assert m[0].subtypes + [] == m[0].subtypes && joined.subtypes + [] == joined.subtypes;
  }

  ghost function Under(node: NodeType, key: Ref): seq<Ref> {
    if node.Key() == key then node.subtypes else []
  }

  /** A node goes past the entry of another key. */
  lemma PassListing(m: seq<NodeType>, n: NodeType, key: Ref)
    requires m != [] && m[0].Key() != n.Key()
    requires Dedup(Listing(Absorb(m[1..], n), key)) == Dedup(Listing(m[1..], key) + Under(n, key))
    ensures Dedup(Listing(Absorb(m, n), key)) == Dedup(Listing(m, key) + Under(n, key))
  {
    hide Listing, Dedup;
    var all, rest, next := Absorb(m, n), m[1..], Absorb(m[1..], n);
    assert all == [m[0]] + next;
    hide Absorb;
    assert all[0] == m[0] && all[1..] == next;
    ListingFirst(m, key);
    ListingFirst(all, key);
    PastFront(Under(m[0], key), Listing(next, key), Listing(rest, key), Under(n, key));
  }

  lemma PastFront(front: seq<Ref>, next: seq<Ref>, rest: seq<Ref>, more: seq<Ref>)
    requires Dedup(next) == Dedup(rest + more)
    ensures Dedup(front + next) == Dedup(front + rest + more)
  {
    hide Dedup;
    DedupOfParts(front, next);
    DedupOfParts(front, rest + more);
    assert front + (rest + more) == front + rest + more;
  }

  lemma {:induction false} AbsorbListing(m: seq<NodeType>, n: NodeType, key: Ref)
    requires UniqueKeys(m)
    ensures Dedup(Listing(Absorb(m, n), key)) == Dedup(Listing(m, key) + Under(n, key))
  {
    hide Listing, Dedup;
    if m == [] {
      ListingOne(n, key);
      NothingListed(m, key);
      assert [] + Under(n, key) == Under(n, key);
    } else if m[0].Key() != n.Key() {
      AbsorbListing(m[1..], n, key);
      PassListing(m, n, key);
    } else if n.Key() == key {
      JoinListing(m, n, key);
    } else {
      ListingFirst(m, key);
      ListingFirst(Absorb(m, n), key);
      assert Absorb(m, n)[1..] == m[1..] && Listing(m, key) + [] == Listing(m, key);
    }
  }

  lemma {:induction false} NothingListed(nodes: seq<NodeType>, key: Ref)
    requires forall i :: 0 <= i < |nodes| ==> nodes[i].Key() != key
    ensures Listing(nodes, key) == []
  {
    if nodes != [] {
      NothingListed(nodes[..|nodes| - 1], key);
    }
  }

  /** The subtypes of each key are in the order in which they first appear. */
  lemma {:induction false} MergeKeepsSubtypeOrder(nodes: seq<NodeType>, key: Ref)
    ensures Dedup(Listing(AbsorbAll([], nodes), key)) == Dedup(Listing(nodes, key))
    decreases |nodes|
  {
    if nodes != [] {
      var most, last := nodes[..|nodes| - 1], nodes[|nodes| - 1];
      assert nodes == most + [last] && [last][1..] == [];
      MergeKeepsSubtypeOrder(most, key);
      AbsorbAllConcat([], most, [last]);
      MergedIsUnique(most);
      var merged, more := AbsorbAll([], most), Under(last, key);
      AbsorbListing(merged, last, key);
      DedupOfFront(Listing(merged, key), more);
      DedupOfFront(Listing(most, key), more);
    }
  }
}
