/**
 The fingerprint of the inputs that shape a compiled crate: 64-bit FNV-1a over
 runs of bytes, each with its length ahead of it. Reading the directory is not
 part of this model; a directory is a listing of its files.

 A word is an integer below 2^64, and both operations on it are written out: the
 exclusive or bit by bit, and the wrapping product with its modulus.
 */
module Fingerprinting {
  import opened Common
  import opened Ordering

  const WORD: int := 0x1_0000_0000_0000_0000

  type word = n: int | 0 <= n < 0x1_0000_0000_0000_0000

  type byte = n: int | 0 <= n < 256

  const FNV_OFFSET_BASIS: word := 0xcbf2_9ce4_8422_2325
  const FNV_PRIME: word := 0x0000_0100_0000_01b3
  /** What undoes a multiplication by the prime. */
  const FNV_INVERSE: word := 0xce96_5057_aff6_957b

  // ---------------------------------------------------------------------
  // One step
  // ---------------------------------------------------------------------

  function Pow2(k: nat): nat {
    if k == 0 then 1 else 2 * Pow2(k - 1)
  }

  /** The exclusive or of the low `k` bits. */
  function Xor(a: nat, b: nat, k: nat): (r: nat)
    ensures r < Pow2(k)
  {
    if k == 0 then 0 else (a % 2 + b % 2) % 2 + 2 * Xor(a / 2, b / 2, k - 1)
  }

  lemma BitUndone(a: nat, b: nat)
    ensures ((a % 2 + b % 2) % 2 + b % 2) % 2 == a % 2
  {
  }

  /** Two exclusive ors with one word undo each other. */
  lemma {:induction false} XorUndone(a: nat, b: nat, k: nat)
    requires a < Pow2(k)
    ensures Xor(Xor(a, b, k), b, k) == a
  {
    if k > 0 {
      var once, low, high := Xor(a, b, k), (a % 2 + b % 2) % 2, Xor(a / 2, b / 2, k - 1);
      assert once == low + 2 * high && once % 2 == low && once / 2 == high;
      XorUndone(a / 2, b / 2, k - 1);
      BitUndone(a, b);
      hide Xor;
      assert Xor(once, b, k) == (once % 2 + b % 2) % 2 + 2 * Xor(high, b / 2, k - 1) by { XorStep(once, b, k); }
    }
  }

  lemma XorStep(a: nat, b: nat, k: nat)
    requires k > 0
    ensures Xor(a, b, k) == (a % 2 + b % 2) % 2 + 2 * Xor(a / 2, b / 2, k - 1)
  {
  }

  lemma {:induction false} XorCommutes(a: nat, b: nat, k: nat)
    ensures Xor(a, b, k) == Xor(b, a, k)
  {
    if k > 0 {
      XorCommutes(a / 2, b / 2, k - 1);
    }
  }

  predicate Bit(a: nat, i: nat) {
    if i == 0 then a % 2 == 1 else Bit(a / 2, i - 1)
  }

  /** A bit of the exclusive or is set exactly when the two bits differ. */
  lemma {:induction false} XorIsBitwise(a: nat, b: nat, k: nat, i: nat)
    requires i < k
    ensures Bit(Xor(a, b, k), i) <==> Bit(a, i) != Bit(b, i)
  {
    var low, high := (a % 2 + b % 2) % 2, Xor(a / 2, b / 2, k - 1);
    assert Xor(a, b, k) % 2 == low && Xor(a, b, k) / 2 == high;
    if i > 0 {
      XorIsBitwise(a / 2, b / 2, k - 1, i - 1);
    }
  }

  lemma WordBits()
    ensures Pow2(64) == WORD
  {
    assert Pow2(8) == 256;
    Pow2Adds(8, 8);
    Pow2Adds(16, 16);
    Pow2Adds(32, 32);
  }

  lemma {:induction false} Pow2Adds(a: nat, b: nat)
    ensures Pow2(a + b) == Pow2(a) * Pow2(b)
  {
    if a > 0 {
      Pow2Adds(a - 1, b);
    }
  }

  function Times(x: word, y: word): word {
    x * y % WORD
  }

  /** The prime and its inverse make one modulo 2^64. */
  lemma PrimeHasInverse(x: word)
    ensures Times(Times(x, FNV_PRIME), FNV_INVERSE) == x
    ensures Times(Times(x, FNV_INVERSE), FNV_PRIME) == x
  {
    UndoneBy(x, FNV_PRIME, FNV_INVERSE);
    UndoneBy(x, FNV_INVERSE, FNV_PRIME);
  }

  lemma UndoneBy(x: word, p: word, q: word)
    requires p * q % WORD == 1
    ensures Times(Times(x, p), q) == x
  {
    var k, j := p * q / WORD, x * p / WORD;
    var r := x * p % WORD;
    calc {
      r * q;
      (x * p - WORD * j) * q;
      x * (p * q) - WORD * (j * q);
      x * (1 + WORD * k) - WORD * (j * q);
      x + WORD * (x * k - j * q);
    }
    ModUnique(r * q, x, x * k - j * q);
  }

  lemma ModUnique(z: int, x: word, t: int)
    requires z == x + WORD * t
    ensures z % WORD == x
  {
  }

  function XorWord(a: word, b: word): word {
    WordBits();
    Xor(a, b, 64)
  }

  lemma XorWordUndone(a: word, b: word)
    ensures XorWord(XorWord(a, b), b) == a && XorWord(a, b) == XorWord(b, a)
  {
    WordBits();
    XorUndone(a, b, 64);
    XorCommutes(a, b, 64);
  }

  function FoldByte(state: word, b: byte): word {
    Times(XorWord(state, b), FNV_PRIME)
  }

  function UnfoldByte(state: word, b: byte): word {
    XorWord(Times(state, FNV_INVERSE), b)
  }

  /** A fold step is a bijection of the state. */
  lemma FoldIsBijection(state: word, b: byte)
    ensures UnfoldByte(FoldByte(state, b), b) == state
    ensures FoldByte(UnfoldByte(state, b), b) == state
  {
    hide XorWord, Times;
    PrimeHasInverse(XorWord(state, b));
    XorWordUndone(state, b);
    PrimeHasInverse(state);
    XorWordUndone(Times(state, FNV_INVERSE), b);
  }

  /** From one state, two bytes never lead to one state. */
  lemma FoldTellsBytes(state: word, x: byte, y: byte)
    requires FoldByte(state, x) == FoldByte(state, y)
    ensures x == y
  {
    hide XorWord, Times;
    PrimeHasInverse(XorWord(state, x));
    PrimeHasInverse(XorWord(state, y));
    XorWordUndone(x, state);
    XorWordUndone(y, state);
  }

  // ---------------------------------------------------------------------
  // A stream
  // ---------------------------------------------------------------------

  function Fold(state: word, bytes: seq<byte>): word
    decreases |bytes|
  {
    if bytes == [] then state else Fold(FoldByte(state, bytes[0]), bytes[1..])
  }

  lemma {:induction false} FoldConcat(state: word, a: seq<byte>, b: seq<byte>)
    ensures Fold(state, a + b) == Fold(Fold(state, a), b)
    decreases |a|
  {
    hide FoldByte;
    if a == [] {
      assert a + b == b;
    } else {
      assert (a + b)[0] == a[0] && (a + b)[1..] == a[1..] + b;
      FoldConcat(FoldByte(state, a[0]), a[1..], b);
    }
  }

  /** What a stream does to the state can be undone. */
  lemma {:induction false} FoldIsInjective(a: word, b: word, bytes: seq<byte>)
    requires Fold(a, bytes) == Fold(b, bytes)
    ensures a == b
    decreases |bytes|
  {
    hide FoldByte, UnfoldByte;
    if bytes != [] {
      FoldIsInjective(FoldByte(a, bytes[0]), FoldByte(b, bytes[0]), bytes[1..]);
      FoldIsBijection(a, bytes[0]);
      FoldIsBijection(b, bytes[0]);
    }
  }

  /** Two streams that differ in exactly one byte never collide. */
  lemma OneByteNeverCollides(state: word, a: seq<byte>, b: seq<byte>, i: nat)
    requires |a| == |b| && i < |a| && a[i] != b[i]
    requires forall j :: 0 <= j < |a| && j != i ==> a[j] == b[j]
    ensures Fold(state, a) != Fold(state, b)
  {
    hide FoldByte, Fold;
    var before, after := a[..i], a[i + 1..];
    assert a == before + ([a[i]] + after) && b == before + ([b[i]] + after);
    FoldConcat(state, before, [a[i]] + after);
    FoldConcat(state, before, [b[i]] + after);
    var middle := Fold(state, before);
    FoldFirst(middle, a[i], after);
    FoldFirst(middle, b[i], after);
    if Fold(state, a) == Fold(state, b) {
      FoldIsInjective(FoldByte(middle, a[i]), FoldByte(middle, b[i]), after);
      FoldTellsBytes(middle, a[i], b[i]);
    }
  }

  lemma FoldFirst(state: word, b: byte, rest: seq<byte>)
    ensures Fold(state, [b] + rest) == Fold(FoldByte(state, b), rest)
  {
    hide FoldByte;
    assert ([b] + rest)[1..] == rest;
  }

  // ---------------------------------------------------------------------
  // Framed runs
  // ---------------------------------------------------------------------

  /** The low `k` bytes of a number, least significant first. */
  function LeBytes(n: nat, k: nat): (r: seq<byte>)
    ensures |r| == k
  {
    if k == 0 then [] else [n % 256] + LeBytes(n / 256, k - 1)
  }

  function FromLe(bytes: seq<byte>): nat {
    if bytes == [] then 0 else bytes[0] + 256 * FromLe(bytes[1..])
  }

  lemma {:induction false} LeRoundTrip(n: nat, k: nat)
    requires n < Pow2(8 * k)
    ensures FromLe(LeBytes(n, k)) == n
  {
    if k > 0 {
      Pow2Adds(8, 8 * (k - 1));
      assert Pow2(8) == 256;
      LeRoundTrip(n / 256, k - 1);
    }
  }

  /** A run with its length ahead of it. */
  function Frame(run: seq<byte>): seq<byte> {
    LeBytes(|run|, 8) + run
  }

  function Stream(runs: seq<seq<byte>>): seq<byte> {
    if runs == [] then [] else Frame(runs[0]) + Stream(runs[1..])
  }

  /** Reads the runs back out of a stream. */
  function Decode(stream: seq<byte>): Option<seq<seq<byte>>>
    decreases |stream|
  {
    if stream == [] then Some([])
    else if |stream| < 8 || |stream| - 8 < FromLe(stream[..8]) then None
    else
      var end := 8 + FromLe(stream[..8]);
      match Decode(stream[end..])
      case None => None
      case Some(rest) => Some([stream[8..end]] + rest)
  }

  ghost predicate Short(runs: seq<seq<byte>>) {
    forall i :: 0 <= i < |runs| ==> |runs[i]| < WORD
  }

  /** The stream of runs decodes to them, so no two lists of runs share a stream. */
  lemma {:induction false} StreamRoundTrip(runs: seq<seq<byte>>)
    requires Short(runs)
    ensures Decode(Stream(runs)) == Some(runs)
    decreases |runs|
  {
    if runs != [] {
      var run, rest := runs[0], Stream(runs[1..]);
      var stream := Stream(runs);
      StreamRoundTrip(runs[1..]);
      FrameRoundTrip(run, rest);
      assert stream == Frame(run) + rest && stream != [];
      assert runs == [run] + runs[1..];
    }
  }

  lemma FrameRoundTrip(run: seq<byte>, rest: seq<byte>)
    requires |run| < WORD
    ensures var stream := Frame(run) + rest;
      && |stream| >= 8 + |run| && FromLe(stream[..8]) == |run|
      && stream[8..8 + |run|] == run && stream[8 + |run|..] == rest
  {
    WordBits();
    LeRoundTrip(|run|, 8);
    assert (Frame(run) + rest)[..8] == LeBytes(|run|, 8);
  }

  lemma StreamsDiffer(a: seq<seq<byte>>, b: seq<seq<byte>>)
    requires Short(a) && Short(b) && Stream(a) == Stream(b)
    ensures a == b
  {
    StreamRoundTrip(a);
    StreamRoundTrip(b);
  }

  // ---------------------------------------------------------------------
  // A directory
  // ---------------------------------------------------------------------

  /** A file of a directory: its path below it, and its contents. */
  datatype File = File(name: seq<byte>, contents: seq<byte>)

  predicate ByteLe(a: byte, b: byte) { a <= b }

  predicate FileLe(a: File, b: File) {
    if a.name == b.name then LexLe(ByteLe, a.contents, b.contents) else LexLe(ByteLe, a.name, b.name)
  }

  lemma FileLeIsTotalOrder()
    ensures TotalOrder(FileLe)
  {
    forall a, b
      ensures FileLe(a, b) || FileLe(b, a)
      ensures FileLe(a, b) && FileLe(b, a) ==> a == b
    {
      LexTotal(ByteLe, a.name, b.name);
      LexTotal(ByteLe, a.contents, b.contents);
    }
    forall a, b, c | FileLe(a, b) && FileLe(b, c) ensures FileLe(a, c) {
      LexTotal(ByteLe, a.name, b.name);
      if a.name == b.name && b.name == c.name {
        LexTransitive(ByteLe, a.contents, b.contents, c.contents);
      } else if a.name != b.name && b.name != c.name {
        LexTransitive(ByteLe, a.name, b.name, c.name);
      }
    }
  }

  /** The runs of a listing: each name and each contents, in order of name. */
  function RunsOf(files: seq<File>): seq<seq<byte>> {
    if files == [] then [] else [files[0].name, files[0].contents] + RunsOf(files[1..])
  }

  function DirectoryRuns(listing: seq<File>): seq<seq<byte>> {
    RunsOf(Sort(FileLe, listing))
  }

  /** The order in which a directory lists its files does not matter. */
  lemma ListingOrderIsIrrelevant(a: seq<File>, b: seq<File>)
    requires multiset(a) == multiset(b)
    ensures DirectoryRuns(a) == DirectoryRuns(b)
  {
    FileLeIsTotalOrder();
    SortSorts(FileLe, a);
    SortSorts(FileLe, b);
    SortedIsUnique(FileLe, Sort(FileLe, a), Sort(FileLe, b));
  }

  /** In the order of their bytes: one name starts the other, or has the smaller byte where they first differ. */
  ghost predicate ByBytes(a: seq<byte>, b: seq<byte>) {
    a <= b || exists k: nat :: DifferAt(a, b, k) && a[k] < b[k]
  }

  lemma {:induction false} RunAt(files: seq<File>, i: nat)
    requires i < |files|
    ensures |RunsOf(files)| == 2 * |files|
    ensures RunsOf(files)[2 * i] == files[i].name && RunsOf(files)[2 * i + 1] == files[i].contents
  {
    if i > 0 {
      RunAt(files[1..], i - 1);
    } else if |files| > 1 {
      RunAt(files[1..], 0);
    }
  }

  /** The files enter in the order of their names, each name right before its contents. */
  lemma FilesAreByName(listing: seq<File>, i: nat, j: nat)
    requires i < j < |listing|
    ensures |DirectoryRuns(listing)| == 2 * |listing| && ByBytes(DirectoryRuns(listing)[2 * i], DirectoryRuns(listing)[2 * j])
    ensures File(DirectoryRuns(listing)[2 * i], DirectoryRuns(listing)[2 * i + 1]) in listing
  {
    FileLeIsTotalOrder();
    SortSorts(FileLe, listing);
    var sorted := Sort(FileLe, listing);
    RunAt(sorted, i);
    RunAt(sorted, j);
    assert FileLe(sorted[i], sorted[j]) && sorted[i] in sorted;
    LexMeans(ByteLe, sorted[i].name, sorted[j].name);
  }

  lemma {:induction false} RunsTellFiles(a: seq<File>, b: seq<File>)
    requires RunsOf(a) == RunsOf(b)
    ensures a == b
  {
    if a != [] && b != [] {
      var x, y := RunsOf(a), RunsOf(b);
      assert x[0] == a[0].name && x[1] == a[0].contents && x[2..] == RunsOf(a[1..]);
      assert y[0] == b[0].name && y[1] == b[0].contents && y[2..] == RunsOf(b[1..]);
      RunsTellFiles(a[1..], b[1..]);
      assert a == [a[0]] + a[1..] && b == [b[0]] + b[1..];
    }
  }

  /** Directories share a stream exactly when they hold the same files. */
  lemma StreamTellsDirectories(a: seq<File>, b: seq<File>)
    requires Short(DirectoryRuns(a)) && Short(DirectoryRuns(b))
    ensures Stream(DirectoryRuns(a)) == Stream(DirectoryRuns(b)) <==> multiset(a) == multiset(b)
  {
    FileLeIsTotalOrder();
    SortSorts(FileLe, a);
    SortSorts(FileLe, b);
    if Stream(DirectoryRuns(a)) == Stream(DirectoryRuns(b)) {
      StreamsDiffer(DirectoryRuns(a), DirectoryRuns(b));
      RunsTellFiles(Sort(FileLe, a), Sort(FileLe, b));
    }
    if multiset(a) == multiset(b) {
      ListingOrderIsIrrelevant(a, b);
    }
  }

  // ---------------------------------------------------------------------
  // The fingerprint
  // ---------------------------------------------------------------------

  class Fingerprint {
    var state: word

    /** The starting state is the offset basis of FNV-1a for 64 bits. */
    constructor ()
      ensures state == 0xcbf29ce484222325
    {
      state := FNV_OFFSET_BASIS;
    }

    method FoldAll(bytes: seq<byte>)
      modifies this
      ensures state == Fold(old(state), bytes)
    {
      hide XorWord, Times;
      assert bytes[0..] == bytes;
      for i := 0 to |bytes|
        invariant Fold(state, bytes[i..]) == Fold(old(state), bytes)
      {
        assert bytes[i..][1..] == bytes[i + 1..];
        state := XorWord(state, bytes[i]);
        state := Times(state, FNV_PRIME);
      }
    }

    method AddBytes(run: seq<byte>)
      requires |run| < WORD
      modifies this
      ensures state == Fold(old(state), Frame(run))
    {
      FoldConcat(state, LeBytes(|run|, 8), run);
      FoldAll(LeBytes(|run|, 8));
      FoldAll(run);
    }

    method AddDirectory(listing: seq<File>)
      requires forall file :: file in listing ==> |file.name| < WORD && |file.contents| < WORD
      modifies this
      ensures state == Fold(old(state), Stream(DirectoryRuns(listing)))
    {
      hide Fold, Frame;
      var files := Sort(FileLe, listing);
      FileLeIsTotalOrder();
      SortSorts(FileLe, listing);
      assert files[0..] == files;
      for i := 0 to |files|
        invariant Fold(state, Stream(RunsOf(files[i..]))) == Fold(old(state), Stream(RunsOf(files)))
      {
        assert files[i] in files;
        assert files[i..][1..] == files[i + 1..];
        StreamOfFile(state, files[i], files[i + 1..]);
        assert RunsOf(files[i..]) == [files[i].name, files[i].contents] + RunsOf(files[i + 1..]);
        AddBytes(files[i].name);
        AddBytes(files[i].contents);
      }
      assert Fold(state, []) == state by { FoldNothing(state); }
    }
  }

  lemma FoldNothing(state: word)
    ensures Fold(state, []) == state
  {
  }

  lemma StreamOfFile(state: word, file: File, rest: seq<File>)
    ensures Fold(state, Stream([file.name, file.contents] + RunsOf(rest)))
         == Fold(Fold(Fold(state, Frame(file.name)), Frame(file.contents)), Stream(RunsOf(rest)))
  {
    hide Frame, Fold;
    var runs := [file.name, file.contents] + RunsOf(rest);
    assert runs[1..] == [file.contents] + RunsOf(rest) && runs[1..][1..] == RunsOf(rest);
    assert Stream(runs) == Frame(file.name) + (Frame(file.contents) + Stream(RunsOf(rest)));
    FoldConcat(state, Frame(file.name), Frame(file.contents) + Stream(RunsOf(rest)));
    FoldConcat(Fold(state, Frame(file.name)), Frame(file.contents), Stream(RunsOf(rest)));
  }
}
