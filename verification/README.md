# Stiles, modelled in Dafny

Stiles is a lint platform. This project models the parts of it whose
correctness rests on invariants, and proves what those parts promise:

- the search for public paths in the Rust provider (`PublicPaths.dfy`);
- the bundler that turns crates into modules of one crate: its rewriter
  (`Tokens.dfy`, `Splice.dfy`, `Rewrite.dfy`, `Bundler.dfy`,
  `BundleMeaning.dfy`, `Sweep.dfy`), what the paths of a bundle name (`Resolver.dfy`,
  `BundleNames.dfy`, `BundleFidelity.dfy`, `BundleLosses.dfy`), and its closure of
  dependencies (`Closure.dfy`);
- the docs desk: its store, its event hub, and both under every interleaving of
  threads (`DeskStore.dfy`, `DeskHub.dfy`, `DeskProtocol.dfy`,
  `DeskConvergence.dfy`);
- the decoration index that plugins search (`Decorations.dfy`);
- the merge of grammars and the visitor generated from it (`Grammar.dfy`,
  `Visitor.dfy`, `GrammarCycles.dfy`, `MergedVisitor.dfy`);
- the walk of lint passes and the pipeline around it (`Walker.dfy`,
  `Pipeline.dfy`);
- the fingerprint of build inputs (`Fingerprinting.dfy`) and the routing of rule
  options (`RuleOptions.dfy`).

`Common.dfy`, `Ordering.dfy` and `Sequences.dfy` hold what these share.
`dafny verify dfyconfig.toml` checks the project.

## How to read it

Code that changes state is a class or a method with loops; its contract ties it
to a function of its inputs, and lemmas prove what the source promises about that
function. Each main result has an independent reference: walks along offered
modules for the search, bytes with a provenance for the splice, a resolver that
follows imports for the meaning of a path, a linear scan for the index, chains of
references for the visitor, a list of calls for the walk, a decoder for the
fingerprint.

Foreign code appears as the data it answers with: rust-analyzer is a finite
database, a parsed tree is a tree of named nodes, the lexer's output is a token
tree whose identifiers and groups are nested in order, a lint pass is a state
with a step function, a panic is a value. A checked downcast compares type tags.

## What the proofs found

- A reader of the docs desk that keeps a copy of the documents does not always
  end up with the store's: `DeletedPageCanStay` is a run in which it keeps a page
  that is gone, because the thread that deleted it published before the thread
  that created it. `ReaderConvergesExactly` says when the copy is right, for each
  document of each run, by the order in which the changes got their numbers. It is
  right for every document that is never deleted, and for every one whose changes
  are numbered in commit order (`ReaderConverges`).
- A bundle does not keep every meaning. `Survives` is the exact condition: all
  imports keep their meaning if and only if each of them survives
  (`ImportsAreExact`), and then any other path keeps its meaning if and only if it
  survives (`PathKeepsMeaning`). What does not survive:
  - a bare `crate`, as in `use crate as r`, which the rewriter leaves alone: it was
    the crate and is the bundle (`BareExample`);
  - an entry of braces that starts with the name of a crate, which gains a `crate`
    in the middle of its path (`EnteringExample`);
  - a path whose head is a crate for the rewriter and another name for Rust, because
    the module has that name in scope (`ShadowingExample`);
  - a path to an exported macro in another way than by the name of its crate and its
    own: through an alias of the crate (`AliasExample`), relative to its root, or
    inside braces;
  - a path of a crate and a name that is also the name of an exported macro, when
    it names something else (`BundleIsFaithful`).
- Merging grammars can lose a call when a kind is concrete in one grammar and a
  supertype in another (`DisagreementLosesACall`), and it loses none exactly when
  the grammars agree on that (`MergeKeepsDispatchExactly`).
- The recursion that collects the leaves of a supertype has no guard against
  cycles. It ends on a node exactly when no chain of references from the node comes
  back (`RecursionEnds`).
- `get` on a decoration map is the head of `get_all` exactly when no entry of
  another type under the same key comes first and hides one of the type
  (`FirstIsHead`, `ShadowHides`).

## Model

| member | source | states |
|---|---|---|
| PublicPaths.ScanScope | crates/stiles-rust/src/provider.rs:925-954 | The loop over one scope queues each newly offered module once, with its name after the prefix. |
| PublicPaths.PublicModulePaths | crates/stiles-rust/src/provider.rs:914-958 | The breadth-first loop ends on every finite graph, cycles included, and returns an exact table of shortest paths. |
| PublicPaths.ModulePathsAreExact | crates/stiles-rust/src/provider.rs:902-958 | The keys are exactly the modules that a walk along offered modules reaches; each path spells such a walk, and no walk to that module is shorter. |
| PublicPaths.NextKeeps | crates/stiles-rust/src/provider.rs:921-955 | Scanning the head of the queue keeps the invariant: the queue is level by level, and every module that left it has all it offers in the table, at most one level down. |
| PublicPaths.NoShorterWalk | crates/stiles-rust/src/provider.rs:904-906 | Once nothing is queued, every offered walk ends in the table and is no shorter than the stored path. |
| PublicPaths.ModulePaths.Of | crates/stiles-rust/src/provider.rs:893-899 | Whatever the file asked before, the memo answers what a fresh walk of the crate would. |
| PublicPaths.LeastIsLeast | crates/stiles-rust/src/provider.rs:1069-1080 | The choice is a candidate, before every other in length and then in alphabetical order where they first differ, and missing only when there is none. |
| PublicPaths.ChosenIsShortest | crates/stiles-rust/src/provider.rs:1062-1081 | For one dependency the choice is a real public path that is not hidden, none has fewer segments, it comes first of those listed, and there is one exactly when the dependency exposes the item. |
| PublicPaths.TakesWhatOpens | crates/stiles-rust/src/provider.rs:932-950 | The search enters a module exactly when the import map lists it in the scanned module under that name and does not hide it. |
| PublicPaths.PathsToIsExact | crates/stiles-rust/src/provider.rs:1009-1092 | By increasing index of the dependencies, one shortest public path for each that exposes the item, and nothing else; a variant takes those of its enum with its own name after them, and any other item its own with nothing after them. |
| PublicPaths.Choose | crates/stiles-rust/src/provider.rs:1062-1077 | The choice made through the memo is the choice a fresh walk gives. |
| PublicPaths.PublicPathsTo | crates/stiles-rust/src/provider.rs:1022-1092 | The loop over the dependencies returns that list, for any earlier use of the memo, and leaves the memo right. |
| Tokens.MacroLiteralIsExact | tools/bundle-tsrs/src/rewrite.rs:297-324 | A string comes back exactly for a call with one plain string literal that holds no escape, without its quotes and with the end of the group; an error exactly for one that holds an escape. |
| Sweep.SpanIsSweep | tools/bundle-tsrs/src/rewrite.rs:132-200 | The visit sweeps over the identifiers of the tree in reading order, up to the first that cannot be read. |
| Sweep.SpotsHold | tools/bundle-tsrs/src/rewrite.rs:139-151 | The sweep meets every identifier, at any depth, and nothing else. |
| Sweep.SpotsInOrder | tools/bundle-tsrs/src/rewrite.rs:139-151 | Reading order is the order of the text. |
| Sweep.VisitFailsExactly | tools/bundle-tsrs/src/rewrite.rs:176-197 | A visit fails exactly when some call of `env!`, `include_str!` or `include_bytes!`, at any depth, has a string with an escape. |
| Sweep.VisitFailsFirst | tools/bundle-tsrs/src/rewrite.rs:176-197 | The failure names the string of the first such call. |
| Sweep.IncludesAreExact | tools/bundle-tsrs/src/rewrite.rs:190-197 | The listed files are those of the includes of the tree, each once for each include and in reading order. |
| Sweep.CrateIsMoved | tools/bundle-tsrs/src/rewrite.rs:153-159 | Token by token: a `crate` gains the name of its crate exactly before a `::` that does not lead to an exported macro. |
| Sweep.CrateNameIsMoved | tools/bundle-tsrs/src/rewrite.rs:160-175 | Token by token: the name of a crate gains or gives way to `crate::`, and right after `::` or `.` stays. |
| Splice.Apply | tools/bundle-tsrs/src/rewrite.rs:326-343 | Applying edits succeeds exactly when no two of them overlap, and then splices them in order of range. |
| Splice.SpliceSorted | tools/bundle-tsrs/src/rewrite.rs:329-342 | The loop over sorted edits stops at the first that starts before the end of the one ahead of it, and otherwise builds the splice. |
| Splice.SortedIsOrdered | tools/bundle-tsrs/src/rewrite.rs:328-336 | The test of the loop on sorted edits is the absence of overlaps among all pairs. |
| Splice.SplicedRenders | tools/bundle-tsrs/src/rewrite.rs:330-342 | Each byte of the output is a byte of the text or a byte that an edit adds, piece by piece. |
| Splice.KeepsTheRest | tools/bundle-tsrs/src/rewrite.rs:15-17 | The bytes kept from the text are exactly those outside every edit, each once and in order. |
| Splice.SplicedLength | tools/bundle-tsrs/src/rewrite.rs:329-342 | The output is as long as the text, less the bytes removed, plus the bytes inserted. |
| Rewrite.Visit | tools/bundle-tsrs/src/rewrite.rs:132-200 | The recursive loop appends to its two lists exactly what the tokens call for, or reports the first unreadable literal. |
| Rewrite.SpanIsOrdered | tools/bundle-tsrs/src/rewrite.rs:140-198 | In every well-nested token tree the edits of a span are in order, disjoint, and stop where the next token starts. |
| Rewrite.VisitedIsOrdered | tools/bundle-tsrs/src/rewrite.rs:117-130 | The edits of a file never overlap and come out already sorted. |
| Rewrite.RewriteFile | tools/bundle-tsrs/src/rewrite.rs:117-130 | A rewrite fails only on an unreadable literal, never on an overlap, and otherwise returns the splice and the includes. |
| Bundler.HasMacroExport | tools/bundle-tsrs/src/rewrite.rs:245-266 | The backward loop finds `#[macro_export]` exactly when it is among the attributes right before the token. |
| Bundler.CollectMacros | tools/bundle-tsrs/src/rewrite.rs:221-243 | The counts grow by exactly the exported macros that the tree defines. |
| Bundler.Rewriter.CollectExportedMacros | tools/bundle-tsrs/src/rewrite.rs:91-100 | After any files, the counts are those of all exported macros in them. |
| Bundler.Rewriter.CheckExportedMacros | tools/bundle-tsrs/src/rewrite.rs:102-115 | The check passes exactly when each macro is exported once and no crate has its name. |
| Bundler.Rewriter.RewriteText | tools/bundle-tsrs/src/rewrite.rs:117-130 | The rewriter splices by its crates and the macros it collected, returns the files that are included, and fails only on an unreadable literal. |
| Bundler.BundleFiles | tools/bundle-tsrs/src/main.rs:97-110 | Every file is collected, then checked, then rewritten by the macros of all: the result is the bundle, or why there is none. |
| Bundler.RewriteFiles | tools/bundle-tsrs/src/main.rs:180-184 | The loop rewrites each file, up to the first that cannot be read. |
| BundleMeaning.Locate | tools/bundle-tsrs/src/rewrite.rs:140-198 | Around any span of any nested list, the edits of the file split into those before, those of the span, and those after. |
| BundleMeaning.ImageStands | tools/bundle-tsrs/src/rewrite.rs:140-175 | The edits of a file are those before a run of names, those that make its image of exactly the bytes it took, and those after it. |
| BundleMeaning.StandsInOutput | tools/bundle-tsrs/src/rewrite.rs:326-343 | The output is then the rewrite of what came before, the image, and the rewrite of what came after. |
| BundleMeaning.ImageIsSpelled | tools/bundle-tsrs/src/rewrite.rs:153-175 | The image of a plainly spelled run is the moved run, plainly spelled, whatever its head; a bare `crate` stays. |
| BundleFidelity.MovedRoute | tools/bundle-tsrs/src/rewrite.rs:3-11 | A path that the rewriter moves, or leaves alone, sets out in the bundle from the module it set out from in the workspace. |
| BundleFidelity.ResolvedKeeps | tools/bundle-tsrs/src/rewrite.rs:3-11 | If no import breaks, then along every walk and every chain of imports a path that survives names in the bundle what it named. |
| BundleFidelity.WalksAgree | tools/bundle-tsrs/src/rewrite.rs:3-11 | If the imports are kept, then from each module of the crates the bundle leads exactly where the workspace does, but for the places of exported macros. |
| BundleFidelity.ImportsAreExact | tools/bundle-tsrs/src/rewrite.rs:153-175 | Every import of a workspace keeps its meaning exactly when every one survives. |
| BundleFidelity.LandedIsLost | tools/bundle-tsrs/src/rewrite.rs:9-11 | A path that is not plain and ends where a macro was exported names nothing in the bundle. |
| BundleFidelity.PathKeepsMeaning | tools/bundle-tsrs/src/rewrite.rs:3-11 | In a workspace whose imports survive, a path that named something names that and nothing else in the bundle, exactly when it survives. |
| BundleFidelity.BundleIsFaithful | tools/bundle-tsrs/src/rewrite.rs:102-115 | All imports and all plain paths to macros keep their meaning exactly when every import survives and macros stand alone under their names. |
| BundleLosses.BareImportBreaks | tools/bundle-tsrs/src/rewrite.rs:153-159 | Any import of a bare `crate` was its crate and is the bundle. |
| BundleLosses.BareExample | tools/bundle-tsrs/src/rewrite.rs:153-159 | A workspace with such an import. |
| BundleLosses.EnteringImportBreaks | tools/bundle-tsrs/src/rewrite.rs:160-175 | Any import with a brace entry that starts with the name of a crate names nothing any more. |
| BundleLosses.EnteringExample | tools/bundle-tsrs/src/rewrite.rs:160-175 | A workspace with such an import. |
| BundleLosses.ShadowedPathChanges | tools/bundle-tsrs/src/rewrite.rs:160-175 | A path whose head another name hides comes to name what the crate of that name has. |
| BundleLosses.ShadowingExample | tools/bundle-tsrs/src/rewrite.rs:160-175 | A workspace with such a path. |
| BundleLosses.AliasLosesMacro | tools/bundle-tsrs/src/rewrite.rs:202-213 | Through an alias of its crate a path named a macro, and names nothing. |
| BundleLosses.AliasExample | tools/bundle-tsrs/src/rewrite.rs:202-213 | A workspace with such a path. |
| Resolver.LeadsOne | tools/bundle-tsrs/src/rewrite.rs:3-11 | A path names at most one thing. |
| BundleFidelity.ImportIsMoved | tools/bundle-tsrs/src/rewrite.rs:132-200 | Each import of the bundle is one of its files: every run of it stands there as the rewriter moved it. |
| BundleFidelity.BundleKeepsMeaning | tools/bundle-tsrs/src/rewrite.rs:132-213 | In the files of a bundle, the image of every path, at any depth, stands where the path stood and is the moved path, which names what the path named exactly when the path survives. |
| BundleNames.OneExporter | tools/bundle-tsrs/src/rewrite.rs:103-109 | A macro that is counted once has one crate that exports it. |
| BundleMeaning.ManifestDirStands | tools/bundle-tsrs/src/rewrite.rs:176-189 | The edits turn exactly the bytes of a call `env!("CARGO_MANIFEST_DIR")` into the one that adds the directory of the crate. |
| BundleMeaning.ManifestDirMeans | tools/bundle-tsrs/src/rewrite.rs:182-187 | The new call evaluates to the directory of the bundle, a slash and the name of the crate. |
| BundleMeaning.EditHasOrigin | tools/bundle-tsrs/src/rewrite.rs:153-197 | Every edit comes from a `crate`, a crate name or an `env` somewhere in the tree. |
| BundleMeaning.IncludeHasOrigin | tools/bundle-tsrs/src/rewrite.rs:190-197 | Every listed include is one of the file. |
| BundleMeaning.IncludeIsListed | tools/bundle-tsrs/src/rewrite.rs:190-197 | Every include of the file, at any depth, is listed. |
| Closure.Collect | tools/bundle-tsrs/src/metadata.rs:123-137 | The worklist ends on every graph, fails exactly when a root is missing, and otherwise has seen exactly the crates that non-dev dependencies reach. |
| Closure.ByNameIsExact | tools/bundle-tsrs/src/metadata.rs:117-121 | The workspace has each name that a package has, with the last package of the name. |
| Closure.ClosureOf | tools/bundle-tsrs/src/metadata.rs:113-140 | It fails exactly when no package has the name of some root, and otherwise returns each reachable crate once, ordered by name. |
| Closure.ClosureIgnoresOrder | tools/bundle-tsrs/src/metadata.rs:116-140 | The closure depends on which roots there are, not on their order. |
| DeskStore.AppliedIsExact | docs/tools/desk.py:102-140 | Exactly which writes are accepted; an accepted one changes its document alone, a put to the given data, a patch field by field, and the version by one; a conflict carries the current document. |
| DeskStore.Store.Apply | docs/tools/desk.py:102-140 | One write does to the store what is said of it, or is refused and changes nothing. |
| DeskStore.Store.Transact | docs/tools/desk.py:143-152 | A batch applies every write in turn, or none and reports the first refusal. |
| DeskStore.BatchRefusesFirst | docs/tools/desk.py:143-152 | A batch is refused for the first of its writes that is not accepted by the documents it met, and as that write is. |
| DeskStore.AcceptedNamedItsVersion | docs/tools/desk.py:106-107 | In every run each accepted write named the version it replaced, and made the next. |
| DeskStore.BatchIsHistory | docs/tools/desk.py:143-152 | An accepted batch has one event for each of its writes, each accepted by the state it met. |
| DeskStore.RunIsHistory | docs/tools/desk.py:143-152 | Any run of batches, refused ones included, leaves a history of accepted writes. |
| DeskStore.VersionCounts | docs/tools/desk.py:135-139 | While nothing deletes it, a document's version counts the writes on it, and a version names one document. |
| DeskStore.VersionsRunFromOne | docs/tools/desk.py:135-139 | From its creation on, the versions of a document run 1, 2, 3 and so on. |
| DeskStore.NoLostUpdate | docs/tools/desk.py:11-13 | Of two writers that name the same version of a live document, the second is accepted only if a deletion came between. |
| DeskHub.AnswerIsExact | docs/tools/desk.py:189-196 | A stream gets exactly the changes above its number, in order, as long as the log holds them and it is not ahead; otherwise a reset. |
| DeskHub.Hub.Publish | docs/tools/desk.py:181-187 | Publishing numbers the changes on from the last, and keeps the log the contiguous end of all changes, at most HISTORY long. |
| DeskHub.Hub.Wait | docs/tools/desk.py:189-196 | The answer is the changes above `after` among everything published, or a reset. |
| DeskProtocol.CommitIsPossible | docs/tools/desk.py:276-287 | A batch of at most fifty writes commits exactly when the store accepts it, and waits to be published. |
| DeskProtocol.RunsKeep | docs/tools/desk.py:243-287 | The invariant holds in every state that any interleaving of commits, publications, snapshots and deliveries reaches. |
| DeskProtocol.ReaderIsExact | docs/tools/desk.py:243-255 | The snapshot takes the number of changes published so far, and then all rows; a delivery brings every change published since, or a reset exactly when the log has lost one. |
| DeskProtocol.NoChangeIsLost | docs/tools/desk.py:243-287 | For a reader with a snapshot, each accepted write is in its rows, or has a number above the snapshot and was sent if the stream passed it, or waits for its thread. |
| DeskProtocol.DeliveryIsExact | docs/tools/desk.py:304-323 | A stream delivers each number above its snapshot once and in order. |
| DeskConvergence.MergedIsExact | docs/tools/desk.html:368-375 | A copy holds exactly the offer, of its rows and the changes, that no later change deletes and that is newest, the earliest of equals; and nothing exactly when none is left. |
| DeskConvergence.ReaderConvergesExactly | docs/tools/desk.html:368-375 | A reader that has caught up agrees with the store on a document exactly when the order of the numbers settles it: deletions, and what is left of earlier lives of the document, decide. |
| DeskConvergence.ReaderConverges | docs/tools/desk.html:368-375 | It agrees on each document that the run never deletes, and on each whose changes were numbered in commit order. |
| DeskConvergence.DeletedPageCanStay | docs/tools/desk.py:280-286 | A run in which the copy stays wrong: a deletion published before the creation it followed. |
| Decorations.SealedIsStable | crates/stiles-types/src/decoration_map.rs:226-231 | Sealing gives every position once, by node, and equal nodes as inserted. |
| Decorations.StableOrderIsUnique | crates/stiles-types/src/decoration_map.rs:226-231 | There is only one such order. |
| Decorations.PartitionPointSplits | crates/stiles-types/src/decoration_lookup.rs:59-60 | The binary search ends where the positions that satisfy the test end. |
| Decorations.SearchIsScan | crates/stiles-types/src/decoration_lookup.rs:53-65 | The entries found through the index are those of a linear scan, in insertion order. |
| Decorations.AllIsExact | crates/stiles-types/src/decoration_lookup.rs:77-85 | `get_all` takes the value of each entry of the type, in the order of the entries. |
| Decorations.FirstIsExact | crates/stiles-types/src/decoration_lookup.rs:67-75 | `first` reads the first entry under the key, and nothing when that is of another type. |
| Decorations.FirstIsHead | crates/stiles-types/src/decoration_lookup.rs:67-85 | `first` is the head of `get_all` exactly when no other type under the key hides it. |
| Decorations.ShadowHides | crates/stiles-types/src/decoration_lookup.rs:67-85 | Behind an entry of another type, `first` finds nothing and `get_all` finds the value. |
| Decorations.MergeKeepsFirst | crates/stiles-types/src/decoration_map.rs:181-185 | After a merge, entries already present win and the merged ones follow them. |
| Decorations.DecorationMap.Add | crates/stiles-types/src/decoration_map.rs:111-115 | An insertion appends an entry and drops the index. |
| Decorations.DecorationMap.Merge | crates/stiles-types/src/decoration_map.rs:215-218 | A merge appends the other entries and drops the index. |
| Decorations.DecorationMap.Lookup | crates/stiles-types/src/decoration_map.rs:226-237 | A read seals the stable order if there is none, and keeps it otherwise. |
| Decorations.DecorationMap.Get | crates/stiles-types/src/decoration_map.rs:146-148 | After any operations, `get` answers as a scan of the entries would. |
| Decorations.DecorationMap.GetAll | crates/stiles-types/src/decoration_map.rs:177-179 | After any operations, `get_all` answers as a scan of the entries would. |
| Grammar.AbsorbOne | crates/stiles-codegen/src/merge.rs:63-85 | The search and the inner loop add a node to the entry of its key, or at the end. |
| Grammar.MergeNodeTypes | crates/stiles-codegen/src/merge.rs:56-90 | The merge fails exactly when a grammar does not parse, and otherwise merges each of them in order. |
| Grammar.MergeIsHomomorphism | crates/stiles-codegen/src/merge.rs:21-32 | Merging in stages equals merging at once, order included; a merge of a merge is itself; keys are unique. |
| Grammar.MergeIsUnion | crates/stiles-codegen/src/merge.rs:29-30 | The keys, and the subtypes of each key, are the unions of those merged. |
| Grammar.MergeKeepsFirstOrder | crates/stiles-codegen/src/merge.rs:30-32 | Entries are in the order in which their keys first appear. |
| Grammar.MergeKeepsSubtypeOrder | crates/stiles-codegen/src/merge.rs:71-79 | The subtypes of a key are in the order in which they first appear. |
| Visitor.Retain | crates/stiles-codegen/src/visitor.rs:198-200 | The filter keeps the first occurrence of each kind. |
| Sequences.DedupPicks | crates/stiles-codegen/src/visitor.rs:178-200 | What is kept stands, in order, at the indices of the first occurrences. |
| Visitor.CollectLeafSubtypes | crates/stiles-codegen/src/visitor.rs:182-201 | The recursion ends on every acyclic grammar and returns the leaves. |
| Visitor.FindIsFirst | crates/stiles-codegen/src/visitor.rs:188-190 | A reference leads to the first named node of its kind. |
| Visitor.LeavesAreExact | crates/stiles-codegen/src/visitor.rs:173-201 | The leaves are exactly the concrete kinds that a chain of references reaches, each once, in first-visit order. |
| Visitor.LeavesAreFirstVisits | crates/stiles-codegen/src/visitor.rs:178-200 | Removing repeats inside the recursion changes nothing about the result. |
| Visitor.GenerateVisitor | crates/stiles-codegen/src/visitor.rs:130-159 | The loops emit an arm for each concrete kind and a block for each supertype that has leaves. |
| Visitor.DispatchIsExact | crates/stiles-codegen/src/visitor.rs:119-159 | The dispatch calls a kind's own method once if it is concrete, and each supertype's once exactly when the supertype reaches the kind, in grammar order. |
| Visitor.MethodNameIsExact | crates/stiles-codegen/src/visitor.rs:166-171 | A method is named after its kind, without one leading underscore. |
| GrammarCycles.RecursionEnds | crates/stiles-codegen/src/visitor.rs:182-196 | The recursion on a node, cut off at any depth, is cut off at every depth exactly when a chain of references from the node comes back. |
| GrammarCycles.RecursionEndsExactly | crates/stiles-codegen/src/visitor.rs:182-201 | It ends on every node exactly when the grammar is acyclic, and then returns the leaves. |
| GrammarCycles.AcyclicMeansNoCycle | crates/stiles-codegen/src/visitor.rs:182-196 | The references can be ranked exactly when no chain of them comes back. |
| MergedVisitor.MergeKeepsDispatchExactly | crates/stiles-codegen/src/merge.rs:21-30 | The merge's dispatch calls all that those of its parts call exactly when the grammars agree on which kinds are supertypes, with no cycle in either. |
| MergedVisitor.MergeKeepsDispatch | crates/stiles-codegen/src/merge.rs:21-30 | Every method that one grammar's dispatch calls for a kind, the merge's dispatch calls too, if the grammars agree. |
| MergedVisitor.OwnCallSurvives | crates/stiles-codegen/src/merge.rs:69-85 | In a merge a kind is concrete exactly when every grammar that has it has it concrete. |
| MergedVisitor.DisagreementLosesACall | crates/stiles-codegen/src/merge.rs:81-85 | Two grammars that disagree on a kind: one calls its method, and their merge calls nothing. |
| MergedVisitor.CallsOfKind | crates/stiles-codegen/src/visitor.rs:130-159 | A dispatch calls something on a kind exactly when the kind is concrete, and then its own method. |
| Walker.CheckIsExact | crates/stiles-core/src/lint.rs:115-148 | A call always moves the state on; exactly a panic or an undeclared rule is a fault; a panic carries its node, kind and message, and an undeclared rule is that of the first stray diagnostic. |
| Walker.Lint.CheckNode | crates/stiles-core/src/lint.rs:115-148 | The method leaves the state and the answer of that call. |
| Walker.ScheduleIsPreorder | crates/stiles-core/src/tree_walker.rs:89-93 | The calls of a walk are the named nodes in pre-order, with every pass on each before the next. |
| Walker.RunsAsIfAlone | crates/stiles-core/src/tree_walker.rs:198-214 | In any sequence of calls without a fault, a pass ends in the state and finds what it would alone. |
| Walker.WalkIsolates | crates/stiles-core/src/tree_walker.rs:165-214 | A walk that succeeds does to each pass exactly what walking it alone does. |
| Walker.RulesAreDeclared | crates/stiles-core/src/lint.rs:131-145 | Every diagnostic of a pass with declared rules is under one of them. |
| Walker.FaultIsFirst | crates/stiles-core/src/tree_walker.rs:95-101 | A fault is the first in walk order: the calls before it succeeded, and no later one was made. |
| Walker.CheckRow | crates/stiles-core/src/tree_walker.rs:203-207 | The loop over the passes makes the calls of one node, up to the first fault. |
| Walker.VisitNode | crates/stiles-core/src/tree_walker.rs:198-214 | The recursion makes the calls of the subtree in order, appends what they find, and stops at the first fault. |
| Walker.MatchingPicks | crates/stiles-core/src/tree_walker.rs:169-172 | The passes that walk stand, in order, at the indices of the tree's language. |
| Walker.WalkLints | crates/stiles-core/src/tree_walker.rs:165-176 | The passes of the tree's language walk it in their order, and the others are left alone. |
| Pipeline.AskProviders | crates/stiles-core/src/pipeline.rs:215-230 | The loop stops at the first provider that fails, and otherwise gathers the decorations of those that cover the file and the gaps of the others, each by increasing index. |
| Pipeline.RunOnSource | crates/stiles-core/src/pipeline.rs:196-247 | The passes run exactly when the source parses, no provider fails and one covers the file, on the decorations of each provider by index; otherwise their states are untouched, and a file that none covers has a gap for each provider. |
| Pipeline.PassSeesAll | crates/stiles-core/src/pipeline.rs:241-243 | A pass sees all that the providers recorded of a type on a node, by increasing index of the providers. |
| Pipeline.PassSeesEarliest | crates/stiles-core/src/pipeline.rs:149-150 | A pass sees first the decoration of the provider with the least index that covers the file and recorded one, and none when no provider did, if the key names one type. |
| Fingerprinting.XorIsBitwise | crates/stiles-codegen/src/fingerprint.rs:130-130 | A bit of the exclusive or is set exactly when the two bits differ. |
| Fingerprinting.PrimeHasInverse | crates/stiles-codegen/src/fingerprint.rs:131-131 | The wrapping product with the prime is undone by the product with its inverse. |
| Fingerprinting.FoldIsBijection | crates/stiles-codegen/src/fingerprint.rs:128-133 | A fold step is a bijection of the 64-bit state. |
| Fingerprinting.OneByteNeverCollides | crates/stiles-codegen/src/fingerprint.rs:128-133 | Two streams of equal length that differ in exactly one byte never collide. |
| Fingerprinting.StreamRoundTrip | crates/stiles-codegen/src/fingerprint.rs:99-125 | The framed stream decodes to the runs it was made of, so no two lists of runs share one. |
| Fingerprinting.ListingOrderIsIrrelevant | crates/stiles-codegen/src/fingerprint.rs:86-97 | The order in which a directory lists its files does not matter. |
| Fingerprinting.FilesAreByName | crates/stiles-codegen/src/fingerprint.rs:88-93 | The files enter by the bytes of their names, each name right before its contents. |
| Fingerprinting.StreamTellsDirectories | crates/stiles-codegen/src/fingerprint.rs:20-25 | Two directories give one stream exactly when they hold the same files. |
| Fingerprinting.Fingerprint.FoldAll | crates/stiles-codegen/src/fingerprint.rs:127-133 | The loop folds the bytes into the state in order. |
| Fingerprinting.Fingerprint.AddBytes | crates/stiles-codegen/src/fingerprint.rs:122-125 | A run enters with its length ahead of it, in eight little-endian bytes. |
| Fingerprinting.Fingerprint.AddDirectory | crates/stiles-codegen/src/fingerprint.rs:86-97 | A directory enters as the framed names and contents of its files, sorted. |
| RuleOptions.RoutingIsExact | crates/stiles-types/src/rule_options.rs:99-135 | A pass reads for a rule it declares exactly what the table holds, absent and empty kept apart, and for any other rule nothing. |
| RuleOptions.ReadHolds | crates/stiles/src/config.rs:313-328 | The flat list holds exactly the entries of the nested table. |
| RuleOptions.ReadIsOrdered | crates/stiles/src/config.rs:306-328 | The flat list is in the order of the table: by rule, and by name under one rule. |
| RuleOptions.ForRulesPicks | crates/stiles-types/src/rule_options.rs:126-135 | A pass gets the options of its rules, in the order of the list. |
| RuleOptions.NamesIsFirst | crates/stiles-types/src/rule_options.rs:99-104 | An option is looked up at its first match. |
| RuleOptions.ValidMeans | crates/stiles-types/src/rule_options.rs:172-187 | The table is accepted exactly when each rule it names is declared, and the unknown rules are the others. |
| RuleOptions.AcceptedExactly | crates/stiles/src/custom_lints.rs:136-142 | The table is accepted exactly when some lint declares each rule that it sets an option of. |
| RuleOptions.SharesRule | crates/stiles/src/custom_lints.rs:202-222 | The nested loop finds two lints with one rule for one language exactly when there are two. |
| RuleOptions.ValidReachesOne | crates/stiles/src/custom_lints.rs:114-142 | If the table is accepted every entry reaches a lint that reads it, and at most one per language once shared rules are refused. |

## Left out

- Rust-analyzer, tree-sitter, the Rust lexer, SQLite, HTTP, JSON and TOML: only the shapes that the modelled code reads are here.
- The edition-dependent display of names in the public-path search: names are in the form the search stores.
- The lexer's promise about spans is an assumption (`Tokens.Nested`): identifiers and groups take ordered ranges and nest; the spans of punctuation and literals are never read.
- Paths with a leading `::`: the rewriter leaves them alone, so the meaning theorem does not cover them.
- The resolver is Rust's as far as paths between modules go: visibility, preludes, local scopes inside functions, and the choice between several globs are not in it. An import in braces or through `*` is one import for each name that it brings. Rust refuses an import whose head could be a crate or another name, so an import reads it as the crate.
- A path whose last segment is itself a call of `env!("CARGO_MANIFEST_DIR")`: the rewriter replaces that segment, so it is outside `IsRun`.
- Identifiers that are no paths: the rewriter also puts `crate::` before a declaration, a field or a variable with the name of a crate, and such a file no longer parses.
- The desk's `seed`, `import`, `export`, `sync` and `preview` commands: `import` can set any version, so the version theorems start from any documents and speak of the writes after that.
- A restart of the desk: the protocol is one lifetime of the hub.
- The page's own writes: its copy of the documents is modelled as a reader's, from snapshots and the stream.
- The generated text of the visitor, the manifest and the README of the bundle, and every message: formatting only.
- The ABI of plugins (layouts, vtables, loading, unsafe reads) and how a panic is caught at it.
- `DeclaredRule` listings, builders, getters and file discovery: they would only add easy members.
- `collect_files` and the other readers of the file system: a directory is a listing, and a file is its tokens or bytes.
