# Verified model of the assembly importer and the C# sidecar

A Dafny model of the parts of this F# language-server repository whose
correctness is hardest to see by reading one function: the projection of
ECMA-335 signatures into the crate's own types, the C# sidecar's closure build
and its content-addressed cache, the sidecar's wire loop, the documentation-ID
encoder and its matcher, and the F# type pretty-printer. Every statement is a
for-all over inputs, trees, graphs or whole runs.

`dafny verify dfyconfig.toml` checks the project.

## How it is laid out

| files | component |
|---|---|
| `Ordinal`, `ProjectGraph`, `TopoSort`, `ClosureBuild` | the `<ProjectReference>` graph, its leaves-first order, and the emit loop over it |
| `RecordStream`, `CacheKey`, `CachePath`, `Publication` | the Merkle key over tagged records, and publishing by temp-file-then-rename under races and crashes |
| `Framing`, `FramingLaws`, `RequestLoop` | Content-Length frames and the request state machine |
| `Signatures`, `Projection`, `CursorWalk`, `NullabilityWalk`, `ModifierPolicy`, `PositionLaws` | the oblivious projection, the annotated walk, the custom-modifier policy, and what each member position projects to |
| `NameChains`, `TypeNesting`, `AccessorUnion` | bounded walks over possibly cyclic metadata, and the accessor fold |
| `SegmentArgs`, `ArraySuffixes`, `ArrayLaws`, `DocIds`, `KeyNames`, `KeyLaws`, `TypeIdentity`, `MethodIds` | documentation IDs, the scanners that take them apart, and what an ID identifies |
| `Skeletons`, `ParamRules`, `FsTypes`, `FsTypeLaws`, `FscTuples`, `FscKeys` | the F# compiler's dialect of them, and exactly which recorded keys the checker accepts |
| `TypeSyntax`, `Display`, `DisplayLaws` | a grammar with a parser, the printer proved against it, and what each type form reads as |
| `Lists`, `Options`, `Decimals`, `Text` | shared helpers |

Code that works by mutation is modelled that way. The topological sorter, the
incremental hash, the input stream, the sidecar with its three fields, the walk
cursor and the skip list are classes. These loops of the source are loops: the
reference walk, the closure worklist, the emit loop and the two scans before it,
the record sections, the header bytes, the header lines and the body chunks, the
request loop, the modifier runs, the constraint list, the walked arguments, both
name chains, the nested types, the accessor fold, the arity total and its
slices, the segments of both printers, `split_top_level` and `arrays_fit`. Each
is a method proved against a specification function, and the properties are
lemmas about those functions. What each of those functions gives is stated again
in its own terms, with the names, tags and constants of the source spelled out:
exact conditions for every refusal and every answer, readers that get the parts
of a text back, and relations between a signature and the type it projects to.
Iterator chains, the decoration of signatures and
`flatten_tuple` are functions. A list of type arguments is shorter than the
largest machine word, as every vector in memory is.

Foreign parts are parameters. MSBuild contributes a graph and load outcomes,
Roslyn a function from a project and its substituted references to its
inputs and an emit outcome per key, JSON a parse function, SHA-256 a function
to 32-byte digests, ECMA-335 decoding the `TypeSig` trees and row links. No
hash is assumed injective: the Merkle theorem asks only that the streams the
two builds really hash for one project do not collide. Publication assumes
that a temporary name is never drawn twice and that the content emitted is a
function of the key.

## Where the code and its description part

- The oblivious path projects a byref below the top of a type; the annotated
  walk refuses it. The two agree exactly on byref-free types
  (`NullabilityWalk.ScalarWalkMatchesProjection`, with the input in
  `NullabilityWalk.PathsPartOnNestedByRef`).
- A conversion operator's own computed key is refused by
  `recorded_method_key_fits` as soon as the operator has a parameter, because
  the key ends in the return type (`DocIds.ConversionKeyFits`).
- A non-generic method whose name ends in two backticks and a number is read as
  generic (`DocIds.OwnKeyFits` gives the exact condition,
  `DocIds.TickedNameIsRefused` the failing family).
- A method whose name holds an opening parenthesis, as an F# double-backtick
  name may, is refused its own key (`KeyNames.ParenInNameIsRefused`).
- The rules for `nativeptr`, `voidptr`, `ilsigptr` and abbreviated byrefs are
  stated for a key's parameters, but applied only at the top of a parameter and
  below abbreviations. Under an array, a type argument or a plain byref or
  pointer the checker refuses a correct key: `nativeptr<int>[]` is written
  `System.Int32*[]`, against the IL's `System.IntPtr[]`
  (`FscKeys.WrittenFitsExactly` gives the exact condition,
  `FscKeys.NativePtrOfIntArrayIsRefused` this input). The source says so only of
  a flattened tuple of eight, which is refused everywhere
  (`FscTuples.FlatTupleShows`).

## Model

| member | source | states |
|---|---|---|
| `ProjectGraph.ReachShrinks` | tools/csharp-sidecar/BuildService.cs:530-552 | below an acyclic project everything reached is acyclic and reaches strictly less, which is what makes the recursive key definition terminate |
| `ProjectGraph.ReachedComesEarlier` | tools/csharp-sidecar/BuildService.cs:337-349 | in a leaves-first order everything a project reaches, not only its direct references, stands before it |
| `ProjectGraph.LeavesFirstHasNoCycle` | tools/csharp-sidecar/BuildService.cs:677-710 | a leaves-first list has no cycle below any of its members and is closed under reaching |
| `Ordinal.OrderBySorted` | tools/csharp-sidecar/BuildService.cs:700 | the ordinal sort ascends in UTF-16 code-unit order |
| `Ordinal.AtMostComparesUnits` | tools/csharp-sidecar/BuildService.cs:700 | ordinal order is the lexicographic order of UTF-16 code units |
| `Ordinal.OrderByIsStable` | tools/csharp-sidecar/Cache.cs:70-73 | elements with one key keep their order |
| `Ordinal.OrderByForgetsOrder` | tools/csharp-sidecar/Cache.cs:98-100 | with distinct keys the sort of a permutation is the same list |
| `Ordinal.SortedIsCanonical` | tools/csharp-sidecar/Cache.cs:70-73 | two sorted arrangements of the same elements are equal when equal keys mean equal elements |
| `TopoSort.SortedListIsSet` | tools/csharp-sidecar/BuildService.cs:700-703 | visiting the sorted reference list, repeats included, is visiting the ascending set of references |
| `TopoSort.OrderDependsOnSetsOnly` | tools/csharp-sidecar/BuildService.cs:696-703 | two graphs with the same dependency sets sort alike, from any state of the walk, a project without an entry counting as one without references |
| `TopoSort.VisitDone` | tools/csharp-sidecar/BuildService.cs:687-709 | a finished visit extends the order, stays leaves-first, adds only what the project reaches, and puts a new project last |
| `TopoSort.VisitCycle` | tools/csharp-sidecar/BuildService.cs:690-693 | a thrown project lies on a real cycle at or below the one visited |
| `TopoSort.TopoOrderCorrect` | tools/csharp-sidecar/BuildService.cs:677-710 | the sort throws exactly when a cycle is reachable from the root; otherwise it lists the root and all it reaches once each, dependencies first, root last |
| `TopoSort.SmallerComesFirst` | tools/csharp-sidecar/BuildService.cs:700-703 | the root's references come in ordinal order: a larger one stands before a smaller one only when some reference no larger than the smaller reaches it |
| `TopoSort.TopoSorter.Visit` | tools/csharp-sidecar/BuildService.cs:687-709 | the walk over `visited`, `onStack` and `order` terminates on every graph and computes the specified visit, restoring the stack |
| `TopoSort.TopoSorter.VisitEach` | tools/csharp-sidecar/BuildService.cs:700-703 | the loop over the sorted references computes the specified list visit |
| `TopoSort.TopoSortByPaths` | tools/csharp-sidecar/BuildService.cs:677-710 | the method returns the specified order or the cycle |
| `TopoSort.Unseen` | tools/csharp-sidecar/BuildService.cs:542-549 | exactly the references not seen before, each once |
| `TopoSort.TransitiveClosurePaths` | tools/csharp-sidecar/BuildService.cs:530-552 | the worklist ends on every graph with exactly the projects the root reaches, each once |
| `ClosureBuild.LookUp` | tools/csharp-sidecar/BuildService.cs:345-349 | no dictionary lookup misses: the keys and the substituted references found are those of the recursive definition |
| `ClosureBuild.ListingOrderIsIrrelevant` | tools/csharp-sidecar/BuildService.cs:345-349 | whatever order the closure walk lists projects in, the hashed stream is that of the ascending list |
| `ClosureBuild.KeyCovers` | tools/csharp-sidecar/BuildService.cs:339-349 | reading a project's hashed stream back finds its own inputs over the DLLs of its direct references, and then exactly the projects it reaches, in ordinal order, each with its key |
| `ClosureBuild.KeyOfOne` | tools/csharp-sidecar/BuildService.cs:466-522 | given everything below it is recorded, a project's key is Key(p) = H(own inputs over its emitted references, every (d, Key(d)) below p) |
| `ClosureBuild.SortedRefsAreReach` | tools/csharp-sidecar/BuildService.cs:409-413 | the sorted response lists exactly the projects below the top, each once with the DLL of its key |
| `ClosureBuild.EmitInOrder` | tools/csharp-sidecar/BuildService.cs:337-430 | the loop returns the top's DLL under Key(top), all that lies below it in path order and every diagnostic in order, or the first failure in leaves-first order |
| `ClosureBuild.OpenWorkspaces` | tools/csharp-sidecar/BuildService.cs:234-267 | every listed project loads, or the first one that does not is reported |
| `ClosureBuild.FindMissing` | tools/csharp-sidecar/BuildService.cs:293-302 | nothing is reported exactly when every dependency is covered; otherwise the first uncovered one in workspace order |
| `ClosureBuild.EmitClosure` | tools/csharp-sidecar/BuildService.cs:201-430 | load failure, uncovered dependency, reachable cycle, or the leaves-first build, each exactly when its condition holds |
| `ClosureBuild.EqualKeysOneLevel` | tools/csharp-sidecar/BuildService.cs:339-349 | equal keys mean equal own inputs and an equal list of (path, key) below |
| `ClosureBuild.EqualKeysEqualClosures` | tools/csharp-sidecar/BuildService.cs:339-349 | two builds whose top keys agree have the same closure, and every project in it has the same key and the same inputs |
| `RecordStream.BigEndianRoundTrip` | tools/csharp-sidecar/Cache.cs:124-130 | a length prefix reads back |
| `RecordStream.SmallStandsLast` | tools/csharp-sidecar/Cache.cs:124-130 | the most significant byte comes first |
| `RecordStream.RecordsRoundTrip` | tools/csharp-sidecar/Cache.cs:119-131 | decoding the concatenated records gives exactly the records written |
| `RecordStream.EncodeAppend` | tools/csharp-sidecar/Cache.cs:119-131 | the four appended pieces extend the stream by one record |
| `RecordStream.Utf8Injective` | tools/csharp-sidecar/Cache.cs:133-134 | UTF-8 text determines the string |
| `CacheKey.SectionRecovers` | tools/csharp-sidecar/Cache.cs:74-105 | a section of path and content records can be told from what follows it, and gives back its items |
| `CacheKey.RecordsInjective` | tools/csharp-sidecar/Cache.cs:56-105 | equal record lists come from equal csproj bytes, deterministic keys and path-sorted lists |
| `CacheKey.StreamInjective` | tools/csharp-sidecar/Cache.cs:44-108 | the same for the byte stream that is hashed |
| `CacheKey.StreamHolds` | tools/csharp-sidecar/Cache.cs:56-105 | reading the stream back finds the project file, the compiler's key, and every document and project of the closure with its content under its own tags, in ordinal order |
| `CacheKey.StreamIgnoresOrder` | tools/csharp-sidecar/Cache.cs:98-105 | permuting transitive keys with distinct paths leaves the stream unchanged |
| `CacheKey.IncrementalHash.AppendBytes` | tools/csharp-sidecar/Cache.cs:119-131 | one call appends one record to what was written |
| `CacheKey.AppendSection` | tools/csharp-sidecar/Cache.cs:70-79 | the loop appends the section of the path-sorted items |
| `CacheKey.ComputeKey` | tools/csharp-sidecar/Cache.cs:44-108 | the key is the hash of the specified stream |
| `CachePath.ToHexLowerInjective` | tools/csharp-sidecar/Cache.cs:116-117 | hex determines the bytes |
| `CachePath.HexSpells` | tools/csharp-sidecar/Cache.cs:116-117 | each byte is two lower-case hex digits, the high half first |
| `CachePath.CombineAppends` | tools/csharp-sidecar/BuildService.cs:629-630 | combining appends the names of a relative path, whether or not the first part ends in a separator, and is rooted exactly when the first part is |
| `CachePath.FinalPathNames` | tools/csharp-sidecar/BuildService.cs:624-630 | a key's file stands two levels below the cache root: a directory named by two hex digits and the 64 digits with `.dll` |
| `CachePath.CacheRootNames` | tools/csharp-sidecar/Program.cs:321 | the cache root is `obj`, `borzoi`, `csharp-sidecar` below the workspace root |
| `CachePath.FinalPathInjective` | tools/csharp-sidecar/BuildService.cs:624-630 | two keys never share a final path |
| `CachePath.TempIsNeverFinal` | tools/csharp-sidecar/BuildService.cs:769 | no temporary name is any key's final path |
| `CachePath.TempStandsBeside` | tools/csharp-sidecar/BuildService.cs:769 | a temporary file stands in the directory of the file it will become |
| `Publication.PublishKeepsInv` | tools/csharp-sidecar/BuildService.cs:804-824 | the rename, or its failure, keeps the invariant and every published file |
| `Publication.StepKeepsInv` | tools/csharp-sidecar/BuildService.cs:624-658 | every step of every process, a crash included, keeps the invariant, the published files and the answers given |
| `Publication.RunKeepsInv` | tools/csharp-sidecar/BuildService.cs:766-824 | the invariant holds in every state of every run |
| `Publication.RunKeepsFiles` | tools/csharp-sidecar/BuildService.cs:766-824 | between any two states of a run no final file vanishes or changes |
| `Publication.CacheIsSafe` | tools/csharp-sidecar/BuildService.cs:624-658 | over every interleaving with crashes a final path is absent or complete, once present it stays, and every `Built` answer names a complete file from then on |
| `Publication.StepAnswers` | tools/csharp-sidecar/BuildService.cs:624-658 | an answer is about the key its process was asked for: a hit changes no file, a fresh DLL is the process's own temporary file moved into place, and only inputs Roslyn refuses are answered with a failed build |
| `Publication.UndisturbedCall` | tools/csharp-sidecar/BuildService.cs:624-658 | from any state an undisturbed call can end with the hit, the published DLL or the failed build its key calls for, and leave no other file behind |
| `Framing.MatcherTracksOverlap` | tools/csharp-sidecar/Program.cs:402-425 | the matcher's state is always the longest prefix of CR LF CR LF that the bytes read end with |
| `Framing.FirstTerminator` | tools/csharp-sidecar/Program.cs:402-425 | a header ends at its first terminator |
| `FramingLaws.HeaderEndsFirst` | tools/csharp-sidecar/Program.cs:402-425 | a header ends at the first CR LF CR LF, and without one there is none |
| `FramingLaws.ReadFrameExact` | tools/csharp-sidecar/Program.cs:398-467 | a message is read exactly where a header announces a length and as many bytes follow; a header without a length is skipped, and an open header or a short body swallows the stream |
| `FramingLaws.LinesBreak` | tools/csharp-sidecar/Program.cs:430 | joining the lines with CR LF restores the header, and no line holds one |
| `FramingLaws.AsciiReads` | tools/csharp-sidecar/Program.cs:428 | a byte beyond ASCII is read as a question mark |
| `FramingLaws.TrimTakesEnds` | tools/csharp-sidecar/Program.cs:438-439 | trimming takes the white space at both ends and nothing else |
| `FramingLaws.IgnoringCase` | tools/csharp-sidecar/Program.cs:440 | names are compared as their lower-case forms |
| `FramingLaws.NumeralsAreRead` | tools/csharp-sidecar/Program.cs:442 | every numeral of 32 bits, with white space, a sign or NULs around it, is read as its value, and one outside that range is refused |
| `FramingLaws.OnlyNumeralsAreRead` | tools/csharp-sidecar/Program.cs:442 | and nothing else is read as a number |
| `FramingLaws.LastLengthCounts` | tools/csharp-sidecar/Program.cs:430-453 | a length is announced exactly when every line has a colon and every `Content-Length` field a non-negative number, and then it is the last one's |
| `FramingLaws.FrameText` | tools/csharp-sidecar/Program.cs:469-475 | a written frame is `Content-Length: n`, a blank line and the n bytes |
| `Framing.TryParseDecimal` | tools/csharp-sidecar/Program.cs:440-446 | a written length parses back |
| `Framing.FrameRoundTrip` | tools/csharp-sidecar/Program.cs:398-475 | reading a written frame gives its body and stops right behind it |
| `Framing.FramesRoundTrip` | tools/csharp-sidecar/Program.cs:398-475 | reading a concatenation of frames gives exactly those bodies, each read stopping at the next frame and the last at the end |
| `Framing.ReadHeader` | tools/csharp-sidecar/Program.cs:400-425 | byte by byte, the header up to and including its first terminator and nothing more |
| `Framing.ReadContentLength` | tools/csharp-sidecar/Program.cs:428-453 | the loop over the header lines finds the last announced length, or refuses a line without a colon, a bad or negative length, or none |
| `Framing.ReadBody` | tools/csharp-sidecar/Program.cs:455-466 | for every way the stream splits reads into non-empty chunks, exactly the announced bytes, or the end of the stream exactly when too few remain |
| `Framing.ReadMessage` | tools/csharp-sidecar/Program.cs:398-467 | the reader does what the frame specification says, and leaves the stream where it says |
| `RequestLoop.ServeIsLinked` | tools/csharp-sidecar/Program.cs:70-152 | a run is a chain of answers, one per outcome, each from the state the one before left |
| `RequestLoop.ServedIsPrefix` | tools/csharp-sidecar/Program.cs:75-152 | serving stops at the first `shutdown` and nowhere else before the end of the input |
| `RequestLoop.ServeAnswersEach` | tools/csharp-sidecar/Program.cs:70-152 | one response per outcome, in order and addressed to it; exit code 0 exactly when a `shutdown` was served |
| `RequestLoop.FramedRequestsAreAnswered` | tools/csharp-sidecar/Program.cs:70-152 | framed requests ending in `shutdown` are each answered once under their own id and the process exits with 0 |
| `RequestLoop.LatchesHold` | tools/csharp-sidecar/Program.cs:274-301 | between any two moments of a run neither latch is undone |
| `RequestLoop.RegistersOnce` | tools/csharp-sidecar/Program.cs:274-301 | at most one request of a run attempts the SDK registration, and its outcome decides every later build |
| `RequestLoop.InitializedExactly` | tools/csharp-sidecar/Program.cs:154-207 | `initialize` succeeds exactly when both roots are there and Roslyn binds, and exactly then the given workspace root is stored |
| `RequestLoop.MetadataExactly` | tools/csharp-sidecar/Program.cs:209-265 | metadata is answered exactly by an initialized sidecar to a complete request when the SDK is there and the build under the stored root gives a DLL |
| `RequestLoop.SdkExactly` | tools/csharp-sidecar/Program.cs:274-301 | the registration is attempted by the first complete build request to an initialized sidecar, and nothing else touches its outcome |
| `RequestLoop.FailureExactly` | tools/csharp-sidecar/Program.cs:77-265 | each kind of refusal is given only under its own condition |
| `RequestLoop.RootComesFromRequest` | tools/csharp-sidecar/Program.cs:205-206 | at every moment of a run the stored root is the one the last successful `initialize` gave |
| `RequestLoop.MetadataNeedsInitialize` | tools/csharp-sidecar/Program.cs:154-272 | over a whole run, metadata comes only after a successful `initialize`, with the SDK registered, and from the cache of the workspace root that the last successful `initialize` before it gave |
| `RequestLoop.BuildsUnderLastRoot` | tools/csharp-sidecar/Program.cs:310-372 | and every complete build request behind a successful `initialize` is answered by the build under the last root given, or by the missing SDK |
| `RequestLoop.Sidecar.HandleInitialize` | tools/csharp-sidecar/Program.cs:154-207 | answers once, and stores the given root and sets the latch exactly behind a sent success |
| `RequestLoop.Sidecar.EnsureSdkRegistered` | tools/csharp-sidecar/Program.cs:274-301 | attempts the registration only if none was attempted, records its outcome for good, and answers exactly when there is no SDK |
| `RequestLoop.Sidecar.HandleBuildMetadata` | tools/csharp-sidecar/Program.cs:209-265 | answers exactly once on every path, and changes nothing but the SDK latch |
| `RequestLoop.Sidecar.DispatchBuildMetadataLoad` | tools/csharp-sidecar/Program.cs:310-372 | one answer, a result exactly when the build succeeded, from the cache directory under the stored root |
| `RequestLoop.Sidecar.React` | tools/csharp-sidecar/Program.cs:77-152 | dispatching to the handlers, which read and assign the three fields, leaves the state and the one response the run is specified by, and stops exactly on `shutdown` |
| `RequestLoop.Sidecar.Turn` | tools/csharp-sidecar/Program.cs:75-152 | a turn moves one outcome from the future of the run to its past and shortens the input |
| `RequestLoop.Sidecar.Run` | tools/csharp-sidecar/Program.cs:70-152 | the loop terminates on every finite input with the specified responses and exit code |
| `NullabilityWalk.WalkRefines` | crates/assembly/src/ecma335_assembly.rs:1554-1690 | with any source the walk succeeds exactly on projectable byref-free types with enough bytes, uses one byte per slot, and erases to `project_type` |
| `NullabilityWalk.ScalarWalkMatchesProjection` | crates/assembly/src/ecma335_assembly.rs:1839-1889 | with a scalar the walk and the oblivious projection succeed together exactly on byref-free types, and erase to one type |
| `NullabilityWalk.PathsPartOnNestedByRef` | crates/assembly/src/ecma335_assembly.rs:1839-1889 | an array of byrefs projects obliviously and is refused by the walk |
| `NullabilityWalk.VectorWalkAccepts` | crates/assembly/src/ecma335_assembly.rs:1500-1531 | a byte vector is accepted exactly when the type is projectable, byref-free and has as many byte-consuming nodes |
| `NullabilityWalk.VectorWalkReadsBack` | crates/assembly/src/ecma335_assembly.rs:1554-1690 | the annotations read back in pre-order are exactly the bytes that are kept |
| `NullabilityWalk.VectorWalkKeepsExactly` | crates/assembly/src/ecma335_assembly.rs:1554-1690 | two vectors give one result exactly when they agree on the kept bytes, so the discarded ones are those of generic value types, pointers and pointees |
| `NullabilityWalk.FromBytesTotal` | crates/assembly/src/ecma335_assembly.rs:4352-4361 | a payload decodes exactly when every byte is 0, 1 or 2, and then 0 to oblivious, 1 to not annotated, 2 to annotated |
| `NullabilityWalk.PayloadReads` | crates/assembly/src/ecma335_assembly.rs:1712-1770 | one byte is a scalar and more are a vector, each byte under its own meaning; no bytes or an unknown one cannot be read |
| `NullabilityWalk.PayloadAccepted` | crates/assembly/src/ecma335_assembly.rs:1712-1770 | an annotated position projects exactly when its type does, it is byref-free, every byte is known, and there is one byte per slot or a single byte for all |
| `CursorWalk.WalkNullableTy` | crates/assembly/src/ecma335_assembly.rs:1554-1652 | over one shared mutable index the recursion gives the specified type and leaves the index behind its last byte |
| `CursorWalk.WalkNullableSig` | crates/assembly/src/ecma335_assembly.rs:1541-1550 | the same for a position with a modifier run |
| `CursorWalk.WalkNamed` | crates/assembly/src/ecma335_assembly.rs:1657-1690 | the same for a named type, whose own byte comes before those of its arguments |
| `CursorWalk.WalkEach` | crates/assembly/src/ecma335_assembly.rs:1682-1685 | the loop over the arguments threads the index left to right |
| `CursorWalk.WalkAll` | crates/assembly/src/ecma335_assembly.rs:1517-1531 | a vector is refused unless the walk used it up exactly |
| `ModifierPolicy.StripUndoesDecorate` | crates/assembly/src/modifier_metamorphic.rs:616-646 | decorating every position with an optional modifier is undone by forgetting optional modifiers |
| `ModifierPolicy.DecoratesEverywhere` | crates/assembly/src/modifier_metamorphic.rs:616-646 | the decoration puts the modifier in front of the run of every position at every depth, and adds nothing else |
| `ModifierPolicy.OptionalModifiersAreInert` | crates/assembly/src/ecma335_assembly.rs:2416-2438 | signatures that differ only in optional modifiers project alike as type, annotated position, byref position, parameter and return |
| `ModifierPolicy.OptionalModifiersOnVoidAreInert` | crates/assembly/src/ecma335_assembly.rs:3040-3082 | the same for a `void` return |
| `ModifierPolicy.DecoratingWithOptionalIsInert` | crates/assembly/src/modifier_metamorphic.rs:595-646 | saturating every position with an optional modifier changes no projection: type, annotated position, byref position, parameter, return, `void` return |
| `ModifierPolicy.OptionalModifiersOnConstraintsAreInert` | crates/assembly/src/ecma335_assembly.rs:2289-2316 | generic-parameter constraints that differ only in optional modifiers, beside the `unmanaged` marker or not, project alike |
| `ModifierPolicy.DecoratingConstraintsIsInert` | crates/assembly/src/modifier_metamorphic.rs:489-504 | saturating every constraint with an optional modifier changes nothing |
| `ModifierPolicy.UnrecognisedModifierIsFatal` | crates/assembly/src/ecma335_assembly.rs:2979-3082 | one unrecognised required modifier at any single depth refuses type, annotated position, byref position, parameter and return |
| `ModifierPolicy.UnrecognisedModifierOnVoidIsFatal` | crates/assembly/src/ecma335_assembly.rs:3040-3082 | on a `void` return every required modifier is refused but an `init` setter's own |
| `ModifierPolicy.UnrecognisedModifierOnConstraintIsFatal` | crates/assembly/src/ecma335_assembly.rs:2289-2316 | one unrecognised required modifier anywhere in one constraint refuses the generic parameter, beside the `unmanaged` marker too; the marker itself is understood only over the bare `System.ValueType` |
| `Projection.ClassifyMods` | crates/assembly/src/ecma335_assembly.rs:2416-2438 | the loop over a run computes the classification the policy is stated about |
| `Projection.TakeMarkersLoop` | crates/assembly/src/ecma335_assembly.rs:2289-2297 | the loop splits a run into its `unmanaged` markers and the rest |
| `Projection.ProjectGenericParam` | crates/assembly/src/ecma335_assembly.rs:2176-2328 | the loop over the constraints computes the projection the policy is stated about |
| `ModifierPolicy.CarriesOptionalIsExact` | crates/assembly/src/ecma335_assembly.rs:4812-4827 | the record is set exactly when some position at some depth holds an optional modifier |
| `PositionLaws.ClassifyExact` | crates/assembly/src/ecma335_assembly.rs:2416-2438 | a run is accepted exactly when every required modifier is `InAttribute` or `IsVolatile`, and tells which it holds |
| `PositionLaws.ProjectTypeDepicts` | crates/assembly/src/ecma335_assembly.rs:1839-1889 | `project_type` gives a type exactly when that type depicts the signature, a relation that spells out every form, the typar bound and the rank bound |
| `PositionLaws.ProjectPositionDepicts` | crates/assembly/src/ecma335_assembly.rs:1820-1838 | the same for a position with a modifier run |
| `PositionLaws.AnnotatedExactly` | crates/assembly/src/ecma335_assembly.rs:1500-1531 | a type is annotated exactly when some type depicts it, its attribute reads, and its bytes, if any apply, are of the right number and meet no byref; without bytes nothing is annotated |
| `PositionLaws.AnnotatedDepicts` | crates/assembly/src/ecma335_assembly.rs:1500-1531 | whatever its bytes, an annotated type depicts its signature and carries its own byte, or none where its node keeps none |
| `PositionLaws.ScalarReadsBack` | crates/assembly/src/ecma335_assembly.rs:1500-1531 | a scalar stands on every node that keeps a byte |
| `PositionLaws.ByRefPositionExact` | crates/assembly/src/ecma335_assembly.rs:2979-3039 | a byref position projects exactly when its referent does, once, and is read-only exactly when `InAttribute` or the attribute says so |
| `PositionLaws.ParameterExact` | crates/assembly/src/ecma335_assembly.rs:2899-2978 | when a parameter projects, and then its type, its byref and read-only marks and its nullability |
| `PositionLaws.ParameterDepicts` | crates/assembly/src/ecma335_assembly.rs:2899-2978 | a projected parameter's type depicts its signature, or the referent of a byref |
| `PositionLaws.ReturnExact` | crates/assembly/src/ecma335_assembly.rs:3040-3082 | when a typed return projects, and then its type, read-only mark and nullability: never `void` |
| `PositionLaws.ReturnDepicts` | crates/assembly/src/ecma335_assembly.rs:3040-3082 | a projected return's type depicts its signature; of a byref it is a byref to what depicts the referent |
| `PositionLaws.VoidReturnExact` | crates/assembly/src/ecma335_assembly.rs:3040-3082 | a `void` return projects exactly without required modifiers, or on a setter with `IsExternalInit` as its only one |
| `PositionLaws.ConstraintExact` | crates/assembly/src/ecma335_assembly.rs:2289-2316 | a constraint is the `unmanaged` marker, is surfaced, or is refused, each exactly under its condition |
| `PositionLaws.ConstraintsExact` | crates/assembly/src/ecma335_assembly.rs:2176-2316 | the surfaced constraints are those of the list in order, and the parameter is `unmanaged` exactly when one is the marker or the attribute says so |
| `PositionLaws.TyparExact` | crates/assembly/src/ecma335_assembly.rs:2316-2328 | `unmanaged` without the value-type bit refuses the parameter, and nothing else does beyond its constraints |
| `NameChains.ChainIsSimple` | crates/assembly/src/ecma335_assembly.rs:1940-1967 | a chain that ends never visits a row twice |
| `NameChains.ChainFitsTable` | crates/assembly/src/ecma335_assembly.rs:1940-1967 | by pigeonhole the table is at least as long as any chain that ends |
| `NameChains.LongWalkNeverEnds` | crates/assembly/src/ecma335_assembly.rs:1976-2051 | a walk longer than the table is on a chain that never reaches an anchor, so the bound rejects nothing acyclic |
| `NameChains.ArityPerSegment` | crates/assembly/src/ecma335_assembly.rs:1955-1967 | splitting the joined name at `/` gives back the segments, so there is one arity per segment, unless a metadata name itself holds the separator |
| `NameChains.CanonicalSuffixExact` | crates/assembly/src/ecma335_assembly.rs:4729-4737 | a canonical suffix is exactly a backtick and a positive number as a machine word is written |
| `NameChains.DefSegmentExact` | crates/assembly/src/ecma335_assembly.rs:4701-4725 | a definition's segment drops any arity suffix and reads its number, zero when it does not fit a word; without a suffix it is the name |
| `NameChains.RefSegmentExact` | crates/assembly/src/ecma335_assembly.rs:4729-4737 | a reference's segment drops a suffix exactly when it is canonical |
| `NameChains.LinksExact` | crates/assembly/src/ecma335_assembly.rs:1976-2051 | a chain ends, goes on or is refused exactly as the scope of its row says |
| `NameChains.QualifiedTypedefName` | crates/assembly/src/ecma335_assembly.rs:1940-1967 | a name exactly when the enclosing chain stays in the table and ends: the chain's segments joined by `/`, outermost first, with one arity per segment and the outermost row's namespace |
| `NameChains.QualifiedTyperefName` | crates/assembly/src/ecma335_assembly.rs:1976-2051 | a name exactly when the nested-scope chain stays in the table and ends in a scope that resolves, joined likewise; its assembly is the one named, except that a plain reference from a plain assembly to its own identity is to itself |
| `TypeNesting.FatalIff` | crates/assembly/src/ecma335_assembly.rs:715-734 | the fatal error is raised exactly when some descent through decodable, non-skipped types runs past the bound |
| `TypeNesting.ReachableCycleIsFatal` | crates/assembly/src/ecma335_assembly.rs:715-809 | a reachable cycle of such types is always fatal |
| `TypeNesting.SuccessIsAccounted` | crates/assembly/src/ecma335_assembly.rs:773-809 | on success each child of each kept type is kept, skipped by name, the `Tags` of a union, or recorded as dropped, nothing else is kept, and none lies below the bound |
| `TypeNesting.SuccessMirrors` | crates/assembly/src/ecma335_assembly.rs:773-809 | at every level the kept types are exactly the decodable nested rows that are neither skipped nor a union's `Tags`, in metadata order |
| `TypeNesting.DroppedIff` | crates/assembly/src/ecma335_assembly.rs:773-809 | short of the fatal error a row is recorded as dropped exactly when some descent ends at it and it does not decode |
| `TypeNesting.DropsComeFirst` | crates/assembly/src/ecma335_assembly.rs:773-809 | what an undecodable nested type drops is recorded right before it |
| `TypeNesting.ProjectEntity` | crates/assembly/src/ecma335_assembly.rs:715-809 | the recursion terminates on every table, cyclic ones included, and appends exactly the specified drops to the shared list |
| `AccessorUnion.UnionHasHeads` | crates/assembly/src/ecma335_assembly.rs:4185-4214 | one entry per group, in first-seen order |
| `AccessorUnion.EntriesAreDistinct` | crates/assembly/src/ecma335_assembly.rs:4189-4194 | no two entries are for one resolved member |
| `AccessorUnion.EveryRowIsThere` | crates/assembly/src/ecma335_assembly.rs:4185-4214 | every row has an entry with its interface and its member |
| `AccessorUnion.UnresolvedSurvive` | crates/assembly/src/ecma335_assembly.rs:4189-4211 | every unresolved row survives as it was, in order and as often |
| `AccessorUnion.EntriesGather` | crates/assembly/src/ecma335_assembly.rs:4196-4208 | an entry's declarations are the union over its group when all its rows know theirs, and unknown as soon as one does not |
| `AccessorUnion.AppendKeepsOrder` | crates/assembly/src/ecma335_assembly.rs:4199-4204 | what is appended comes in the order of its row, each at its first place |
| `AccessorUnion.RepeatsComeFromHead` | crates/assembly/src/ecma335_assembly.rs:4196-4211 | for any rows, the merged list starts with the first row's and is free of repeats exactly when that one is |
| `AccessorUnion.ImplementsRowByRow` | crates/assembly/src/ecma335_assembly.rs:2823-2853 | one row per `MethodImpl` whose interface projects, in order, with its member and at most its own declaration |
| `AccessorUnion.MergedDeclarationsAreDistinct` | crates/assembly/src/ecma335_assembly.rs:2823-2853 | on the rows `project_implements` makes, each knowing one declaration or none, a merged entry lists its group's declarations without repeats, or none as soon as one row knows none |
| `AccessorUnion.MergeDeclarations` | crates/assembly/src/ecma335_assembly.rs:4199-4204 | the inner loop computes the specified append |
| `AccessorUnion.UnionAccessorImpls` | crates/assembly/src/ecma335_assembly.rs:4185-4214 | the in-place fold computes the specified union |
| `SegmentArgs.TotalSaturates` | crates/assembly/src/doc_id.rs:621-624 | the saturating fold is the true sum capped at the largest word |
| `SegmentArgs.GuardIsExact` | crates/assembly/src/doc_id.rs:621-626 | the guard holds exactly when the true sum is right, overflow included |
| `SegmentArgs.SlicesPlaceEachOnce` | crates/assembly/src/doc_id.rs:627-648 | the slices concatenate to the argument list and each has its segment's arity |
| `SegmentArgs.SliceAt` | crates/assembly/src/doc_id.rs:628-640 | each slice lies right behind those before it and inside the list |
| `SegmentArgs.TotalArity` | crates/assembly/src/doc_id.rs:621-624 | the fold as a loop |
| `SegmentArgs.Distribute` | crates/assembly/src/doc_id.rs:621-648 | exactly when the true sum is right, the saturating total lets the loop cut the specified slices with a running offset that never leaves the list |
| `ArraySuffixes.ArraysFitIsExact` | crates/assembly/src/doc_id.rs:512-546 | exactly the pairs that parse, agree outside bracket groups and whose groups pair up under the rank rule are accepted |
| `ArrayLaws.ParseIsExact` | crates/assembly/src/doc_id.rs:512-546 | a string parses exactly as the texts and bracket groups it is written from |
| `ArrayLaws.ArraysFitExactly` | crates/assembly/src/doc_id.rs:512-546 | two encodings fit exactly when they are written with the same text outside brackets, and inside them a vector meets a vector and otherwise the key has as many commas or one fewer |
| `ArraySuffixes.FitsConcat` | crates/assembly/src/doc_id.rs:512-546 | fitting prefixes and fitting suffixes fit together |
| `ArraySuffixes.GroupFits` | crates/assembly/src/doc_id.rs:512-546 | two groups whose ranks fit are accepted |
| `ArraySuffixes.ArraysFitLoop` | crates/assembly/src/doc_id.rs:512-546 | the loop over the two remaining slices decides the same |
| `Skeletons.FittingHasOneSkeleton` | crates/assembly/src/doc_id.rs:512-546 | two texts that fit are equal outside brackets |
| `Skeletons.NameIsUnique` | crates/assembly/src/doc_id.rs:603-667 | a name written over balanced arguments determines them |
| `DocIds.SplitUndoesJoin` | crates/assembly/src/doc_id.rs:490-506 | splitting at top-level commas gives back every list of balanced parts |
| `DocIds.EncClosed` | crates/assembly/src/doc_id.rs:576-688 | an encoded type is balanced and hides its commas, however deeply it nests, in any dialect |
| `DocIds.DialectFits` | crates/assembly/src/doc_id.rs:699-714 | whichever unbounded arrays a compiler writes with one spec less, at any depth, the key fits the IL encoding |
| `DocIds.ArityReadsBack` | crates/assembly/src/doc_id.rs:412-426 | a generic arity reads back behind any name |
| `KeyLaws.KeyArityExact` | crates/assembly/src/doc_id.rs:418-422 | the arity of a key is the number behind the last two backticks of its name |
| `KeyLaws.ParseUsizeExact` | crates/assembly/src/doc_id.rs:420 | exactly the numerals that fit a machine word, with an optional plus sign, are numbers |
| `KeyLaws.SplitKeepsText` | crates/assembly/src/doc_id.rs:490-506 | splitting loses nothing but the commas it splits at |
| `KeyLaws.SplitsAtDepthZero` | crates/assembly/src/doc_id.rs:490-506 | it splits at the commas of depth zero and at no other, on unbalanced texts too |
| `KeyLaws.SplitKeyRefuses` | crates/assembly/src/doc_id.rs:480-488 | a key has no parts exactly when a list is opened that its last character does not close |
| `KeyLaws.SplitKeyParts` | crates/assembly/src/doc_id.rs:480-488 | a key with a closed list is its name up to the first parenthesis and that list |
| `KeyLaws.KeyFitsExactly` | crates/assembly/src/doc_id.rs:412-442 | a key fits exactly when it is a name of a fitting arity and parameters of which the first, for a method only, are F# function witnesses and the others fit one by one |
| `KeyLaws.PrimitivesAreNamed` | crates/assembly/src/doc_id.rs:764-784 | the names of the primitives |
| `DocIds.OwnKeySplits` | crates/assembly/src/doc_id.rs:230-258 | a non-conversion method's computed ID splits into the text before its parameters and exactly its encoded parameters |
| `DocIds.OwnKeyFits` | crates/assembly/src/doc_id.rs:397-442 | its own key is accepted for every `erased_typars` if it is generic, and otherwise exactly when the arity its name is read to carry is not larger |
| `DocIds.OwnKeyFitsPlainName` | crates/assembly/src/doc_id.rs:397-442 | hence always when no two backticks stand together before the parameters |
| `DocIds.TickedNameIsRefused` | crates/assembly/src/doc_id.rs:418-427 | a non-generic method named with two backticks and a larger number is refused its own key |
| `DocIds.ConversionKeyFits` | crates/assembly/src/doc_id.rs:230-258 | a conversion operator's own key is accepted exactly when it has no parameter and the arity read from the whole key fits |
| `DocIds.SplitTopLevelLoop` | crates/assembly/src/doc_id.rs:490-506 | the loop over depth and start computes the specified split |
| `DocIds.EncodeName` | crates/assembly/src/doc_id.rs:603-667 | the named branch of `type_enc`, guard and loop, computes the specified encoding |
| `KeyNames.ParenInNameIsRefused` | crates/assembly/src/doc_id.rs:480-488 | a name that holds an opening parenthesis, and nothing the scanners count, costs a method its own key: the key is split inside the name |
| `TypeIdentity.EncIsShapeText` | crates/assembly/src/doc_id.rs:576-688 | the encoding shows a type's shape and nothing else: no assembly, no annotation, no read-only mark, no boundary between namespace and nesting |
| `TypeIdentity.ErasingKeepsShape` | crates/assembly/src/doc_id.rs:576-688 | nullability is part of no shape, so of no encoding |
| `TypeIdentity.EncodingIdentifiesShape` | crates/assembly/src/doc_id.rs:576-688 | two types whose names avoid the marks of the encoding have one encoding exactly when they have one shape |
| `TypeIdentity.IdIdentifiesOverload` | crates/assembly/src/doc_id.rs:230-258 | two methods of a type share an ID exactly when they share the text before the parameters and their parameters have the same shapes |
| `MethodIds.EscapedHoldsNone` | crates/assembly/src/doc_id.rs:724-733 | an escaped name holds no `.`, `<` or `>` |
| `MethodIds.EscapeReadsBack` | crates/assembly/src/doc_id.rs:724-733 | reading `#`, `{` and `}` back restores a name exactly when it held none of them |
| `MethodIds.HeadParts` | crates/assembly/src/doc_id.rs:230-258 | before the parameters stand the kind, the declaring type, a `.` and the member, which holds no other |
| `MethodIds.IdReadsBack` | crates/assembly/src/doc_id.rs:230-258 | a reader gets back from an ID the kind, the declaring type, the name, the arity and the encoded parameters |
| `MethodIds.ConversionReadsBack` | crates/assembly/src/doc_id.rs:238-247 | a conversion operator's ID is such an ID with `~` and the encoded return type behind it |
| `MethodIds.IdIdentifiesMethod` | crates/assembly/src/doc_id.rs:230-258 | two methods of any two types share an ID exactly when they agree on the declaring type, the name, the arity, the kind and the shapes of their parameters |
| `MethodIds.ConversionIdIdentifies` | crates/assembly/src/doc_id.rs:239-247 | conversion operators share an ID exactly when they agree on the shape of the return type besides |
| `FsTypes.WrittenIsSound` | crates/assembly/src/doc_id.rs:353-371 | whatever nodes of an F# type are respelled, at any depth, its text is balanced and hides its commas |
| `FsTypeLaws.ByrefsAreSpelled` | crates/assembly/src/doc_id.rs:353-371 | each byref abbreviation is written under its own name, its kinds behind its type |
| `FsTypeLaws.TuplesAreNested` | crates/assembly/src/doc_id.rs:373-375 | the IL type of a wide tuple is a `System` tuple of at most eight slots whose flattened elements are the tuple's own |
| `FscKeys.RespellingShows` | crates/assembly/src/doc_id.rs:446-477 | a respelled node at any depth makes the text differ from the IL encoding outside brackets |
| `FscTuples.NeverItsOwnTuple` | crates/assembly/src/doc_id.rs:373-375 | no F# type is written as the one-element tuple of its IL type, the only way an eighth element could pass |
| `FscTuples.FlatTupleShows` | crates/assembly/src/doc_id.rs:373-375 | a tuple of eight or more elements written flat never fits the nested tuple of the IL |
| `FscKeys.HiddenRespellingIsRefused` | crates/assembly/src/doc_id.rs:446-477 | a respelled node below an array, a type argument or a plain byref or pointer is refused, and so is a flat tuple of eight or more wherever it stands |
| `FscKeys.NativePtrArrayIsRefused` | crates/assembly/src/doc_id.rs:446-477 | an array of `nativeptr` is refused against the IL's array of `System.IntPtr` |
| `FscKeys.NativePtrOfIntArrayIsRefused` | crates/assembly/src/doc_id.rs:446-477 | in particular `nativeptr<int>[]` |
| `FscKeys.WrittenFitsExactly` | crates/assembly/src/doc_id.rs:446-477 | the text of an F# type with byref, `ilsigptr`, `nativeptr`, `voidptr` and wide tuple nodes respelled anywhere, in any array dialect, is accepted exactly when every node above a respelled one is a byref or pointer that is abbreviated itself; below a `nativeptr` anything may stand |
| `FscKeys.FscKeySplits` | crates/assembly/src/doc_id.rs:480-506 | a recorded key splits back into its head, its witnesses and its parameters |
| `FscKeys.FscKeyFits` | crates/assembly/src/doc_id.rs:353-442 | a recorded key with any witnesses, any F# types that compile to the IL's parameters, any array dialect and any number of measure parameters up to those erased is accepted exactly when each parameter is, and the name of a key without an arity is not read to carry more than that number |
| `TypeSyntax.TypeReadsBack` | crates/assembly/src/display.rs:980-1039 | in front of any token that cannot continue a type, the parser reads a printed type back and stops behind it |
| `TypeSyntax.PrintIsUnambiguous` | crates/assembly/src/display.rs:980-1039 | the parser recovers every well-formed tree from its tokens |
| `Display.RenderPrints` | crates/assembly/src/display.rs:994-1159 | `render` prints the tree with tuples flattened and namespaces forgotten, at that tree's precedence |
| `Display.RenderIsUnambiguous` | crates/assembly/src/display.rs:1051-1159 | so the parser recovers exactly that tree from any rendered type |
| `Display.RenderNullableIsUnambiguous` | crates/assembly/src/display.rs:1012-1035 | the same with annotations, a byref's moved inside it |
| `Display.ElemsAreFlattened` | crates/assembly/src/display.rs:1178-1193 | a tuple shows the elements `flatten_tuple` lists |
| `Display.FlattenUndoesNest` | crates/assembly/src/display.rs:1178-1193 | flattening undoes the eight-wide `TRest` nesting of every non-empty element list, tuples among the elements left alone |
| `DisplayLaws.TupleShowsFlat` | crates/assembly/src/display.rs:1163-1193 | an F# tuple of any width shows as one flat tuple, a struct one exactly for `System.ValueTuple` |
| `DisplayLaws.TupleShows` | crates/assembly/src/display.rs:1107-1124 | a `System` tuple of two or more arguments shows as the tuple of its flattened elements |
| `DisplayLaws.FlattenLeavesAlone` | crates/assembly/src/display.rs:1178-1193 | only a tuple in the eighth and last slot is flattened |
| `DisplayLaws.FunctionShows` | crates/assembly/src/display.rs:1091-1098 | `FSharpFunc` of `Microsoft.FSharp.Core` shows as an arrow from its first argument to its second |
| `DisplayLaws.ConstructorsShow` | crates/assembly/src/display.rs:1047-1073 | a read-only byref shows as `inref`, another as `byref`, a pointer as `nativeptr`, a void pointer as `voidptr` |
| `DisplayLaws.ArrayShows` | crates/assembly/src/display.rs:1057-1065 | an array shows one comma less than its rank |
| `DisplayLaws.AnnotationShows` | crates/assembly/src/display.rs:1012-1035 | an annotation puts one mark, inside every byref around the type; the other two states put none |
| `DisplayLaws.NameShows` | crates/assembly/src/display.rs:1126-1159 | any other type shows under its name: alone, behind its one argument, or before two or more in angle brackets |
| `DisplayLaws.NestedShows` | crates/assembly/src/display.rs:1207-1240 | a nested name whose arities account for its arguments shows each on its own segment |
| `DisplayLaws.Parenthesises` | crates/assembly/src/display.rs:980-1039 | parentheses stand exactly around a function in front of an arrow or a name, and around a function or a postfix application in front of brackets and of a mark |
| `DisplayLaws.TuplePrints` | crates/assembly/src/display.rs:1107-1124 | elements stand between stars in the tuple's own parentheses, `struct` in front of a struct one |
| `DisplayLaws.PathPrints` | crates/assembly/src/display.rs:1207-1240 | segments stand between dots, and their arguments between commas in angle brackets |
| `Display.PrintersAgreeOnNesting` | crates/assembly/src/display.rs:1207-1240 | under the saturating guards of both, `render_nested` and `type_enc` distribute on exactly the same nested types, those whose true arity sum is right, and else both place the whole list once |
| `Display.RenderNested` | crates/assembly/src/display.rs:1207-1240 | the loop over the segments answers exactly under its guard, and then with what `render` prints |

## Left out

- MSBuild, Roslyn, JSON and SHA-256 themselves, path canonicalisation, and the merging of compiler diagnostics.
- Exceptions that escape a handler, an allocation that fails on a huge Content-Length, and `int.TryParse` signs of other cultures.
- An I/O fault while reading the inputs of a key is folded into the emit outcome.
- `Path.Combine` with the separators of Windows: `CachePath` knows `/` alone.
- Strings are sequences of Unicode scalars, so a lone UTF-16 surrogate is not represented.
- The raw metadata reader, attribute decoding other than the nullability payload, F# pickle decoding and resource decompression.
- Member projection, the attributes, variance and flags of a generic parameter, parameter defaults and the entity attributes; in `TypeNesting` whether a type's own shape decodes is a property of the row.
- The labels and messages of errors and of dropped nested types.
- The lexical form of identifiers, the keyword, primitive and alias tables of the printer: `Display` works on tokens, with the tables as parameters.
- Documentation IDs of fields, properties, events and union cases, `walk_doc_ids`, the overflow of an arity plus `erased_typars`, `CurriedArgs::split`, `method_arg_groups` and `render_decimal`, which would add only easier members.
- `by_ref`: it rewrites one node; what the probe checks with it follows from `ModifierPolicy.UnrecognisedModifierIsFatal`, which holds for byref positions.
