# CISA in Dafny

CISA keeps the call graph of a program compiled to bitcode up to date while the program's history
is replayed commit by commit, and tells for each changed function which entry points and subsystems
it touches. This project models its core and proves what it relies on. Everything is stated over
all inputs, all runs or all reachable states; a property that the code does not meet is kept as it
is, with a concrete input that shows it and the exact condition under which it holds.

`dafny verify dfyconfig.toml` checks the whole project.

## What is modelled

**The incremental call graph.** `CallGraphPass` and `TypeDive` are the imperative classes: they
update `Modules`, `GlobalFuncMap`, `BCFuncs`, `Callees`, `Callers` and `CallerPaths` in the order
the C++ code does. Each method is proved against a one-step specification (`CallGraphState.Next`);
`UpdateModules` is shown to be exactly one such step. Over the steps, `CallGraphRuns` proves the
invariant of every run, and `CallGraphRebuild` compares the maintained graph with one built from
scratch over the files loaded at that moment. The field `Seen`, which remembers what each file's
calls were resolved against at its last scan, is history for the proofs and does not exist in C++.
The result: the maintained graph is always contained in the rebuilt one, is equal on every file
reloaded or affected by the last update, and stays equal everywhere along a whole run if and only
if no update exports a name that an untouched file was already calling without a definition.
`LateDefinitionIsMissed` is the two-file program where it does.

**Graph walks and their cache.** `GraphWalk` is `VisitSubtreeBFS`, whose queue holds duplicates,
with any action; the `break` for `STOP` leaves only the `switch`, so the walk goes on.
`AncestorRuns` proves what sequences of `IsAncestor` queries answer. The lookups inside the walk
(src/globalctx.cc:118-126) index the caches the other way round from where they are filled
(src/globalctx.cc:128-135, 150-151). Two orientations are therefore kept apart: `Filled` looks up
where the code fills, and is exact for every graph and every sequence of queries; `Swapped` is the
code as written (the class `AncestorCache` runs it), and is exact on every graph if and only if no
pair is asked for the first time after its descendant was asked about as an ancestor (pairs of equal
functions aside).
`SwappedMissesAncestor` is a wrong answer on a three-function graph. The operation analyzer only
asks from entry points to other functions, for which the code as written is exact.

**Diffs and line numbers.** `UnifiedDiff` prints edit scripts in the "Diff -u or -U Output Format"
of the `diff` utility in IEEE Std 1003.1-2008; `DiffReader` is the Python reader; `LineMap` is the
C++ line mapping; `DiffFiles` puts the two together. `Commits` prints whole commits the way
`git show` does, any message in front, and says exactly which of them are read as they are.
`CorrectChanges`, `Matching` and `Handover` follow the tags and results of moved functions;
`MatchedLines` says along the edit script who is matched with whom.

**Multi-layer type analysis.** `TypeIndex` is the pair of maps between functions and struct fields
with the container walk; `TypeClosure` the worklist over type propagation; `LayerChain` the walk
over SSA values. `FindCallees` is the resolution of one indirect call, with its memo table and the
two work sets that keep their contents from layer to layer; `LayerQuery` is its exact result, in the
order in which a C++ set is traversed, and `LayerExact` says for which layers this is the
intersection of their targets. `LayerWalk` and `LayerMeaning` say the same without the steps: which
layers a call consults, and which of the functions stored over a run it answers.

**Analyzers.** `Aggregate` defines both `Aggregate` functions by reachability; `RunAggregate` says
what the subsystem analyzer answers on the graph that a run of updates has left.

**The vendored pybind11.** `Strides`, `ArrayIterator`, `Broadcasting` and `Vectorize` are the
broadcasting iterator and its fast paths, for any rank, extent and integer stride, including the
result array. `Utf8` and `PythonBuf` are the stream buffer every call of `src/cisa.cc` goes through,
with UTF-8 by section 4 of RFC 3629. `CallOnce` is the initialisation protocol over the interpreter
lock and the once flag; `CallOnceFair` is about its infinite fair runs. `Binding` and `Dispatcher`
are the argument binding and the two-pass overload choice; `Acceptance` says which calls are
accepted and made, by the arguments alone.

## Findings

- An update that first defines a name leaves earlier callers of that name without the edge, unless
  they are reloaded too (`CallGraphRebuild.LateDefinitionIsMissed`).
- `IsAncestor` can answer wrongly from its own cache (`AncestorRuns.SwappedMissesAncestor`).
- The reader of commits reports every file as it is if and only if no line of the message starts
  with `@@`, or with a `diff` that fewer than three words follow, no path has a blank, no file's mode
  has changed, and every file but the last has a hunk (`Commits.AllReportedIff`). A file that was
  edited and made executable is reported as new, without its deleted lines
  (`Commits.ModeChangeMisread`); a quoted hunk header hides all files (`Commits.QuotedHunkHidesAll`);
  a path with a blank is read as two (`Commits.BlankMisread`); a file without a hunk is passed over
  (`Commits.EmptyFileMissed`). A commit without files is reported as one exactly
  if its message, up to the first line that starts with `@@`, has no `diff` that fewer than three
  words follow and leaves no path of a `diff` line open (`Commits.NothingReportedIff`,
  `Commits.QuotedHeaderReported`, `Commits.ShortHeaderFails`).
- Two new functions matched with one deleted function: the second ends up without tags
  (`Handover.AllTagsHandedOverIff`, `Handover.SecondTakerLeftWithout`), though not without results
  (`Handover.ResultsAdded`).
- The stream buffer overruns its allocation for buffer sizes below 4, on one four-byte character
  (`PythonBuf.EmojiOverruns`), and stays inside on every valid stream from size 4 on
  (`PythonBuf.ValidInBoundsIffFour`). The default size is 1024.
- An exception on the way to Python leaves the buffer full: a text that is not UTF-8, or a `write` or
  `flush` that raises. A run stays inside the allocation, of any size, if and only if no byte is put
  after a put has left all bytes in the buffer until a sync has taken some out
  (`PythonBuf.InBoundsIffNotStuck`); from size 4 on a put leaves them all only if it throws
  (`PythonBuf.KeepsAllIffThrows`). Bytes that begin no character overrun every size
  (`PythonBuf.StrayBytesOverrun`). These are puts on the buffer itself: an `ostream` that catches the
  exception sets `badbit` and puts nothing more until its state is cleared. When `flush` raises, the
  text is written again later (`PythonBuf.ConservedIff`, `PythonBuf.RaisingFlushRepeats`).
- `args_convert` is shifted against `args` when keyword-only arguments follow `*args`
  (`Binding.FlagsAlignedIff`, `Binding.KeywordOnlyLosesItsFlag`).
- Binding reads past the argument records of a function without annotations that has arguments after
  `*args`, and of no other (`Binding.NeverPastIffOk`, `Binding.UnannotatedAfterArgs`).
- A layer whose targets start from a field that stands for all fields of its type lets targets of
  the layers before it through (`FindCallees.LeftoverWidens`, a field of an element of an array).
  Unless it is the first and has no entry in the memo table, such a layer need not narrow the result
  to its own targets; so the answer is the intersection for all stored functions and all entries that
  earlier queries may have left if and only if every such layer covers one that narrows
  (`LayerExact.ExactIffLooseCovered`, `LayerExact.RepeatedWildExact`).

## Model

| member | source | states |
|---|---|---|
| `Program.ByNameExact` | src/callgraph/CallGraph.cc:50-51 | the row of a module holds its definitions and nothing else, each under its own name |
| `CallGraphPass.CallGraphPass.DoInitialization` | src/callgraph/CallGraph.cc:146-169 | every external definition of the module is in `GlobalFuncMap` under its GUID, the rest of the table is as before |
| `CallGraphPass.AllExportsExact` | src/callgraph/CallGraph.cc:165-168 | after initialising a list of modules an entry is an exported definition of a listed module or one from before |
| `CallGraphPass.CallGraphPass.LinkCall` | src/callgraph/CallGraph.cc:89-109 | a direct call adds its resolved target to `Callees`, its caller to `Callers` and the caller's file to `CallerPaths` |
| `CallGraphPass.CallGraphPass.DoMLTA` | src/callgraph/CallGraph.cc:43-112 | scanning a function adds exactly the edges of its direct calls, in all three maps, and its row entry |
| `CallGraphPass.CallGraphPass.DoModulePass` | src/callgraph/CallGraph.cc:245-279 | scanning a module adds exactly the edges of its definitions and leaves other files' rows alone |
| `CallGraphPass.CallGraphPass.FinalizeFunction` | src/callgraph/CallGraph.cc:217-231 | a function keeps the definitions among its callees and the definitions its declarations stand for |
| `CallGraphPass.CallGraphPass.DoFinalization` | src/callgraph/CallGraph.cc:208-243 | exactly the functions of the listed modules are finalised |
| `CallGraphPass.FinalizedIsEdges` | src/callgraph/CallGraph.cc:221-231 | finalising what a call resolves to leaves exactly the defined targets |
| `CallGraphPass.CallGraphPass.Run` | src/callgraph/CallGraph.h:43-66 | all modules are initialised before any is scanned, all scanned before any is finalised |
| `TypeDive.TypeDive.AddAff` | src/callgraph/TypeDive.cc:101-111 | a caller's file is listed for scanning once, unless it is reloaded itself |
| `TypeDive.TypeDive.CollectAffected` | src/callgraph/TypeDive.cc:86-135 | the list to scan is the reloaded files and all files on record as their callers, each once; the records of reloaded files are dropped |
| `TypeDive.TypeDive.TearDown` | src/callgraph/TypeDive.cc:140-144 | a function's outgoing edges are removed at both ends, all others stay |
| `TypeDive.TypeDive.InvalidateEdges` | src/callgraph/TypeDive.cc:137-154 | the edges out of every function of a listed file are gone, and its row |
| `TypeDive.TypeDive.InvalidateModules` | src/callgraph/TypeDive.cc:156-205 | reloaded files map to their new module, affected ones to the one they had, and the GUIDs defined in either are erased |
| `TypeDiveSteps.UnregisterOne` | src/callgraph/TypeDive.cc:183-196 | the module list and the two maps still describe the same files after one is taken out |
| `TypeDiveSteps.RegisterOne` | src/callgraph/TypeDive.cc:200-204 | and after one is put in |
| `TypeDive.TypeDive.Initialize` | src/callgraph/TypeDive.cc:53-77 | loading builds the graph of the files that parse, one update from nothing |
| `TypeDive.TypeDive.UpdateModules` | src/callgraph/TypeDive.cc:79-213 | an update is exactly one step of the specification and keeps the invariant |
| `UpdateRefines.GlobalsExact` | src/callgraph/TypeDive.cc:178-178 | erasing and re-entering GUIDs leaves exactly the exported definitions of the loaded files |
| `UpdateRefines.CalleesRefine` | src/callgraph/CallGraph.cc:99-99 | after tearing down, scanning and finalising, touched functions have exactly their resolved calls, the others what they had |
| `UpdateRefines.CallersRefine` | src/callgraph/CallGraph.cc:100-100 | the same for the inverse edges |
| `UpdateRefines.CrossesIsCallsInto` | src/callgraph/CallGraph.cc:102-103 | a file is recorded as caller of another exactly when one of its scanned calls resolves into it |
| `UpdateRefines.UpdateIsNext` | src/callgraph/TypeDive.cc:137-210 | the three loops and the run make up one step |
| `CallGraphRuns.UpdateKeepsInv` | src/callgraph/TypeDive.cc:100-154 | every update keeps: callers inverse to callees, edges only between loaded functions, `CallerPaths` covers every edge |
| `CallGraphRuns.EdgesInProgram` | src/callgraph/TypeDive.cc:137-154 | no edge mentions a function of an unloaded module version |
| `CallGraphRuns.RescannedTorn` | src/callgraph/TypeDive.cc:128-129 | what is scanned again has been torn down first: the recorded callers suffice |
| `CallGraphRuns.EdgeSurvives` | src/callgraph/TypeDive.cc:128-133 | an edge that is kept leads to a function that is still loaded |
| `CallGraphRebuild.RunKeepsInv` | src/callgraph/TypeDive.cc:79-213 | the invariant holds at every moment of every run of updates |
| `CallGraphRebuild.BuiltEdges` | src/callgraph/CallGraph.cc:89-109 | a graph built from scratch has an edge for every call with a target that has a body, in the module or exported under the same GUID, and no other |
| `CallGraphRebuild.RunAgainstRebuild` | src/callgraph/TypeDive.cc:79-213 | at every moment of every run the maintained graph is contained in the rebuilt one, equal on touched files, and equal on a file iff none of its calls was missed |
| `CallGraphRebuild.CompleteIffRebuilt` | src/callgraph/TypeDive.cc:209-210 | no call was missed iff the two graphs are equal everywhere |
| `CallGraphRebuild.CompleteIffNothingCaptured` | src/callgraph/TypeDive.cc:128-129 | an update keeps equality iff it exports no name an untouched file calls without a definition |
| `CallGraphRebuild.RunCompleteIffNothingCaptured` | src/callgraph/TypeDive.cc:79-213 | equality along a whole run iff no update of it does |
| `CallGraphRebuild.LateDefinitionIsMissed` | src/callgraph/CallGraph.cc:94-97 | a program of two files where an update leaves an edge out |
| `RunAggregate.RunInverse` | src/analyzer/sub.cc:47-55 | on every run the callers are the inverse the upward walk needs |
| `RunAggregate.SubsystemsAfterRun` | src/analyzer/sub.cc:47-61 | the subsystems found on the maintained graph are among those of a rebuilt one, and the same if no call was missed |
| `GraphWalk.VisitSubtreeBFS` | src/globalctx.cc:74-112 | terminates on every finite graph for any action; acts on the start and on exactly the successors of nodes it went on from, level by level |
| `GraphWalk.FirstUnvisitedAppend` | src/globalctx.cc:84-96 | appending to the queue does not delay the first unvisited entry: the termination measure |
| `GraphWalk.WalkedExactly` | src/globalctx.cc:98-111 | with an action that depends on the node, the nodes acted on are those reached through nodes not skipped |
| `GraphWalk.WalkedAll` | src/globalctx.cc:98-111 | when nothing is skipped, exactly the nodes reachable from the start |
| `GraphWalk.BreadthFirst` | src/globalctx.cc:84-111 | a node that can be reached in fewer steps than another is acted on before it |
| `Ancestor.AncestorCache.IsAncestor` | src/globalctx.cc:115-154 | the code as written computes the query with swapped lookups, answer and caches |
| `Ancestor.FoundInTrace` | src/globalctx.cc:138-148 | the walk sets the answer iff a hit is reachable through nodes not skipped, although it goes on after `STOP` |
| `AncestorRuns.PrunedWalkExact` | src/globalctx.cc:139-148 | with sound caches, pruning at known non-ancestors does not change the answer |
| `AncestorRuns.FilledAlwaysExact` | src/globalctx.cc:128-151 | looking up where the caches are filled: every query of every sequence answers reachability, the caches stay sound and disjoint |
| `AncestorRuns.SwappedExactIffNoClash` | src/globalctx.cc:118-126 | the lookups as written are exact on every graph iff no pair of different functions is asked for the first time after its descendant was asked about as an ancestor of another function |
| `AncestorRuns.ClashNotExact` | src/globalctx.cc:118-126 | for every sequence with such a clash there is a graph on which an answer is wrong |
| `AncestorRuns.TopLevelQueriesExact` | src/analyzer/oper.cc:72-88 | queries from entry points to other functions never clash |
| `AncestorRuns.SwappedMissesAncestor` | src/globalctx.cc:118-126 | a wrong answer on three functions |
| `LineMap.MapPostToPreLine` | src/analman.cc:60-83 | the two loops compute the rank of the line among kept post lines, then the kept pre line of that rank |
| `LineMap.NthKeptExact` | src/analman.cc:72-80 | the second loop finds the line not deleted that has the given number of such lines up to it |
| `LineMap.KeptGoesToKept` | src/analman.cc:60-83 | a kept line goes to a kept line of the same rank |
| `LineMap.StrictlyIncreasing` | src/analman.cc:60-83 | the mapping is strictly increasing on kept lines |
| `LineMap.ExchangedIsInverse` | src/analman.cc:60-83 | with the lists exchanged it is the inverse, so it is a bijection |
| `LineMap.NeverDeleted` | src/analman.cc:60-83 | no line goes to a deleted line |
| `LineMap.AddedGoesAbove` | src/analman.cc:60-83 | an added line goes where the nearest kept line above goes, or to 0 |
| `DiffReader.DiffReader.GetChangedLinesPair` | scripts/comanal.py:37-64 | pops the lines up to the next that starts with `diff` and collects what the specification collects, failing on a bad hunk header and on a changed line before any |
| `DiffReader.DiffReader.GetPathPair` | scripts/comanal.py:16-35 | the paths of the last `diff` line before the next `@@`, each emptied by a `new` or `deleted` line; fails on a `diff` with too few words |
| `DiffReader.DiffReader.GetChangeInfos` | scripts/comanal.py:66-95 | the records of all files, in order, or the failure of either scanner |
| `DiffReader.ReadHunk` | scripts/comanal.py:44-57 | reading one printed hunk, with its notes, adds its deleted and inserted lines and no others |
| `DiffReader.ReadHunks` | scripts/comanal.py:37-64 | reading the printed hunks of any script gives exactly its deleted and inserted lines and stops at the next file |
| `DiffFiles.DeletedAscending` | scripts/comanal.py:51-51 | deleted lines come out strictly ascending |
| `DiffFiles.InsertedAscending` | scripts/comanal.py:54-54 | and so do inserted lines |
| `DiffFiles.KeptLineMapped` | src/analman.cc:60-83 | for every edit script each kept line's new number is mapped to its old number |
| `DiffFiles.ReadThenMapped` | scripts/comanal.py:37-64 | end to end: print, read, map; inside and outside the hunks |
| `Commits.CommitRead` | scripts/comanal.py:66-95 | reading a printed commit whose message is passed over reports the files with hunks and the last, a changed mode as a new file |
| `Commits.RenamedReported` | scripts/comanal.py:90-93 | a file renamed and edited is reported as deleted under the old name and added under the new one, with its lines |
| `Commits.AllReportedIff` | scripts/comanal.py:66-95 | for every message and all files: each is reported as it is iff no message line stops the path scanner, no path has a blank, no mode has changed and every file but the last has a hunk |
| `Commits.NothingReportedIff` | scripts/comanal.py:72-75 | a commit without files is reported as one iff its message, up to the first line that starts with `@@`, has no `diff` that fewer than three words follow and leaves no path of a `diff` line open |
| `Commits.ModeChangeMisread` | scripts/comanal.py:28-29 | an edited file made executable is reported as added, without its deleted line |
| `Commits.QuotedHunkHidesAll` | scripts/comanal.py:30-31 | an indented hunk header in the message leaves nothing reported, whatever the files |
| `Commits.BlankMisread` | scripts/comanal.py:22-25 | a path with a blank is read as the paths of its pieces |
| `Commits.EmptyFileMissed` | scripts/comanal.py:72-75 | an empty new file in front of an edited one is not reported |
| `Commits.ShortHeaderFails` | scripts/comanal.py:22-25 | a message line that starts with `diff` and too few words, before any `@@`, makes the reader fail, whatever the files |
| `Commits.QuotedHeaderReported` | scripts/comanal.py:22-25 | a quoted `diff` line in the message of a commit without files is reported |
| `Matching.FindMatch` | src/analman.cc:93-106 | the widening search finds what one pass for the closest would |
| `Matching.MatchIsClosest` | src/analman.cc:96-106 | the match is at minimal distance, at most 3, and first among those; none iff all are farther |
| `Analyzer.Analyzer.Move` | src/analyzer/analyzer.h:72-85 | in every table the tags of the one function replace those of the other |
| `Analyzer.Analyzer.AddTag` | src/analyzer/analyzer.h:64-67 | one tag is added to one function in one table, an index out of range is ignored |
| `CorrectChanges.AnalyzerManager.MatchOne` | src/analman.cc:88-118 | one new function: tags moved in every analyzer, results merged into its own |
| `CorrectChanges.AnalyzerManager.CorrectChanges` | src/analman.cc:85-127 | all tables and results are what the moves and merges in order make of them, with nothing left for a deleted function |
| `MatchedLines.KeptPaired` | src/analman.cc:88-106 | for every edit script a new function on a kept line is paired with the first listed deleted function nearest to the same line of the old file, at most 3 away, or with none |
| `MatchedLines.InsertedPaired` | src/analman.cc:88-106 | one on an inserted line, with the nearest to the last line kept above it |
| `MatchedLines.InsertedFirstPaired` | src/analman.cc:88-106 | or to the beginning of the file, if none is kept above it |
| `MatchedLines.KeptTagsArrive` | src/analman.cc:85-127 | end to end: a new function on a kept line has the tags of the deleted function nearest to it, unless an earlier one took them, and its results on top of its own |
| `MatchedLines.MatchedBelowAddedLines` | src/analman.cc:97-97 | a function moved down by five added lines is matched |
| `Handover.TagsHandedOver` | src/analman.cc:108-112 | a matched function holds its match's old tags unless an earlier one took them; others keep theirs |
| `Handover.AllTagsHandedOverIff` | src/analman.cc:108-112 | every matched function gets its match's tags, whatever they are, iff the matching is injective |
| `Handover.SecondTakerLeftWithout` | src/analman.cc:93-112 | two new functions next to one deleted: the second ends up without its tags |
| `Handover.ResultsAdded` | src/analman.cc:113-117 | a matched function holds its match's results on top of its own, shared match or not |
| `Handover.PairingsSeparate` | src/analman.cc:88-106 | lists without a common function give the separation the above need |
| `Aggregate.UpIsDown` | src/analyzer/sub.cc:50-55 | walking up the callers meets exactly the functions whose walk down the callees comes back |
| `Aggregate.AggregateSubsystems` | src/analyzer/sub.cc:47-61 | the tags of exactly the functions whose downward walk reaches the function, or all subsystems if there are none |
| `Aggregate.CallerDecides` | src/analyzer/sub.cc:47-61 | a caller's tag counts for the callee, a callee's not for the caller |
| `Aggregate.OperationLevelAnalyzer.GetOrFindTopLVTags` | src/analyzer/oper.cc:29-44 | the cache answers the tags the entry point reaches, and stays correct |
| `Aggregate.OperationLevelAnalyzer.Aggregate` | src/analyzer/oper.cc:214-259 | the entry points that reach a function with a MOD tag that is a REF tag of one the function reaches, or the reverse, or all entry points if there are none |
| `TypeIndex.TypeIndex.ConfineTargetFunction` | src/callgraph/MLTA.cc:586-608 | the function is added to every field of its chain, in both maps, unless it is intrinsic; an incomplete chain caps its last type, or the function |
| `TypeIndex.TypeIndex.ConfineContainers` | src/callgraph/MLTA.cc:318-355 | terminates on cyclic initialisers; the function is added to the fields of exactly the containers around it at any depth |
| `TypeIndex.TypeIndex.InvalidateStates` | src/callgraph/MLTA.cc:1232-1249 | the module's functions disappear from the index, all others stay |
| `TypeIndex.StepKeepsInverse` | src/callgraph/MLTA.cc:586-601 | every step keeps the two maps inverse to each other |
| `TypeIndex.RunIndexExact` | src/callgraph/MLTA.cc:1232-1249 | after every run the maps are inverse and hold exactly the confinements that no invalidation has undone |
| `TypeIndex.ConfinedExact` | src/callgraph/MLTA.cc:1232-1249 | a confinement not undone is one of some step after which no step invalidated the function |
| `TypeClosure.GetDependentTypes` | src/callgraph/MLTA.cc:1046-1071 | the worklist terminates and adds exactly the transitive closure |
| `TypeClosure.ClosureTransitive` | src/callgraph/MLTA.cc:1060-1067 | what a dependency depends on is a dependency |
| `LayerChain.NextLayerBaseType` | src/callgraph/MLTA.cc:973-1044 | terminates on cyclic values; answer, list, next value and visited set are those of the specification, through copied lists at phis |
| `LayerChain.Next` | src/callgraph/MLTA.cc:973-1044 | the old list stays a prefix, the answer is true exactly when it grew, the visited set only grows |
| `LayerChain.NextFinds` | src/callgraph/MLTA.cc:992-1026 | what the list grows by is the fields of one access, reached without revisiting a value, at every phi by the first incoming value that leads to one; the values on the way are those visited |
| `LayerChain.NextExact` | src/callgraph/MLTA.cc:973-1044 | the list grows iff such an access exists: backtracking at phis misses none |
| `LayerChain.NextStops` | src/callgraph/MLTA.cc:973-1044 | a walk that finds nothing leaves the argument or the visited value at which it stops, through the last incoming value of every phi, or none |
| `LayerChain.FirstOperandsTaken` | src/callgraph/MLTA.cc:1009-1034 | a select and a phi on which the first operands count |
| `LayerChain.ChainOfDistinctAccesses` | src/callgraph/MLTA.cc:690-695 | the accesses of a chain are all different, so the loop ends |
| `LayerChain.GetBaseTypeChain` | src/callgraph/MLTA.cc:675-721 | the chain is the base type and the fields of the accesses met one after the other until none is reached; it is complete iff the walk stops at a value that is not open, and caps its last type otherwise |
| `LayerTargets.Consulted` | src/callgraph/MLTA.cc:1137-1212 | fewer than `MAX_TYPE_LAYER` layers are consulted |
| `LayerWalk.ConsultedWalk` | src/callgraph/MLTA.cc:1128-1212 | the layers are those of at most nine fields of the accesses met one after the other, each cut at a field that escapes, up to a capped field or an access that begins with an escaping one |
| `LayerWalk.WalkFields` | src/callgraph/MLTA.cc:1142-1205 | no layer escapes, and none but the last is capped |
| `LayerTargets.NarrowedExact` | src/callgraph/MLTA.cc:1191-1194 | narrowing keeps what has the signature and is a target of every layer |
| `FindCallees.GetTargetsWithLayerType` | src/callgraph/MLTA.cc:1093-1111 | with index -1 the functions of all fields are added to what the set held, otherwise the set is replaced |
| `FindCallees.Recompute` | src/callgraph/MLTA.cc:1177-1187 | the first work set gets the field's true targets, with its old contents if the field stands for all, and those of the second if the least dependency does |
| `FindCallees.MLTA.ConsultLayer` | src/callgraph/MLTA.cc:1161-1194 | one layer, from the memo table or recomputed, unless its field escapes: result, work sets and memo table exactly |
| `FindCallees.MLTA.FindCalleesWithMLTA` | src/callgraph/MLTA.cc:1114-1221 | for every value graph, result and memo table are those of consulting the call's layers in order, from any memo table |
| `LayerQuery.QueryLimited` | src/callgraph/MLTA.cc:1161-1194 | whatever the work sets hold, a layer narrows the result to its memo entry or to its true targets, or not at all if it is loose and not the first |
| `LayerQuery.FreshQueryExact` | src/callgraph/MLTA.cc:1114-1221 | from an empty memo table the result is what the first layer and those that are not loose leave of the signature's functions |
| `LayerQuery.QueryBounds` | src/callgraph/MLTA.cc:1114-1221 | after any earlier queries nothing is missing, nothing without the signature is there, and without loose layers the result is exact |
| `LayerMeaning.TargetsMayHold` | src/callgraph/MLTA.cc:1093-1187 | after every run of stores and invalidations a function is among a field's targets iff it was stored, and not invalidated since, in that field or one that feeds it, where index -1 overlaps all fields of the type |
| `LayerMeaning.FeedsOnExact` | src/callgraph/MLTA.cc:1046-1071 | the dependencies collected are the fields that feed the field by a path of propagations, each for the field or for all fields of its type |
| `LayerMeaning.NothingMissing` | src/callgraph/MLTA.cc:1114-1221 | whatever the memo table holds, a function of the signature that every layer consulted may hold is in the answer |
| `LayerMeaning.FreshAnswer` | src/callgraph/MLTA.cc:1114-1221 | from an empty memo table the answer is exactly the functions of the signature that the first layer and each that may not leak may hold |
| `LayerMeaning.AllFieldsAnswered` | src/callgraph/MLTA.cc:1105-1107 | a call through one field answers a function stored for all fields |
| `LayerExact.ExactIffLooseCovered` | src/callgraph/MLTA.cc:1098-1103 | with entries for a given set of fields in the memo table, the result is the intersection for all stored functions, signatures and covering entries iff every loose layer, other than a first one without an entry, covers a layer that narrows |
| `LayerExact.RepeatedWildExact` | src/callgraph/MLTA.cc:1098-1103 | a layer for all fields consulted twice is exact |
| `FindCallees.LeftoverWidens` | src/callgraph/MLTA.cc:1098-1103 | a query for a field of an array's element answers a function that is no target of the array layer |
| `Strides.COffset` | extern/pybind11/include/pybind11/buffer_info.h:19-28 | C strides put an element at its row-major position |
| `Strides.FOffset` | extern/pybind11/include/pybind11/buffer_info.h:31-38 | Fortran strides at its column-major position |
| `Strides.MakeCStrides` | extern/pybind11/include/pybind11/buffer_info.h:19-28 | the loop from the back computes the product of the extents behind each dimension |
| `Strides.MakeFStrides` | extern/pybind11/include/pybind11/buffer_info.h:31-38 | the loop from the front the product of those before |
| `Strides.DigitsOfRow` | extern/pybind11/include/pybind11/numpy.h:414-420 | a multi-index is the mixed-radix digits of its row-major position |
| `Strides.RowOfDigits` | extern/pybind11/include/pybind11/numpy.h:414-420 | and the digits of a position are a multi-index at that position |
| `ArrayIterator.MakeCommonIterator` | extern/pybind11/include/pybind11/numpy.h:1574-1582 | the precomputed stride of a dimension steps along it and back from the end of all later ones |
| `ArrayIterator.CarriedIsNext` | extern/pybind11/include/pybind11/numpy.h:1612-1622 | the carried index is the next in row-major order, and one precomputed stride away, for any strides |
| `ArrayIterator.MultiArrayIterator.Increment` | extern/pybind11/include/pybind11/numpy.h:1612-1622 | one increment moves to the next position and keeps every pointer at base plus index times stride |
| `Broadcasting.MergeShape` | extern/pybind11/include/pybind11/numpy.h:1687-1704 | merging fails only if the inputs do not conform, else the shape is common to the inputs so far |
| `Broadcasting.IsCContiguous` | extern/pybind11/include/pybind11/numpy.h:1723-1737 | the running check accepts exactly C strides |
| `Broadcasting.IsFContiguous` | extern/pybind11/include/pybind11/numpy.h:1740-1753 | and exactly Fortran strides |
| `Broadcasting.Broadcast` | extern/pybind11/include/pybind11/numpy.h:1675-1759 | a shape and the right triviality iff all inputs conform |
| `Vectorize.FillStrides` | extern/pybind11/include/pybind11/numpy.h:1632-1656 | strides aligned at the last dimension, zero where a dimension is repeated, over whatever another buffer left |
| `Vectorize.StridesReachElement` | extern/pybind11/include/pybind11/numpy.h:1640-1654 | those strides lead every output index to the element broadcasting assigns to it |
| `Vectorize.OwnIndexModulo` | extern/pybind11/include/pybind11/numpy.h:1640-1654 | the element assigned is inside the input, at the aligned output index modulo the input's extents |
| `Vectorize.ApplyBroadcast` | extern/pybind11/include/pybind11/numpy.h:1947-1963 | the iterator calls the function on the right elements for every output index |
| `Vectorize.FlatC` | extern/pybind11/include/pybind11/numpy.h:1929-1943 | in C order the flat walk meets the same element at the index's row-major position |
| `Vectorize.FlatF` | extern/pybind11/include/pybind11/numpy.h:1929-1943 | in Fortran order at its column-major position |
| `Vectorize.ApplyTrivial` | extern/pybind11/include/pybind11/numpy.h:1921-1944 | the k-th call reads k elements further, single elements are repeated |
| `Vectorize.ApplyContiguous` | extern/pybind11/include/pybind11/numpy.h:1786-1791 | with the result array in the matching order the flat walk computes every element from its own inputs |
| `Vectorize.Run` | extern/pybind11/include/pybind11/numpy.h:1866-1918 | whichever path is taken every output element is computed from the inputs of its index; the output has the largest rank of an input, at each dimension the extent that some input has or else 1, and row-major order unless all inputs are ready for column-major only; it fails iff two inputs are incompatible |
| `Utf8.PrefixSplits` | extern/pybind11/include/pybind11/iostream.h:57-59 | a valid stream cut anywhere is a valid stream and the beginning of one character |
| `PythonBuf.RemainderExact` | extern/pybind11/include/pybind11/iostream.h:60-91 | on such a cut the remainder is exactly the bytes of that beginning |
| `PythonBuf.ConservedIff` | extern/pybind11/include/pybind11/iostream.h:47-53 | over every run of puts and syncs, whatever throws, the text written and the bytes held are the bytes put, in order, iff no `flush` raises |
| `PythonBuf.SyncedAccounts` | extern/pybind11/include/pybind11/iostream.h:94-117 | a sync loses nothing, repeats only when `flush` raises, and carries over at most 3 bytes unless it throws |
| `PythonBuf.PutWritesWhenFull` | extern/pybind11/include/pybind11/iostream.h:47-53 | a put writes only when the buffer is full, and then all but at most 3 bytes |
| `PythonBuf.NothingThrows` | extern/pybind11/include/pybind11/iostream.h:94-107 | while the bytes begin a valid stream and Python does not raise, no text fails to convert: no character is cut |
| `PythonBuf.WrittenValid` | extern/pybind11/include/pybind11/iostream.h:102-103 | every text written is valid UTF-8, whatever is put |
| `PythonBuf.AllWrittenAtTheEnd` | extern/pybind11/include/pybind11/iostream.h:132-133 | the destructor's sync completes a valid stream |
| `PythonBuf.ValidInBoundsIffFour` | extern/pybind11/include/pybind11/iostream.h:47-53 | all stores of all runs on valid streams are inside the allocation iff the size is at least 4 |
| `PythonBuf.InBoundsIffNotStuck` | extern/pybind11/include/pybind11/iostream.h:47-53 | for every size, a run's stores are inside iff no byte is put after a put has left all bytes in the buffer until a sync has taken some out |
| `PythonBuf.KeepsAllIffThrows` | extern/pybind11/include/pybind11/iostream.h:99-107 | from size 4 on a put that syncs leaves all bytes in the buffer iff it throws |
| `PythonBuf.StrayBytesOverrun` | extern/pybind11/include/pybind11/iostream.h:102-102 | put one by one on the buffer itself, bytes that begin no character overrun every size |
| `PythonBuf.RaisingFlushRepeats` | extern/pybind11/include/pybind11/iostream.h:103-105 | a text that is written twice |
| `PythonBuf.EmojiOverruns` | extern/pybind11/include/pybind11/iostream.h:122-127 | one four-byte character overruns every smaller size |
| `PythonBuf.PythonBuf.Overflow` | extern/pybind11/include/pybind11/iostream.h:47-53 | stores the byte, syncs and reports success, or throws with the byte stored; with end-of-file it only syncs |
| `PythonBuf.PythonBuf.DoSync` | extern/pybind11/include/pybind11/iostream.h:94-117 | array, position and texts after a sync are those of the specification, and it throws exactly when the conversion, `write` or `flush` does |
| `PythonBuf.Stream` | extern/pybind11/include/pybind11/iostream.h:119-133 | a whole run on a fresh buffer of any size, in which no byte is put while it is stuck, writes what the specification says and throws where it says, never storing outside |
| `CallOnce.StepKeepsInv` | extern/pybind11/include/pybind11/gil_safe_call_once.h:50-65 | every step of every thread keeps the invariant, and the object once it is initialised |
| `CallOnce.ConstructedOnce` | extern/pybind11/include/pybind11/gil_safe_call_once.h:50-65 | in every reachable state at most one construction has succeeded, and returned threads see it |
| `CallOnce.StoredStays` | extern/pybind11/include/pybind11/gil_safe_call_once.h:67-70 | what a returned call has found is never replaced |
| `CallOnce.NoWaitWithGil` | extern/pybind11/include/pybind11/gil_safe_call_once.h:54-55 | no thread waits at the once flag with the interpreter lock |
| `CallOnce.NoDeadlock` | extern/pybind11/include/pybind11/gil_safe_call_once.h:50-65 | in every reachable state the thread a call waits for can move |
| `CallOnce.AwaitedMoves` | extern/pybind11/include/pybind11/gil_safe_call_once.h:50-65 | and its move brings the call closer to its return |
| `CallOnce.CanReturn` | extern/pybind11/include/pybind11/gil_safe_call_once.h:50-65 | from every reachable state every thread's call can still return, whatever was thrown before |
| `CallOnceFair.CallEnds` | extern/pybind11/include/pybind11/gil_safe_call_once.h:50-65 | in every fair run every call that has released the interpreter lock ends, by returning or with an exception |
| `CallOnceFair.FairRunExists` | extern/pybind11/include/pybind11/gil_safe_call_once.h:50-65 | there is such a run with a call in it |
| `Binding.PlaceHoldsSource` | extern/pybind11/include/pybind11/pybind11.h:821-966 | every slot, every element of `*args` and every entry of `**kwargs` holds the object of its source |
| `Binding.EachSuppliedOnce` | extern/pybind11/include/pybind11/pybind11.h:768-782 | every positional argument and every keyword goes to exactly one place |
| `Binding.BothHaveNargs` | extern/pybind11/include/pybind11/pybind11.h:968-975 | both vectors have exactly `nargs` entries: the internal error cannot happen |
| `Binding.FlagsAlignedIff` | extern/pybind11/include/pybind11/pybind11.h:908-916 | every slot is loaded with its own conversion flag iff no argument that may be converted follows `*args` |
| `Binding.KeywordOnlyLosesItsFlag` | extern/pybind11/include/pybind11/pybind11.h:908-916 | a call where a convertible keyword-only argument is loaded without conversion |
| `Binding.NeverPastIffOk` | extern/pybind11/include/pybind11/pybind11.h:879-883 | no call reads past the records iff an unannotated function has no arguments after `*args` |
| `Acceptance.AcceptsIffPlaced` | extern/pybind11/include/pybind11/pybind11.h:788-931 | a registered overload is bound iff everything supplied has a place, every slot is served, and no keyword names an argument given by position |
| `Acceptance.CallExact` | extern/pybind11/include/pybind11/pybind11.h:821-966 | the call holds every argument as given, else by name, else its default, `*args` with what is given beyond, and `**kwargs` with the names of none |
| `Acceptance.DefaultsFilledIn` | extern/pybind11/include/pybind11/pybind11.h:802-805 | a call that leaves two defaults out is bound |
| `Dispatcher.Bind` | extern/pybind11/include/pybind11/pybind11.h:788-966 | the records are read past their end iff there are none for an argument looked up; an overload is bound iff it is acceptable, and the call is the one described |
| `Dispatcher.BindPositional` | extern/pybind11/include/pybind11/pybind11.h:827-877 | positional arguments and positional-only defaults fill the first slots, else the overload is not acceptable |
| `Dispatcher.BindKeywords` | extern/pybind11/include/pybind11/pybind11.h:879-926 | the other slots take keywords, each used once, or defaults, around the stub for `*args` |
| `Dispatcher.PackArgs` | extern/pybind11/include/pybind11/pybind11.h:933-956 | the leftover positional arguments take the stub's place, or the end |
| `Dispatcher.HasConvertible` | extern/pybind11/include/pybind11/pybind11.h:998-1010 | whether some positional argument besides the receiver may be converted |
| `Dispatcher.Dispatch` | extern/pybind11/include/pybind11/pybind11.h:758-1034 | for implementations that may answer by what was called before: the first answer to the calls of all overloads without conversion, then of those with a convertible positional argument with it; a single overload once, with it |
| `Acceptance.PlanExact` | extern/pybind11/include/pybind11/pybind11.h:978-1034 | the calls planned: every accepted overload once, in order, without conversion if there are several; then those again, in order and with their conversions, of which some positional argument besides the receiver can convert |

## Left out

- CallGraphPass.CallGraphPass.DoInitialization: the address-taken sets, the confinement of types and the remap after the last module are not part of its state.
- CallGraphPass.CallGraphPass.DoMLTA: calls are direct, and loops have been unrolled; the candidates of an indirect call are modelled by `FindCallees` apart from the call graph.
- TypeDive.TypeDive.CollectAffected: `CandCallerPaths`, which records callers through indirect calls, and modules that are null.
- TypeDive.TypeDive.InvalidateEdges: the pairs of the ancestor caches that name an invalidated function are erased in the same loop; the caches belong to `Ancestor`.
- TypeDive.TypeDive.InvalidateModules: `invalidateStates`, the global variables, `AddressTakenFuncs` and `sigFuncsMap`; the first is modelled by `TypeIndex`.
- TypeDive.TypeDive.Initialize: every path is listed once, and no two files export one name; the code would let the later one win.
- TypeDive.TypeDive.UpdateModules: the same, for the files of an update and for the program before and after it.
- LayerChain.GetBaseTypeChain: the base type, pointer arguments and values stored through are inputs, because they come from LLVM's type and use lists.
- Dispatcher.Bind: the receiver that fills slot 0 of a new-style constructor.
- Dispatcher.Dispatch: slot 0 of new-style constructors, already registered instances, error texts, and what follows a read past the argument records.
- PythonBuf.Stream: `xsputn` is taken as repeated `sputc`, and what follows a store outside the allocation or an exception in the destructor's sync is undefined or ends the program.
- Commits.AllReportedIff: paths that git quotes, and lines of the commit's own header that are indented or start with `diff`, `new`, `deleted` or `@@`.
- CallOnceFair.CallEnds: fairness is assumed, not derived: whoever can move again and again moves, the interpreter lock is released again and again, and `fn` ends. A function that calls the same storage again is undefined behaviour of the once flag and is excluded.
- Aggregate.AggregateSubsystems: needs the callers to be inverse to the callees, which `RunAggregate.RunInverse` provides for direct calls.
- Indirect calls in updates: `sigFuncsMap.erase` drops same-signature functions of other modules and the escape, cap and propagation sets never shrink, so no rebuild equivalence holds.
- The ancestor caches across updates: only pairs naming an invalidated function are dropped (src/callgraph/TypeDive.cc:145-150), so their exactness is claimed on a fixed graph.
- The REF half of the operation analyzer's cache across updates: only index 0 is cleared (src/analyzer/oper.cc:78-88); exactness is claimed from cleared caches.
- The declaration remap after the last module (src/callgraph/CallGraph.cc:171-203): it rewrites one map of the index without the other and erases while iterating.
- Reuse of freed function addresses, hash and GUID collisions: function identities and keys are unique.
- Entries that `operator[]` creates while reading: an absent key and an empty set are the same.
- `typeIdxFuncsMap` is nested in C++; here one map is keyed by hash and index together.
- LLVM itself: parsing, loop unrolling, debug info, `getGEPLayerTypes`; values, types and layer lists are inputs. A phi has at least one operand.
- The regular expression of a hunk header: a line comes as its words and its first character, and a hunk header with its two numbers.
- The `strict` flag of `Initialize` has no effect in the code, and none here.
- git, make, JSON, logging, statistics counters, clang wrappers, and the rest of pybind11 (casters, type creation, embedding).
