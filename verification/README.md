# little-loops: scheduling, run loop and document model

A Dafny model of the parts of little-loops whose correctness rests on an argument rather than
on a single function body.

The core is the dependency scheduler and the loop that drives it. Issues declare `blocked_by`,
one-sided `blocks` and soft `depends_on` references. `DependencyGraph` turns them into edges, and
four consumers read the result: the ready set, the execution waves, Kahn's topological sort and
the three-colour cycle search. The model proves what each computes and that the four agree.
`refine_waves_for_contention` then splits waves by greedy colouring, and `AutoManager` consumes
the ready set as a step system whose runs are proved safe.

Around it stand the smaller stateful pieces: the bounded continuation loop, the decision log
(flat file plus fragments), the completion transaction over file, index and commits with its
NUL-delimited status parser, the run-length output cleaner, the token alias resolver, the
frontmatter scanner and splicer, the rubric's worklist check and the Wilson interval.

Run `dafny verify dfyconfig.toml` with Dafny 4.11.

## How the model is built

| file | content |
|---|---|
| Basics.dfy, Ordering.dfy, Text.dfy | optional values, list sorting, string split and join |
| Digraph.dfy, Schedule.dfy | walks and cycles; ready sets, waves and longest chains as functions of a graph value |
| Kahn.dfy, KahnLevels.dfy | Kahn's loop, its counters, its relation to the waves, and the order inside a level |
| CycleSearch.dfy, DependencyGraph.dfy | the two mutable objects and their methods |
| WaveContention.dfy | conflict graph, greedy colouring, refined schedule |
| RunLoop.dfy, AutoManager.dfy | the step system of a run; the manager object |
| Continuation.dfy, DesignTokens.dfy | one module per source file |
| OutputCleaner.dfy, OutputText.dfy | the filter on lines, and what its text still tells |
| JsonOrder.dfy, Decisions.dfy | Python's order on JSON values; the decision log |
| Porcelain.dfy, Completion.dfy | the status parser; the completion transaction |
| FrontmatterScan.dfy, FrontmatterEdit.dfy | scanning and splicing |
| FrontmatterReadback.dfy, FrontmatterPrepend.dfy | what a scan finds after an update |
| RubricCheck.dfy, Wilson.dfy | the worklist; both forms of the interval |

An algorithm that works by mutation is a method or a class proved equal to a function of its
input or to a stated property; the theorems are lemmas about those functions. Git, the clock,
sessions, regular expressions and YAML enter as parameters that may answer anything.

## Where code and documentation disagree

The model follows the code. For each documented property that fails, a lemma gives the exact
condition under which it holds, and another member an input on which it does not.

- `topological_sort` documents levels sorted by priority and id (dependency_graph.py:312-313). It
  sorts only each newly released batch. `LevelsSortedIff` gives the condition, on the execution
  waves alone; `LevelOutOfOrder` is an instance.
- The second pass of `from_issues` tests whether the *blocked* issue is completed, not the blocker
  (dependency_graph.py:124-134). `CompletedBlockerStays` says exactly when a completed blocker
  remains, `CompletedBlockerWitness` is an instance.
- The circularity guard of the token resolver looks at the reference name before the primitives do
  and never at the `.$value` name (design_tokens.py:99, 115-125). `ResolveExact` and `TerminatesIff`
  say what follows for every key and file, `OwnNameIsRejected` and `FallbackSelfLoop` are instances.
- `complete_issue_lifecycle` documents that a False return never leaves a hollow `done`
  (issue_lifecycle.py:1091-1093), and `close_issue` that the file is left unmutated. The outer `except`
  (1056-1058, 1189-1191) returns False without a rollback. `HollowDoneIff` gives the condition, which the
  contracts of `CloseIssue` and `CompleteIssueLifecycle` repeat; `HollowDoneExample` is an instance.
- `filter_output` documents that the presence of a trailing newline is preserved
  (output_cleaner.py:59-60). `TrailingNewlineIff` gives the condition, `TrailingNewlineGained` an instance.
- `_load_fragments` documents that a bad fragment never lets an error out (decisions.py:58-63). JSON
  that is not an object raises inside the loop, and timestamps without an order raise in the sort
  behind it. `LoadsIff` gives the condition; `ArrayFragmentRaises` and `MixedTimestampsRaise` are
  the two instances.
- `update_frontmatter` documents a merge into the existing block (frontmatter.py:442-452). When the two
  markers stand on successive lines the closing one is glued to the new text; when the new text
  leaves a code fence open, which a dumped multi-line value can do, the closing one is masked.
  `ReadBackIff` gives the condition, and `PrependedReadBackIff` that of a new block; `EmptyBlockExample` and
  `OpenFenceExample` are the two instances.

One comment differs from the code without a documented promise behind it: issue_lifecycle.py:1157-1159
says the session-log line stays after a rollback, while the code writes back the content read before
the line was appended (`CompleteIssueLifecycle`, the clause on the body of a refusal).

## Model

| member | source | states |
|---|---|---|
| `Ordering.SortCanonical` | scripts/little_loops/dependency_graph.py:186-187 | sorting by a total order gives one result for a set of issues, so the iteration order of sets and dictionaries never shows |
| `Ordering.LexIff` | scripts/little_loops/dependency_graph.py:186-187 | ids compare by code point: a prefix comes first, otherwise the smaller character at the first difference |
| `Digraph.NoSinkMeansCycle` | scripts/little_loops/dependency_graph.py:262-267 | a non-empty set of issues each of which waits for another in the set contains a cycle |
| `Schedule.WaveIndexIsLongestChain` | scripts/little_loops/dependency_graph.py:246-260 | when the issues outside `completed` are acyclic, wave k holds exactly those whose longest open prerequisite chain has k edges |
| `Schedule.WavesCoverIffAcyclic` | scripts/little_loops/dependency_graph.py:246-269 | the waves leave an open issue out exactly when the open part of the graph has a cycle |
| `Schedule.WaveAt` | scripts/little_loops/dependency_graph.py:176-188 | each wave is non-empty, lists the ready issues of its stage once each, sorted by (priority, id) |
| `Schedule.LeftoverIffCyclic` | scripts/little_loops/dependency_graph.py:262-267 | the loop's `remaining` set is non-empty exactly when the open part is cyclic |
| `Kahn.TopologicalOrder` | scripts/little_loops/dependency_graph.py:330-378 | the order has no duplicates, puts every hard and soft prerequisite strictly earlier, and is a permutation of the issues if and only if the graph is acyclic |
| `Kahn.KahnStep` | scripts/little_loops/dependency_graph.py:352-370 | one turn of the queue loop keeps: an issue is emitted or queued exactly when all its prerequisites are emitted |
| `Kahn.CountingDone` | scripts/little_loops/dependency_graph.py:359-364 | after the decrement loop every counter again holds the number of distinct prerequisites not yet emitted, and the newly ready list is the released set |
| `Kahn.MissingOnly` | scripts/little_loops/dependency_graph.py:332-335 | a counter reaches zero exactly when the emitted issue was the last missing prerequisite, an edge that is both hard and soft counting once |
| `Kahn.KahnFollowsWaves` | scripts/little_loops/dependency_graph.py:246-269 | the flat order is the concatenation of the execution waves up to reordering inside each wave, on cyclic graphs too |
| `KahnLevels.OrderedByRelease` | scripts/little_loops/dependency_graph.py:361-370 | the flat order goes by the position of the releasing prerequisite, and by (priority, id) among issues released together |
| `KahnLevels.LevelsSortedIff` | scripts/little_loops/dependency_graph.py:312-313 | every level of the flat order is sorted, which makes the order the concatenation of the execution waves, if and only if in each wave, read off that concatenation, no issue is released before one that ranks ahead of it |
| `KahnLevels.LevelSortedIff` | scripts/little_loops/dependency_graph.py:361-370 | the same for one level, with the releases read off the flat order |
| `KahnLevels.LevelOutOfOrder` | scripts/little_loops/dependency_graph.py:361-370 | on a four-issue graph a level comes out against (priority, id) |
| `CycleSearches.CycleSearch.Dfs` | scripts/little_loops/dependency_graph.py:407-427 | the search from a white node finishes it, keeps the gray nodes equal to the path, restores the path and keeps every reported list a simple closed walk |
| `CycleSearches.BackEdgeKeeps` | scripts/little_loops/dependency_graph.py:415-420 | the list recorded at a gray neighbour is a closed walk along real edges without repetition |
| `CycleSearches.FinishedCutsCycles` | scripts/little_loops/dependency_graph.py:402-432 | every cycle of the graph, found or not, runs through the closing edge of some reported cycle |
| `CycleSearches.ReportsIffCyclic` | scripts/little_loops/dependency_graph.py:402-432 | the result is non-empty if and only if the graph has a cycle |
| `DependencyGraphs.DependencyGraph.FromIssues` | scripts/little_loops/dependency_graph.py:92-152 | the edges are exactly the live declarations from either side, `blocks` is the exact inverse of `blocked_by`, and the last record of an id wins |
| `DependencyGraphs.CompletedBlockerStays` | scripts/little_loops/dependency_graph.py:124-134 | some completed issue blocks another after construction if and only if a record of a completed issue declares `blocks` on a listed issue that is open |
| `DependencyGraphs.CompletedBlockerWitness` | scripts/little_loops/dependency_graph.py:124-134 | two records for which a completed blocker remains |
| `DependencyGraphs.DependencyGraph.GetReadyIssues` | scripts/little_loops/dependency_graph.py:176-188 | on the fields of the graph: exactly the open issues whose `blocked_by` and `depends_on` entries are all completed, once each, by ascending priority and then by id |
| `DependencyGraphs.DependencyGraph.GetExecutionWaves` | scripts/little_loops/dependency_graph.py:243-269 | raises exactly when the part of the graph outside `completed` is cyclic, and then names at least one cycle, each a simple one; otherwise returns the waves, each by ascending priority and then by id |
| `DependencyGraphs.DependencyGraph.TopologicalSort` | scripts/little_loops/dependency_graph.py:330-378 | raises exactly on a cyclic graph with a non-empty list of simple cycles; otherwise returns the release order, issues released together by ascending priority and then by id, on the fields |
| `DependencyGraphs.DependencyGraph.DetectCycles` | scripts/little_loops/dependency_graph.py:402-432 | reports closed lists along `blocked_by` and `depends_on` that repeat only their ends, a non-empty list exactly on a cyclic graph, and cuts every cycle, for any order of neighbours |
| `DependencyGraphs.Drain` | scripts/little_loops/dependency_graph.py:351-370 | the queue loop over mutable counters emits exactly the order of the specification |
| `WaveContention.BuildConflicts` | scripts/little_loops/dependency_graph.py:490-513 | the double loops build exactly the symmetric relation "hints overlap or both have none", and collect exactly the contended paths |
| `WaveContention.ColorWave` | scripts/little_loops/dependency_graph.py:525-531 | the loop gives a proper first-fit colouring of the wave |
| `WaveContention.GreedyUnique` | scripts/little_loops/dependency_graph.py:525-531 | that colouring is determined by the wave and the conflicts alone |
| `WaveContention.ColorAtMostDegree` | scripts/little_loops/dependency_graph.py:525-531 | an issue's colour is at most the number of its conflicts |
| `WaveContention.ColorsContiguous` | scripts/little_loops/dependency_graph.py:534-539 | every colour from 0 to the maximum is used, so no sub-wave is empty |
| `WaveContention.SubWavesConflictFree` | scripts/little_loops/dependency_graph.py:534-539 | two issues of one sub-wave have no overlap and are not both without hints, and keep their order |
| `WaveContention.SubWavesForced` | scripts/little_loops/dependency_graph.py:525-539 | an issue is in a later sub-wave only because every earlier one holds an issue ahead of it whose hints overlap its own, or both have none |
| `WaveContention.WaveRefinedMeans` | scripts/little_loops/dependency_graph.py:490-552 | a wave is split exactly when two of its issues overlap or have no hints, and the notes give the overlap paths, the positions and whether two issues have no hints |
| `WaveContention.SubWavesPartition` | scripts/little_loops/dependency_graph.py:534-539 | every issue of the wave is in exactly one sub-wave and nothing else is |
| `WaveContention.RefineWaves` | scripts/little_loops/dependency_graph.py:477-558 | each wave is replaced in place by its sub-waves, or kept when nothing conflicts, with the annotations parallel |
| `WaveContention.RefinementKeepsIssues` | scripts/little_loops/dependency_graph.py:477-558 | refinement loses and invents no issue |
| `WaveContention.RefinementKeepsOrder` | scripts/little_loops/dependency_graph.py:477-558 | issues of an earlier wave stay strictly earlier |
| `WaveContention.RefinedScheduleRespectsPrerequisites` | scripts/little_loops/dependency_graph.py:451-558 | in the refined schedule of any graph every prerequisite runs in a strictly earlier sub-wave than its dependent |
| `RunLoop.SelectionSound` | scripts/little_loops/issue_manager.py:1696-1738 | a selected issue is ready and eligible and is least among those by list position and then by (priority, id); nothing is selected only when no ready issue is eligible |
| `RunLoop.SelectedMeans` | scripts/little_loops/issue_manager.py:1696-1738 | in every run, a selected issue is new, open, admitted by the filters, and has all its graph prerequisites completed by then |
| `RunLoop.NoIssueTwice` | scripts/little_loops/issue_manager.py:1894-1907 | no issue is processed twice in a run, nor again after a resumed run attempted it |
| `RunLoop.RunIsBounded` | scripts/little_loops/issue_manager.py:1894-1907 | a run has at most one iteration per graph issue not attempted before |
| `RunLoop.UnfinishedStaysOpen` | scripts/little_loops/issue_manager.py:2089-2111 | an issue whose attempt ended otherwise than completed stays open for the rest of the run |
| `RunLoop.NoDependentOfUnfinished` | scripts/little_loops/issue_manager.py:1696-1738 | after an attempt ended failed, skipped, plan-pending or unrecorded, nothing that depends on the issue through still-open issues is selected |
| `RunLoop.ResumedChainBroken` | scripts/little_loops/issue_manager.py:1884-1890 | on a resumed run a chain through an issue completed before does not hold its end back: a three-issue run that selects such a dependent |
| `RunLoop.CountIsCompleted` | scripts/little_loops/issue_manager.py:2089-2116 | the processed counter moves with the number of completed issues over every run whose results are coherent |
| `RunLoop.LimitRespected` | scripts/little_loops/issue_manager.py:1894-1907 | in every run a positive limit bounds the processed counter, from wherever a resumed run restarts it |
| `RunLoop.CompletedDistinct` | scripts/little_loops/state.py:193-206 | no run lists an issue as completed twice |
| `RunLoop.StuckExplained` | scripts/little_loops/issue_manager.py:1706-1761 | when nothing is selectable, every open issue the filters admit has a chain of open prerequisites to an attempted, skipped or filtered-out one, or into a cycle of open issues |
| `RunLoop.EverythingCompletes` | scripts/little_loops/issue_manager.py:1894-1907 | a fresh unfiltered run over an acyclic graph whose attempts all complete has completed the whole graph when nothing is selectable |
| `AutoManagers.AutoManager.GetNextIssue` | scripts/little_loops/issue_manager.py:1696-1738 | on the fields of manager and graph: an issue is selected exactly when one is open, unblocked, not attempted or skipped and admitted, and then the least such by list position, priority and id |
| `AutoManagers.AutoManager.ProcessIssue` | scripts/little_loops/issue_manager.py:1998-2116 | for every result flag, a timeout either way and an escaping exception: which one of the completed, skipped and failed records changes and how, and that the other two stay; the issue counts as attempted in every case |
| `AutoManagers.AutoManager.Run` | scripts/little_loops/issue_manager.py:1884-1940 | the loop terminates; its events are a run of the step system from the fresh or loaded state on the environment's answers, the reason it stopped holds in the state it left, a positive limit bounds the counter, and a fresh run over an acyclic graph without limit, filter or signal whose attempts all finish completes every issue |
| `AutoManagers.UnhinderedCompletes` | scripts/little_loops/issue_manager.py:1884-1907 | such a run can only stop for lack of a selectable issue, and then the whole graph is completed |
| `Continuation.RunWithContinuation` | scripts/little_loops/issue_manager.py:352-569 | with a non-negative budget the loop is always left by `break`, has launched one session more than it counted continuations, never above budget plus one, with parallel outputs, only permitted turns, the exit code on the last session and its probes, and no permitted turn left when it stops |
| `Continuation.KindsDetermined` | scripts/little_loops/issue_manager.py:352-569 | these conditions leave one possible list of sessions for given answers |
| `Continuation.StepsByProbes` | scripts/little_loops/issue_manager.py:376-559 | on the probes alone: when a fresh session, a handoff turn or a resume follows the i-th session, each exactly when |
| `Continuation.NoHandoffAfterGuillotine` | scripts/little_loops/issue_manager.py:352-569 | no handoff turn follows a fresh session directly, and two handoff turns are separated by a resume |
| `OutputCleaner.FilteredLossless` | scripts/little_loops/output_cleaner.py:65-106 | expanding the markers gives back the kept lines with blanks normalised, for every threshold; from threshold 1 the result is never longer than the input |
| `OutputCleaner.CleanedSnoc` | scripts/little_loops/output_cleaner.py:84-87 | one more line of input adds its cleaned form unless that is an anti-event |
| `OutputCleaner.NormalSnoc` | scripts/little_loops/output_cleaner.py:88-97 | one more cleaned line is kept unless it is blank and first or behind a blank |
| `OutputCleaner.ExpandEncode` | scripts/little_loops/output_cleaner.py:72-84 | decoding inverts the run-length code behind any prefix |
| `OutputCleaner.ZeroThresholdGrows` | scripts/little_loops/output_cleaner.py:80-82 | at threshold 0 one line becomes two |
| `OutputCleaner.FilterLines` | scripts/little_loops/output_cleaner.py:68-104 | the loop with its closure computes that code |
| `OutputText.FilterOutput` | scripts/little_loops/output_cleaner.py:62-111 | a reader that parses indent, ellipsis and numeral character by character gets every kept line back from the text alone, and the blank a newline repair added, when no kept line reads as a marker |
| `OutputText.ReadBack` | scripts/little_loops/output_cleaner.py:80-84 | rendered tokens are read back one by one: a marker has one indent and one count |
| `OutputText.ReadsMarker` | scripts/little_loops/output_cleaner.py:80 | a printed marker is read back with its indent and its count |
| `Text.DecimalReads` | scripts/little_loops/output_cleaner.py:80 | the numeral printed for a number has no leading zero and, read by character arithmetic, is that number |
| `OutputText.RunText` | scripts/little_loops/output_cleaner.py:72-82 | a run past the threshold becomes the line and a marker with its leading whitespace and the length of the run; a shorter run stays as it is |
| `OutputText.FilterTwiceIff` | scripts/little_loops/output_cleaner.py:65-111 | filtering the result again changes nothing, once cleaning is settled, if and only if each run of equal lines in it is within the threshold or is two copies of its own marker |
| `OutputText.FilterTwice` | scripts/little_loops/output_cleaner.py:65-111 | in particular when no kept line reads as a marker |
| `OutputText.TrailingNewlineIff` | scripts/little_loops/output_cleaner.py:59-60 | the result ends in a newline if and only if the input does or the last kept line is blank |
| `OutputText.TrailingNewlineGained` | scripts/little_loops/output_cleaner.py:59-60 | a two-line text without a trailing newline whose result has one |
| `DesignTokens.ResolveReferences` | scripts/little_loops/design_tokens.py:67-84 | all keys are resolved one by one, or the first failing key's error escapes |
| `DesignTokens.ResolveExact` | scripts/little_loops/design_tokens.py:87-126 | for every key of every token file: each nesting depth overflows if and only if the reference chain runs into a cycle of fallback hops alone; otherwise twice as many nested calls as keys suffice (one more than keys without fallback keys), a value is the end of the chain, the unknown error means an undefined name is reached, the circular error that the chain never ends or ends at a primitive named like its start |
| `DesignTokens.OwnNameIsRejected` | scripts/little_loops/design_tokens.py:99-104 | a chain that ends at a primitive is reported as circular |
| `DesignTokens.TerminatesIff` | scripts/little_loops/design_tokens.py:115-125 | every key of a token file resolves within some nesting depth if and only if its fallback hops form no cycle |
| `DesignTokens.FallbackSelfLoop` | scripts/little_loops/design_tokens.py:115-125 | one key whose resolution exhausts every nesting depth |
| `Decisions.RoundTrip` | scripts/little_loops/decisions.py:121-159 | reading back a well-formed entry's dictionary gives the entry, for all four entry types |
| `Decisions.LoadedWellFormed` | scripts/little_loops/decisions.py:361-366 | whatever loads is well-formed, so the round trip covers every loaded entry |
| `Decisions.LoadsByTable` | scripts/little_loops/decisions.py:104-138 | a dictionary with an id and a known or absent type loads: each field is its value or the default of the type, and the unknown keys are kept |
| `Decisions.DictOf` | scripts/little_loops/decisions.py:140-159 | a well-formed entry writes its id, the fields of its type, the optional fields that are not None, the unknown keys and nothing else |
| `Decisions.FragmentReadIff` | scripts/little_loops/decisions.py:69-75 | one file is read or skipped by the loop, rather than raising, if and only if it does not hold non-object JSON |
| `Decisions.LoadsIff` | scripts/little_loops/decisions.py:369-385 | the log loads if and only if the flat file does, no fragment holds non-object JSON, and the timestamps of the parsed fragments compare with each other |
| `Decisions.ArrayFragmentRaises` | scripts/little_loops/decisions.py:69-75 | a fragment holding `[]` makes the load raise |
| `Decisions.MixedTimestampsRaise` | scripts/little_loops/decisions.py:76 | two well-formed fragments with the timestamps 1 and "x" make the load raise |
| `JsonOrder.StampAgrees` | scripts/little_loops/decisions.py:76 | the total order used for sorting gives Python's answer wherever `<` answers |
| `JsonOrder.CompareMeans` | scripts/little_loops/decisions.py:76 | `<` on two values: numbers and booleans by value, strings by code point, lists by their first unequal items or else by length, and no answer for other unequal pairs |
| `JsonOrder.NeighboursDecide` | scripts/little_loops/decisions.py:76 | when every two neighbours of a sorted list compared, every two of its members compare, so which comparisons a sort makes does not matter |
| `Decisions.LoadFragments` | scripts/little_loops/decisions.py:65-77 | the loop returns the usable fragments in (timestamp, file name) order; it raises exactly on a non-object file or on timestamps without an order |
| `Decisions.FlatMapping` | scripts/little_loops/decisions.py:380-384 | a mapping file loads the list under `entries` exactly as the bare list, is an empty log without that key, and raises for any other value there that is not empty |
| `Decisions.FlatMeans` | scripts/little_loops/decisions.py:380-384 | an absent or empty flat file is an empty log, a list loads entry by entry and its first bad entry raises, any other value raises |
| `Decisions.LoadedOrder` | scripts/little_loops/decisions.py:65-77 | a loaded log is the flat entries followed by the entry of every readable fragment, by the timestamp in the file and then by file name |
| `Decisions.ListingIrrelevant` | scripts/little_loops/decisions.py:70-77 | the loaded log does not depend on the order in which the directory is listed |
| `Decisions.CompactionKeepsLog` | scripts/little_loops/decisions.py:369-410 | saving what was loaded leaves the loaded log unchanged, malformed fragments or not |
| `Decisions.AppendInserts` | scripts/little_loops/decisions.py:413-422 | an append inserts its entry at one position and keeps the order of all others; the grown log loads if and only if the old one did and the new timestamp compares with the rest |
| `Decisions.AppendsCommute` | scripts/little_loops/decisions.py:413-422 | appends under distinct file names commute |
| `Decisions.UpdateChangesOne` | scripts/little_loops/decisions.py:425-474 | an id- and timestamp-preserving update changes exactly one position of the log, one that carries the id |
| `Decisions.UpdateFindsIff` | scripts/little_loops/decisions.py:425-474 | on a log that loads, an update fails with KeyError if and only if no entry has the id |
| `Decisions.UpdateMeans` | scripts/little_loops/decisions.py:447-474 | an update rewrites the first fragment by file name that holds the id, or, when none does, the flat file at its first entry with the id, and nothing else |
| `Decisions.DecisionLog.LoadDecisions` | scripts/little_loops/decisions.py:369-385 | flat entries, then fragments; an error of either source escapes |
| `Decisions.DecisionLog.SaveDecisions` | scripts/little_loops/decisions.py:388-410 | the flat file then lists the dictionaries of the entries in order, and no fragment is left |
| `Decisions.DecisionLog.AddEntry` | scripts/little_loops/decisions.py:413-422 | adds one fragment and touches nothing else |
| `Decisions.DecisionLog.UpdateEntry` | scripts/little_loops/decisions.py:447-474 | rewrites the one file that backs the entry; any error, one raised by `mutate` included, leaves both sources untouched |
| `Porcelain.PorcelainPaths` | scripts/little_loops/git_operations.py:575-598 | the index loop computes the parse |
| `Porcelain.ParsePrint` | scripts/little_loops/git_operations.py:575-598 | parsing the printed form of any list of status records returns the current paths in order, an original path being announced by the first status letter or shorter than four characters |
| `Porcelain.ParseExample` | scripts/little_loops/git_operations.py:575-598 | a modified file and a rename as git prints them, with NUL characters |
| `Porcelain.CollectStep` | scripts/little_loops/git_operations.py:586-595 | what one record does to the fields behind it: an original path that is not announced and has four characters or more yields a path of its own, and swallows the next field when it starts with R or C |
| `Porcelain.OriginalPathIff` | scripts/little_loops/git_operations.py:586-595 | a record that carries an original-path field parses to its current path alone if and only if its first status letter is R or C or that field is shorter than four characters |
| `Completion.Workspace.Preflight` | scripts/little_loops/issue_lifecycle.py:486-553 | refuses when git does not answer, and without a snapshot exactly when some dirty path is neither noise nor the issue file; otherwise returns exactly the new dirty paths that are neither |
| `Completion.Workspace.RefusedIff` | scripts/little_loops/issue_lifecycle.py:545-551 | the same condition for closing and completing, read back from printed status records |
| `Completion.Workspace.WindowExact` | scripts/little_loops/issue_lifecycle.py:532-553 | the window is exactly the non-noise dirty paths outside `pre_run_dirty` other than the issue file, read back from printed status records |
| `Completion.Workspace.AbandonAndStamp` | scripts/little_loops/issue_lifecycle.py:556-605 | restores the prior content, then stamps, and records the snapshot ref; only a failing restore raises |
| `Completion.Workspace.CommitCompletion` | scripts/little_loops/issue_lifecycle.py:649-763 | raises exactly when `git add` does not start, the commit raises behind a successful add, or the reset raises where one runs; COMMITTED exactly when, without that, adding and committing succeeded or nothing was left to commit; the index afterwards in every case, with a reset that may leave paths staged |
| `Completion.Workspace.IndexKept` | scripts/little_loops/issue_lifecycle.py:659-677 | without a commit, other paths stay staged as they were, and a reset that works unstages the issue file and the window |
| `Completion.Workspace.CloseIssue` | scripts/little_loops/issue_lifecycle.py:958-1058 | True exactly when there is no veto, the preflight proceeds, nothing raises and the commit lands; an exception is caught exactly under the other stated condition; the written status, date and body; without a snapshot the commit holds the old index and the issue file alone; file, index, history and refs afterwards in every case |
| `Completion.Workspace.CompleteIssueLifecycle` | scripts/little_loops/issue_lifecycle.py:1095-1191 | the same for completing, with the session-log line in what is committed; a refusal keeps the prior body, log line included, and everything else but stamps and an `in_progress` status |
| `Completion.Workspace.RefusalKeeps` | scripts/little_loops/issue_lifecycle.py:590-605 | a refusal leaves the prior content apart from the stamp keys and, for a requeue, the status |
| `Completion.Workspace.HollowDoneIff` | scripts/little_loops/issue_lifecycle.py:1091-1093 | a call that fails leaves `done` on a file that was not done if and only if the preflight proceeded and an exception escaped after the write, the rollback write and a torn write included |
| `Completion.HollowDoneExample` | scripts/little_loops/issue_lifecycle.py:1189-1191 | a completion that returns False, commits nothing and leaves the file `done` |
| `FrontmatterScan.MaskFencedCode` | scripts/little_loops/frontmatter.py:99-121 | the loop computes the line-by-line mask |
| `FrontmatterScan.MaskKeepsOffsets` | scripts/little_loops/frontmatter.py:99-105 | masking keeps the length and every newline position and changes other characters only to blanks |
| `FrontmatterScan.MaskIdempotent` | scripts/little_loops/frontmatter.py:99-121 | masking twice is masking once |
| `FrontmatterScan.HeaderMeans` | scripts/little_loops/frontmatter.py:181-183 | the header ends at the first line start followed by `##` and a blank or a tab |
| `FrontmatterScan.FenceSnoc` | scripts/little_loops/frontmatter.py:107-120 | line by line: a fence line opens a fence, a line that starts with the open marker closes it, nothing else changes it |
| `FrontmatterScan.StripMeans` | scripts/little_loops/frontmatter.py:110 | stripping drops the whitespace at both ends and nothing else |
| `FrontmatterScan.MarkersExact` | scripts/little_loops/frontmatter.py:181-185 | the markers found on the masked header are exactly the `---` lines of the original header that no code fence covers |
| `FrontmatterScan.IterFrontmatterBlocks` | scripts/little_loops/frontmatter.py:178-221 | the scanner loop computes the blocks of the pairing |
| `FrontmatterScan.BlocksApart` | scripts/little_loops/frontmatter.py:187-220 | spans are disjoint and in document order, each body inside its span |
| `FrontmatterScan.FirstAlwaysLaterMapping` | scripts/little_loops/frontmatter.py:202-211 | the first pair of markers is always a block, and every later block's text loads as a mapping |
| `FrontmatterReadback.BlockFields` | scripts/little_loops/frontmatter.py:189-220 | every second marker opens a block; its span, body, keys and canonical flag from the two markers and the parser |
| `FrontmatterEdit.SpliceBack` | scripts/little_loops/frontmatter.py:500-508 | splicing one more block, counted from the back, with the offsets of the old text extends the rewritten suffix by one |
| `FrontmatterEdit.RemoveFrontmatterKeys` | scripts/little_loops/frontmatter.py:495-509 | for each key, splicing back to front with old offsets equals replacing all bodies at once and copying the text between |
| `FrontmatterEdit.AbsentKeyIgnored` | scripts/little_loops/frontmatter.py:488-490 | a key that no block has leaves the text as it is |
| `FrontmatterEdit.UpdateFrontmatter` | scripts/little_loops/frontmatter.py:461-471 | splices the merged text into the first block with an id, or the first block, or prepends a new block |
| `FrontmatterReadback.ReadBackIff` | scripts/little_loops/frontmatter.py:461-471 | scanning again after one block's text was replaced finds the new text in that place and every other text unchanged, if and only if the block had a line between its markers, the new text closes its fences and shows neither a heading nor a marker, and, for a later block, loads as a mapping |
| `FrontmatterPrepend.PrependedReadBackIff` | scripts/little_loops/frontmatter.py:462-464 | after a block was prepended, the text of the first block found is the dump if and only if the dump closes its fences and shows neither a heading nor a marker |
| `FrontmatterPrepend.ReadsPrepended` | scripts/little_loops/frontmatter.py:462-464 | behind it a scan then finds exactly the mappings among the pairs of markers the text had before |
| `FrontmatterReadback.EmptyBlockExample` | scripts/little_loops/frontmatter.py:193-197 | a text whose only block has no line, so that an update of it is not read back |
| `FrontmatterReadback.OpenFenceExample` | scripts/little_loops/frontmatter.py:107-120 | a block with a line, updated with a quoted value whose continuation is a code fence: no block is left |
| `RubricCheck.LoopsBackUndiagnosed` | specs/harness-optimize-rubric-check.py:644-658 | on any state graph the worklist ends, and flags a commit state if and only if a path of at least one step leads to `propose` with every later node outside the diagnose set |
| `RubricCheck.BypassPath` | specs/harness-optimize-rubric-check.py:644-658 | a flagged commit state has a list of states to `propose`, each a target of the one before, none behind the start a diagnose state |
| `RubricCheck.PathBypasses` | specs/harness-optimize-rubric-check.py:644-658 | and any such list gets its first state flagged |
| `RubricCheck.DimE1` | specs/harness-optimize-rubric-check.py:627-664 | fails exactly without a diagnose state, passes exactly when no commit state is flagged, and otherwise lists the flagged ones in order |
| `Wilson.BoundsOrdered` | scripts/little_loops/stats.py:34-39 | over exact reals 0 <= lower <= k/n <= upper <= 1, so the clamps do nothing and both implementations agree |
| `Wilson.ScoreEquation` | scripts/little_loops/stats.py:34-39 | both bounds solve the score equation: their squared distance to k/n is z^2 times x(1-x)/n taken at the bound itself |
| `Wilson.Variances` | specs/harness-optimize-rubric-check.py:104-111 | the two forms of the number under the root are equal and not negative |
| `Wilson.Reflection` | scripts/little_loops/stats.py:34-39 | swapping successes and failures reflects the interval |

## Left out

- `RunLoop.CountIsCompleted` assumes coherent result flags (closed implies success, blocked implies not success), which `process_issue_inplace` sets at issue_manager.py:1042-1047 and 1068-1075; its phases are not modelled.
- `RunLoop.EverythingCompletes` starts from a run that stopped for lack of a selectable issue; `AutoManagers.UnhinderedCompletes` derives that from the environment.
- `Decisions.LoadFragments` reads JSON numbers as integers; floats, and `NaN` with its own comparisons, are not modelled.
- `Decisions.LoadsIff`: does not model the RecursionError of JSON nested beyond the interpreter's limit, which the `except` at decisions.py:73 does not name.
- `Decisions.FragmentReadIff`: leaves out the same RecursionError.
- `Decisions.DecisionLog.AddEntry` assumes the file name is new; the source builds it from a fresh identifier.
- `DesignTokens.ResolveExact` bounds the nesting by a fuel argument that stands for Python's call stack; running out of it is the outcome `Overflow`.
- `FrontmatterReadback.ReadBackIff` takes the new text as not empty, as the dump of a mapping is; how YAML lays a value out is not modelled.
- `Wilson.BoundsOrdered` takes an exact square root; floating-point rounding and a negative sample size in the unchecked form are not modelled.
- `WaveContention.BuildConflicts` takes any overlap function; `extract_file_hints` and `get_overlapping_paths` are not part of this model.
- `AutoManagers.AutoManager.Run` models the state file as a value that may be loaded at the start; saving, cleanup, dry runs, timing, events and the reports of unreached ids are left out.
- `Completion.Workspace.CloseIssue` models the tree as the issue file and git as arbitrary answers; a commit hook or another process that edits files is not modelled, nor is a stamp that tears the file.
- `Completion.Workspace.Preflight` models the timeout of `git status` only; other exceptions of it, of an interceptor or of `preserve_dirty_tree` are not modelled.
- `OutputText.FilterOutput` takes ANSI stripping, the anti-event patterns and the whitespace of `lstrip` as arbitrary, where it reads the text back with cleaning that keeps a line a line and an ellipsis that is no whitespace.
- Issues are identifiers with a priority and their three reference lists; other record fields, the `all_known_ids` warning and log messages are left out.
- The id, type, priority and label filters are one predicate, and the order of a requested id list is a rank.
- YAML and JSON are values; their concrete syntax is not modelled, and scalar normalisation of frontmatter values is left out.
- `resolve_active`, `list_entries`, `is_blocked`, `has_cycles`, `strip_frontmatter` and `_flatten` follow from their bodies.
- Argument building, SQL, hosts, networking and keyword classification hold no argument worth a proof.
