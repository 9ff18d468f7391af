# Verified core algorithms of the ns-3 tree

A Dafny model, with proofs, of the self-contained algorithms in the ns-3 support
code: the dependency sorter and cycle finder behind the Python bindings, the
worker pool of `test.py`, the attribute-path gatherer of the introspection tool,
the patch reader, writer and whitespace pass of the style checker, the helper
arithmetic of `rad_util.py` and the timeline index of the grid viewer.
`dafny verify dfyconfig.toml` checks everything.

| file | what it holds |
|---|---|
| `Sequences.dfy` | lists without repetition |
| `Digraph.dfy` | walks, elementary cycles, longest-walk depth: the vocabulary both sorts and the cycle finder are stated in |
| `TopSort.dfy`, `FindCycles.dfy`, `SortingAgreement.dfy` | `topsort`, `topsort_levels`, `find_cycles`, and what the three have to do with each other |
| `WorkerPool.dfy` | dispatcher, workers, queues, break jobs and the interrupt flag as a transition system |
| `TypeGather.dfy` | `StaticInformation` and the simple routes of the type graph |
| `PatchText.dfy`, `PatchObjects.dfy`, `PatchWriter.dfy`, `WhitespacePass.dfy` | the text format, the object graph the parser builds, the writer, the in-place pass |
| `Euclid.dfy`, `Permutations.dfy`, `Binary.dfy` | `gcf`/`lcm`/`reduce_fraction`, `permutations`, `int2bin`/`bin2int`/`binary_range` |
| `Timeline.dfy` | the two binary searches and the bounds computed from them |

## How the model reads the code

- **Dictionaries.** The order of a dictionary's keys is an arbitrary choice, so
  every result about the sorts and the cycle finder holds for all orders.
  `topsort.py` and `rad_util.py` are Python 2: `/` on integers is integer division
  and `%` is the floor modulus, which `Euclid.FloorMod` writes out.
- **Generators** are run to exhaustion: the yielded values are collected in order,
  together with how the generator ended.
- **The pool.** An event is one atomic action of one thread: a queue operation, one
  test of `thread_exit`, the end of a job process. `Feasible` schedules are all the
  interleavings, with an interrupt at any moment and any return code for any job.
- **Objects.** Patches, chunks and lines are heap objects. The parser is proved to
  build objects that show a value-level patch set, and the pass to change these
  objects in place although a context line is one object in two views.

What the proofs say that the code or its comments do not:

- `binary_range(0)` is empty, although 2^0 is 1: the loop test reads the toggle that was just set.
- `Uniquefy` sorts and prunes a copy, so `Gather` leaves every entry that `DoGather` wrote.
- Without a worker and with a job the pool waits forever; that is the only way it can get stuck (`WorkerPool.DeadlockFreeIff`).
- The parser keeps the current chunk when a new patch header arrives, so a line before the next chunk header goes to an earlier patch (`PatchText.LineIsMisfiled`; `PatchText.ContentGoes` says exactly when).
- The whitespace expression is greedy on the left, so it splits off exactly one blank; the pass returns at the first chunk with fewer destination lines than source lines and leaves later chunks alone.
- The pass can rewrite a context line, and with it the source side (`WhitespacePass.UnalignedContextIsRewritten`); `WhitespacePass.SourceKeptIff` says exactly when it does not.
- The pass can turn an added line into something that reads back as a file header (`WhitespacePass.PairMakesHeader`, `WhitespacePass.ChainMakesHeader`); `WhitespacePass.StrippedReadsBackIff` and `WhitespacePass.SetReadsBackIff` say exactly when.
- `get_ranges_bounds` with an uncovered end can select too much, and with both ends uncovered nothing at all, even when a range lies inside the window (`Timeline.SelectsTooMuch`, `Timeline.SelectsNothing`; the contract of `GetRangesBounds` says exactly when).

## Model

| member | source | states |
|---|---|---|
| `Digraph.DeepIsWalkLength` | bindings/python/topsort.py:174-196 | an element survives k rounds of peeling exactly when some dependency chain of k edges ends at it |
| `Digraph.LevelIsLongestWalk` | bindings/python/topsort.py:174-196 | dependency level k is exactly the elements whose longest incoming chain has k edges |
| `Digraph.EdgeClimbs` | bindings/python/topsort.py:97-106 | a child's level is strictly above its parent's |
| `Digraph.BackwardClosedFromCycle` | bindings/python/topsort.py:108-111 | in a set in which every member has a parent in the set, everything is on or below an elementary cycle |
| `Digraph.FromCycleIsDeep` | bindings/python/topsort.py:108-111 | what is on or below a cycle ends chains of every length, so it never gets a level |
| `Digraph.FromCycleIffHasCycle` | bindings/python/topsort.py:108-111 | something is on or below a cycle exactly when there is an elementary cycle |
| `TopSort.BuildGraph` | bindings/python/topsort.py:77-90 | the dictionaries hold each parent's children in pair order with multiplicity, and for every element the number of its parents |
| `TopSort.CountIsSize` | bindings/python/topsort.py:80-87 | an element's count is the number of pairs whose child it is and whose parent has not been taken out |
| `TopSort.ListingsAreSize` | bindings/python/topsort.py:90 | a parent lists a child as often as the pair occurs |
| `TopSort.WithoutParents` | bindings/python/topsort.py:93 | exactly the keys with count zero, each once, in any dictionary order |
| `TopSort.KnockDown` | bindings/python/topsort.py:100-103 | each count goes down by the number of times the child is listed, and the children that reach zero are picked up once each, in the order of their last listings |
| `TopSort.Decrement` | bindings/python/topsort.py:222-223 | each count goes down by the number of times the child is listed |
| `TopSort.KidsAreCounted` | bindings/python/topsort.py:100-101 | the children of a node being taken out still have an entry, large enough for all the decrements to come: no key is ever missed |
| `TopSort.QueueHead` | bindings/python/topsort.py:97-101 | in the FIFO loop the next node of `answer` still has its entry to delete, and so have its children |
| `TopSort.TakeOut` | bindings/python/topsort.py:97-106 | after one deletion the dictionaries again describe exactly what remains |
| `TopSort.QueueStep` | bindings/python/topsort.py:97-106 | one turn keeps the queue invariant: the queue is the zero-count keys, the answer is duplicate-free and nondecreasing in depth, the queue spans at most two depths |
| `TopSort.LeftoverComesFromCycles` | bindings/python/topsort.py:108-112 | when no zero count is left, the leftover keys are exactly the elements on or reachable from a cycle, and there are some exactly when there is a cycle |
| `TopSort.Topsort` | bindings/python/topsort.py:61-112 | the answer is duplicate-free, nondecreasing in longest-chain depth, first come first served, and holds exactly the elements not reachable from a cycle; `CycleError` exactly when there is a cycle, with the leftover keys, each count the number of edges from leftover parents, and their children |
| `TopSort.ServedStep` | bindings/python/topsort.py:97-106 | one turn keeps the order of service: turns in the order of the answer, and within a turn the order of the last listings |
| `TopSort.OnlyRootsAreFree` | bindings/python/topsort.py:93-106 | two answers on the same graph that agree on the elements without parents are equal, so dictionary order decides nothing else |
| `TopSort.PeelLevel` | bindings/python/topsort.py:217-224 | taking out one level leaves dictionaries that describe what remains |
| `TopSort.TopsortLevelsCore` | bindings/python/topsort.py:203-232 | for counts consistent with the children: level k holds each element of longest-chain depth k once, levels are nonempty, share no element, cover everything not reachable from a cycle, and the error is raised exactly when there is a cycle, with the exact leftover |
| `TopSort.TopsortLevels` | bindings/python/topsort.py:114-172 | the same for the dictionaries built from a pair list |
| `TopSort.PeeledApart` | bindings/python/topsort.py:203-224 | no element is in two levels |
| `TopSort.ParentsFirst` | bindings/python/topsort.py:61-76 | in an answer sorted by depth a parent stands before each of its children |
| `TopSort.PrefixIsShallow` | bindings/python/topsort.py:93-112 | the answer's prefixes of the right length are exactly the elements of depth below k |
| `TopSort.CutCounts` | bindings/python/topsort.py:203-224 | the sizes of the first k levels add up to the number of elements of depth below k |
| `TopSort.LevelsCutTheAnswer` | bindings/python/topsort.py:93-224 | cutting `topsort`'s answer at the level sizes gives a permutation of each level, cyclic or not |
| `FindCycles.IsRotated` | bindings/python/rad_util.py:761-775 | true exactly for rotations; an IndexError exactly for two empty sequences |
| `FindCycles.RotationSymmetric` | bindings/python/rad_util.py:735-736 | being a rotation is symmetric |
| `FindCycles.RotationTransitive` | bindings/python/rad_util.py:735-736 | and transitive, so filtering against one representative of each class is enough |
| `FindCycles.IsDuplicate` | bindings/python/topsort.py:371-375 | finds out whether a rotation of the cycle has been yielded already |
| `FindCycles.Expand` | bindings/python/topsort.py:362-385 | one pop-and-expand: the cycles closed by the last node are yielded once up to rotation, the other children are pushed as longer elementary paths, and the pushed paths weigh one less than the popped one |
| `FindCycles.PopSize` | bindings/python/topsort.py:352-383 | every pop-and-expand lowers the weight of the stack, so the search ends on every finite graph |
| `FindCycles.SearchStep` | bindings/python/topsort.py:352-383 | every elementary path from the start has a prefix on the stack or has been expanded |
| `FindCycles.Search` | bindings/python/topsort.py:351-385 | from one start every elementary path is expanded, and only reachable nodes are marked visited |
| `FindCycles.ReachedCycleIsFound` | bindings/python/topsort.py:346-349 | every cycle reachable from a start is yielded from it, so skipping a visited start loses none |
| `FindCycles.FindCycles` | bindings/python/topsort.py:343-385 | exactly the elementary cycles, each once up to rotation |
| `SortingAgreement.SortBothWays` | bindings/python/topsort.py:61-385 | on the same pairs both sorts raise exactly when `find_cycles` yields, leave the same dictionaries, the answer cut at the level sizes is a permutation of each level, and an acyclic answer lists every element once, parents before children |
| `SortingAgreement.AcyclicAnswer` | bindings/python/topsort.py:61-76 | without a cycle the answer lists every element once, each parent before each of its children |
| `WorkerPool.StepInputShape` | test.py:967-975 | every event keeps the input queue as: unclaimed jobs in dispatch order, untouched, then break jobs, and no worker holds a break job while a job is unclaimed |
| `WorkerPool.StepWorkersOk` | test.py:967-1035 | every event keeps what each worker holds genuine |
| `WorkerPool.StepReportsOk` | test.py:981-1035 | every event keeps the reported jobs truthful about whether and how they ran |
| `WorkerPool.StepNoSharing` | test.py:967-1035 | every event keeps a dispatched job from being in two places |
| `WorkerPool.StepInv` | test.py:967-1035 | every event of every thread keeps the whole invariant |
| `WorkerPool.AlwaysInv` | test.py:1405-1914 | the invariant holds after every schedule |
| `WorkerPool.ClaimedIds` | test.py:1459-1461 | the jobs taken off the input queue are exactly those in hand and those reported |
| `WorkerPool.ExactlyOnePlace` | test.py:1459-1461 | in every reachable state each dispatched job is in exactly one place: input queue, one worker, output queue or collected |
| `WorkerPool.InterruptedJobsStopNobody` | test.py:974-984 | a break a worker can still see is one the main thread sent, never a job that the interrupt turned into a break |
| `WorkerPool.NobodyLeavesEarly` | test.py:974-975 | FIFO: once any worker has a break job, only break jobs are left on the input queue |
| `WorkerPool.FlagIsInterrupt` | test.py:571-576 | `thread_exit` is set exactly when the schedule so far holds an interrupt |
| `WorkerPool.StepAccepted` | test.py:981-994 | no event after an interrupt makes a worker accept a job |
| `WorkerPool.InterruptStopsTheRest` | test.py:976-984 | once the schedule holds an interrupt, in every continuation, only jobs accepted before are run, skipped or reported without a break |
| `WorkerPool.RunsAreTheEvents` | test.py:1009-1023 | a job has return code rc on record exactly when its process ended with rc at some point of the schedule |
| `WorkerPool.StepHandedBack` | test.py:981-984 | an event hands a job back as a break exactly when it is the first look at it with the flag set |
| `WorkerPool.HandedBackIff` | test.py:981-984 | a job comes back as a break exactly when it was first looked at after an interrupt |
| `WorkerPool.StepMeasure` | test.py:967-1035 | every event but an interrupt lowers the measure |
| `WorkerPool.BoundedActions` | test.py:1688-1828 | whatever the interleaving and the interrupts, a run takes at most 8 processors + 6 jobs + 1 actions |
| `WorkerPool.NeverStuck` | test.py:1688-1828 | with a worker, or without jobs, some thread can act in every unfinished state |
| `WorkerPool.CanBeFinished` | test.py:1405-1914 | every schedule can be continued, by the program's own threads, to an exit status |
| `WorkerPool.StuckWithoutWorkers` | test.py:1688-1689 | with jobs and no worker there is a schedule that ends in a state where nobody can act |
| `WorkerPool.DeadlockFreeIff` | test.py:1405-1828 | the pool is free of deadlock exactly when there is a worker or no job |
| `WorkerPool.CleanFinish` | test.py:1666-1669 | at the end every worker has left, both queues are empty and every job is collected |
| `WorkerPool.TallyAddsUp` | test.py:1681-1722 | the five counters and the interrupted jobs add up to the jobs counted; passed and skipped reach that number exactly when all were good |
| `WorkerPool.CountersAddUp` | test.py:1681-1722 | in every reachable state the counters add up to the collected jobs minus the interrupted ones |
| `WorkerPool.TallyIsCensus` | test.py:1698-1722 | each counter is the number of jobs of its kind: skipped, return code 0, 1, 2, anything else |
| `WorkerPool.CountersAreExact` | test.py:1681-1722 | in every reachable state each counter is the number of collected jobs of its kind, and each collected job is a break exactly when it was first looked at after an interrupt, and otherwise carries the code with which its process ended |
| `WorkerPool.ExitStatusIsHonest` | test.py:1911-1914 | the status is 0 exactly when no dispatched job was first looked at after an interrupt and each was to be skipped or had its process end with 0 in the schedule |
| `WorkerPool.WorldIsFree` | test.py:573-576 | an interrupt can come at any moment, and a running process can end with any return code |
| `WorkerPool.WorkersWaitForJobsOnly` | test.py:968-969 | a worker that has not left can act exactly when it is not waiting at an empty input queue |
| `WorkerPool.MainWaitsForWorkersOnly` | test.py:1405-1828 | the main thread can act exactly when it is not waiting for a result or for a worker to leave |
| `WorkerPool.OneJobRun` | test.py:1704-1722 | a run of one job, event by event: its return code, whatever it is, decides counter and status |
| `WorkerPool.InterruptedRun` | test.py:974-984 | the same run with an interrupt: the job comes back as a break and the status is 1 |
| `TypeGather.EdgesAre` | utils/print-introspected-doxygen.cc:429-502 | the graph has exactly these edges: pointer attributes under their name except to Object, container attributes under name and "/[i]", registered descendants and both ends of aggregations under "$" and the type's name |
| `TypeGather.EdgeCount` | utils/print-introspected-doxygen.cc:429-502 | and one for each such attribute, descendant and aggregation |
| `TypeGather.PathStringJoins` | utils/print-introspected-doxygen.cc:333-336 | each label stands after a slash, and paths are joined end to end |
| `TypeGather.ExampleEntries` | utils/print-introspected-doxygen.cc:420-503 | the literal entries of a three-type database |
| `TypeGather.RoutesExact` | utils/print-introspected-doxygen.cc:420-503 | the enumerated routes are exactly those that visit no type twice and none already on the stack |
| `TypeGather.RoutesDiffer` | utils/print-introspected-doxygen.cc:420-503 | no route is enumerated twice |
| `TypeGather.EntriesVia` | utils/print-introspected-doxygen.cc:449-453 | entries made below an edge with its label pushed are the entries of the routes that start with the edge |
| `TypeGather.GatheredMore` | utils/print-introspected-doxygen.cc:429-502 | one more edge appends exactly the entries of the routes that start with it |
| `TypeGather.OneEntryEach` | utils/print-introspected-doxygen.cc:411-503 | what a gathering appends is one entry per route from the root without a repeated type |
| `TypeGather.StaticInformation.GetCurrentPath` | utils/print-introspected-doxygen.cc:328-338 | the label stack joined with slashes |
| `TypeGather.StaticInformation.RecordOutput` | utils/print-introspected-doxygen.cc:341-346 | appends the type with the current path and leaves the stacks alone |
| `TypeGather.StaticInformation.HasAlreadyBeenProcessed` | utils/print-introspected-doxygen.cc:349-361 | whether the type is on the stack |
| `TypeGather.StaticInformation.DoGather` | utils/print-introspected-doxygen.cc:420-503 | appends exactly the entries of the routes that avoid the stack, restores both stacks, and ends because fewer types are off the stack at each recursion |
| `TypeGather.StaticInformation.GatherAttributes` | utils/print-introspected-doxygen.cc:429-468 | follows exactly the pointer and container attributes, in order, except pointers to Object |
| `TypeGather.StaticInformation.GatherChildren` | utils/print-introspected-doxygen.cc:469-481 | follows exactly the registered descendants |
| `TypeGather.StaticInformation.GatherAggregates` | utils/print-introspected-doxygen.cc:482-502 | follows exactly the aggregations, from either end |
| `TypeGather.StaticInformation.Gather` | utils/print-introspected-doxygen.cc:411-417 | from empty stacks: one entry per route from the root without a repeated type, and empty stacks again |
| `PatchText.ValueOfDecimal` | utils/check-style.py:301-302 | reading the digits of a number gives the number |
| `PatchText.HeaderOfWritten` | utils/check-style.py:301-302 | a written chunk header is read as one, with its two positions |
| `PatchText.RestIff` | utils/check-style.py:368-373 | what the line expressions match: the group is everything after the prefix up to the end of the line or its newline |
| `PatchText.HeaderRead` | utils/check-style.py:370 | every text of the header's shape is read with its first and third number, whatever follows the second "@@" |
| `PatchText.HeaderIff` | utils/check-style.py:370 | and nothing else is: a line is a header with two positions exactly when it has that shape and those numbers |
| `PatchText.WrittenHeader` | utils/check-style.py:301-302 | the four numbers of a written header: source position, number of lines not added, destination position, number of lines not removed |
| `PatchText.WrittenLiteral` | utils/check-style.py:214-227 | the text of a patch with all three kinds of lines, letter by letter |
| `PatchText.ReadWrittenLine` | utils/check-style.py:214-227 | a written line that looks like no file header is read back as the same line |
| `PatchText.ReadWrittenChunks` | utils/check-style.py:295-304 | written chunks are read back as the same chunks of the current patch |
| `PatchText.ReadWrittenPatch` | utils/check-style.py:356-365 | a written patch is read back as the same patch, whatever came before |
| `PatchText.ReadWrittenSet` | utils/check-style.py:356-411 | the lines written for a clean patch set parse to that patch set |
| `PatchText.ParsedIsClean` | utils/check-style.py:367-411 | whatever parses has no newline in a text, no removed line that starts with "-- " and no added line that starts with "++ " |
| `PatchText.CurrentChunkIsLast` | utils/check-style.py:374-411 | whatever was read, the current chunk is the last chunk of the last patch that has one, and there is none exactly when no patch has a chunk |
| `PatchText.ContentGoes` | utils/check-style.py:392-409 | the next content line is refused exactly when no patch has a chunk; it goes to the last patch if that has a chunk and otherwise, exactly then, to an earlier one |
| `PatchText.LineIsMisfiled` | utils/check-style.py:378-396 | six lines whose last one, a removed line of the second patch, is filed under the first |
| `PatchText.LineOutcome` | utils/check-style.py:377-410 | what one line needs and what it provides, and which exception it raises otherwise |
| `PatchText.ParsesIff` | utils/check-style.py:367-411 | an input parses exactly when each line has one of the six forms and comes after the line it needs |
| `PatchText.FirstMisfitDecides` | utils/check-style.py:367-411 | the first line that does not fit decides which exception is raised |
| `PatchText.JoinSplit` | utils/check-style.py:376 | iterating over any file loses nothing, and each line but perhaps the last ends in its only newline |
| `PatchText.SplitJoin` | utils/check-style.py:376 | iterating over the written file gives the written lines |
| `PatchText.RoundTripIff` | utils/check-style.py:356-411 | writing and parsing gives the same patch set exactly when it is clean in that sense |
| `PatchText.ReparseIsStable` | utils/check-style.py:356-411 | any text that parses, written out and parsed again, gives the same patch set |
| `PatchObjects.AddPatch` | utils/check-style.py:379-381 | a new patch object is appended; the other objects and the current chunk show what they did |
| `PatchObjects.SetDst` | utils/check-style.py:385 | only the last patch's destination name changes |
| `PatchObjects.AddChunk` | utils/check-style.py:389-390 | the new chunk goes last in the last patch and becomes the current one |
| `PatchObjects.AddLineTo` | utils/check-style.py:393-396 | the line object is new and goes last in the current chunk; no other chunk shows anything else |
| `PatchObjects.OneChunkChanged` | utils/check-style.py:396 | seen from the patch set, one line appended to one chunk object is one line appended to one chunk |
| `PatchObjects.ParsePatchset` | utils/check-style.py:367-411 | the objects built show exactly the patch set that the lines say, share no line or chunk, and the three ways of failing occur exactly when they should |
| `PatchWriter.ViewLengths` | utils/check-style.py:263-294 | the numbers of source and destination lines of the chunk object |
| `PatchWriter.WriteChunkTo` | utils/check-style.py:295-304 | writes the text of the chunk that the object shows |
| `PatchWriter.WritePatchTo` | utils/check-style.py:356-365 | writes the text of the patch that the object shows |
| `PatchWriter.ParseWriteParse` | utils/check-style.py:356-411 | for every file that parses, writing the objects and parsing the result gives new objects that are the same patch set field by field |
| `WhitespacePass.PassMends` | utils/check-style.py:418-426 | as long as no context line trails its partner, each destination line that lacks one final blank of its source line becomes equal to it, and no other line changes |
| `WhitespacePass.SourceKeptIff` | utils/check-style.py:413-429 | the source side survives exactly when no context line lacks one final blank of the source line it is paired with |
| `WhitespacePass.AlignedChunkIsMended` | utils/check-style.py:413-429 | if context lines have the same index in both views, the source side and all kinds are unchanged and every changed line equals its source line |
| `WhitespacePass.AlignedSetIsMended` | utils/check-style.py:413-429 | the same for the whole patch set, whose names and positions stay too |
| `WhitespacePass.UnalignedContextIsRewritten` | utils/check-style.py:424-426 | a two-line chunk in which the pass does rewrite a context line |
| `WhitespacePass.TrailsIsGreedyMatch` | utils/check-style.py:414-425 | a destination line counts as trailing exactly when it is the longest first group that the expression can match on its source line |
| `WhitespacePass.OneBlankIsRestored` | utils/check-style.py:414-426 | for every text and character: a space or a tab removed at the end comes back, nothing else does |
| `WhitespacePass.SourceTextIsPassed` | utils/check-style.py:420-426 | what a pair finds on its source side, and leaves on its destination side, worked out from the chunk as it was, chains through lengthened context lines included |
| `WhitespacePass.StrippedLines` | utils/check-style.py:418-426 | every line of every chunk after the pass, in closed form |
| `WhitespacePass.StrippedReadsBackIff` | utils/check-style.py:413-429 | a chunk that reads back still does so after the pass exactly when no pair finds "++ " for an added line "++" |
| `WhitespacePass.PlainPairsReadBackIff` | utils/check-style.py:413-429 | if the pass rewrites no context line, exactly when no added line "++" is paired with "++ " |
| `WhitespacePass.PairMakesHeader` | utils/check-style.py:424-426 | a two-line chunk whose added line becomes a file header |
| `WhitespacePass.ChainMakesHeader` | utils/check-style.py:424-426 | a three-line chunk where this happens only through a context line that was lengthened first |
| `WhitespacePass.TreatedChunk` | utils/check-style.py:416-429 | a chunk is treated exactly when every chunk before it is complete, and otherwise left as it was |
| `WhitespacePass.IncompleteChunkEndsThePass` | utils/check-style.py:420-428 | two chunks of which the second is left alone in one order and treated in the other |
| `WhitespacePass.SetReadsBackIff` | utils/check-style.py:356-429 | a clean patch set after the pass, written and parsed again, is the same exactly when no treated chunk makes a file header |
| `WhitespacePass.SourceOf` | utils/check-style.py:263-272 | the source view is the chunk's own line objects at the source positions, in order |
| `WhitespacePass.DestinationOf` | utils/check-style.py:273-282 | the destination view likewise, sharing the context objects |
| `WhitespacePass.StripPair` | utils/check-style.py:422-426 | one pair on the objects is one step of the pass on what they show |
| `WhitespacePass.StripChunk` | utils/check-style.py:418-427 | the chunk's objects end up showing the stripped lines; the exception happens exactly when there are fewer destination than source lines |
| `WhitespacePass.StripOne` | utils/check-style.py:418-427 | stripping one chunk changes what no other chunk shows |
| `WhitespacePass.StripPatchset` | utils/check-style.py:416-429 | the chunks up to and including the first incomplete one are stripped, the rest untouched |
| `WhitespacePass.RemoveTrailingWhitespaceChanges` | utils/check-style.py:413-429 | parsing and stripping together: the returned objects are, field by field, the parsed patch set stripped up to its first incomplete chunk; a parser failure goes through |
| `Euclid.Gcf` | bindings/python/rad_util.py:252-258 | for integers of either sign: the nonnegative greatest common divisor, a combination of both, and 0 only for 0 and 0 |
| `Euclid.GcdIsGreatest` | bindings/python/rad_util.py:252-258 | unless both are 0 it is the largest common divisor |
| `Euclid.Lcm` | bindings/python/rad_util.py:285-290 | a common multiple, and every common multiple is a multiple of it; nonnegative exactly when the signs agree or one is 0 |
| `Euclid.LcmIsLeast` | bindings/python/rad_util.py:285-290 | its absolute value is at most that of every nonzero common multiple |
| `Euclid.ReduceFraction` | bindings/python/rad_util.py:345-348 | a coprime pair with the same ratio and signs; division by zero exactly for 0/0 |
| `Permutations.InsertInjective` | bindings/python/rad_util.py:319-322 | inserting a new item gives different lists for different places or lists |
| `Permutations.RemoveItem` | bindings/python/rad_util.py:317-322 | every rearrangement comes from inserting the first item into a rearrangement of the rest |
| `Permutations.InsertEverywhere` | bindings/python/rad_util.py:319-322 | the item at every position of the list |
| `Permutations.Permute` | bindings/python/rad_util.py:310-326 | n! lists, all of them rearrangements, every rearrangement among them, and pairwise distinct when the items are |
| `Binary.HexValue` | bindings/python/rad_util.py:91-96 | the table expands the hexadecimal digits of a number to a binary string with its value |
| `Binary.Int2BinExact` | bindings/python/rad_util.py:91-105 | for n >= 1: the error exactly when the number needs more than n bits, otherwise the n-digit string that `bin2int` maps back |
| `Binary.Int2BinNeverWrong` | bindings/python/rad_util.py:91-105 | for every width, 0 and negative ones included: a KeyError exactly for a negative number, and a text that is returned has the number's value |
| `Binary.RoundTrip` | bindings/python/rad_util.py:91-130 | `int2bin` of `bin2int` of a binary string, at its own width, is the string |
| `Binary.Increment` | bindings/python/rad_util.py:649-659 | the ripple-carry loop adds one, with the carry out of the top bit in the last toggle |
| `Binary.BinaryRange` | bindings/python/rad_util.py:639-660 | for at least one bit exactly 2^bits entries, entry k being `int2bin(k, bits)`; nothing for zero bits |
| `Timeline.TimelineDataRange.Search` | utils/grid.py:100-117 | on disjoint sorted ranges: a range that holds the key, -1 exactly when there is none |
| `Timeline.TimelineDataRange.GetRangesBounds` | utils/grid.py:148-164 | exact with both ends covered; complete if and only if an end is covered or no range lies inside; exact if and only if nothing lies beyond an uncovered end |
| `Timeline.BoundsSelect` | utils/grid.py:148-164 | the same for the bounds as a function of the two search results |
| `Timeline.SelectsTooMuch` | utils/grid.py:159-160 | two ranges and a window that selects the one it does not meet |
| `Timeline.SelectsNothing` | utils/grid.py:157-158 | a range and a window around it that selects nothing |
| `Timeline.TimelineEvent.Search` | utils/grid.py:195-212 | on increasing times: the number of events before the key |
| `Timeline.TimelineEvent.GetEventsBounds` | utils/grid.py:230-239 | exactly the events in the window and, if none is at its end, the next one |

## Left out

- TopSort.TopsortLevelsCore: asks for counts that agree with the children lists, which its documentation demands of direct callers; inconsistent dictionaries are not modelled. The dictionaries it empties in place are values here, and the leftovers are returned with the error.
- `topsort_levels_core` and `find_cycles` as suspended generators: a caller that stops early or changes the dictionaries between two yields.
- `Job` objects are values inside the transition system rather than class instances; that no two places share one is what `WorkerPool.ExactlyOnePlace` proves. A worker killed by an exception, the subprocess itself, timing, the XML, text and HTML reports, and option parsing are not modelled.
- The two dispatch loops of `test.py` (test suites, then examples) are one loop over all jobs in dispatch order; which tests are dispatched or skipped is input.
- The TypeId registry is input, as a finite database of attributes, descendants, names and aggregations; the Print functions, `Get`, `GetNoTypeIds`, `Find` and recording an aggregation are left out.
- Chunk headers without explicit counts, which the parser refuses, are one case of its general failure; a `PatchChunkLine` that was never set ("invalid patch") cannot be constructed here. The `uncrustify` and `patch` processes and temporary files of check-style.py are left out.
- Text is characters without universal-newline translation, and a digit is one of 0-9.
- `sort`, `get_ranges`, `get_events` and `get_bounds` of grid.py: sorting is left to the caller's precondition and the others repeat the bounds; drawing, layout and scaling are left out. Times are real numbers.
- `bin2int` on text other than binary digits, when `int2bin` raises for a negative width, and the floating-point uses of `gcf` and `lcm`.
- The other functions of `rad_util.py` and `topsort.py` (floating point, randomness, reflection, or thin wrappers) and the copies of files under `contrib/nr`.
- Examples, scratch programs, benchmarks and the binding generators: they configure library code that is not here.
