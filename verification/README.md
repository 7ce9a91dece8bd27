# Verification model of bmo-check

bmo-check asks whether a binary translator that runs x86 code on a RISC-V host may drop memory
barriers. Its dynamic side records a trace, cuts it into windows and searches each window for an
execution that the weak target order allows and the x86-TSO source order forbids. Its static side
proves that accesses cannot race at all, and keeps the reasons in an evidence ledger from which
certificates are verified. This project models the algorithms behind those answers and proves what
the answers mean.

## How the model is organised

**The window checker.** `Events` holds trace events. `Graphs` has walks, reachability and cycles, and the
two encodings that the solver uses: an edge set is acyclic exactly if ranks can rise along it, and
cyclic exactly if it has a nonempty selection of nodes with one selected edge in and one out.
`PreservedOrder` builds the x86-TSO and RVWMO preserved orders of a window (Intel SDM volume 3A,
section 8.2.2, and the RISC-V Unprivileged ISA manual, version 20191213, section 14.1) and
`CycleSearch` looks for cycles. `Executions` says what a legal execution is: a source for every part of
every read, and a coherence order for every group of overlapping writes. `ReadParts`, `Values` and
`Components` cover mixed-width accesses. `Symbolic` states the solver's constraint system and proves
that it has a solution exactly when a target-only execution exists. `Enumeration`, `UniformWindows` and
`WindowChecker` are the enumerating engine: "safe" means that no legal execution is target-only, a
witness is one, and on every window where both engines are conclusive they agree.

**From a trace to windows.** `Communication` files accesses under pages and sweeps each page; the result
is exactly the set of communicating pairs that comparing everything with everything would give.
`Handoffs` pairs workers with their creations, and only if there is no other way to pair them. `Blocks`
is the theory of blocks (biconnected components) read off a depth-first forest; `BlockSearch` and
`Biconnected` are the iterative low-link search with its edge stack, proved to return exactly the
blocks. `Boundaries` is the selection of fences and atomics for a window, and `Windows` puts grouping and
selection together.

**Static fixpoints.** `Lockset` is the must-lockset worklist, `Dominators` the iterative dominators and the
question whether the join of all workers covers an instruction, `Phase` the least fixpoint of functions
that are taken to run while no worker exists, with the conditions under which they do (`Calls` holds the
call sites with all their known targets, `PhaseInputs` the inputs that miss the conditions), `Nonreturning`
the functions of a role, the blocks that can still return and the functions called on failing paths only,
`ProgramOrder` the sparse program order, `Reachability` the depth-first closures that they share. Each is
proved against a specification that only speaks of paths.

**Evidence.** `Ledger` is the append-only evidence store as a state machine over histories, `EvidenceStore`
the object whose methods refine it, `Certificate` the verification of static certificates, `Replay` the
rebuilding of a ledger from a snapshot. The central claim is about whole histories: deleting every
observation and every hint changes no answer about static evidence.

**The trace file.** `TraceFormat` is the binary format with both round trips. `TraceValidation` is the
record loop of validation: it accepts exactly the well-formed traces. `StoredTrace` is what the trace store
makes of the records, with the reads that it adds for futex waits: the stored form of a well-formed trace is
what the window checker assumes, and the added reads are the waits that validation lets pass.

**Meanings.** A method and its specification share some notions, such as which kinds of events a fence orders.
So that these are not taken on trust, what each part answers is said once more in the fields of its inputs, with
definitions of its own, and the two are proved to agree: `Kinds`, `Machines`, `ValueBytes` and `WindowMeaning`
for the window checker, down to the bytes that accesses share; `Sharing`, `HandoffMeaning` and `FenceOrder` for
communication, handoffs and windows; `JoinMeaning`, `PhaseMeaning` and `ReturnMeaning` for the static
fixpoints (those of locksets and program order are in `Lockset` and `ProgramOrder`); `LedgerMeaning` and the
middle of `Certificate` for evidence; `TraceLayout`, `TraceMeaning` and `StoreMeaning` for the trace.

Conventions. An event of a window is its own identity. Sequence numbers are distinct per thread and
accesses have a positive size, as trace validation enforces (`StoredTrace.StoredTraceIsValid`). Orders that the
code takes from sorting or from a set are left open where no result depends on them. The store's queries
are functions over sequences. The solver is modelled as "an assignment exists". The clock of the window
checker runs out at a given look at it, or never. The digest of evidence ids is an arbitrary function; only the claims
about dynamic evidence assume that it separates different contents.

Where the code and the manuals differ: the source order keeps a store before a later load of the same
bytes, which is stronger than x86-TSO with store forwarding. The target order also keeps the latest
overlapping store before a load, while the overlapping-address rules of section 14.1 of the RISC-V manual
ask for order after a store only if the later access is a store too. For the target this is the unsafe
direction: executions in which a load is served early from its own thread's store are not searched. The
model follows the code in both places.

Facts about the code that its comments do not mention:

- An unresolved indirect call in any function that main reaches keeps every function out of the
  nonconcurrent set (`Phase.UnresolvedCallsBlockAll`).
- The coherence edges of the two engines differ (neighbours only, against all pairs) without changing
  any cycle (`UniformWindows.AdjacentPairsSuffice`).
- A function is meant to count as called on failing paths only if all its call sites fail, but sites
  with several known targets are not looked at (`Nonreturning.SeveralTargetsAreIgnored`). When the
  intended meaning holds is said by `Nonreturning.RootChainsFailExactly`.
- Nor does the phase analysis follow them. A function can be found to run before all workers although a
  worker-creating function may call it (`PhaseInputs.QuietFunctionBesideWorkers`), or although main may have
  created a worker already through such a site (`PhaseInputs.QuietFunctionAfterCreation`). Besides, two calls in
  one block are compared by address only, also if the block is repeated (`PhaseInputs.QuietCallInLoop`). Exact
  conditions: `Phase.KnownChainsStayQuiet` for the calls that lead to the function, `Phase.QuietFunctionsMayCreate`
  for what the function does itself, `Phase.CreationsComeLaterExactly` and `Phase.NeverAfterCreationExactly` for
  the creating calls of main.
- The search for blocks that can return can miss blocks if functions share some
  (`Nonreturning.SharedBlocksHideReturns`). By `Nonreturning.ExactIffStaysExact` it misses none after any
  function, exactly if each function's returns can be reached around the blocks that return earlier. For the
  final marking that condition is sufficient, not necessary.
- Syscall records are paired by number and order only, not by thread
  (`TraceValidation.ForeignArgumentsAreTaken`); `TraceValidation.PairingIsWithinThreads` says when that
  makes no difference. The tracing client writes one file for each thread. The store pairs by thread instead, so
  that otherwise a futex wait may pass validation without the read that stands for it
  (`StoredTrace.WaitsMayGoUnread`); `StoredTrace.WaitsAreRead` excludes it for files that keep to their threads.
- Thread handoffs are meant to need a unique order, but joins are paired with workers by position
  (`Handoffs.JoinsMayBeCrossed`); `Handoffs.JoinPairingIsUnique` says when that pairing is the only one.
- The parent's accesses up to the start of a worker are dropped, not only those before its creation
  (`Handoffs.StoresBeforeStartAreDropped`); `Handoffs.DroppedAreOrderedExactly` says when it makes no difference.

## Model

| member | source | states |
|---|---|---|
| Graphs.AcyclicGraphsHaveRanks | src/bmo_check_dynamic/proof/checker.py:433-436 | an acyclic edge set has ranks that rise on every edge, so the solver's rank constraints lose no execution |
| Graphs.RisingRanksForbidCycles | src/bmo_check_dynamic/proof/checker.py:433-436 | rising ranks exclude every cycle |
| Graphs.DegreeSelectionIffCycle | src/bmo_check_dynamic/proof/checker.py:448-466 | an edge set has a cycle exactly if some nonempty set of nodes has exactly one selected in-edge and out-edge each |
| PreservedOrder.SparseOrderIsComplete | src/bmo_check_dynamic/proof/relations.py:10-42 | linking only nearest predecessors has the same reachability as all pairs that TSO keeps |
| PreservedOrder.TargetInsideSource | src/bmo_check_dynamic/proof/relations.py:45-68 | every target edge is a path of the source order |
| PreservedOrder.OrdersFollowProgramOrder | src/bmo_check_dynamic/proof/relations.py:10-68 | both orders stay inside the program order of a thread |
| PreservedOrder.OrdersAreAcyclic | src/bmo_check_dynamic/proof/relations.py:10-68 | each preserved order alone has no cycle |
| PreservedOrder.SourceAcceptanceCarriesOver | src/bmo_check_dynamic/proof/relations.py:10-68 | a communication relation that is acyclic with the source order is acyclic with the target order |
| PreservedOrder.ByThread | src/bmo_check_dynamic/proof/relations.py:71-77 | every event ends up in its thread's list, and the lists are strictly sorted by sequence |
| PreservedOrder.BoundaryEdges | src/bmo_check_dynamic/proof/relations.py:80-128 | the edges are exactly the pairs of which one accepts the other as fence or atomic |
| PreservedOrder.SourceThreadOrder | src/bmo_check_dynamic/proof/relations.py:15-42 | the loop over remembered predecessors yields exactly the nearest-predecessor order |
| PreservedOrder.TargetThreadOrder | src/bmo_check_dynamic/proof/relations.py:49-68 | the loop yields exactly the overlap and fence order of one thread |
| PreservedOrder.SourcePreservedOrder | src/bmo_check_dynamic/proof/relations.py:10-42 | the source order of all threads, with the reachability of full TSO |
| PreservedOrder.TargetPreservedOrder | src/bmo_check_dynamic/proof/relations.py:45-68 | the target order of all threads |
| Machines.SourceOrderByKind | src/bmo_check_dynamic/proof/relations.py:10-42 | the source order reaches exactly what x86-TSO keeps, said for each pair of event kinds and their common bytes |
| Machines.TargetOrderByKind | src/bmo_check_dynamic/proof/relations.py:45-68 | the target order is exactly what the target keeps, in the same terms |
| CycleSearch.CycleFinder.Visit | src/bmo_check_dynamic/proof/relations.py:141-156 | a visit finds a closed walk, or marks the node visited with all it reaches |
| CycleSearch.FindCycle | src/bmo_check_dynamic/proof/relations.py:131-162 | the answer is empty exactly if the edges are acyclic; otherwise it is a closed walk along them |
| ReadParts.SplitRead | src/bmo_check_dynamic/proof/checker.py:568-581 | the parts tile the read without gap or overlap and are cut exactly where writes begin and end |
| ReadParts.PartsAreUniform | src/bmo_check_dynamic/proof/checker.py:568-581 | a write that meets a part covers all of it |
| ReadParts.CoveredReadHasOnePart | src/bmo_check_dynamic/proof/checker.py:568-581 | a read that every overlapping write covers is not cut |
| Values.ValuesMatch | src/bmo_check_dynamic/proof/checker.py:264-284 | yes exactly if every read's known value is explained by the bytes of its source |
| Values.SliceValuesMatch | src/bmo_check_dynamic/proof/checker.py:584-605 | the same for parts of reads |
| Values.SlicesMatchIffWholeMatches | src/bmo_check_dynamic/proof/checker.py:584-605 | all parts of a read match one covering write exactly if the whole masked value does |
| ValueBytes.ExplainedByBytes | src/bmo_check_dynamic/proof/checker.py:264-284 | a source explains a read exactly if both values were recorded, neither access is atomic or wider than eight bytes, and each byte read is the byte stored at that address |
| ValueBytes.SliceByBytes | src/bmo_check_dynamic/proof/checker.py:584-605 | the same for a piece of a read |
| Executions.SourceExecutionsAreTargetExecutions | src/bmo_check_dynamic/proof/checker.py:150-156 | whatever execution the source allows, the target allows |
| Machines.TargetOnlyIsForeign | src/bmo_check_dynamic/proof/checker.py:147-261 | target-only executions are those whose pieces of reads, store lines, atomics and exchanged bytes are legal, and which the target's order allows and the source's forbids, all said by kinds and bytes |
| Components.OverlapComponents | src/bmo_check_dynamic/proof/checker.py:543-565 | the groups are exactly the classes of writes linked by chains of overlaps |
| Symbolic.SymbolicIsExact | src/bmo_check_dynamic/proof/checker.py:325-466 | the constraint system has a solution exactly if a target-only execution exists |
| Symbolic.SolutionIsTargetOnly | src/bmo_check_dynamic/proof/checker.py:487-532 | the execution read off a solution is legal, target-acyclic and source-cyclic, and a cycle found among the selected edges exists and is a source cycle of it |
| Symbolic.TargetOnlySolves | src/bmo_check_dynamic/proof/checker.py:325-466 | every target-only execution gives a solution |
| Enumeration.ProductMembers | src/bmo_check_dynamic/proof/checker.py:107-108 | a product lists exactly the ways to choose one element of every list |
| Enumeration.PermutationsMembers | src/bmo_check_dynamic/proof/checker.py:198-199 | the permutations of distinct writes are exactly their rearrangements |
| Enumeration.ValidOrdersAreLinearExtensions | src/bmo_check_dynamic/proof/checker.py:198-207 | the valid coherence orders are exactly the linear extensions of per-thread order |
| UniformWindows.LegalIsListed | src/bmo_check_dynamic/proof/checker.py:79-108 | every legal execution is given by some listed pair of choices |
| UniformWindows.ListedIsLegal | src/bmo_check_dynamic/proof/checker.py:79-108 | every listed pair of choices is a legal execution |
| UniformWindows.AdjacentPairsSuffice | src/bmo_check_dynamic/proof/checker.py:210-247 | with coherence edges between neighbours only, the cycles are those of all coherence pairs |
| WindowChecker.MixedWrites | src/bmo_check_dynamic/proof/checker.py:44-55 | mixed exactly if two writes overlap at different locations, atomic exactly if one of such a pair is atomic |
| WindowChecker.PartialReads | src/bmo_check_dynamic/proof/checker.py:57-68 | partial exactly if a write overlaps a read without covering it, atomic exactly if such a read is atomic |
| WindowChecker.UniformIffUnmixed | src/bmo_check_dynamic/proof/checker.py:44-68 | without both, overlapping writes share their location and cover the reads they overlap, and conversely |
| WindowChecker.CommunicationRelations | src/bmo_check_dynamic/proof/checker.py:210-247 | the edges are the read-from, from-read and neighbouring coherence edges of the chosen execution |
| WindowChecker.FirstHasNoPredecessor | src/bmo_check_dynamic/proof/checker.py:250-261 | a write is first in its order exactly if no pair leads to it, and it has at most one predecessor |
| WindowChecker.AtomicReadFromValid | src/bmo_check_dynamic/proof/checker.py:250-261 | yes exactly if every atomic reads its immediate predecessor in coherence, or the initial value when first |
| WindowChecker.CheckExecution | src/bmo_check_dynamic/proof/checker.py:147-156 | a cycle is returned exactly if the execution is target-only, and it is a source cycle |
| WindowChecker.AllRefutedIsSafe | src/bmo_check_dynamic/proof/checker.py:123-156 | if every pair of choices is refuted, no legal execution is target-only |
| WindowChecker.TryExecution | src/bmo_check_dynamic/proof/checker.py:147-188 | one pair of choices is refuted or yields a witness, which is validated exactly if the control flow is closed and the recorded values agree |
| WindowChecker.TryVariants | src/bmo_check_dynamic/proof/checker.py:125-188 | the same for one choice of sources with every coherence choice, in order; it stops at the first that is not refuted, or when the budget or the clock runs out, and counts those examined exactly |
| WindowChecker.Enumerate | src/bmo_check_dynamic/proof/checker.py:105-195 | "safe" excludes every target-only execution and a candidate is one, after so many refuted ones; given up exactly when the budget or the clock has run out by then, or if there are more coherence choices than the budget |
| WindowChecker.CheckWindow | src/bmo_check_dynamic/proof/checker.py:33-195 | the same for the whole check: mixed-width atomics are answered unknown, other mixed-width and large windows go to the solver, and all others are searched in this way |
| WindowChecker.EnginesAgree | src/bmo_check_dynamic/proof/checker.py:93-122 | whenever the enumeration is conclusive, the constraint system has a solution exactly if it found a candidate |
| WindowMeaning.SafeMeans | src/bmo_check_dynamic/proof/checker.py:150-195 | "safe" excludes every execution, said by kinds of events and bytes, that RVWMO shows and x86-TSO does not |
| WindowMeaning.CandidateMeans | src/bmo_check_dynamic/proof/checker.py:147-188 | a candidate is such an execution with the reported sources and store orders; it is a counterexample exactly if the control flow is closed and every recorded byte read is the byte its source stored |
| WindowMeaning.MixedAtomicsByBytes | src/bmo_check_dynamic/proof/checker.py:44-55 | given up: two stores, one of them atomic, share bytes but not their whole range |
| WindowMeaning.PartialAtomicsByBytes | src/bmo_check_dynamic/proof/checker.py:57-68 | given up: a store writes some but not all bytes of an atomic |
| WindowMeaning.UniformByBytes | src/bmo_check_dynamic/proof/checker.py:44-68 | enumerated are the windows in which no two stores and no store and load share bytes in part |
| WindowMeaning.LargeByCount | src/bmo_check_dynamic/proof/checker.py:91-98 | left to the solver: more than twelve accesses or more than six stores of one range |
| Communication.FilePages | src/bmo_check_dynamic/storage/duckdb_store.py:152-160 | the index lists each access once under every page it touches, and the rejected accesses are the recorded ones with too many pages |
| Communication.HandoffIsSymmetric | src/bmo_check_dynamic/analysis/communication.py:302-337 | it does not matter which access of a pair is the current one |
| Communication.EarlierIsActive | src/bmo_check_dynamic/analysis/communication.py:151-153 | an earlier row that communicates with the current one has not left the active list |
| Communication.SweepPage | src/bmo_check_dynamic/analysis/communication.py:128-217 | a completed sweep reports each communicating pair of the page whose overlap starts there, once, and met fewer active rows than allowed everywhere; it stops early only at the limit or at a row that meets too many, with such pairs only |
| Communication.RowsReportPage | src/bmo_check_dynamic/analysis/communication.py:128-138 | the pairs of sorted rows are the unordered pairs of the page |
| Communication.EligiblePages | src/bmo_check_dynamic/analysis/communication.py:107-121 | the pages with two threads, a write and, if asked for, an access of the given code |
| Communication.FindCommunicationEdges | src/bmo_check_dynamic/analysis/communication.py:79-217 | exactly the communicating pairs of the eligible pages, without repetition, unless a page is crowded or the limit is reached, then exactly that many; only such pairs in any case |
| Communication.SmallPagesAreNotCrowded | src/bmo_check_dynamic/analysis/communication.py:201-205 | pages with at most as many accesses as may be active are not crowded |
| Communication.SweepAgreesWithBruteForce | src/bmo_check_dynamic/analysis/communication.py:107-217 | with no filter on code, what is to be reported is exactly what comparing all filed accesses pairwise gives |
| Communication.PairIsReportedOnce | src/bmo_check_dynamic/analysis/communication.py:190-197 | two reports with the same ends are the same report, also for accesses that overlap on several pages |
| Sharing.CompleteSearchFindsSharing | src/bmo_check_dynamic/analysis/communication.py:79-217 | a completed search finds exactly the links of two indexed accesses of different threads that share a byte, one of them a store or atomic, neither handed off nor in two lives of an allocation; each link names both and holds exactly the common bytes, and the wanted code touches its first page |
| Sharing.HandoffByTickets | src/bmo_check_dynamic/analysis/communication.py:302-337 | a pair is dropped exactly if one thread has evidence naming the other as its parent, both are loads, stores or atomics, and the tickets lie before the start or after the join; all other pairs are kept |
| Sharing.IndexedIsFiled | src/bmo_check_dynamic/storage/duckdb_store.py:152-160 | the rejected accesses are the recorded ones that touch more pages of 4096 bytes than allowed |
| Handoffs.MatchNamed | src/bmo_check_dynamic/analysis/communication.py:262-275 | succeeds exactly if no worker is named twice; every creation that names a worker is assigned to it, and belongs to it in every matching |
| Handoffs.MatchRemaining | src/bmo_check_dynamic/analysis/communication.py:276-290 | each further worker gets the only creation it can have in any matching; with workers in order of their start, failure means that there is not exactly one matching |
| Handoffs.MatchCreations | src/bmo_check_dynamic/analysis/communication.py:256-290 | succeeds exactly if there is one matching and no worker is named twice, and returns it |
| Handoffs.ThreadHandoffs | src/bmo_check_dynamic/analysis/communication.py:220-299 | evidence for all workers or none: given exactly if lifetimes are complete, creations and joins suffice, there is one matching of creations, and each worker ends before the join at its position |
| HandoffMeaning.EvidenceByTickets | src/bmo_check_dynamic/analysis/communication.py:228-299 | evidence is for every thread but the first, its parent, and holds that thread's own recorded start and end and the join at its position, which is later; the creations can be paired in one way |
| HandoffMeaning.EvidenceIsDue | src/bmo_check_dynamic/analysis/communication.py:228-299 | complete lifetimes in order of start, later joins, single names and a single pairing are enough for evidence |
| Handoffs.JoinPairingIsUnique | src/bmo_check_dynamic/analysis/communication.py:290-298 | pairing joins by position is a right way, and the only one exactly if there are no spare joins and each worker ends after its predecessor was joined |
| Handoffs.JoinsMayBeCrossed | src/bmo_check_dynamic/analysis/communication.py:251-298 | an input whose creations have one matching, as required, while its joins follow the ends in two ways |
| Handoffs.DroppedAreOrderedExactly | src/bmo_check_dynamic/analysis/communication.py:290-337 | every pair of accesses that the evidence drops is ordered by the matched creation or by the join, exactly if no access of the parent lies between a worker's creation and its start |
| Handoffs.StoresBeforeStartAreDropped | src/bmo_check_dynamic/analysis/communication.py:334-337 | an input where a store after the creation is dropped against a load of the worker |
| Blocks.HeadSeparates | src/bmo_check_dynamic/analysis/windows.py:199-207 | if the low link of a node is not below its parent's number, edges leave its subtree only to the parent |
| Blocks.EdgeInBlock | src/bmo_check_dynamic/analysis/windows.py:174-220 | in a depth-first forest both ends of every edge are in a common block |
| Blocks.BlocksShareOneNode | src/bmo_check_dynamic/analysis/windows.py:174-220 | two blocks share at most one node |
| Blocks.LoopInBlock | src/bmo_check_dynamic/analysis/windows.py:174-220 | all nodes of a simple cycle are in one block |
| Blocks.BlockHasNoCutNode | src/bmo_check_dynamic/analysis/windows.py:174-220 | without any one node, the rest of a block is still connected inside the block |
| BlockSearch.CollectedIsBlock | src/bmo_check_dynamic/analysis/windows.py:200-207 | the edges above the tree edge of a finished head have exactly its block as their ends |
| BlockSearch.EarlierIsAbove | src/bmo_check_dynamic/analysis/windows.py:217-219 | a discovered neighbour with a smaller number is an ancestor of the current node |
| BlockSearch.LowerMarkIsEarlier | src/bmo_check_dynamic/analysis/windows.py:202-206 | popping for a node never reaches the tree edge of a node below it on the traversal stack |
| Biconnected.PopComponent | src/bmo_check_dynamic/analysis/windows.py:201-206 | pops exactly to the given edge and gathers the ends of what was popped |
| Biconnected.DiscoverNeighbour | src/bmo_check_dynamic/analysis/windows.py:211-216 | discovering a neighbour keeps the invariant of the search |
| Biconnected.StackBackEdge | src/bmo_check_dynamic/analysis/windows.py:217-219 | stacking a back edge keeps the invariant of the search |
| Biconnected.Leave | src/bmo_check_dynamic/analysis/windows.py:194-208 | leaving a node, with or without closing a component, keeps the invariant of the search |
| Biconnected.Explore | src/bmo_check_dynamic/analysis/windows.py:184-219 | the traversal from a root terminates with an empty stack and keeps the invariant |
| Biconnected.FinishedForest | src/bmo_check_dynamic/analysis/windows.py:174-220 | when all nodes are discovered, numbers and low links form a depth-first forest with exact low links |
| Biconnected.FinishedBlocks | src/bmo_check_dynamic/analysis/windows.py:174-220 | and the collected components are its blocks |
| Biconnected.BiconnectedComponents | src/bmo_check_dynamic/analysis/windows.py:174-220 | the components cover every edge, share at most one node pairwise, contain every simple cycle whole, and have no cut node |
| Biconnected.EdgeHasOneBlock | src/bmo_check_dynamic/analysis/windows.py:79-88 | both ends of an edge are together in exactly one component |
| Boundaries.CutSeparates | src/bmo_check_dynamic/analysis/windows.py:143-145 | the bisection index separates the endpoints before a boundary from the others |
| Boundaries.MinimalBoundaries | src/bmo_check_dynamic/analysis/windows.py:134-154 | exactly these boundaries are kept: in each gap between endpoints the first atomic, futex wait or MFENCE, and without one the first LFENCE and the first SFENCE; so at most two per gap |
| Boundaries.KeptBoundariesSuffice | src/bmo_check_dynamic/analysis/windows.py:134-154 | two endpoints are ordered through the kept boundaries exactly if they are through all boundaries |
| Boundaries.KeptAreFew | src/bmo_check_dynamic/analysis/windows.py:147-154 | n endpoints keep at most 2(n-1) boundaries |
| Windows.BoundariesBetween | src/bmo_check_dynamic/storage/duckdb_store.py:321-330 | exactly the fences, atomics and futex waits of the thread in the range, in order |
| Windows.GroupingGraph | src/bmo_check_dynamic/analysis/windows.py:27-75 | the graph joins exactly the communication edges, neighbouring endpoints of a thread, and boundaries with the endpoints they accept on both sides |
| Windows.ThreadsAreSeparate | src/bmo_check_dynamic/analysis/windows.py:105-116 | boundary paths never leave a thread |
| Windows.WindowEvents | src/bmo_check_dynamic/analysis/windows.py:92-121 | the window holds the endpoints and exactly the boundaries needed between them, and orders the endpoints as all boundaries in range together would |
| Windows.LinkHasOneGroup | src/bmo_check_dynamic/analysis/windows.py:79-88 | each communication edge is in exactly one group |
| Windows.LoopLinksMeet | src/bmo_check_dynamic/analysis/windows.py:77-88 | communication edges on a common cycle of the grouping graph are in the same group |
| Windows.BuildWindows | src/bmo_check_dynamic/analysis/windows.py:21-131 | the groups are the link sets of the biconnected components of the grouping graph; every group becomes one window, or one unknown if its endpoints and needed boundaries exceed the limit, never both |
| FenceOrder.OrderedIffFenced | src/bmo_check_dynamic/proof/relations.py:80-128 | two accesses are ordered by boundaries exactly if a full fence, atomic or futex wait lies within, or a load fence between loads, or a store fence between stores |
| FenceOrder.WindowKeepsFences | src/bmo_check_dynamic/analysis/windows.py:92-121 | a window orders two of its endpoints by boundaries exactly if the events of the whole trace do |
| FenceOrder.WindowHoldsTheNeeded | src/bmo_check_dynamic/analysis/windows.py:92-154 | a window holds the accesses that communicate and, of each gap between those of a thread, the first full fence or atomic, or without one the first load fence and the first store fence; nothing else |
| FenceOrder.GraphByKind | src/bmo_check_dynamic/analysis/windows.py:27-75 | the grouping graph joins link ends, neighbouring endpoints, and boundaries with the endpoints whose kinds they order if there are some on both sides, and nothing else |
| Lockset.TransferIsPointwise | src/bmo_check_static/analysis/lockset.py:45-60 | a lock is held after an event exactly if it is acquired there, or was held and is not dropped there |
| Lockset.HeldAlongStep | src/bmo_check_static/analysis/lockset.py:45-60 | the same along a path, in terms of the last acquire and the drops since |
| Lockset.StableIsSafe | src/bmo_check_static/analysis/lockset.py:101-114 | a stable assignment promises a lock at the end of a path only if it is held along the path |
| Lockset.StableAndJustified | src/bmo_check_static/analysis/lockset.py:85-116 | a stable assignment whose missing locks are justified is the meet over all paths |
| Lockset.PassOn | src/bmo_check_static/analysis/lockset.py:101-114 | one step of the worklist keeps every event stable or queued and every missing lock justified, and makes progress |
| Lockset.RoleLocksets | src/bmo_check_static/analysis/lockset.py:98-114 | the worklist terminates with exactly the reached events and, for each, the locks held on every path from a root |
| Lockset.ProveDefiniteLocksets | src/bmo_check_static/analysis/lockset.py:63-116 | the same for every thread role, with a role's entries, or all its events in a pure cycle, as roots |
| Lockset.LockProtectionCandidates | src/bmo_check_static/analysis/lockset.py:119-135 | exactly the locks common to all events of a nonempty group of plain accesses |
| Lockset.ProtectionHolds | src/bmo_check_static/analysis/lockset.py:119-135 | a returned lock is held on every path from a root to every event of the group, and each event is reached |
| Lockset.LocksetsByFields | src/bmo_check_static/analysis/lockset.py:26-116 | an event has a lockset exactly if a run of its role comes to it; the set holds exactly the fixed places with name and offset that on every run were acquired and not released, and no unnamed lock operation or unknown effect came since |
| Reachability.Closure | src/bmo_check_static/analysis/shared_state.py:831-838 | the closure is exactly what the starts lead to |
| Reachability.PathExists | src/bmo_check_static/analysis/shared_state.py:752-771 | yes exactly if a path leads from one block to the other |
| Dominators.UpdateKeepsInv | src/bmo_check_static/analysis/shared_state.py:572-581 | an update removes only nodes that some path avoids, and later updates still only remove |
| Dominators.FixedIsExact | src/bmo_check_static/analysis/shared_state.py:568-581 | at the fixpoint each set is exactly the nodes on every path from the entry or a node without predecessors |
| Dominators.ComputeDominators | src/bmo_check_static/analysis/shared_state.py:568-581 | the iteration terminates there |
| Dominators.SmallestBlock | src/bmo_check_static/analysis/shared_state.py:522-540 | the chosen block contains the address and no smaller one does; none is found only if none contains it |
| Dominators.PostJoinCoversPc | src/bmo_check_static/analysis/shared_state.py:515-594 | yes exactly if the address is later in the same block, or the join's block is on every path to the event's block and leads to it; then, across blocks, every path from the function's entry passes the join |
| JoinMeaning.CoveredByRuns | src/bmo_check_static/analysis/shared_state.py:515-594 | the answer in terms of the smallest block that holds an address, the first function that holds both blocks, and the runs through it |
| ProgramOrder.SparseEdgesAreCfgOrder | src/bmo_check_static/analysis/memory_events.py:1496-1536 | an event reaches another over the sparse edges exactly if it precedes it in its block or a nonempty path leads to the other's block |
| ProgramOrder.NextEvents | src/bmo_check_static/analysis/memory_events.py:1514-1535 | the search finds exactly the first events of the blocks reached through blocks without events |
| ProgramOrder.EdgesOfPlace | src/bmo_check_static/analysis/memory_events.py:1502-1535 | the edges that start in one block are its neighbours and the next events after its last |
| ProgramOrder.ProgramOrderEdges | src/bmo_check_static/analysis/memory_events.py:1496-1536 | the edges of all blocks are exactly the sparse edges |
| ProgramOrder.EdgesAreAddressOrder | src/bmo_check_static/analysis/memory_events.py:1490-1536 | over the edges an event reaches another of its role exactly if it has the lower address in their block (calls last, then ids), or control flow leads from its block to the other's |
| ProgramOrder.EdgesByAddress | src/bmo_check_static/analysis/memory_events.py:1496-1536 | an edge leads to the next address of the block, or from the last address of a block to the first of one reached through blocks without events |
| ProgramOrder.OrderedPlacesAreUnique | src/bmo_check_static/analysis/memory_events.py:1490-1493 | sorting by address, call boundary and id gives each event one position |
| Nonreturning.RoleFunctions | src/bmo_check_static/analysis/memory_events.py:209-229 | a role runs exactly the functions that known calls reach from its start functions |
| ReturnMeaning.LedByCalls | src/bmo_check_static/analysis/memory_events.py:209-229 | what leads from a start function: known calls, each naming the next known function among its targets |
| Nonreturning.BlocksReachingReturn | src/bmo_check_static/analysis/memory_events.py:281-319 | the marking is that of one search after another; only blocks that can return are marked, and all of them under the condition of `ExactIffStaysExact` |
| Nonreturning.MarkedCanReturn | src/bmo_check_static/analysis/memory_events.py:304-318 | a marked block leads to a returning block of a function it belongs to, whatever the functions share |
| Nonreturning.StepIsExact | src/bmo_check_static/analysis/memory_events.py:294-318 | one more function keeps an exact marking exact, exactly if what returns in it and in no earlier function also reaches a return around the blocks that return earlier |
| Nonreturning.ExactIffStaysExact | src/bmo_check_static/analysis/memory_events.py:292-319 | the marking is exact after every function, exactly if that condition holds of every function; so it suffices for the final marking |
| Nonreturning.DisjointIsExact | src/bmo_check_static/analysis/memory_events.py:292-319 | the condition holds if no block belongs to two functions |
| ReturnMeaning.MarkedByPaths | src/bmo_check_static/analysis/memory_events.py:281-319 | function by function, newly marked are the blocks from which control passes inside the function to a return past no marked block |
| ReturnMeaning.CanReturnByPaths | src/bmo_check_static/analysis/memory_events.py:292-303 | what a block that can return is, by paths of successors |
| Nonreturning.SharedBlocksHideReturns | src/bmo_check_static/analysis/memory_events.py:312-317 | an input that misses the condition: the later search stops where the earlier one has been, and a block that can return stays unmarked |
| Nonreturning.FailingFunctions | src/bmo_check_static/analysis/memory_events.py:350-368 | the passes terminate with a set that the rule closes, admitted one by one |
| Nonreturning.OnlyCalledFromNonreturningPaths | src/bmo_check_static/analysis/memory_events.py:322-368 | empty if an unresolved call of a running application function might go anywhere, that fixpoint otherwise |
| Nonreturning.AdmissionIsLeast | src/bmo_check_static/analysis/memory_events.py:350-368 | it is contained in every set that the rule closes |
| ReturnMeaning.FailingIsLeast | src/bmo_check_static/analysis/memory_events.py:322-368 | nothing with an open indirect call; otherwise the least set that holds every function which is called, is no start function, and whose calls with this one target all are in blocks without return or in the set |
| Nonreturning.ChainsFromRootsFail | src/bmo_check_static/analysis/memory_events.py:357-366 | every chain of calls with one known target, from a start function to an admitted one, takes a failing call |
| Nonreturning.RecursionDoesNotAdmit | src/bmo_check_static/analysis/memory_events.py:357-366 | so does every cycle of such calls through an admitted function |
| Nonreturning.RootChainsFailExactly | src/bmo_check_static/analysis/memory_events.py:342-366 | over all known calls every chain to an admitted function takes a failing call, exactly if none without one enters an admitted function through a site with several targets |
| Nonreturning.RootChainsFailIfGuarded | src/bmo_check_static/analysis/memory_events.py:342-366 | which is so if only failing sites have several targets |
| Nonreturning.LoopsFailExactly | src/bmo_check_static/analysis/memory_events.py:342-366 | over all known calls every cycle through an admitted function takes a failing call, exactly if none without one comes back to it through a site with several targets |
| Nonreturning.LoopsFailIfGuarded | src/bmo_check_static/analysis/memory_events.py:342-366 | which is so if only failing sites have several targets |
| Nonreturning.SeveralTargetsAreIgnored | src/bmo_check_static/analysis/memory_events.py:343-344 | an input where a chain without a failing call reaches an admitted function through a site with two targets |
| Phase.ConcurrentFunctions | src/bmo_check_static/analysis/shared_state.py:852-867 | exactly the functions that lead to one that creates threads |
| Phase.SiteIsQuiet | src/bmo_check_static/analysis/shared_state.py:872-907 | yes exactly if the join covers the site, or there are entries and all come later and cannot come back |
| Phase.QuietFunctions | src/bmo_check_static/analysis/shared_state.py:920-948 | the iteration terminates with a set that the rule closes, admitted one by one |
| Phase.QuietIsLeast | src/bmo_check_static/analysis/shared_state.py:920-948 | it is contained in every set that the rule closes |
| Phase.QuietFunctionsCreateNothing | src/bmo_check_static/analysis/shared_state.py:852-867 | no quiet function leads to a creation of threads by calls with one known target |
| Phase.ChainsEnterQuietly | src/bmo_check_static/analysis/shared_state.py:938-947 | a chain of calls with one known target, from main to a quiet function, leaves main for the last time at quiet sites and stays in quiet functions |
| Phase.KnownChainsStayQuiet | src/bmo_check_static/analysis/shared_state.py:821-947 | over all known calls, chains from main to quiet functions stay quiet, exactly if no overlooked call names a quiet function except from a quiet function or a quiet site |
| Phase.SingleTargetsAreFollowed | src/bmo_check_static/analysis/shared_state.py:821-827 | nothing is overlooked if no call site has several targets |
| Phase.QuietFunctionsMayCreate | src/bmo_check_static/analysis/shared_state.py:821-867 | over all known calls, a quiet function can create threads, exactly if a site with several targets, which it reaches by single-target calls, names a function that can |
| Phase.CreationsComeLaterExactly | src/bmo_check_static/analysis/shared_state.py:872-907 | when a call counts as made before all creations, the analysis has ordered it before every known creating call of main, exactly if that holds of those that are no entries |
| Phase.NeverAfterCreationExactly | src/bmo_check_static/analysis/shared_state.py:872-907 | such a call is never executed after a known creating call of main, exactly if it follows none that is no entry and shares no repeated block with an entry |
| Phase.SingleTargetsMissNothing | src/bmo_check_static/analysis/shared_state.py:872-886 | every creating call of main is an entry if no site has several targets and the blocks of main's calls are known |
| Phase.LoopsPassMainExactly | src/bmo_check_static/analysis/shared_state.py:821-948 | over all known calls, cycles through quiet functions pass main, exactly if those do that return by a call which is not followed |
| Phase.SingleTargetLoopsPassMain | src/bmo_check_static/analysis/shared_state.py:821-948 | which is so if no site has several targets |
| PhaseInputs.QuietFunctionBesideWorkers | src/bmo_check_static/analysis/shared_state.py:821-948 | an input where a quiet function may also be called beside workers, through a site with two targets |
| PhaseInputs.QuietFunctionAfterCreation | src/bmo_check_static/analysis/shared_state.py:872-907 | an input where main may create a worker before it calls a quiet function, although no call to the function is overlooked and it creates nothing |
| PhaseInputs.QuietCallInLoop | src/bmo_check_static/analysis/shared_state.py:896-901 | an input where a call counts as made before a creation in the same block, which is repeated |
| Phase.RecursionIsNotQuiet | src/bmo_check_static/analysis/shared_state.py:920-948 | a cycle of calls with one known target through a quiet function passes main, so no function is admitted through its own recursion |
| Phase.UnresolvedCallsBlockAll | src/bmo_check_static/analysis/shared_state.py:931-937 | an unresolved indirect call that main reaches keeps every function out |
| Phase.MainFunctionsOutsideConcurrentPhase | src/bmo_check_static/analysis/shared_state.py:805-948 | with a proven lifecycle, a main function and a creation that it reaches, the result is that least fixpoint for the program; otherwise it is empty |
| PhaseMeaning.PhaseIsLeast | src/bmo_check_static/analysis/shared_state.py:805-948 | the result is the least set of functions that follow from it, said by targets, blocks, addresses and runs |
| PhaseMeaning.CreationIsReached | src/bmo_check_static/analysis/shared_state.py:836-850 | the analysis starts exactly if calls with one target lead main to a creation of threads |
| Ledger.StepIsSound | src/bmo_check_core/evidence/ledger.py:31-60 | every operation keeps ids, reference categories, insertion order and discharges sound |
| LedgerMeaning.AdditionByKind | src/bmo_check_core/evidence/ledger.py:31-46 | what is accepted and stored, for each kind of record |
| LedgerMeaning.DischargeByKind | src/bmo_check_core/evidence/ledger.py:48-60 | which discharges are accepted, and that only they are stored |
| Ledger.ReachableIsSound | src/bmo_check_core/evidence/ledger.py:31-60 | so does every history |
| Ledger.ReferencesAreAcyclic | src/bmo_check_core/evidence/ledger.py:105-137 | after any history no fact refers to itself through other facts |
| Ledger.StepOnlyAppends | src/bmo_check_core/evidence/ledger.py:24-29 | stored nodes and discharges never change |
| Ledger.ProofClosureIsExact | src/bmo_check_core/evidence/ledger.py:84-103 | the closure lists exactly the proofs reachable from the roots, each once, premises first |
| EvidenceStore.EvidenceLedger.ValidateEdges | src/bmo_check_core/evidence/ledger.py:105-137 | no complaint exactly if every reference is stored with the category its kind of node demands |
| EvidenceStore.EvidenceLedger.AddNode | src/bmo_check_core/evidence/ledger.py:31-46 | refines the addition step, and succeeds exactly if the step accepts |
| EvidenceStore.EvidenceLedger.AddDischarge | src/bmo_check_core/evidence/ledger.py:48-60 | refines the discharge step, and succeeds exactly if the step accepts |
| EvidenceStore.UnresolvedByHistory | src/bmo_check_core/evidence/ledger.py:74-82 | after any history, an Unknown is unresolved exactly if it was accepted in the scope and no discharge of it was ever accepted |
| EvidenceStore.EvidenceLedger.Visit | src/bmo_check_core/evidence/ledger.py:90-100 | a visit appends the premises not listed yet and then the proof, and fails exactly on what is no stored proof |
| EvidenceStore.EvidenceLedger.ProofClosure | src/bmo_check_core/evidence/ledger.py:84-103 | fails exactly if some root is no stored proof |
| Certificate.VerifyStaticCertificate | src/bmo_check_core/certificate/verification.py:47-121 | accepts exactly the certificates whose roots, removals and Unknowns are covered by the proofs the roots rest on |
| Certificate.ValidIffBacked | src/bmo_check_core/certificate/verification.py:33-121 | acceptance means: roots are proofs; each removed event is the subject of, or covered by, a proof that a path of premises leads to; each open Unknown of the scope is declared, and each declared one is of the scope and discharged by such a proof or left open by the verdict |
| Certificate.DischargedByCount | src/bmo_check_core/certificate/verification.py:88-110 | the reported Unknowns are the declared ones with a discharge |
| Certificate.SafeIsComplete | src/bmo_check_core/certificate/verification.py:80-113 | under a verified SAFE every Unknown of the scope is closed by a proof of the scope, the declared ones inside the closure |
| Certificate.SafeLeavesNothingOpen | src/bmo_check_core/certificate/verification.py:80-113 | after a verified SAFE no Unknown of the scope is unresolved |
| Certificate.AcceptanceIsStatic | src/bmo_check_core/evidence/ledger.py:31-60 | a static operation is accepted with dynamic nodes in the ledger exactly if it is without them |
| Certificate.StaticRun | src/bmo_check_core/evidence/ledger.py:31-60 | deleting all dynamic insertions from a history leaves the static nodes and all discharges as they were |
| Certificate.DynamicEvidenceNeverDecides | src/bmo_check_core/evidence/ledger.py:31-60 | after any history the next static operation meets the same answer as without any observation or hint |
| Certificate.DynamicEvidenceNeverCertifies | src/bmo_check_core/certificate/verification.py:47-121 | nor does the deletion change the validity of a certificate, its closure or its discharged Unknowns |
| LedgerMeaning.ObservationsChangeNothing | src/bmo_check_core/certificate/verification.py:47-121 | without all recorded observations and hints the proofs, Unknowns and discharges, the next answer and every certificate's standing are the same |
| Replay.StuckHasNoOrder | src/bmo_check_core/diagnostics/model.py:37-49 | when a pass adds nothing, no order adds all nodes legally |
| Replay.ReplayNodes | src/bmo_check_core/diagnostics/model.py:35-49 | the passes terminate, and succeed exactly if some order is legal |
| Replay.ReplayDischarges | src/bmo_check_core/diagnostics/model.py:50-56 | succeeds exactly if every discharge fits the nodes and none conflict |
| Replay.ReplaySnapshot | src/bmo_check_core/diagnostics/model.py:29-57 | the outcome depends on the nodes and discharges only, not on the order they are given in |
| Replay.ReplayRebuilds | src/bmo_check_core/diagnostics/model.py:29-57 | replaying what any reachable ledger holds, in any order, succeeds and rebuilds its nodes and discharges |
| TraceFormat.DecodeEncode | src/bmo_check_dynamic/trace/format.py:15-16 | reading back a little-endian field gives the number |
| TraceFormat.EncodeDecode | src/bmo_check_dynamic/trace/format.py:15-16 | writing back a number that was read gives the bytes |
| TraceFormat.TraceWriter.Write | src/bmo_check_dynamic/trace/format.py:31-50 | the stream stands for the events written so far, one more after each success, and for the same ones if a field does not fit |
| TraceFormat.PackLast | src/bmo_check_dynamic/trace/format.py:31-50 | appending a record continues the packed form of the events written so far |
| TraceFormat.ReadTrace | src/bmo_check_dynamic/trace/format.py:66-121 | the loop delivers the events up to the first error, and that error |
| TraceFormat.ReadAfterWrite | src/bmo_check_dynamic/trace/format.py:23-121 | reading packed events gives them back without an error |
| TraceFormat.TraceWriter.StreamReadsBack | src/bmo_check_dynamic/trace/format.py:23-121 | reading a writer's stream gives back exactly the events it wrote |
| TraceFormat.WriteAfterRead | src/bmo_check_dynamic/trace/format.py:66-121 | records that were read without an error are written back unchanged |
| TraceLayout.FileByOffset | src/bmo_check_dynamic/trace/format.py:12-16 | a file is read if it begins with the letters BMOTRACE, version 1.0 to 1.2 and record length 56; the records follow, each field at its offset, up to the end or the first error, which is named |
| TraceLayout.StreamByOffset | src/bmo_check_dynamic/trace/format.py:26-50 | a writer's stream holds the header and each event's fields at those offsets |
| TraceLayout.WritableByRange | src/bmo_check_dynamic/trace/format.py:31-50 | an event is written exactly if each field is in the range of its slot |
| TraceValidation.Validator.AddReason | src/bmo_check_dynamic/trace/validation.py:42-49 | the first hundred reasons are kept and the others counted |
| TraceValidation.Validator.CheckSyscall | src/bmo_check_dynamic/trace/validation.py:132-170 | refines the step of the syscall frame: its problems, what is pending and what is observed |
| TraceValidation.Validator.CheckRecords | src/bmo_check_dynamic/trace/validation.py:115-208 | the record loop gathers exactly the problems, observations and facts of the records before the first unknown kind |
| TraceValidation.Validate | src/bmo_check_dynamic/trace/validation.py:30-236 | complete exactly if the manifest is clean and the trace is well-formed; valid exactly if moreover no shared syscall is opaque or unsupported |
| TraceValidation.NoProblemsIffWellFormed | src/bmo_check_dynamic/trace/validation.py:114-213 | no problem is found exactly if every file is sound and each thread's records are numbered 1, 2, 3, ... through all files |
| TraceMeaning.WellFormedIsClean | src/bmo_check_dynamic/trace/validation.py:60-213 | well-formed traces by the numbers of their records: codes, flags, sizes, counted sequence numbers, and arguments and returns inside a call of the same number |
| TraceMeaning.VerdictByRecords | src/bmo_check_dynamic/trace/validation.py:214-236 | the two verdicts in the same terms |
| TraceValidation.NumberedIffNoGaps | src/bmo_check_dynamic/trace/validation.py:182-189 | comparing with the last number of the thread finds every gap and every repetition |
| TraceValidation.FrameIffPaired | src/bmo_check_dynamic/trace/validation.py:141-170 | given sound records before it, an argument or return is accepted exactly if it fits the call that is open: same number, index below six, no index twice |
| TraceValidation.PendingIsOpenCall | src/bmo_check_dynamic/trace/validation.py:132-170 | what is pending is the open call with the arguments recorded since its entry |
| TraceValidation.ReturnClosesItsCall | src/bmo_check_dynamic/trace/validation.py:161-170 | in a sound file a return yields the observation of its own call, with the value and the arguments in order |
| TraceValidation.EntriesAreObserved | src/bmo_check_dynamic/trace/validation.py:79-97 | in any trace, also a faulty one, each syscall entry yields exactly one observation, in order |
| TraceValidation.WellFormedTraceIsValid | src/bmo_check_dynamic/trace/validation.py:182-207 | recorded events of a well-formed trace satisfy everything that the window checker assumes of them |
| TraceValidation.PairingIsWithinThreads | src/bmo_check_dynamic/trace/validation.py:132-170 | in a sound file every argument and return is taken for a call of its own thread, exactly if none of another thread lies inside an open call |
| TraceValidation.OneThreadPerFile | src/bmo_check_dynamic/trace/validation.py:132-170 | which is so if the file holds the records of one thread |
| TraceValidation.ForeignArgumentsAreTaken | src/bmo_check_dynamic/trace/validation.py:141-160 | an input where an argument of another thread is accepted for the open call |
| StoredTrace.AddEvents | src/bmo_check_dynamic/storage/duckdb_store.py:57-164 | the loop stores an event for each record and a read for each return of a successful futex wait, paired by thread |
| StoreMeaning.RowsByRecord | src/bmo_check_dynamic/storage/duckdb_store.py:57-164 | a row shows a record, each code as its kind, or is the read of the word of a wait: six arguments, syscall 202, one of the wait operations, return 0, all of one thread |
| StoredTrace.StoredTraceIsValid | src/bmo_check_dynamic/storage/duckdb_store.py:74-131 | accesses and fences stored for a well-formed trace satisfy what the window checker assumes of them, the added reads included; only these can reach past the end of the address space |
| StoredTrace.WaitsAreRead | src/bmo_check_dynamic/trace/syscalls.py:114-120 | in files that keep to their threads, the added reads are of exactly the words of the waits that validation lets pass, in the same order |
| StoredTrace.WaitsMayGoUnread | src/bmo_check_dynamic/trace/syscalls.py:114-120 | an input where a wait passes, and no read is added because another thread recorded its return |

## Left out

- The solver itself, its timeouts and the budget of formula terms: a query is the existence of an assignment, and budget exits are an answer that claims nothing.
- Checking windows separately instead of the whole trace: windows leave out accesses that are no endpoints, so only the graph and boundary facts are proved, not that no cycle of the whole trace is missed.
- Object generations and thread-local storage are not derived from allocation events: the object of an access is part of the input.
- The database: queries are functions over sequences; batching, copying and cursors are not modelled.
- WindowChecker.CheckWindow: the explanatory texts of its answers are not modelled, only which answer is given and its witness.
- Dominators.PostJoinCoversPc: assumes that block addresses are unique, as the recovered control flow provides; otherwise later blocks would replace earlier ones.
- ProgramOrder.ProgramOrderEdges: returns the set of edges; the order in which the report lists them is not modelled.
- EvidenceStore.EvidenceLedger.UnresolvedUnknowns: returns a set of ids; the sorting of the report is not modelled.
- Trace certificates, correlation and root-cause classification: mostly checks of single fields.
- StoredTrace.AddEvents: ids and operand indices are not columns of its rows, and its page index is `Communication.FilePages`; the database refuses two added reads of one thread with one ticket, which is not modelled.
- StoredTrace.WaitsAreRead: that files keep to their threads is sufficient, not necessary; foreign records inside other calls may leave the waits alone.
- TraceValidation.Validate: the manifest's own problems and the table of syscall effects are inputs, and so is what reading a file delivered; the closing note that counts omitted reasons is not modelled.
- Recovery of roles and functions from the binary, address provenance, symbolic lifecycle proofs and partition proofs: they rest on libraries and heuristics that this project does not model; their results are inputs here.
- Command line, launcher, tracing client, file hashing and report formats: input and output only.
