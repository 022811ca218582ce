# analyssa: a verified model of the analyses

The project models the analysis algorithms of analyssa, a library of analyses over
functions in SSA form, and proves what they compute.  Each module follows one source
file: a class or a loop of the program is a class or a loop here, proved against a
specification, and what the program promises is proved about that specification.

- `Graph` defines paths, reachability and dominance; the analyses are proved against
  these definitions and not against another algorithm.  `Closure` defines least closed
  sets, `Sequences` and `Options` the usual helpers, `Bits` arithmetic modulo powers of
  two.
- `PointsTo` is the Andersen solver: difference propagation over a growing copy graph,
  with a work budget.
- `MemorySsa` places memory phis and renames memory versions by an explicit-stack walk of
  the dominator tree; `MemoryVersions` proves what the versions mean on edges, on paths and
  in executions.
- `Loops` finds natural loops, their nesting and the innermost loop of a block.
- `Exceptions` reads the exception table and builds the graph with exceptional edges;
  `EhDominance` holds the three dominance queries over it.
- `Convert` collapses chains of integer conversions.
- `Address` normalizes addresses; `Aliasing` compares decoded accesses.
- `Range` is interval and union-of-interval arithmetic with widening.
- `Csr` is the count, prefix-sum and scatter construction shared by `SsaCfg`, the
  control-flow view, and `DefUse`, the def-use index.
- `Liveness` and `Phis` are the scalar pruned-phi placement.
- `Evaluator` is the evaluator's state with its undo journal; `Speculation` proves the
  checkpoint contract over whole runs.
- `BitSet` is the lazy word-packed bit set.

`dafny verify dfyconfig.toml` checks everything.

## Where the code and its comments differ

The model follows the code.  Six comments say more than the code gives, and for each the
project has the input that shows it and, where there is one, the exact condition.

- A points-to run that its budget stops is called sound for a may-alias consumer
  (`src/analysis/pointsto.rs:292-300`).  Its result is below the least solution, so pairs
  that may alias can be missing: `PointsTo.TruncatedRunLosesAlias`.  A list whose work,
  a product of its counts, fits the bound is never stopped: `PointsTo.ConvergesWithinWork`;
  `PointsTo.BudgetIsExact` says exactly when the bound is hit and when that costs pairs.
- Exception-aware dominance is said to agree with terminator dominance on the blocks the
  terminators reach (`src/analysis/exceptions.rs:302-304`).  It does exactly under
  `EhDominance.AgreementIsExact`, and a two-block try region breaks it.
- `definition_reaches` is said to accept only values guaranteed at the use
  (`src/analysis/exceptions.rs:690-699`).  It also accepts an instruction of a guard whose handler
  rejoins in front of the use, and an instruction for the top of its own block;
  `EhDominance.DefinitionReachesIsSound` gives the exact condition,
  `EhDominance.RejoiningHandlerLosesValue` and `EhDominance.OwnBlockIsAccepted` the examples.
- Handler kills push versions but are not definition blocks for placement
  (`src/analysis/memory.rs:1180-1194`, `1382-1392`), so a join behind a handler may lack a phi;
  and a lone back edge to the entry places none.  `MemoryVersions.EdgeVersions` says for
  every edge, from the function alone, which version crosses it.
- A rollback of a stale mark is said to leave the state unchanged
  (`src/analysis/evaluator.rs:600-602`).  `Speculation.RollbackIsIdleIff` says of any mark and any
  evaluator when it does; the lemmas beside it take back a value, part of a run, and a path.
- Every write is said to go through the journal (`src/analysis/evaluator.rs:651-654`).  Four
  writes do not: `Evaluator.BypassesAreUndoneIff` says of any run exactly when a rollback still
  undoes them, and `Speculation.ReleaseRestoresIff` when nested checkpoints do.

`widen` keeps a finite bound against a new infinite one (`src/analysis/range.rs:421-437`);
`Range.WidenCovers` states this as an equivalence.
Address normalization reads through every conversion and every constant shift below 64.  It
keeps the value under `Address.Fits`, which asks for conversions that keep the value at pointer
width (`Address.ConversionFitsIff` is the exact test of one) and shifts below that width;
`Address.NarrowingMisleads` and `Address.WideShiftMisleads` show what happens outside it.

## Reading the model

- Block, variable, location and group ids are natural numbers.  Hash maps and sets are
  iterated in an arbitrary order, so results hold for every order; where the program sorts or
  iterates an ordered set, the model does.
- Counters and indices that the program saturates are unbounded here, except where the width
  shows: the 64-bit offsets of addresses and ranges, the 32-bit table offsets, the points-to
  budget, the index bound of the bit set.
- A `requires` is a demand of the program (an index its assertion checks, a dominator tree of the
  same graph, frontier rows as the frontier pass defines them, tables that fit 32 bits) or the
  well-formedness SSA gives it (operands defined before their uses, variables typed as their
  conversions).
- Dominator trees, frontier rows and the answers of `dominates` are inputs, tied to `Graph` by
  `MemorySsa.IsDomTree`, `MemorySsa.AreFrontiers` and `Loops.AnswersDominance`.

## Model

| member | source | states |
|---|---|---|
| Graph.DominatorsFormChain | src/graph/algorithms/dominators.rs:150-178 | The dominators of a reachable block form a chain, by re-routing a path around either of two incomparable ones |
| Graph.IdomExists | src/graph/algorithms/dominators.rs:121-126 | Every reachable block but the entry has an immediate dominator |
| Graph.IdomUnique | src/graph/algorithms/dominators.rs:121-126 | Immediate dominators are unique |
| Graph.DominatesPredecessor | src/graph/algorithms/dominators.rs:150-178 | A strict dominator of an edge's target dominates its source |
| Graph.SoleEdgeDominance | src/graph/algorithms/dominators.rs:784-854 | A block with a single incoming edge, which the frontier pass skips, is strictly dominated by all that dominates the edge's source |
| PointsTo.Solve | src/analysis/pointsto.rs:258-355 | Terminates on every list and stops where the run of pops stops; the result is below every solution of the inclusion constraints, however it stops, and is the least solution when the queue drains or when the list's work fits the budget |
| PointsTo.ProcessPop | src/analysis/pointsto.rs:304-351 | One pop takes the front of the queue, makes exactly the specified sets, edges and queue in ascending order of locations, and charges the saturated sum of edges, pointees times loads and pointees times stores |
| PointsTo.PopKeeps | src/analysis/pointsto.rs:304-351 | One pop adds nothing a solution lacks, leaves every location that is not queued fully propagated, and queues only locations whose set grew |
| PointsTo.PopPays | src/analysis/pointsto.rs:292-316 | A location is popped at most once per pointee it gains: every pop spends one of a bounded number of credits, at any price per location, and earns none back, so the run ends |
| PointsTo.PopCharges | src/analysis/pointsto.rs:304-351 | One pop charges no more than its location's possible copy edges, and loads and stores once per target |
| PointsTo.PopChargeIs | src/analysis/pointsto.rs:317-346 | A pop's charge is the saturated sum of the edges, of pointees for each load, and of pointees, after the loads, for each store |
| PointsTo.LoadsInOrder | src/analysis/pointsto.rs:326-340 | Loads add the edge from every pointee to every destination, in ascending order of the pairs |
| PointsTo.StoresInOrder | src/analysis/pointsto.rs:341-351 | Stores add the edge from every stored value to every pointee, in ascending order of pointee and value |
| PointsTo.FirstQueueInOrder | src/analysis/pointsto.rs:258-292 | The first queue holds every location that is given a pointee, in the order the list first gives it one |
| PointsTo.ConvergesWithinWork | src/analysis/pointsto.rs:292-316 | With T distinct targets, C copies, L loads and S stores, a list with T(C + 2T(L + S)) at most 64 times its length plus 64 drains its queue and gets the least solution |
| PointsTo.FewTargetsConverge | src/analysis/pointsto.rs:292-316 | In particular every list with at most 5 targets does, and every list without loads and stores with at most 64 |
| PointsTo.BudgetIsExact | src/analysis/pointsto.rs:292-316 | A solver without a budget always gets the least solution; the budgeted result is least exactly when it is a solution, which is when it equals the unbudgeted one; and the budget is not hit exactly when the unbudgeted run has spent no more than the bound before its last pop |
| PointsTo.LoadConstraints | src/analysis/pointsto.rs:258-292 | The loading pass computes the base facts, copy edges, dereference indexes and first queue |
| PointsTo.LoadedInvariant | src/analysis/pointsto.rs:258-292 | The loaded state satisfies the solver's invariant |
| PointsTo.SolverGraph.PropagateCopy | src/analysis/pointsto.rs:182-206 | Joins one set into another and queues the target exactly when it grew |
| PointsTo.SolverGraph.AddCopyEdge | src/analysis/pointsto.rs:211-218 | Adds an edge; one that is new takes effect at once |
| PointsTo.SolverGraph.AddPointee | src/analysis/pointsto.rs:172-174 | Adds one pointee and tells whether it is new |
| PointsTo.Worklist.Push | src/analysis/pointsto.rs:231-235 | Appends a location unless it is pending |
| PointsTo.Worklist.Pop | src/analysis/pointsto.rs:238-242 | Takes the oldest pending location |
| PointsTo.PropagateEdges | src/analysis/pointsto.rs:317-325 | The popped location's set flows over every copy edge out of it, in ascending order |
| PointsTo.MaterializeLoads | src/analysis/pointsto.rs:326-340 | Loads through the popped location become edges from each of the pointees it had, even as its own set grows, each taking effect at once |
| PointsTo.MaterializeStores | src/analysis/pointsto.rs:341-351 | Stores through the popped location become edges to each of the pointees it had, each taking effect at once |
| PointsTo.FollowEdgesKeeps | src/analysis/pointsto.rs:317-325 | After a pop's copy edges are followed, every edge out of the popped location is respected |
| PointsTo.LoadEdgesKeeps | src/analysis/pointsto.rs:326-340 | After the load stage every pointee of the popped location has its edge to every load destination, or the location is queued again |
| PointsTo.StoreEdgesKeeps | src/analysis/pointsto.rs:341-351 | After the store stage every stored value has its edge to every pointee of the popped location, or the location is queued again |
| PointsTo.ClosedIsLeast | src/analysis/pointsto.rs:258-355 | A sound state with nothing pending satisfies every AddressOf, Copy, Load and Store inclusion and is least |
| PointsTo.TruncatedRunLosesAlias | src/analysis/pointsto.rs:294-316 | A list of 262 constraints on which the solver stops with work pending and without a pair that every solution has: stopping early is not safe for a may-alias consumer, against the comment |
| PointsTo.ReachableClosure | src/analysis/pointsto.rs:119-138 | The closure of the seeds is the least set that holds them and is closed under the points-to sets |
| MemorySsa.MemorySsa.PlaceMemoryPhis | src/analysis/memory.rs:1165-1240 | Each location has phis exactly at the least set of blocks closed under the frontier rows from its definition blocks, aliasing definitions included, once each, with its own version |
| MemorySsa.MemorySsa.PlacePhisFor | src/analysis/memory.rs:1199-1239 | The worklist for one location places exactly its iterated frontier and no other location's phis |
| MemorySsa.MemorySsa.AddPhiAt | src/analysis/memory.rs:1219-1236 | A placed phi takes a version no other definition of its location has |
| MemorySsa.MemorySsa.AllocateVersion | src/analysis/memory.rs:926-931 | Versions of a location are handed out in sequence |
| MemorySsa.MemorySsa.DefinitionBlocks | src/analysis/memory.rs:1180-1194 | The blocks with an operation that may clobber the location |
| MemorySsa.MemorySsa.RenameMemoryVersions | src/analysis/memory.rs:1259-1327 | The explicit Enter and Exit walk computes recursive dominator-tree renaming: every reachable block once, each from the stacks its immediate dominator left, no stack ever empty, final stacks equal to the seeds, and it ends |
| MemorySsa.MemorySsa.EnterBlock | src/analysis/memory.rs:1297-1317 | Entering a block renames it, records its pending exit and queues its children |
| MemorySsa.MemorySsa.SeedEntryVersions | src/analysis/memory.rs:1277-1289 | Every location starts from its own function-entry version |
| MemorySsa.MemorySsa.RenameBlock | src/analysis/memory.rs:1404-1507 | One block: handler kills, recorded entry versions, phis, operations, recorded exit versions and successor operands, in that order |
| MemorySsa.MemorySsa.KillAtExceptionRoot | src/analysis/memory.rs:1343-1395 | At a handler, exactly the locations last written inside its protected region get a fresh exception-entry version |
| MemorySsa.MemorySsa.PushPhis | src/analysis/memory.rs:1429-1438 | A phi's version becomes the current one of its location and of no other |
| MemorySsa.MemorySsa.RenameOperation | src/analysis/memory.rs:1446-1483 | A defining operation gives a fresh version to every location it may alias and leaves the rest alone |
| MemorySsa.MemorySsa.RenameInstructions | src/analysis/memory.rs:1445-1484 | Every operation that clobbers a location gives it a version of its own, in order, and after the block each location is at its last clobbering operation in the block |
| MemorySsa.MemorySsa.FillOperands | src/analysis/memory.rs:1493-1504 | Every phi of every successor gains one operand with this block's exit version for each edge, and nothing else changes |
| MemorySsa.MemorySsa.RecordVersions | src/analysis/memory.rs:1421-1427 | The recorded versions are the tops of the stacks, for this block's entries and no others |
| MemorySsa.MemorySsa.PopPushed | src/analysis/memory.rs:1318-1324 | Popping what a block pushed restores the stacks it found |
| MemorySsa.PopAllRestores | src/analysis/memory.rs:1318-1324 | Popping the locations that were pushed restores every stack |
| MemorySsa.WalkEnter | src/analysis/memory.rs:1297-1317 | Replacing a pending entry by its pending exit keeps what the walk guarantees to every other pending step |
| MemorySsa.WalkExit | src/analysis/memory.rs:1318-1324 | A pending exit restores the stacks the step under it expects |
| MemorySsa.Build | src/analysis/memory.rs:847-885 | Placement then renaming: the finished table is phi placement at the iterated frontier together with recursive renaming, with exact phi operands |
| MemoryVersions.EdgeVersions | src/analysis/memory.rs:1404-1507 | On every edge from a reachable block, handlers included, read off the function alone: the target has a phi exactly in the iterated frontier of the definitions, and then takes the source's exit version as an operand; the exit version is the target's recorded entry version exactly when no dominator of the source that does not strictly dominate the target defines, merges or replaces the location; at a handler that replaces it, exactly when the edge comes from below the handler and nothing from its phis on disturbs it |
| MemoryVersions.KilledIsKills | src/analysis/memory.rs:1343-1395 | Which versions a handler entry replaces is determined by the function: those of the locations whose nearest disturbing strict dominator defines or merges them inside the protected region, and does not merely replace them |
| MemoryVersions.MergesIsPhi | src/analysis/memory.rs:1165-1240 | A block has a phi exactly when it is in every set closed under the frontiers of the defining blocks and its members |
| MemoryVersions.PhiOperandsAreEdges | src/analysis/memory.rs:1486-1504 | A phi's operands are, with multiplicity, one for each edge from a reachable block, carrying the version that block leaves |
| MemoryVersions.PushesIsDisturbs | src/analysis/memory.rs:1404-1484 | Renaming a block gives a location a new version exactly when the block defines it, merges it or replaces it as a handler |
| MemoryVersions.EveryEdgeAgrees | src/analysis/memory.rs:1165-1240 | Without flow roots, every edge from a reachable block delivers the source's exit version: to the target's phi, or unchanged where there is none; only a lone back edge to the entry is excepted |
| MemoryVersions.PhiFreePath | src/analysis/memory.rs:1404-1507 | Along a path without phis or clobbers for a location the version stays, so it names the last clobber of the first block; only an entry with a lone back edge is excepted |
| MemoryVersions.VersionsFollowExecution | src/analysis/memory.rs:1259-1507 | Memory SSA keeps the meaning of memory: on every execution path of a function without flow roots, the version at a block's exit stands for the path's last clobber of the location |
| MemoryVersions.FrontierGetsPhi | src/analysis/memory.rs:1213-1237 | A block in the frontier of a block that defines or merges the location carries a phi for it |
| MemoryVersions.QuietEdgeKeeps | src/analysis/memory.rs:1421-1428 | Where nothing on the edge pushes, the exit version is the one the target's immediate dominator left |
| MemoryVersions.LoudEdgeChanges | src/analysis/memory.rs:1421-1428 | Where something on the edge pushes, it is not |
| MemoryVersions.KilledEntry | src/analysis/memory.rs:1382-1392 | A killed location is entered with another version than its dominator left, and an edge brings it back exactly when it comes from a block the handler dominates and nothing from the handler's phis on disturbs it |
| MemoryVersions.HandlerKillIsNotMerged | src/analysis/memory.rs:1180-1194 | Kills are not definition blocks for placement: a join behind a handler has no phi and is entered with the store's version as if the handler had not replaced it |
| MemoryVersions.EntryLoopHasNoPhi | src/analysis/memory.rs:1165-1240 | A lone back edge to the entry gets no phi, because the frontier pass asks for two incoming edges, and its version differs from the entry's |
| Loops.DetectLoops | src/analysis/loops.rs:664-712 | One loop per header, with exactly the natural-loop body and latches, nested as specified, ascending by header; for every reachable block the innermost loop is the smallest that holds it, and there is none exactly when no loop does |
| Loops.FindLoops | src/analysis/loops.rs:675-690 | The edge scan finds every back edge and gives each header its body and its latches, one for each back edge, ascending |
| Loops.ExpandLoopBody | src/analysis/loops.rs:769-789 | The body is the header and all blocks that reach a latch without passing the header |
| Loops.HeaderDominatesBody | src/analysis/loops.rs:769-789 | The header dominates the reachable members of its body |
| Loops.HeadersAsymmetric | src/analysis/loops.rs:885-916 | Of two headers at most one lies in the other's body |
| Loops.NestedBodies | src/analysis/loops.rs:885-916 | A loop whose header lies in another loop lies in it entirely, without the other header |
| Loops.CommonBlockNests | src/analysis/loops.rs:885-916 | Of two loops with a common reachable block and headers of which one dominates the other, the dominated header lies in the other loop |
| Loops.LoopsFormChain | src/analysis/loops.rs:885-916 | The loops that hold a reachable block form a strict chain of bodies |
| Loops.FindParent | src/analysis/loops.rs:902-912 | The parent is the smallest loop, first in order among equals, that holds the header |
| Loops.ParentIsInnermost | src/analysis/loops.rs:901-923 | A reachable header's parent is the innermost enclosing loop, which is unique, whatever order the loops come in |
| Loops.EnclosedIsSmaller | src/analysis/loops.rs:901-923 | A loop is strictly inside, and smaller than, one that holds its header: parent chains end |
| Loops.WalkDepth | src/analysis/loops.rs:943-957 | The parent walk ends and counts the chain |
| Loops.ComputeNesting | src/analysis/loops.rs:885-958 | Parents, children in order, and depths, together |
| Loops.CollectChildren | src/analysis/loops.rs:925-940 | Each loop lists the headers of the loops whose parent it is, in order |
| Loops.ChildHasPlace | src/analysis/loops.rs:925-940 | Every loop with this parent is listed, after exactly the children before it |
| Loops.PlaceHasChild | src/analysis/loops.rs:925-940 | Everything listed is a loop with this parent |
| Loops.InnerIsDeeper | src/analysis/loops.rs:942-957 | Of two loops of which one holds the other's reachable header, the inner is deeper |
| Loops.ChildIsOneDeeper | src/analysis/loops.rs:942-957 | A loop is one deeper than its parent, which strictly holds it, and at depth zero without one |
| Loops.LoopForest.AddLoop | src/analysis/loops.rs:523-547 | The index of a block stays at the first deepest loop that holds it |
| Loops.DeepestIsSmallest | src/analysis/loops.rs:523-547 | Of two loops with a common reachable block, the deeper is strictly inside the other |
| Loops.ParentDependsOnOrder | src/analysis/loops.rs:906-912 | For a header no path reaches, two equal candidates exist and the choice follows the hash order |
| Loops.ParentIgnoresOrderIff | src/analysis/loops.rs:901-923 | The parent of a loop is the same in every order of the loops exactly when no two of the smallest loops around it tie |
| Exceptions.Of | src/analysis/exceptions.rs:129-189 | The roots of an exception table, from the clauses' fields: one for each clause part, handler before filter, that starts at a block of the function no earlier part starts at, with its guard and clipped region, in table order and no others; guards and protected blocks likewise |
| Exceptions.FirstsAreRoots | src/analysis/exceptions.rs:138-175 | The candidates kept are exactly the roots the clauses' fields give, each once, in table order |
| Exceptions.FirstsAreEntries | src/analysis/exceptions.rs:158-175 | A block has a root exactly when a handler or filter of the table starts there; the first such part gives it |
| Exceptions.NewEhCfg | src/analysis/exceptions.rs:332-439 | Ends with every root attached once, its edge from its guard or from the entry as the order of fallbacks decides; no synthesized edge doubles another; predecessors are the exact inverse; the edge sources are the tails |
| Exceptions.Attach | src/analysis/exceptions.rs:444-466 | Adds one edge to both directions and the tail set, unless the terminators or an earlier call have it |
| Exceptions.Drain | src/analysis/exceptions.rs:368-405 | The drain keeps the traversal within the flow closure, attaches every root whose reached guard it expanded, and records exactly the attached roots' edges |
| Exceptions.FireGuard | src/analysis/exceptions.rs:382-404 | A newly reached guard attaches all the roots that wait for it |
| Exceptions.RootsAreReachable | src/analysis/exceptions.rs:299-301 | Every root is reachable, over its guard's edge when the guard can be reached before the fallback, else over the entry's |
| Exceptions.GraphEdges | src/analysis/exceptions.rs:534-562 | The view has the terminator edges and the roots' edges, and no others |
| Exceptions.ViewIsExact | src/analysis/exceptions.rs:332-439 | The view has the terminator edges and, for each root, one from its guard, or from the entry if the guard is absent, out of range, or not reachable over terminators, guards and the roots before it that hang off the entry |
| Exceptions.FlowIsPaths | src/analysis/exceptions.rs:340-405 | What the traversal reaches is what paths of terminator edges, dispatches from guards and fallback edges lead to |
| Exceptions.FlowReachable | src/analysis/exceptions.rs:340-430 | All that the traversal reaches is reachable in the finished graph |
| Exceptions.NoRootsNoEdges | src/analysis/exceptions.rs:332-439 | Without roots the view is the terminator relation |
| EhDominance.EhDominanceIsStronger | src/analysis/exceptions.rs:685-688 | For a block the terminators reach, exception-aware dominance implies terminator dominance |
| EhDominance.QueriesAreOrdered | src/analysis/exceptions.rs:568-592 | The three queries are ordered as documented, and the loosest is terminator dominance on terminator-reachable uses and exception-aware dominance on the others |
| EhDominance.AgreementIsExact | src/analysis/exceptions.rs:302-304 | The two dominance relations agree on terminator-reachable blocks exactly when every handler excursion rejoins where the join's immediate dominator still dominates the block it left from |
| EhDominance.TwoBlockRegionDisagrees | src/analysis/exceptions.rs:302-304 | They do not agree in general: a two-block try region breaks it |
| EhDominance.GuaranteedIsExact | src/analysis/exceptions.rs:690-715 | A value holds at a use however control arrives exactly when its block dominates the use and, for an instruction, is another block from which no interrupted run gets there |
| EhDominance.DefinitionReachesIsSound | src/analysis/exceptions.rs:690-715 | What `definition_reaches` accepts is guaranteed exactly when it is a phi, or an instruction of another block from which no interrupted run gets to the use; outside edge-source blocks, exactly when it is a phi or of another block |
| EhDominance.OwnBlockIsAccepted | src/analysis/exceptions.rs:690-715 | An instruction is accepted for the top of its own block, unless the block is an edge source only exceptional flow reaches, and is never guaranteed there |
| EhDominance.DefinitionReachesIsComplete | src/analysis/exceptions.rs:701-715 | What it refuses although guaranteed is exactly the documented exception |
| EhDominance.RejoiningHandlerLosesValue | src/analysis/exceptions.rs:690-715 | An accepted definition that need not hold: the use is a join behind the guard's handler |
| Convert.CollapseConversionChain | src/analysis/convert.rs:120-220 | Ends on every function; returns a copy for a conversion to the operand's own type, else a conversion of the variable at the end of the full chain of links from the operand, and nothing for a checked conversion, an unknown width, no link, or a cyclic chain; which links count is stated from the records, widths and signs |
| Convert.CollapseKeepsValue | src/analysis/convert.rs:120-220 | For chains of any length, widths, signs and source value, the answer computes the value of the whole chain |
| Convert.TransparentLink | src/analysis/convert.rs:38-61 | One passed link changes no value |
| Convert.InterchangeableIsExact | src/analysis/convert.rs:45-61 | Exactly which links could be passed for all source values: the walk's test, plus links below a wider result that leave the pattern alone |
| Convert.TooLongIsCyclic | src/analysis/convert.rs:198-206 | The step bound refuses no acyclic chain: more links than variables means a variable was met twice |
| Convert.FullIsNotCyclic | src/analysis/convert.rs:153-207 | A chain that comes to an end meets no variable twice, and one that does never ends |
| Convert.CollapseIsUnique | src/analysis/convert.rs:120-220 | The specification has one answer |
| Convert.ChainKeepsValue | src/analysis/convert.rs:153-207 | Converting from where a chain leads computes what converting its start does |
| Address.NormalizeKeepsValue | src/analysis/address.rs:112-233 | The normalized form denotes the address modulo two to the pointer width, in every function whose conversions produce at least that width from operands that wide or zero-extended, and whose constant shifts are below it |
| Address.ConversionFitsIff | src/analysis/address.rs:134-141 | Reading through a conversion is right for every operand exactly when the result is as wide as a pointer and the operand is too or is zero-extended |
| Address.FitsAtIff | src/analysis/address.rs:134-141 | What the theorem excludes: exactly the conversions that change some operand at pointer width, and the shifts by a constant from that width to 63 |
| Address.NarrowingMisleads | src/analysis/address.rs:134-141 | A narrowing conversion is read through all the same, and the form no longer denotes the value |
| Address.WideShiftMisleads | src/analysis/address.rs:269-272 | A shift by a constant from the pointer width to 63 is read as a stride all the same, and the form no longer denotes the value |
| Address.NormalizeIsCanonical | src/analysis/address.rs:59-66 | Every produced offset is whole bytes and inside the signed pointer range |
| Address.CanonicalOffset | src/analysis/address.rs:59-66 | Reducing an offset keeps its low bits, and the saturating arithmetic never saturates |
| Address.DisplacementsAgree | src/analysis/address.rs:39-58 | Sign-extended and zero-extended forms of one displacement fold to one offset |
| Address.LoweringsAgree | src/analysis/address.rs:144-156 | One pointer addition and the same address shredded into a multiply or shift and two additions, the operands in any order, normalize to one expression |
| Address.PtrAddKeeps | src/analysis/address.rs:147-174 | The pointer-addition case, bail-outs included |
| Address.AddKeeps | src/analysis/address.rs:191-235 | The addition case: folded constants on either side, scaled indexes on either side |
| Address.ScaledIndexKeeps | src/analysis/address.rs:259-276 | A multiply, or a shift by a constant below the pointer width, is its index times its stride |
| Address.BaseComesFirst | src/analysis/address.rs:123-183 | The base is no later than the value in definition order |
| Address.NormalizeStopsIff | src/analysis/address.rs:123-257 | Normalization takes a value as its own base exactly when depth is spent, no address operation computes it, a displacement overflows, or there would be two index terms |
| Aliasing.NoAliasIsDisjoint | src/analysis/memory.rs:396-490 | Accesses in one space that are said not to alias share no bit at any valuation, wherever the address space wraps |
| Aliasing.MayAliasIsExact | src/analysis/memory.rs:473-490 | Comparable accesses inside the space are said to alias exactly when they share a bit |
| Aliasing.MayAliasCases | src/analysis/memory.rs:456-490 | The answer in every case, from the fields: no across address spaces; yes for accesses that cannot be compared, of unknown size, or running past what can be; otherwise whether the runs of bits overlap |
| Aliasing.CrossesIff | src/analysis/memory.rs:402-419 | An access crosses the boundary exactly when its size is known, the address space is narrower than 64 bits and its end lies beyond half of it |
| Aliasing.MustAliasCases | src/analysis/memory.rs:443-454 | One cell exactly when everything but the width of the space agrees and the size is known |
| Aliasing.MustAliasIsSameCell | src/analysis/memory.rs:443-454 | Accesses said to be one cell touch the same bits |
| Aliasing.MustAliasMayAlias | src/analysis/memory.rs:422-454 | One cell may alias itself unless it is empty and inside the space |
| Aliasing.EqualityIsMustAlias | src/analysis/memory.rs:341-349 | Locations of known width are equal exactly when they must alias |
| Aliasing.MaxBitsIsExact | src/analysis/memory.rs:402-419 | The boundary test is off from 64 bits on, because the boundary overflows |
| Aliasing.LocateKeepsBits | src/analysis/memory.rs:1136-1154 | The decoded location touches the bits the pointer's value names |
| Aliasing.SeparateAccesses | src/analysis/memory.rs:396-490 | Two accesses of a function that are said not to alias touch disjoint memory at every valuation that obeys the definitions |
| Aliasing.SameAccess | src/analysis/memory.rs:443-454 | Two accesses said to be one cell start at one address |
| Aliasing.UncanonicalOffsetsMislead | src/analysis/memory.rs:473-490 | Outside the canonical range the disjointness test is wrong |
| Aliasing.SelfReferenceMisleads | src/analysis/address.rs:147-174 | In a cyclic definition chain normalization drops the index and the form no longer denotes the value |
| Range.NormalizeUnion | src/analysis/range.rs:645-678 | Keeps the set of values and yields proper intervals, ascending, separated by gaps |
| Range.SeparatedIsCanonical | src/analysis/range.rs:645-678 | Such a list is determined by its values |
| Range.RangeIsCanonical | src/analysis/range.rs:74-91 | Well-formed ranges with the same values are equal, but for the two spellings of all values |
| Range.MergeStep | src/analysis/range.rs:662-671 | One merge step keeps the covered values and the gaps |
| Range.UnionOf | src/analysis/range.rs:619-642 | Exactly the values of the two ranges |
| Range.Meet | src/analysis/range.rs:825-857 | Exactly the common values |
| Range.Join | src/analysis/range.rs:865-890 | All values of both; the smallest interval around two intervals, and nothing more otherwise |
| Range.ArithmeticContains | src/analysis/range.rs:934-984 | Every sum, difference and product of values is in the result, unions taken by their hulls |
| Range.AddIsExact | src/analysis/range.rs:440-456 | Without overflow every value of a sum of intervals is a sum |
| Range.MulContains | src/analysis/range.rs:479-509 | Every product lies between the corner products |
| Range.MulIsTight | src/analysis/range.rs:479-509 | The corner products are products |
| Range.AddBoundsAreExact | src/analysis/range.rs:438-456 | A sum has a lower bound exactly when there is a least sum of values and it fits 64 bits, and that is the bound; likewise above |
| Range.SubBoundsAreExact | src/analysis/range.rs:458-475 | The same for differences |
| Range.MulBoundsAreExact | src/analysis/range.rs:477-508 | A product of finite intervals none of whose products overflows is bounded by the least and the greatest product; every other product is unbounded |
| Range.ArithmeticCases | src/analysis/range.rs:966-983 | No values on either side give none, all values on one side give all, and everything else is computed on the hulls |
| Range.HullIsSmallest | src/analysis/range.rs:913-930 | The hull is the smallest interval around a range |
| Range.HullContains | src/analysis/range.rs:915-931 | The hull holds the values of the range |
| Range.WidenCovers | src/analysis/range.rs:896-911 | Widening keeps the first argument and covers the second exactly when it brings no new infinite bound |
| Range.WidenBoundsAreExact | src/analysis/range.rs:422-437 | A bound is given up exactly when the second argument has values beyond it and is not unbounded on that side; otherwise the first argument's bound is kept |
| Range.WidenCases | src/analysis/range.rs:892-911 | Widening with no values changes nothing, and all values stay all values |
| Range.WidenIsStable | src/analysis/range.rs:421-437 | Widening by covered values changes nothing |
| Range.WideningSettles | src/analysis/range.rs:892-911 | Any widening sequence changes at most five times |
| Csr.PrefixSum | src/analysis/defuse.rs:366-375 | The running sum turns row counts into row starts |
| Csr.CsrPush | src/analysis/defuse.rs:241-248 | Appends at a row's cursor and touches nothing else |
| Csr.SlotOfNext | src/analysis/defuse.rs:235-248 | The next slot of a row lies inside the values and clear of every other row |
| Csr.PushScatters | src/analysis/defuse.rs:241-248 | One push scatters one more item |
| Csr.ScatterEnds | src/analysis/defuse.rs:412-428 | Every row ends where the next starts, and the table holds the naive rows |
| Csr.CsrRowIsRow | src/analysis/cfg.rs:200-213 | A row lookup returns the naive row, or nothing out of range |
| SsaCfg.FromSsa | src/analysis/cfg.rs:125-197 | Successor rows are the kept transfers in order; the predecessor table is the count, prefix-sum and scatter of their inverse |
| SsaCfg.BuildPredecessors | src/analysis/cfg.rs:157-188 | The three passes build the table of edges keyed by target |
| SsaCfg.DirectionsAreInverse | src/analysis/cfg.rs:248-309 | Successor rows are the in-range transfers in order; the directions are exact inverses with multiplicity, predecessor rows ascend, and the distinct view lists each predecessor once, ascending |
| SsaCfg.KeptInOrder | src/analysis/cfg.rs:133-150 | A successor row is the terminator's in-range targets in the terminator's order |
| SsaCfg.PredecessorsInRange | src/analysis/cfg.rs:136-144 | Transfers out of the function leave no edge |
| DefUse.Build | src/analysis/defuse.rs:319-525 | The index is the naive one: use sites per variable, uses and definitions per location, unused variables |
| DefUse.BuildTable | src/analysis/defuse.rs:397-428 | Counting and filling over one visit gives the table of its rows |
| DefUse.BuildLocationUses | src/analysis/defuse.rs:333-493 | Bulk counts and item-wise pushes over phis and instructions agree, so no row overruns |
| DefUse.BuildLocationDefs | src/analysis/defuse.rs:333-493 | The same for definitions |
| DefUse.UsesOfIsFilter | src/analysis/defuse.rs:273-279 | A variable's use sites are its occurrences in visit order |
| DefUse.UsesOfIsExact | src/analysis/defuse.rs:241-270 | The use sites of a variable, from the blocks: a phi's site as often as the variable is among its operands, an instruction's as often as it is among its uses, no others, by block, phis before instructions, and index; an answer exactly up to the largest registered id and the number of ids |
| DefUse.UsesAtIsNaive | src/analysis/defuse.rs:778-799 | Uses at a location are the phi's operands, then the instruction's uses; definitions are the instruction's |
| DefUse.UnusedIsExact | src/analysis/defuse.rs:495-507 | A registered variable is unused exactly when it occurs nowhere |
| DefUse.RowsApart | src/analysis/defuse.rs:281-288 | Different locations have different rows |
| Liveness.ComputeLiveInBlocks | src/analysis/liveness.rs:57-127 | A block is live-in exactly when a path leads to a use with no block before the last defining the group; groups without uses or without definitions have no entry |
| Liveness.LiveBlocks | src/analysis/liveness.rs:77-123 | The backward worklist for one group computes exactly those blocks |
| Liveness.Predecessors | src/analysis/liveness.rs:65-73 | The predecessor lists hold the source of every edge, in order, once per edge |
| Liveness.ClosedHoldsLive | src/analysis/liveness.rs:105-121 | A set closed under the worklist's rule holds every live block |
| Phis.PlacePrunedPhis | src/analysis/phis.rs:454-533 | Each block keeps its phis and gains, ascending, one for each group placed there; placements are in order of group and block, once each, and are exactly those the inputs ask for |
| Phis.FindPhiBlocks | src/analysis/phis.rs:475-507 | The worklist computes the least set closed under frontier and leave-target steps from the definitions |
| Phis.PlacementIsExact | src/analysis/phis.rs:454-533 | A phi is placed for exactly the selected groups with definitions and the blocks in every set that holds all reachable in-range blocks one frontier or leave step from a definition or a member, pruned to live-in blocks if the group has liveness data and not otherwise |
| Phis.UnprunedWithoutLiveness | src/analysis/phis.rs:505-519 | A selected group without liveness data gets all its phi blocks |
| Phis.PlacedInRange | src/analysis/phis.rs:474-501 | Nothing is placed out of range, at an unreachable block, or where no step leads |
| Phis.PrunedByPaths | src/analysis/phis.rs:509-529 | With computed liveness, pruning keeps exactly the blocks from which an undefined path leads to a use |
| Evaluator.SsaEvaluator.Rollback | src/analysis/evaluator.rs:603-649 | Unwinds the journal to the mark's length and restores tracked memory and path |
| Evaluator.SsaEvaluator.Checkpoint | src/analysis/evaluator.rs:588-595 | Turns journaling on and marks the journal's length |
| Evaluator.SsaEvaluator.PutValue | src/analysis/evaluator.rs:655-661 | Writes one slot and records what it held |
| Evaluator.SsaEvaluator.DropValue | src/analysis/evaluator.rs:664-670 | Clears one slot and records what it held |
| Evaluator.SsaEvaluator.PutLocal | src/analysis/evaluator.rs:673-679 | The same for a local slot |
| Evaluator.SsaEvaluator.PutArg | src/analysis/evaluator.rs:682-688 | The same for an argument slot |
| Evaluator.SsaEvaluator.SetPredecessor | src/analysis/evaluator.rs:1174-1179 | The same for the predecessor |
| Evaluator.SsaEvaluator.ClearConstraints | src/analysis/evaluator.rs:854-860 | The same for a constraint list |
| Evaluator.SsaEvaluator.Set | src/analysis/evaluator.rs:724-727 | A value and the slot its origin names, and nothing else |
| Evaluator.SsaEvaluator.AddConstraint | src/analysis/evaluator.rs:826-839 | The variable's list grows by the constraint; an equality gives the variable and its origin's slot the value; nothing else changes |
| Evaluator.SsaEvaluator.Clear | src/analysis/evaluator.rs:800-818 | Empties values, constraints and predecessor; the entries recorded in one batch are those of the single writes |
| Evaluator.SsaEvaluator.EvaluatePhis | src/analysis/evaluator.rs:1208-1241 | Every phi takes the value that its first operand from the predecessor had before, or none; the last phi of a variable counts, values reach the slots of their origins, and nothing else changes |
| Evaluator.SsaEvaluator.LoadField | src/analysis/evaluator.rs:1899-1945 | Loads from tracked memory, and the one case that writes past the journal |
| Evaluator.SsaEvaluator.LoadLocalAddr | src/analysis/evaluator.rs:1970-1976 | Drops the result through the journal and the local slot past it |
| Evaluator.SsaEvaluator.LoadArgAddr | src/analysis/evaluator.rs:1977-1983 | The same for an argument slot |
| Evaluator.UnwindRestores | src/analysis/evaluator.rs:603-649 | Unwinding all that was written since restores the state exactly |
| Evaluator.UnwindToMiddle | src/analysis/evaluator.rs:603-649 | Unwinding part of a run leaves the state part-way |
| Evaluator.UnwindTwice | src/analysis/evaluator.rs:572-581 | Going back in two stages is going back in one: an outer rollback subsumes inner ones |
| Evaluator.RawWriteUnwound | src/analysis/evaluator.rs:1909-1910 | A write past the journal survives unwinding just when no entry covers its slot |
| Evaluator.UnwindSlot | src/analysis/evaluator.rs:603-643 | Unwinding leaves in every slot what its oldest entry past the mark records, and leaves the other slots alone |
| Evaluator.UnwindIsIdleIff | src/analysis/evaluator.rs:600-602 | Unwinding any journal to any length changes nothing exactly when every slot with an entry past it holds what the oldest such entry records |
| Evaluator.MixedUnwound | src/analysis/evaluator.rs:603-649 | Rolling back journaled and raw writes in any mix leaves every slot with what it held at its first journaled write, or in the end if it had none |
| Evaluator.BypassesAreUndoneIff | src/analysis/evaluator.rs:1970-1983 | A rollback undoes a run of journaled and raw writes, in any mix, exactly when every slot written raw held, at its first journaled write or in the end if it had none, what it held at the checkpoint |
| Evaluator.BypassesMayCancel | src/analysis/evaluator.rs:1939-1940 | Two loads past the journal can cancel out although the first alone is not undone |
| Evaluator.PhisAreSimultaneous | src/analysis/evaluator.rs:1193-1208 | All phis read the state before any of them writes, each its first operand from the predecessor, so they can swap |
| Evaluator.SetTakes | src/analysis/evaluator.rs:2081-2093 | A value that a variable takes reaches the local or argument slot its origin names, and no other slot |
| Evaluator.ConstraintTakes | src/analysis/evaluator.rs:826-839 | What a constraint leaves in every slot |
| Evaluator.ResultsLand | src/analysis/evaluator.rs:1231-1240 | Results written one after the other leave each variable its last one, and each local or argument slot the last value of a variable it is the origin of |
| Evaluator.ClearEntries | src/analysis/evaluator.rs:801-814 | The batch recorded by a clear is what single writes would record |
| Speculation.ReleaseRestores | src/analysis/evaluator.rs:553-649 | Over any run of actions with nested checkpoints, releasing a mark brings back exactly the evaluator that took it, memory and path included; writes past the journal may be among them if each does nothing or comes behind an entry for its slot |
| Speculation.ReleaseRestoresIff | src/analysis/evaluator.rs:553-649 | With any writes past the journal in the run, the release brings the evaluator back exactly when each slot's oldest entry since the mark records what the slot held then and each slot without an entry holds it still |
| Speculation.RunUndoable | src/analysis/evaluator.rs:553-649 | Every action of such a run keeps the earlier state recoverable from the journal |
| Speculation.ReleasedTwice | src/analysis/evaluator.rs:600-602 | A second rollback of a mark with nothing recorded since changes nothing |
| Speculation.RollbackIsIdleIff | src/analysis/evaluator.rs:600-602 | For any evaluator and any mark, stale or not: a rollback changes nothing exactly when every slot with an entry past the mark's length holds what the oldest such entry records, and the mark keeps no memory and path or the current ones |
| Speculation.StaleMarkUndoesLater | src/analysis/evaluator.rs:600-602 | A mark that was already undone takes back a value written since |
| Speculation.StaleInnerMarkTearsRun | src/analysis/evaluator.rs:600-602 | An inner mark used after its outer one takes back only the newest of the later writes, and changes nothing exactly when their slots held the same before them |
| Speculation.StaleMarkRevivesPath | src/analysis/evaluator.rs:600-602 | With tracking on, a stale mark changes the path even with nothing recorded since |
| BitSet.BitSet.New | src/bitset.rs:76-82 | An empty set of the given capacity |
| BitSet.BitSet.Lazy | src/bitset.rs:113-118 | The same set, without words |
| BitSet.BitSet.Full | src/bitset.rs:154-169 | All indices below the capacity |
| BitSet.BitSet.EnsureCapacity | src/bitset.rs:127-139 | Grows the capacity and keeps the members |
| BitSet.BitSet.Materialize | src/bitset.rs:146-150 | Allocates words without changing the set |
| BitSet.BitSet.Insert | src/bitset.rs:190-202 | Adds one member and tells whether it is new |
| BitSet.BitSet.InsertChecked | src/bitset.rs:250-252 | The same, ignoring an index out of range |
| BitSet.BitSet.Remove | src/bitset.rs:209-217 | Removes one member |
| BitSet.BitSet.Contains | src/bitset.rs:224-231 | Membership |
| BitSet.BitSet.ContainsChecked | src/bitset.rs:241-243 | Membership, false out of range |
| BitSet.BitSet.Count | src/bitset.rs:256-258 | The cardinality |
| BitSet.BitSet.IsFull | src/bitset.rs:266-284 | Whether all indices below the capacity are members |
| BitSet.BitSet.IsEmpty | src/bitset.rs:179-181 | Whether there is no member |
| BitSet.BitSet.Clear | src/bitset.rs:287-289 | Removes all members |
| BitSet.BitSet.Fill | src/bitset.rs:292-301 | Adds all indices below the capacity |
| BitSet.BitSet.Equals | src/bitset.rs:50-60 | Same capacity and same members, whatever the representations |
| BitSet.BitSet.UnionWith | src/bitset.rs:306-321 | The union; the flag tells exactly whether the set changed |
| BitSet.BitSet.IntersectWith | src/bitset.rs:326-342 | The intersection; the flag is exact |
| BitSet.BitSet.DifferenceWith | src/bitset.rs:348-357 | The difference; the flag is exact |
| BitSet.BitSetIter.Next | src/bitset.rs:394-423 | The smallest member not passed yet, if any is left |
| BitSet.Listed | src/bitset.rs:360-366 | The iterator lists exactly the members, ascending |
| BitSet.SameContents | src/bitset.rs:50-60 | Representations agree on every word that counts exactly when they hold the same members |
| BitSet.CountIsSize | src/bitset.rs:256-258 | The sum of the words' set bits is the number of members |
| BitSet.MaskNumber | src/bitset.rs:154-169 | The masks are the numbers the program computes by shifting and subtracting one |
| BitSet.FullWordsMembers | src/bitset.rs:154-169 | Full words with the excess masked hold exactly the indices below the capacity |
| MemorySsa.MemorySsa.PushFresh | src/analysis/memory.rs:1468-1483 | Allocates, records and pushes one version |
| MemorySsa.MemorySsa.FillOperandsOf | src/analysis/memory.rs:1494-1503 | The operands for one successor |
| MemorySsa.MemorySsa.PushChildren | src/analysis/memory.rs:1312-1316 | Queues every child not renamed yet, leaving the pending steps right |
| Loops.RecordBackEdge | src/analysis/loops.rs:676-689 | One back edge extends its header's latch list and body, or starts a loop |
| Loops.CollectLoops | src/analysis/loops.rs:699-700 | The loops of the map as a list, each once, in any order |
| Loops.FindParents | src/analysis/loops.rs:900-923 | Every loop's parent |
| Loops.SortSorts | src/analysis/loops.rs:703-704 | Sorting by header puts loops with distinct headers in ascending order |
| Loops.SortPermutes | src/analysis/loops.rs:703-704 | Sorting by header loses and adds nothing |
| Loops.FillForest | src/analysis/loops.rs:706-709 | Adding the loops one by one gives a valid forest of them |
| Exceptions.AddCandidates | src/analysis/exceptions.rs:158-175 | The parts of one clause become roots unless out of range or already named |
| Exceptions.FillWaiting | src/analysis/exceptions.rs:347-362 | The roots that wait for each guard |
| Exceptions.ExpandSuccessors | src/analysis/exceptions.rs:375-380 | A block's terminator successors join the traversal |
| Range.SortByMin | src/analysis/range.rs:653-659 | A permutation in the order of lower bounds |
| Range.MeetEach | src/analysis/range.rs:841-843 | The intersections of the intervals with one interval |
| Csr.Tally | src/analysis/defuse.rs:401-411 | Adds to one row's staged count |
| Csr.TallyCounts | src/analysis/defuse.rs:401-411 | Tallying an item's key counts the item |
| SsaCfg.BuildSuccessors | src/analysis/cfg.rs:132-155 | Offsets and values of the kept transfers, block by block |
| SsaCfg.CountPredecessors | src/analysis/cfg.rs:161-169 | Counts each block's incoming edges |
| SsaCfg.ScatterPredecessors | src/analysis/cfg.rs:176-188 | Scatters every edge's source into its target's row |
| DefUse.RowBases | src/analysis/defuse.rs:323-330 | The first location row of every block |
| DefUse.CountItems | src/analysis/defuse.rs:400-411 | Counts one visit |
| DefUse.ScatterItems | src/analysis/defuse.rs:420-428 | Scatters one visit |
| DefUse.TallyLists | src/analysis/defuse.rs:338-365 | Counts one block's lists in bulk |
| DefUse.PushLists | src/analysis/defuse.rs:463-491 | Pushes one block's lists item by item |
| DefUse.UnusedVariables | src/analysis/defuse.rs:495-507 | The registered variables with an empty row |
| Liveness.Propagate | src/analysis/liveness.rs:106-121 | One popped block passes liveness to its predecessors without a definition |
| Phis.ExpandBlock | src/analysis/phis.rs:479-507 | One popped block takes its frontier and leave steps |
| Phis.TakeStep | src/analysis/phis.rs:488-493 | One step admits a reachable in-range block once |
| Phis.PlaceGroup | src/analysis/phis.rs:509-529 | One group's phis, ascending, where it is live |
| Evaluator.SsaEvaluator.TrackOriginState | src/analysis/evaluator.rs:2081-2093 | Mirrors a value into the slot its variable's origin names |
| Evaluator.SsaEvaluator.ReadPhis | src/analysis/evaluator.rs:1213-1229 | What every phi selects, read before any write |
| Evaluator.SsaEvaluator.WriteResults | src/analysis/evaluator.rs:1231-1240 | Writes all results, dropping those without a value |
| Evaluator.SsaEvaluator.EnterBlock | src/analysis/evaluator.rs:1247-1251 | Extends the path if it is tracked |
| Evaluator.SsaEvaluator.StoreField | src/analysis/evaluator.rs:1918-1925 | Stores to tracked memory |
| Evaluator.SsaEvaluator.constructor | src/analysis/evaluator.rs:446-466 | An evaluator with nothing known and journaling off |

## Left out

- MemorySsa.MemorySsa.AllocateVersion: version counters are unbounded, while the program saturates at the largest 32-bit number and would then hand one out twice.
- MemorySsa.Build: memory operations and their locations are inputs; classifying instructions, the cap on the number of cells and the statistics are not modelled, and aliasing between locations is a given symmetric relation.
- Loops.DetectLoops: preheaders, exits, loop types and induction variables are not modelled.
- Exceptions.Of: preservation roots, which no traversal here reads, are not modelled.
- EhDominance.QueriesAreOrdered: the dominator trees and the frontier rows the queries are answered from are dominance itself, as `Graph` defines it.
- Convert.CollapseKeepsValue: assumes that a converted variable has the type it was converted to, as the source file states.
- Address.NormalizeKeepsValue: assumes that address operations compute at pointer width, and that operands are defined before their uses; outside `Fits` the form need not denote the value, as the two counterexamples show.
- Aliasing.NoAliasIsDisjoint: different address spaces are disjoint by construction and are not compared.
- Range.WidenCovers: membership is over all integers, so an infinite bound is below or above every 64-bit value; bit masks and comparisons of ranges are not modelled.
- DefUse.Build: definition sites, the per-block definition lists, phi definitions and the variant that stores operations are not modelled; totals are below the 32-bit limit.
- SsaCfg.FromSsa: edge totals are below the 32-bit limit.
- Phis.PlacePrunedPhis: a leave target depends on the block alone, not on phis already placed.
- Evaluator.SsaEvaluator.LoadField: memory is keyed by static and instance fields, for which must-alias is equality; evaluation of operations, comparisons, branch constraints and tracing is not modelled.
- BitSet.BitSet.EnsureCapacity: hashing and formatting are not modelled; word indices do not overflow.
- Dominator-tree and frontier construction, the passes, scheduling, symbolic and taint analyses, the verifier and points-to extraction from instructions are not modelled.
- Constant folding and the value taxonomy beyond the operation shapes above would add single-case facts.
- Performance, logging, serialization and threads are not modelled.
