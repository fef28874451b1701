# Verified models of zlang's crossing, compiler passes and tools

zlang compiles hardware descriptions to SystemVerilog. This project models, in Dafny, the parts of
it whose correctness is hardest to see from the code, and proves what they are for.

**The asynchronous FIFO crossing.** Two clock domains exchange words through a memory, Gray-coded
pointers, two-stage synchronisers, a registered full flag and one prefetched word. The controller's
equations (`Controller`), the expression language they are written in (`FifoLogic`) and the register
updates the emitter and the simulator give them (`AsyncFifo`) form a transition system with arbitrary
interleavings of source edges, destination edges and edges of both clocks at once. A first
synchroniser stage may catch a moving pointer *torn*: each bit as it was or as it will be. The main
result, `FifoRuns.CrossingRefinesQueue`, says that every run from joint reset is a run of a queue of
`2^(w-1)` words, for every pointer width `w >= 3` and every payload type. `FifoProgress` bounds
latency, returned capacity, throughput and draining; `FifoResets` says exactly when a reset of one domain
alone is harmless, with runs built in `FifoHazards`; `FifoMachine` is the same machine as a class whose
registers and memory change in place, tied to the transition system edge by edge and run by run.
`FifoPlan` says which plans are built and which are accepted, and `FifoLayout` that their register list is that of the machine.

**The printer of the same equations.** `SvSyntax` prints an expression to tokens as the renderer does,
dropping the same parentheses, and parses tokens under SystemVerilog's precedence. `SvSemantics`
evaluates the parsed tree under the bit-length rules of section 11.6 of IEEE 1800-2017, and proves the
value to be the interpreter's. `RenderedController` applies both to the twelve equations.

**Import cycles.** `StronglyConnected` is Tarjan's algorithm with its mutable indices, lowlinks and
stack, recursive visit and pop loop. `ImportCycles.FindCycles` reports exactly the strongly connected
components of more than one node.

**Inlining of local bindings.** `Inliner` rewrites a shared expression graph with two memo tables. Its
result is the plain substitution (`LocalInlining.Expand`), which preserves meaning and exists for all bindings
without a cycle of references (`LocalRanking`); it rebuilds every
record at most once; the recursion ends because of a lexicographic measure (level of a node in the
order of the locals, then height). `ModuleInlining` carries this through the module hierarchy.

**The compilation session.** `CompilationSession` demands products, remembers values and failures and
detects cycles. `ProductGraph` says, without any notion of history, what a table of products and
builders denotes, `Dependencies` when that is well-founded; `SessionTheorems` concludes that histories do not
matter.

**Smaller stateful algorithms.** The memoised size of an unfolded expression graph (`ExpandedSize`), the
rewrite of one expression object by identity (`ExactRewrite`), selection of an implementation candidate
(`Selection`, `SelectionTheorems`), and nested timing (`Timeline`).

## Findings

- When a reset port is active-low, the printed assignments of source ready, destination valid and
  prefetch contain `!!rst_n`. In the grammar of annex A.8.3 of IEEE 1800-2017 a unary operator is
  followed by a primary, so this text has no derivation, although common tools accept it and give it the
  intended meaning. `SvSyntax.PrintedTextReadsBack` states the exact condition for any expression and
  `RenderedController.StrictlyRefused` for the controller.
- The interpreter cuts every node to its width and the rendered text does not.
  `RenderedController.WidthsMatter` gives an expression on which they differ, a one-bit sum compared
  with a two-bit constant; `SvSemantics.AssignmentMeansEvaluate` shows that they agree on every
  width-consistent expression, and `RenderedController.EquationsConsistent` that the controller has no
  other kind.
- Resets have to be coordinated, as `docs/hierarchy-protocols.md` demands. `FifoResets` gives the exact
  conditions, at the ports and over all later runs, under which an edge that resets one domain and not the other
  does no harm in use: on the destination side the read pointer stands at zero; on the source side the write
  pointer stands at zero and there is room for three more words, which are accepted before a real read pointer
  is seen again. Otherwise some run delivers more words than were sent or accepts more than there is room for
  (`FifoResets.Damaged`).
- The order in which candidates are listed can change the selection exactly when two different ones are both
  best, which takes two candidates of one identity (`SelectionTheorems.OrderMattersExactlyOnTies`).
- A negative constant, or a constant or sum of width zero, is printed as text that is no SystemVerilog
  expression, such as `3'd-5`. `SvSyntax.PrintedTextReadsBack` includes this in its condition; the controller
  has no such expression.
- Inlining locals can allocate more objects than it copies: a tuple that is a field is rebuilt for every record
  that holds it, because only tuples walked on their own go through the memo. A run on two records that share a
  tuple shows it (`ModuleInlining.SharedTupleCopied`); it happens exactly when a tuple is in more than one place
  (`ModuleInlining.InlineRoots`, `Inliner.OnePlace`). Records are never copied twice.
- The search for import cycles does not report a module that imports itself only
  (`ImportCycles.OnCycleReported`).

## Conventions

Modules import one another by name; `dfyconfig.toml` lists them all. Gray codes and exclusive or are
functions on natural numbers with explicit widths (`Bits`), and a width's modulus is `Pow2`. Counters
turn over by `Modular.Wrap`, which is the remainder (`Modular.WrapIsMod`). Expression
objects are references of class `Node` with constant fields; two objects are the same only if they are
the same reference. The ghost field `height` and the ghost maps of ranks and levels are evidence that a
graph has no cycles. Sampled registers are those before the edge, also where both clocks have one.

## Model

| member | source | states |
|---|---|---|
| `Bits.GrayInjective` | zlang/async_fifo.py:68-69 | numbers have equal Gray codes if and only if they are equal |
| `Bits.GrayHalfTurn` | zlang/async_fifo.py:150-154 | for every width, inverting the two top bits of a Gray code is moving the number it encodes by half the range, and nothing else is |
| `Bits.GrayNeighbours` | zlang/async_fifo.py:186-211 | successive pointer values, the wrap included, differ in exactly one Gray bit |
| `Bits.TornSample` | zlang/backend/systemverilog/cdc.py:285-295 | a sample that takes each bit from one of two values at distance at most one is one of these values |
| `FifoLogic.EvaluateSucceeds` | zlang/async_fifo.py:47-72 | evaluation fails if and only if an operation is unknown or a name read has no value |
| `FifoLogic.RunEquations` | zlang/async_fifo.py:122-126 | the loop that updates the value table computes the fold of the equations, errors included |
| `FifoLogic.SequentialIsConcurrent` | zlang/async_fifo.py:122-133 | for a list that defines each name once from inputs and earlier names, the loop's result is the one and only environment that satisfies all equations at once |
| `Controller.BuildOrdered` | zlang/async_fifo.py:155-255 | the built equations form such a list, for every pointer width |
| `Controller.InputsSettle` | zlang/async_fifo.py:122-126 | on sampled inputs the equations settle, and what they settle to solves them all |
| `Controller.ControllerMeaning` | zlang/async_fifo.py:157-255 | what ready, valid, push, pop, next pointers, prefetch and next full are in terms of the samples |
| `Controller.PrefetchOutput` | zlang/async_fifo.py:226-241 | in any environment that satisfies the equations, a fetch happens when the slot is empty or being emptied and an unread word is visible |
| `Controller.FullOutput` | zlang/async_fifo.py:242-254 | in any environment that satisfies the equations, the next full flag is the Gray comparison against the inverted synchronised pointer |
| `FifoPlan.PowerOfTwoTest` | zlang/async_fifo.py:284-292 | the bit trick on a depth and its predecessor accepts exactly the powers of two |
| `FifoPlan.PlanAccepts` | zlang/async_fifo.py:346-467 | a plan is built if and only if the connection has a depth that is a power of two from four on, both ends have known clocks in different domains and one bit-packable payload; the plan then has that depth, these domains, as many cells as the depth and the equations for its pointer width |
| `FifoPlan.ValidatedIsBuilt` | zlang/async_fifo.py:283-343 | validation accepts exactly the plans that the builder makes, up to the port signals no check looks at |
| `FifoLayout.RegisterKeeps` | zlang/async_fifo.py:326-337 | in every built plan, a declared register keeps its value at every instant without an edge of its declared domain |
| `FifoLayout.RegisterChanges` | zlang/async_fifo.py:326-337 | and an edge of that domain alone can change it |
| `FifoLayout.RegisterFits` | zlang/async_fifo.py:326-337 | no register ever holds more than its declared width has room for |
| `FifoLayout.WidthNeeded` | zlang/async_fifo.py:326-337 | each can hold as much as its declared width has room for, so no smaller width would do |
| `FifoLayout.RegistersAreState` | zlang/async_fifo.py:326-337 | two states that agree on all declared registers, the cells and the registered read are the same |
| `FifoLayout.RegistersDistinct` | zlang/async_fifo.py:338-343 | ten registers are declared, each once, under an identity of its own |
| `FifoLayout.PortsKeep` | zlang/async_fifo.py:412-430 | the cells change only with the clock of the writing port, the registered read only with that of the reading port |
| `AsyncFifo.StepTicks` | zlang/backend/systemverilog/cdc.py:333-370 | one instant of the crossing, read off the controller's equations, moves the registers, the cells and the registered read of each domain as described without any equation |
| `AsyncFifo.StepSized` | zlang/async_fifo.py:326-337 | every register keeps within its declared width from any state |
| `FifoMachine.Crossing.Edge` | zlang/simulation_cdc.py:288-410 | the machine that updates registers and memory in place makes exactly the step of the transition system, and reports exactly its transfers |
| `FifoMachine.Crossing.RunAll` | zlang/simulation_cdc.py:288-410 | over any sequence of instants the machine goes through the run of the transition system and notes its transfers |
| `FifoMachine.Crossing.RunFromReset` | zlang/async_fifo.py:157-255 | from joint reset, the words the machine accepts and delivers are those of a queue of the depth |
| `FifoMachine.Crossing.Settle` | zlang/simulation_cdc.py:327-338 | the equations run on the current registers give the wires the step uses |
| `FifoMachine.Crossing.SourceEdge` | zlang/backend/systemverilog/cdc.py:340-354 | the source registers and the memory after a source edge, reset included |
| `FifoMachine.Crossing.DestinationEdge` | zlang/backend/systemverilog/cdc.py:355-370 | the destination registers and the registered read after a destination edge, reset included |
| `FifoSafety.FullTestExact` | zlang/async_fifo.py:242-254 | while a count leads another by at most the depth, the Gray full test on their pointers holds if and only if it leads by the depth |
| `FifoSafety.GrayPointerInjective` | zlang/async_fifo.py:212-225 | pointers of counts less than a turn apart are equal if and only if the counts are |
| `FifoSafety.CaughtPointer` | zlang/async_fifo.py:326-337 | a torn sample of a pointer that moves by at most one is a pointer the other side really had |
| `FifoSafety.CellsKept` | zlang/async_fifo.py:395-434 | an accepted word never overwrites one that has not been delivered |
| `FifoSafety.FetchIsSafe` | zlang/async_fifo.py:412-430 | a fetch reads a cell already written and visible through the synchroniser, and never the cell written at the same instant |
| `FifoSafety.CaughtHolds` | zlang/backend/systemverilog/cdc.py:285-295 | from any reachable state the synchronisers catch only pointers that are or become real, torn samples included |
| `FifoSafety.TickKeepsInv` | zlang/async_fifo.py:157-255 | the invariant that ties all registers, cells and stale pointers to the history is kept by every instant with any edges |
| `FifoRuns.RunRefines` | zlang/async_fifo.py:157-255 | from any reachable point every legal run keeps the invariant and is a run of the bounded queue holding the words in flight |
| `FifoRuns.CrossingRefinesQueue` | zlang/async_fifo.py:157-255 | from joint reset, under every interleaving, handshake pattern, order of release and torn sample: delivered words are a prefix of accepted words and accepted minus delivered never exceeds the depth |
| `FifoRuns.ResetEpisodeClears` | docs/hierarchy-protocols.md:450-452 | with both resets held, one edge of each clock brings every register to its initial value from any state |
| `FifoRuns.ResetThenRefines` | docs/hierarchy-protocols.md:450-452 | from any state at power-up, a joint reset episode followed by any coordinated run is a run of the bounded queue |
| `FifoProgress.HeadShowsWithinThreeEdges` | zlang/async_fifo.py:212-241 | with a word in flight, after three destination edges a word is on the output or has been delivered |
| `FifoProgress.RoomShowsWithinThreeEdges` | zlang/async_fifo.py:158-165 | with a free slot, after three source edges the full flag is down or a word has been accepted |
| `FifoProgress.StreamsWithoutBubbles` | docs/hierarchy-protocols.md:458-459 | while the destination is ready and a word is on the output, words already synchronised are delivered one at every destination edge |
| `FifoProgress.DrainsWhenReady` | docs/hierarchy-protocols.md:454-459 | while the destination is ready, all words in flight, synchronised or not, are delivered in order: one per destination edge after the first three |
| `FifoProgress.StalledWordHolds` | docs/hierarchy-protocols.md:456-458 | however long the destination stalls, the word on the output and its valid flag stay, and nothing is delivered |
| `FifoProgress.FirstWordsAccepted` | docs/hierarchy-protocols.md:454-458 | after joint reset the crossing is not full before it has accepted as many words as its depth |
| `FifoResets.LoneDestinationReset` | docs/hierarchy-protocols.md:451-452 | after an edge that resets the destination and not the source, whatever the source does at that instant and however long the reset is held, every later run is a run of the queue holding the words then in flight if and only if the read pointer stood at zero; otherwise some run overruns the queue |
| `FifoResets.LoneSourceReset` | docs/hierarchy-protocols.md:451-452 | the same after an edge that resets the source and not the destination, if and only if the write pointer stood at zero and there is room for three more words |
| `FifoResets.SettlingRefines` | zlang/backend/systemverilog/cdc.py:340-354 | a source reset at write pointer zero with such room runs as the queue while its reset is held and its synchroniser refills |
| `FifoResets.SettlingStep` | zlang/backend/systemverilog/cdc.py:340-354 | such a source comes one edge further at each of its edges, and the third brings back the full invariant |
| `FifoHazards.WordsGoIn` | zlang/async_fifo.py:242-254 | from any state with three edges to spare, a source clocked alone has words accepted for as long as its pointer does not look full against the read pointer |
| `FifoHazards.WordsComeOut` | zlang/async_fifo.py:212-241 | from any state with two edges to spare, a destination clocked alone delivers words until its pointer meets the write pointer, sent or not |
| `FifoResets.LoneResetDeliversPhantom` | docs/hierarchy-protocols.md:451-452 | an idle crossing whose write pointer is not at zero delivers a word nobody sent on the fourth edge after a lone destination reset |
| `SvSyntax.PrintedTextReadsBack` | zlang/async_fifo.py:74-100 | the printed text parses, and then to the tree of the expression in spite of dropped parentheses, if and only if no constant is negative and no constant or sum has width zero; under the strict grammar, moreover, no negation may directly follow another |
| `SvSyntax.SameRefusal` | zlang/async_fifo.py:70-71 | where all names have values, the interpreter and the printer give up at the same unsupported operation |
| `RenderedController.GateTexts` | zlang/async_fifo.py:79-95 | the exact text of the handshake and comparison assignments, parentheses included |
| `RenderedController.PointerTexts` | zlang/async_fifo.py:96-99 | the exact text of the pointer assignments |
| `RenderedController.PrefetchText` | zlang/async_fifo.py:226-241 | the exact text of the prefetch assignment, in which negations below the top keep their parentheses |
| `RenderedController.FullText` | zlang/async_fifo.py:242-254 | the exact text of the full assignment |
| `SvSemantics.TreeAgrees` | zlang/async_fifo.py:47-100 | for a width-consistent expression the tree has the node's width and, at that width, the interpreter's value |
| `SvSemantics.AssignmentMeansEvaluate` | zlang/async_fifo.py:47-100 | assigning the printed text of a width-consistent expression to a net of its width gives that net the interpreter's value |
| `RenderedController.EquationsConsistent` | zlang/async_fifo.py:157-255 | every controller equation is width-consistent and reads names at their declared widths |
| `RenderedController.RenderedAssignmentsHold` | zlang/async_fifo.py:128-133 | every printed assignment, parsed and evaluated on nets that carry the computed values, yields the value of the signal it defines |
| `RenderedController.AssignmentsDetermine` | zlang/async_fifo.py:128-133 | nets that carry the inputs satisfy all twelve printed assignments if and only if they carry what the interpreter computes |
| `RenderedController.StrictlyRefused` | zlang/backend/systemverilog/sequential.py:325-332 | which printed assignments the strict grammar refuses: exactly those that negate an active-low reset |
| `RenderedController.WidthsMatter` | zlang/async_fifo.py:66-72 | an expression of disagreeing widths on which interpreter and printed text differ |
| `StronglyConnected.Search.Visit` | tools/audit_python_architecture.py:139-164 | one visit discovers what is reachable among the new nodes, leaves on the stack what reaches back below it, and reports every component that closes |
| `StronglyConnected.Search.PopTo` | tools/audit_python_architecture.py:156-162 | the pop loop takes off the stack exactly what lies above the given rest |
| `SccState.RootIsScc` | tools/audit_python_architecture.py:154-164 | when a node's lowlink is its index, the stack from it up is one strongly connected component |
| `ImportCycles.FindCycles` | tools/audit_python_architecture.py:131-169 | for every finite graph the result lists exactly the strongly connected components of more than one node, pairwise disjoint, edges to unknown names ignored |
| `ImportCycles.OnCycleReported` | tools/audit_python_architecture.py:131-169 | both ends of an import are in one reported component if and only if it lies on a cycle through another module; a module that only imports itself is not reported |
| `ExpressionGraph.ValueOfTrees` | zlang/compilation_selection.py:887-908 | the notion of value leaves nothing of a tree out: valued in trees, a tree is itself |
| `LocalInlining.ExpandPreservesMeaning` | zlang/compilation_selection.py:852-909 | under the inputs alone the substituted tree denotes what the original denotes with each local bound to its own value |
| `LocalInlining.ExpandIsFree` | zlang/compilation_selection.py:852-909 | no reference to a local is left anywhere in the substituted tree |
| `LocalInlining.ResolvedBinds` | zlang/compilation_selection.py:867-878 | an environment that binds each local to its own value exists |
| `Inliner.Walker.Walk` | zlang/compilation_selection.py:871-909 | the memoised walk returns an object whose tree is the plain substitution, and both memo tables keep only such objects |
| `Inliner.Walker.WalkLocal` | zlang/compilation_selection.py:872-878 | a reference to a local becomes the rewritten binding, which is remembered by name |
| `Inliner.Walker.Rebuild` | zlang/compilation_selection.py:887-908 | an object not met before is rebuilt from rewritten fields and remembered by identity |
| `ModuleInlining.InlineRoots` | zlang/compilation_selection.py:867-990 | all roots are rewritten with shared memo tables: equal objects give equal results; the objects allocated are as many as the originals the walk comes to and the tuples among their fields, so many of them no tuples as there are such originals; they are no more than the originals copied if and only if every tuple is in one place |
| `Inliner.CopiesOnce` | zlang/compilation_selection.py:887-908 | one object for each original rebuilt and each tuple among its fields is never fewer than one for each original copied, and just as many if and only if no tuple is a field in two places or a field and walked on its own |
| `ModuleInlining.SharedTupleCopied` | zlang/compilation_selection.py:897-898 | a run on two records that share a tuple allocates exactly four objects where there were three |
| `ModuleInlining.ModuleFor` | zlang/compilation_selection.py:867-867 | a module with any bindings that can be ranked can be inlined |
| `LocalRanking.RankedIffAcyclic` | zlang/compilation_selection.py:867-878 | bindings can be ranked if and only if no local refers to itself, directly or by way of others |
| `ModuleInlining.InlineLocals` | zlang/compilation_selection.py:852-991 | no locals are left anywhere in the hierarchy, every root is the substitution in its original, and a hierarchy without locals is returned itself |
| `ModuleInlining.InlineTwice` | zlang/compilation_selection.py:855-866 | a second application returns the very object it is given |
| `ModuleInlining.InlinedRootMeaning` | zlang/compilation_selection.py:852-991 | each rewritten root refers to none of the module's locals and denotes, under the inputs, what its original denotes with every local given the value of the last expression of its name |
| `ModuleInlining.InliningErases` | zlang/compilation_selection.py:855-991 | anywhere in the hierarchy, no rewritten root refers to any name that was a local of its module |
| `ModuleInlining.LastCounts` | zlang/compilation_selection.py:867 | of several locals of one name the last is the binding |
| `ProductGraph.OutcomeUnique` | zlang/compilation_session.py:379-404 | what a product denotes does not depend on how deep its dependencies are unrolled |
| `ProductGraph.SucceedsWhenAllBuild` | zlang/compilation_session.py:379-404 | an acyclic product succeeds if and only if every name it reaches is a product whose builder succeeds |
| `ProductGraph.SettledOffCycle` | zlang/compilation_session.py:391-394 | a product on a dependency cycle is never settled |
| `ProductGraph.SettledIffAcyclic` | zlang/compilation_session.py:391-394 | for every finite table, a product is settled at some depth if and only if no chain of dependencies from it comes to a product that depends on itself |
| `CompilationSession.Session.Demand` | zlang/compilation_session.py:379-404 | a demand keeps every remembered result, the set of products being built and all invariants (each builder run at most once, values and failures apart, computed products closed under dependencies), and yields the product's outcome |
| `CompilationSession.Session.Build` | zlang/compilation_session.py:395-404 | running a builder ends with its value or its failure remembered, and with the key no longer being built |
| `CompilationSession.RememberedIsBuilt` | zlang/compilation_session.py:396-404 | every remembered value is what the builder makes of the remembered values of its dependencies, in the order of the table |
| `CompilationSession.FailurePropagates` | zlang/compilation_session.py:396-400 | when a dependency fails after others succeed, the product fails with the same error |
| `CompilationSession.BuilderDecides` | zlang/compilation_session.py:396-404 | when all dependencies succeed, what the builder makes of them is the product's outcome |
| `SessionTheorems.DemandSucceedsWhen` | zlang/compilation_session.py:379-404 | for every table, cyclic ones included, a demand succeeds if and only if there is no cycle below the product and every name it reaches is a product whose builder succeeds |
| `SessionTheorems.HistoryIndependent` | zlang/compilation_session.py:379-404 | two demands of one product, whatever came before each, both succeed with one value or both fail; without a cycle below it the errors agree too |
| `SessionTheorems.DemandInBoth` | zlang/compilation_session.py:379-404 | two sessions of any past, asked for one product, agree in this way |
| `SessionTheorems.DemandTwice` | zlang/compilation_session.py:387-390 | asking again yields the same result |
| `SessionTheorems.ShippedHistoryIndependent` | zlang/compilation_session.py:118-139 | with the shipped table every demand, failing ones included, is independent of the past, whatever the builders do |
| `SessionTheorems.ShippedSucceedsWhen` | zlang/compilation_session.py:118-139 | a demand of a shipped product succeeds if and only if the builders in its written-out set succeed |
| `SessionTheorems.DemandAfresh` | zlang/compilation_session.py:118-139 | in a fresh session a demand that succeeds has run exactly that set of builders, each once, and one that fails no others |
| `SessionTheorems.FailureBreaks` | zlang/compilation_session.py:396-400 | a failing builder makes exactly the written-out set of demands fail |
| `ExpandedSize.ExpandedStep` | tools/structural_synthesis_baseline.py:128-132 | the size of an unfolded tree is one more than the sizes of its parts, each counted as often as it occurs |
| `ExpandedSize.Metrics.Measure` | tools/structural_synthesis_baseline.py:120-132 | the memoised size is the size of the fully unfolded tree, and exactly the reachable objects are newly listed, each once |
| `ExpandedSize.GraphMetrics` | tools/structural_synthesis_baseline.py:116-134 | for any list of roots, the total is the sum of unfolded sizes and the listed objects are exactly those reachable, without repeats |
| `ExactRewrite.ReplaceExact` | zlang/candidate_sites.py:707-740 | the count is the number of positions of the object, the result unfolds to the tree with every occurrence replaced, and zero occurrences return the original object |
| `ExactRewrite.RewrittenPlaces` | zlang/candidate_sites.py:707-740 | in the result, the new object's tree stands at every position of the old object, and at every position not at or below one stands what stood there |
| `ExactRewrite.PositionsLead` | zlang/candidate_sites.py:707-731 | the positions counted are exactly the sequences of steps that lead from the whole to the object |
| `ExactRewrite.NothingReplaced` | zlang/candidate_sites.py:732-733 | where the object does not occur, replacement changes nothing |
| `ExactRewrite.ReplacedSameValue` | zlang/candidate_sites.py:707-740 | replacing an object by one of equal value keeps the value of the whole |
| `Selection.ExtractBest` | zlang/costs.py:102-149 | selection succeeds if and only if some candidate has a known objective and keeps every constraint on evidence that counts, and then picks the first such candidate that none ranks before |
| `Selection.LegalExactly` | zlang/costs.py:206-238 | the checks pass exactly where each constrained amount is known, at most the maximum and at least the minimum, on evidence that counts |
| `SelectionTheorems.SameKeySameIdentity` | zlang/costs.py:241-283 | candidates of the same key have the same identity |
| `SelectionTheorems.SelectionIgnoresOrder` | zlang/costs.py:130-149 | with distinct identities, two lists of the same candidates in any order and number select the same one |
| `SelectionTheorems.WinnerSurvives` | zlang/candidate_sites.py:872-878 | selecting again among any candidates that still include the winner selects the winner, so a gate that keeps it changes nothing |
| `SelectionTheorems.OrderMattersExactlyOnTies` | zlang/costs.py:146 | reordering any list of candidates can change the selection if and only if two different candidates are both best, which then have the same key and identity |
| `SelectionTheorems.WinnerIsStrongest` | zlang/costs.py:248-260 | where measurements are preferred no legal candidate has stronger objective evidence than the winner (routed before synthesised before estimated), nor a better objective on equal evidence; otherwise none has a better objective |
| `SelectionTheorems.WinnerBreaksTies` | zlang/costs.py:261-283 | on equal evidence and objective the winner is least in the other metrics in their order, then in structural cost, then in identity |
| `SelectionTheorems.RequiredIsMeasured` | zlang/costs.py:206-227 | where measurements are required, the winner's resources that matter were measured and its clock rate that matters was routed |
| `SelectionTheorems.RankingSorts` | zlang/candidate_sites.py:404-417 | the ranking lists each legal candidate as often as given, in order of keys |
| `SelectionTheorems.RankingKeepsOrder` | zlang/candidate_sites.py:404-417 | candidates of equal keys keep the order in which they were given |
| `SelectionTheorems.WinnerRanksFirst` | zlang/candidate_sites.py:404-417 | the selected candidate is rank one, ties included |
| `Timeline.Timeline.Enter` | tools/profile_compilation_latency.py:52-55 | entering a span keeps the conservation of time |
| `Timeline.Timeline.Leave` | tools/profile_compilation_latency.py:58-70 | leaving a span records the name and duration of the innermost span the calls have left open and the name of the one around it, charges its parent, and keeps exclusive time equal to open charges plus the time the calls so far show for closed outermost spans; with a clock that never goes back no exclusive time is negative |
| `Timeline.Timeline.Aggregate` | tools/profile_compilation_latency.py:72-81 | exactly the recorded names are listed, each with its calls and its times |
| `Timeline.ShareIs` | tools/profile_compilation_latency.py:72-81 | the totals of a name are the number of its events and the sums of their times in milliseconds |
| `Timeline.SharesAddUp` | tools/profile_compilation_latency.py:72-81 | the exclusive times by name add up to the exclusive time of all events |

## Left out

- The whole front end, type checker, planner, formal and target flows, the command line and all reporting and
  release tooling: they are outside these cores.
- The register updates of the crossing follow `zlang/backend/systemverilog/cdc.py:333-370` and
  `zlang/simulation_cdc.py:288-410`, and the memory `zlang/backend/systemverilog/state.py:188-350`, where they
  are spelt out; `zlang/async_fifo.py` only names them. The reset value of a payload is the parameter `zero`.
- Analog metastability and reset edges between clock edges: a sample resolves to bits that are each old or
  new, and a reset takes effect at an edge of its own clock.
- A crossing that is reset again in mid-run by both domains together: `FifoRuns.ResetThenRefines` covers it as a
  new start.
- Plans: identities are opaque strings, and how a clock domain's reset and edge enter the digest is left out.
- Expression nodes with too few operands, which the interpreter answers with an index error, cannot be written
  in `FifoLogic.Logic`.
- Printing is modelled down to tokens; the spelling of names and numbers and blanks between tokens are left
  out, and a symbol stands for a port or for a port with one negation in front.
- ImportCycles.FindCycles: components are sets and are found in any order of nodes and successors, because sorting decides only the order of the report.
- The session's lock (one demand is atomic) and which of several errors a cyclic table reports. A builder demands its table dependencies in order and then computes.
- SessionTheorems.ShippedHistoryIndependent: a restored simulation plan that a caller hands to the session is kept like a built one, so that the simulation plan, which no other product depends on, can then differ; sessions that accept one are left out.
- FifoPlan.ValidatedIsBuilt: register roles, names and element type of the memory and what else no check reads are not part of a plan here.
- CompilationSession.Session.Demand: exceptions that are not errors, such as an interrupt, leave no failure behind in the original and do not occur here.
- Inliner.Walker.Walk: origins are part of an object's fixed data, the fallback for objects that cannot be rebuilt is left out, and object identities are never reused.
- ModuleInlining.InlineLocals: the many kinds of expression roots of a module are one list.
- ExpandedSize.GraphMetrics: the generic search for root expressions inside an arbitrary value is left out.
- ExactRewrite.ReplaceExact: origin fields and the error for objects that cannot be rebuilt are left out.
- Selection.ExtractBest: costs are reals, so that rounding is left out; the digest at the end of a key, which the identity before it decides, reason strings and other ways to pass candidates are left out.
- Timeline.Timeline.Aggregate: milliseconds are reals, so that rounding is left out, and the result is not sorted by name.
