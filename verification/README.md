# Verified model of the BPF Capsule compiler core

BPF Capsule compiles ordinary C, C++ and Rust programs into BPF programs the kernel verifier accepts.
This project models the parts of it whose correctness is hardest to see from the code, and proves
what they are for:

- **Control flow** (`Machine`, `Relays`, `Redirects`, `Layout`, `Encoding`, `Relaxation`, `Flatten`,
  `Pruning`, `Hierarchy`, `FlattenPass`).
  Machine functions are block layouts with branches, fallthroughs, calls and returns. Two programs are
  equivalent when they show the same sequences of non-branch instructions, branch decisions and
  returns. Relay insertion, joining of dispatch units, reordering and removal of dead blocks are proved
  to keep that meaning, every far branch is proved to enter its own chain of relays, and the cpu=v4
  relay loop is proved to end.
- **Native stack budgets** (`CallGraph`, `LongestPaths`, `StackBudget`, `Contraction`). The budget pass
  accepts exactly the call graphs that can be made to fit, with exact budgets, and every call chain of
  an accepted module fits the kernel's limits.
- **Atomics** (`Atomics`, `AtomicValues`). Word-sized retry loops refine atomic operations on bytes,
  half-words and words under every interleaving, and what they store is the arithmetic and bitwise result
  in the lane's width.
- **Memory** (`RegionMemory`, `GlobalLayout`, `StackRoot`, `ArenaInit`, `ArenaFixups`, `MemExpand`). The
  split memory is one flat byte memory; globals are placed so that a compile-time region agrees with
  the run-time one; stack roots stay in their slice; the arena is initialized once and with true
  pointer values; expanded memory intrinsics are simultaneous copies and exact fills.
- **Domains** (`Domains`), **fiber locks** (`FiberLocks`) and the **packed module image**
  (`PackedLibrary`, with `Utf8` for the order of names).

`Bits`, `Congruence`, `Endian` and `Wrappers` hold shared arithmetic and result types. The form follows the
source: code that updates state is a class or a method with loops, pure calculations are functions, and
concurrent code is a state machine whose steps are single atomic accesses, in sequentially consistent
order. `dafny verify dfyconfig.toml` checks everything.

Four properties do not hold of the code in general. Each has a concrete counterexample and the
condition under which it does hold:

- The compile-time region is wrong when a literal integer address is the end of an object that stops at
  a region boundary or is wider than a region (`GlobalLayout.DirectRegionAgrees`,
  `GlobalLayout.EndPointerLeaves`, `GlobalLayout.WideEndLeaves`). Addresses of globals made by the pass
  start from the object itself and never fail (`GlobalLayout.StartRegionAgrees`,
  `GlobalLayout.RunCompiled`).
- A shared stack pointer loses alignment when the root is a recovered frame offset and an access weaker
  than 16 bytes has an offset that is no multiple of its own alignment (`StackRoot.AlignmentKept`,
  `StackRoot.FrameRuleMisaligns`).
- An access whose end passes the signed 64-bit range is left out of the group's survey but rewritten
  with it, and can leave the slice (`StackRoot.InsideExactly`, `StackRoot.SkippedLeaves`). Unaligned
  accesses are split before this step, so the accesses it sees, the failing one included, are naturally
  aligned.
- A name that was not packed can be found: a key is compared up to its first NUL only, so exactly the
  keys whose part before the NUL was packed are found (`PackedLibrary.PackedLookup`,
  `PackedLibrary.NulKeyIsCut`).

## Model

| member | source | states |
|---|---|---|
| Machine.FallsThroughExactly | src/pass/machine_flatten.cpp:608-618 | a block falls through exactly when its last instruction has a step past itself |
| Machine.SimulationForward | src/pass/machine_flatten.cpp:594-647 | every trace of a program is shown by any program that simulates it, over all finite runs |
| Machine.SimulationBackward | src/pass/machine_flatten.cpp:594-647 | a program that simulates another shows no trace of its own |
| Machine.SimulationIsEquivalence | src/pass/machine_flatten.cpp:594-647 | step matching up to silent jumps gives trace equivalence from the entry |
| Relays.CloseKeeps | src/pass/machine_flatten.cpp:594-647 | turning a split fallthrough into an explicit jump keeps every run |
| Relays.InsertKeeps | src/pass/machine_flatten.cpp:594-647 | a block of one jump inserted where nothing falls through keeps every run |
| Relays.PlaceRelayKeeps | src/pass/machine_flatten.cpp:594-647 | closing and inserting together keep every run, at any interior boundary |
| Relays.RetargetKeeps | src/pass/machine_flatten.cpp:594-647 | a branch redirected into a chain of relays that leads to its target keeps every run |
| Relays.AddChainKeeps | src/pass/machine_flatten.cpp:594-647 | a chain built from the target backwards, reusing islands at the same boundary and target, leads to that target |
| Relays.ApplyKeeps | src/pass/machine_flatten.cpp:594-647 | one whole request keeps meaning and the island table stays true |
| Relays.RoundKeepsMeaning | src/pass/machine_flatten.cpp:594-647 | any list of requests, however they share islands, gives an equivalent well-formed program |
| Redirects.ApplyRedirects | src/pass/machine_flatten.cpp:594-647 | after one request its branch enters a chain of relays, one laid out at each planned boundary in turn, that ends at its old target; every earlier chain stays |
| Redirects.RoundRedirects | src/pass/machine_flatten.cpp:594-647 | after a round that holds for every request of it |
| Redirects.RoundInterns | src/pass/machine_flatten.cpp:592-606 | no two relays of a round at one boundary jump to one block, so equal chain ends are shared |
| Layout.LowerBound | src/pass/machine_flatten.cpp:462-482 | the first boundary at or above an offset, by binary search |
| Layout.RelayBoundary | src/pass/machine_flatten.cpp:462-482 | the farthest boundary within one relay step strictly toward the destination; none only when there is none |
| Layout.PlanChain | src/pass/machine_flatten.cpp:484-501 | a finished chain is finite, each relay stands as far toward the destination as one step goes, and every hop including the last is encodable; failure means such hops lead to a place from which no boundary lies in reach |
| Layout.ChainInterior | src/pass/machine_flatten.cpp:484-501 | no relay of a planned chain is placed before the first block |
| Encoding.BranchInStream | src/pass/machine_flatten.cpp:446-525 | in the stream of 8-byte slots a branch occupies exactly the slot at its offset, and its displacement leads to the first slot no block laid out before its target owns |
| Relaxation.SettledIsNear | src/pass/machine_flatten.cpp:417-563 | a conditional whose target is the next block is never relayed again, for any span of at least 1 |
| Relaxation.LocalRound | src/pass/machine_flatten.cpp:594-647 | a v4 round settles exactly the requested blocks and adds one relay for each |
| Relaxation.V4RoundShrinks | src/pass/machine_flatten.cpp:417-563 | the set of unsettled blocks shrinks by exactly the planned ones |
| Relaxation.EmptyPlanRelaxed | src/pass/machine_flatten.cpp:560-563 | when nothing is planned no branch is too long and no conditional goes backward |
| Relaxation.MachineFunction.InsertRelay | src/pass/machine_flatten.cpp:608-631 | in-place insertion of one relay equals the pure relay placement |
| Relaxation.MachineFunction.ApplyRequest | src/pass/machine_flatten.cpp:594-647 | the in-place rewriting of one request equals its pure form, islands included, and its branch enters its own complete chain |
| Relaxation.MachineFunction.ApplyRequests | src/pass/machine_flatten.cpp:594-647 | a round in place equals its pure form, is equivalent to the program before, redirects every requested branch to its chain and makes no relay twice |
| Relaxation.MachineFunction.MeasureBlocks | src/pass/machine_flatten.cpp:446-460 | block offsets are the sums of instruction slots before them |
| Relaxation.MachineFunction.PlanBranch | src/pass/machine_flatten.cpp:503-559 | a branch gets no request exactly when it is in range; a request carries a complete chain; an error is a v3 branch whose farthest relays lead to a dead end |
| Relaxation.MachineFunction.PlanRequests | src/pass/machine_flatten.cpp:503-559 | the requests are exactly the far branches of the layout, each with its chain |
| Relaxation.MachineFunction.RelaxRound | src/pass/machine_flatten.cpp:446-647 | one round plans exactly the far branches, redirects each to its chain and keeps meaning; an error is a dead end of a far branch and leaves the function unchanged |
| Relaxation.MachineFunction.RelaxV4 | src/pass/machine_flatten.cpp:409-652 | on cpu=v4 the loop ends for every layout, no branch is far at exit, runs are kept, and the relays made are the blocks settled |
| Relaxation.MachineFunction.RelaxRounds | src/pass/machine_flatten.cpp:409-652 | on either target: exactly the given number of busy rounds, unless one finds nothing far, which means relaxed, or a far v3 branch with a dead end; meaning is kept; exactly the bad options are refused, before any change |
| Flatten.Unwinding | src/pass/machine_flatten.cpp:304-336 | a return below any number of terminal calls shows exactly one return |
| Flatten.JoinedForward | src/pass/machine_flatten.cpp:304-336 | each run of the nested calls is a run of the joined function |
| Flatten.JoinedBackward | src/pass/machine_flatten.cpp:304-336 | the joined function has no other run |
| Flatten.JoiningKeepsMeaning | src/pass/machine_flatten.cpp:304-336 | replacing terminal calls by jumps or fallthroughs keeps meaning |
| Pruning.PruningKeepsMeaning | src/pass/machine_flatten.cpp:360-385 | removing blocks outside a successor-closed set keeps meaning |
| Pruning.SuccessorsAreSteps | src/pass/machine_flatten.cpp:360-385 | the successors followed are exactly the blocks one step from some position of the block enters |
| Pruning.RemoveUnreachable | src/pass/machine_flatten.cpp:360-385 | the worklist keeps exactly the reachable blocks and the meaning |
| Hierarchy.OneParent | src/pass/machine_flatten.cpp:338-358 | one call site per unit gives each unit one parent, called once |
| Hierarchy.SitesArePositions | src/pass/machine_flatten.cpp:338-358 | a unit is called twice exactly when two positions of the code call it |
| Hierarchy.OneSiteExactly | src/pass/machine_flatten.cpp:338-358 | the contract is that no two positions of the code call one unit |
| Hierarchy.CheckSites | src/pass/machine_flatten.cpp:338-358 | the contract check passes exactly when no unit has two call sites, and otherwise names one called at two |
| Hierarchy.Placement.Splice | src/pass/machine_flatten.cpp:250-302 | moving a body to the end keeps every body contiguous |
| Hierarchy.Placement.PlaceChildren | src/pass/machine_flatten.cpp:250-302 | the units called from a parent are placed once each, every one followed by its own descendants |
| Hierarchy.Placement.Place | src/pass/machine_flatten.cpp:250-302 | the layout is the preorder of the dispatch tree; an error names a unit the root does not reach |
| Hierarchy.ReorderKeepsMeaning | src/pass/machine_flatten.cpp:250-302 | the order of bodies changes no run |
| Hierarchy.EntriesAreFirst | src/pass/machine_flatten.cpp:304-316 | a unit is entered at its first block |
| Hierarchy.FlattenUnits | src/pass/machine_flatten.cpp:754-813 | the whole pass gives an equivalent function laid out in preorder without unreachable blocks, each dispatch call an edge into the called unit's first block, a fallthrough exactly when that block is next; or a genuine contract error |
| FlattenPass.JoinedIsSimple | src/pass/machine_flatten.cpp:304-336 | bodies with one conditional, last or before the closing jump or dispatch call, still have one after joining |
| FlattenPass.FlattenAndRelax | src/pass/machine_flatten.cpp:409-813 | on cpu=v4, flattening then relaxing shows exactly the runs of the nested calls with every branch encodable; refused only for a broken contract or a span below 1 |
| CallGraph.OrderedHasNoRecursion | src/pass/machine_stack_budget.cpp:286-320 | a postorder of the reachable graph exists only without recursion |
| CallGraph.Search.Visit | src/pass/machine_stack_budget.cpp:286-314 | a visit finishes all it reaches or returns a real cycle on a real entry path |
| CallGraph.Order | src/pass/machine_stack_budget.cpp:286-320 | a topological order of exactly the reachable nodes, or a genuine recursion |
| LongestPaths.LongestPrefix | src/pass/machine_stack_budget.cpp:341-399 | the longest marked entry path to every node, or a real path over the limit |
| LongestPaths.PrefixPath | src/pass/machine_stack_budget.cpp:133-140 | the predecessor links give a real entry path of exactly that weight |
| LongestPaths.PrefixBound | src/pass/machine_stack_budget.cpp:366-399 | no marked entry path weighs more |
| LongestPaths.BestSuffix | src/pass/machine_stack_budget.cpp:401-420 | the best continuation of one node, with its link |
| LongestPaths.LongestSuffix | src/pass/machine_stack_budget.cpp:401-420 | the longest marked path from every node |
| LongestPaths.SuffixBound | src/pass/machine_stack_budget.cpp:401-420 | no marked path from a node weighs more |
| LongestPaths.SuffixPath | src/pass/machine_stack_budget.cpp:142-148 | the successor links give a real maximal path of exactly that weight |
| StackBudget.CheckNesting | src/pass/machine_stack_budget.cpp:321-339 | either no entry path holds two variable frames, or a call path between two is named |
| StackBudget.CostBefore | src/pass/machine_stack_budget.cpp:422-466 | the costliest fixed caller prefix of a node and its owner |
| StackBudget.CostAfter | src/pass/machine_stack_budget.cpp:422-466 | the costliest fixed callee suffix of a node and its owner |
| StackBudget.BudgetFor | src/pass/machine_stack_budget.cpp:422-466 | the fixed cost around a variable frame is the maximum over all paths and is attained by the rebuilt entry-to-leaf path |
| StackBudget.Assign | src/pass/machine_stack_budget.cpp:286-466 | accepts exactly the graphs without recursion, nesting, over-deep or over-full paths, with exact budgets; each refusal names a cycle, a nesting path, an over-long path, an over-full path, or a path that leaves a frame too little room |
| StackBudget.EveryPathFits | src/pass/machine_stack_budget.cpp:422-466 | for any frame sizes within the budgets every entry path uses at most 512 bytes, 8 frames and one variable frame |
| Contraction.Number | src/pass/machine_stack_budget.cpp:178-213 | functions share a node exactly when they share a physical class |
| Contraction.Fn.Bytes | src/pass/machine_stack_budget.cpp:79-100 | frame bytes are the least multiple of the granule that holds them, one granule at least |
| Contraction.CheckClasses | src/pass/machine_stack_budget.cpp:181-236 | class membership is consistent exactly when no failure is reported, and a failure names functions or a class that break it |
| Contraction.MeasureNode | src/pass/machine_stack_budget.cpp:214-229 | a node's fixed floor is the greatest rounded frame of its ordinary members, and it is variable if one member is an allocation unit |
| Contraction.CalleesOf | src/pass/machine_stack_budget.cpp:238-275 | exactly the nodes reached by calls that flattening keeps |
| Contraction.RootCallRecurs | src/pass/machine_stack_budget.cpp:258-266 | a reached call from inside a class back to its root stays a call and makes the graph unacceptable |
| Contraction.Contract | src/pass/machine_stack_budget.cpp:178-284 | the contracted graph with its entries, exactly for sound modules, or a genuine failure |
| Contraction.ChainIsPath | src/pass/machine_stack_budget.cpp:178-284 | every call chain of functions is an entry path of the graph |
| Contraction.BudgetCoversFloor | src/pass/machine_stack_budget.cpp:422-466 | an accepted budget covers the frame already measured |
| Contraction.EveryChainFits | src/pass/machine_stack_budget.cpp:178-466 | every call chain of an accepted module fits the kernel limits, for any unit sizes within the budgets |
| Contraction.BudgetModule | src/pass/machine_stack_budget.cpp:178-466 | the whole pass: granted exactly for sound modules whose contracted graph can fit, and then every call chain fits for any sizes within the budgets; a refusal carries the failure, or the graph with its witness |
| Atomics.ExtractIsBytes | src/pass/atomics.cpp:98-100 | extraction gives the little-endian value of the lane's bytes |
| Atomics.ReplaceIsBytes | src/pass/atomics.cpp:102-107 | replacement writes the lane's bytes and no other |
| Atomics.WholeWord | src/pass/atomics.cpp:157-189 | the loop on a whole 32-bit word is the lane loop whose lane is the word |
| Atomics.WordOfAddress | src/pass/atomics.cpp:84-96 | the address masks give the byte in the word and an aligned word holding it |
| Atomics.SwapPerforms | src/pass/atomics.cpp:118-155 | a successful word compare-exchange is the whole lane operation at that instant |
| Atomics.LoadPerforms | src/pass/atomics.cpp:191-237 | a load is invisible, or is the failing compare-exchange at that instant |
| Atomics.StepRefines | src/pass/atomics.cpp:118-237 | every step of any thread is invisible or is its whole operation |
| Atomics.HappensOnce | src/pass/atomics.cpp:118-237 | in every run a finished operation takes effect at exactly one instant inside the call, with the value it returned |
| AtomicValues.SumIsModular | src/pass/atomics.cpp:54-56 | adding words adds their numbers modulo any width looked at |
| AtomicValues.DifferenceIsModular | src/pass/atomics.cpp:57-58 | subtracting words subtracts their numbers modulo any width looked at |
| AtomicValues.AppliedComputes | src/pass/atomics.cpp:52-71 | add, sub and exchange give the number modulo 2 to the lane's width; and, nand, or and xor give their truth table in every bit |
| AtomicValues.SwapComputes | src/pass/atomics.cpp:118-155 | a successful word compare-exchange leaves that result in the lane and reports what was there |
| AtomicValues.LaneEquals | src/pass/atomics.cpp:191-237 | a lane equals the expected operand exactly when their numbers agree in its width |
| AtomicValues.HappensMeans | src/pass/atomics.cpp:118-237 | at the instant an operation happens its lane goes to what the operation makes of it, the caller is handed the value before, a compare-exchange succeeds exactly when the numbers agree, and no other byte changes |
| Atomics.ChangesOnlyThen | src/pass/atomics.cpp:118-237 | a thread changes memory at no other step |
| Atomics.LookedAt | src/pass/atomics.cpp:118-189 | what a retry loop compares against was in memory when it looked |
| Atomics.RetryMeansInterference | src/pass/atomics.cpp:118-189 | when a thread's attempt fails, some step of another thread since its last look changed the word |
| ArenaInit.BaseFits | src/pass/memory.cpp:3455-3510 | the published base is the allocation's first slice boundary and the memory end stays inside the allocation |
| ArenaInit.PagesAreNeeded | src/pass/memory.cpp:3455-3466 | with fewer pages some page-aligned allocation has no slice boundary from which the memory fits |
| ArenaInit.StepKeeps | src/pass/memory.cpp:3402-3510 | every step of the protocol keeps its invariant and changes nothing after publication |
| ArenaInit.RunKeeps | src/pass/memory.cpp:3402-3510 | the invariant, with at most one owner, holds in every state of every run |
| ArenaInit.PublishedForever | src/pass/memory.cpp:3402-3510 | once published, state, base and slots never change |
| ArenaInit.PublishedOnce | src/pass/memory.cpp:3402-3510 | at most one step of a run publishes |
| ArenaInit.SuccessMeansComplete | src/pass/memory.cpp:3180-3198 | a call that returned 0, or an entry let through the gate, finds base and all fixups complete from then on |
| ArenaInit.FailureIsRetryable | src/pass/memory.cpp:3402-3510 | in every run a failed allocation reports no memory and leaves the arena unowned until the next claim by any thread, which wins |
| ArenaInit.GateFollowsReady | src/pass/memory.cpp:3402-3510 | the publishing call and every later one returns 0 and every later entry is let in; before, every entry is refused, a claim while another call owns the arena returns -11, and a failed allocation -12 |
| ArenaFixups.ResolveIsSound | src/pass/memory.cpp:3237-3308 | for every accepted initializer and all three bases the affine form has the value's low bits |
| ArenaFixups.ResolveAccepts | src/pass/memory.cpp:3243-3308 | exactly the expressions whose every part is plain are accepted: no foreign constant, zero extension, variable offset or integer narrower than the slot |
| ArenaFixups.TokensFollowWindow | src/pass/memory.cpp:3276-3280 | an integer made a pointer follows the function window exactly in the token range |
| ArenaFixups.SharesTable | src/pass/memory.cpp:3562-3592 | initializers share a table exactly when they have one width and alignment and every choice of the bases moves them alike |
| ArenaFixups.BuildTables | src/pass/memory.cpp:3562-3592 | the tables hold exactly the rows of the fixups; rejection exactly for an unresolvable value or an over-long table |
| ArenaFixups.ApplyTables | src/pass/memory.cpp:3590-3628 | callbacks run in any order write every row and nothing else |
| ArenaFixups.InitializeImage | src/pass/memory.cpp:3545-3628 | accepted exactly when every initializer is plain, of 1, 2, 4 or 8 bytes, and no table is over-long; then every slot holds its initializer's true value modulo the slot, little-endian, and all other bytes are untouched |
| Endian.LittleOfBytes | src/pass/memory.cpp:2187-2234 | storing and reloading a word gives its low bytes |
| RegionMemory.MaskedIs | src/pass/memory.cpp:1284-1300 | the width mask rounds any offset down inside its region |
| RegionMemory.Hit | src/pass/memory.cpp:1262-1345 | an address belongs to an access exactly where region and masked offset say |
| RegionMemory.ReadBack | src/pass/memory.cpp:2187-2234 | bytes written are read back wherever memory is mapped |
| RegionMemory.WriteElsewhere | src/pass/memory.cpp:2187-2234 | a byte that no written address names, modulo the domain, is left alone |
| RegionMemory.Backing.LoadRouted | src/pass/memory.cpp:1262-1345 | a routed load equals a flat load, for every 64-bit offset; unmapped bytes read zero |
| RegionMemory.Backing.StoreRouted | src/pass/memory.cpp:990-1052 | a routed store equals a flat store of exactly its bytes; unmapped stores are dropped |
| RegionMemory.Backing.LoadDirect | src/pass/memory.cpp:2849-2898 | the inline path loads what the accessor would, in the region of the address |
| RegionMemory.Backing.StoreDirect | src/pass/memory.cpp:2849-2898 | the inline path stores what the accessor would, in the region of the address |
| RegionMemory.Backing.LoadOne | src/pass/memory.cpp:2849-2898 | a naturally aligned load gives the flat value on either path |
| RegionMemory.Backing.StoreOne | src/pass/memory.cpp:2849-2898 | a naturally aligned store has the flat effect on either path |
| RegionMemory.Backing.LoadSplit | src/pass/memory.cpp:2187-2234 | a load of any promised alignment, split or not, equals one flat load, across regions and the domain's end |
| RegionMemory.Backing.StoreSplit | src/pass/memory.cpp:2187-2234 | a split store writes exactly the requested bytes |
| RegionMemory.Backing.Run | src/pass/memory.cpp:2187-2234 | any sequence of loads and stores of mixed widths and alignments, split or not, each inline or routed, gives the results and final memory of a flat memory |
| GlobalLayout.OneBitIsPow2 | src/pass/memory.cpp:205-208 | the power-of-two test is exact |
| GlobalLayout.AlignWithinIsLeast | src/pass/memory.cpp:205-216 | the result is the least multiple at or above the value within the limit, and none only if there is none |
| GlobalLayout.PlaceableExactly | src/pass/memory.cpp:1655-1680 | the acceptable addresses are the multiples of 8 and of the alignment where the object ends in the 32-bit domain and, unless wider than a region, lies in one |
| GlobalLayout.Place | src/pass/memory.cpp:1655-1680 | a global gets the first address that is aligned, fits and does not straddle a region it could fit in; failure only if there is none |
| GlobalLayout.LayOut | src/pass/memory.cpp:1650-1692 | all globals first-fit, then the heap, with exactly the wide ranges recorded; an error names a global, or the heap, without a place |
| GlobalLayout.Ordered | src/pass/memory.cpp:1650-1692 | globals lie in order above page zero |
| GlobalLayout.Disjoint | src/pass/memory.cpp:1650-1692 | no address belongs to two globals, or to one and the heap |
| GlobalLayout.TraceIsSound | src/pass/memory.cpp:1951-2001 | a traced base is a constant of the address, with a direct region number in 32 bits, and in no wide range |
| GlobalLayout.WideIsRouted | src/pass/memory.cpp:1672-1692 | addresses in the heap or in a wide object are never traced |
| GlobalLayout.StartRegionAgrees | src/pass/memory.cpp:1951-2001 | traced from an object's own start, every in-bounds access, all its bytes included, has the accessor's region, with no exception |
| GlobalLayout.DirectRegionAgrees | src/pass/memory.cpp:1951-2001 | for any traced base within an object or at its end, the region is right for every in-bounds access exactly when the base is not the end, or the object is no wider than a region and stops inside one |
| GlobalLayout.EndPointerLeaves | src/pass/memory.cpp:1951-2001 | a literal address of an object's end at a region boundary, where it is wrong |
| GlobalLayout.WideEndLeaves | src/pass/memory.cpp:1951-2001 | a literal address of the end of an object wider than a region, where it is wrong off any boundary |
| GlobalLayout.TraceOfObject | src/pass/memory.cpp:1806-1818 | an address the pass builds, window plus offset, indexed and cast, traces to that object's own start or not at all |
| GlobalLayout.NarrowIsTraced | src/pass/memory.cpp:1951-2001 | an object no wider than a region, in a region mapped directly, is found through up to fourteen indexing and casting steps and through no more |
| GlobalLayout.TraceOfUnrooted | src/pass/memory.cpp:1951-2001 | a computation with no constant base traces to nothing |
| GlobalLayout.RoutedOk | src/pass/memory.cpp:2849-2868 | the routing decision for a global, heap or unknown pointer names only a region that holds the whole access |
| GlobalLayout.RunCompiled | src/pass/memory.cpp:2780-2958 | any program of in-bounds global accesses and arbitrary heap and unknown ones, each routed inline or through an accessor, reads and writes the bytes a flat memory would |
| StackRoot.GroupAccesses | src/pass/memory.cpp:2294-2300 | accesses are grouped exactly by the constraint they put on the root |
| StackRoot.GroupedExactly | src/pass/memory.cpp:2294-2301 | accesses share a group exactly when both are frame fields, or neither and they have one alignment and offsets that differ by a multiple of it |
| StackRoot.SurveyGroup | src/pass/memory.cpp:2324-2343 | least offset, greatest end and a strictest access of the group; none exactly if every access is skipped |
| StackRoot.PlanExactly | src/pass/memory.cpp:2344-2376 | a group is rewritten exactly when its bytes fit the slice at some offset of the alignment it implies, 16 bytes at least for a frame, and the plan keeps the least |
| StackRoot.LowIs | src/pass/memory.cpp:2372-2396 | the masked and or-ed offset has the root's high bits and the group's residue |
| StackRoot.InsideExactly | src/pass/memory.cpp:2372-2456 | an access stays in the slice for every root exactly when it fits at the least and greatest bounded offset |
| StackRoot.SurveyedInside | src/pass/memory.cpp:2372-2456 | for every root value every surveyed access lies inside the slice, fallback included |
| StackRoot.SkippedLeaves | src/pass/memory.cpp:2330-2334 | the last byte of the signed range, skipped, leaves a slice of any size for every root when grouped with a byte a slice below it |
| StackRoot.LowExact | src/pass/memory.cpp:2372-2396 | the masked offset is the true one exactly for roots of the implied alignment |
| StackRoot.TargetExact | src/pass/memory.cpp:2372-2456 | for an aligned root in range each access goes to its true offset modulo the slice |
| StackRoot.AlignmentKept | src/pass/memory.cpp:2363-2396 | for every root the promised alignment is kept, exactly unless the frame rule meets a misaligned offset |
| StackRoot.FrameRuleMisaligns | src/pass/memory.cpp:2363-2369 | an 8-byte access at offset 4 of a recovered frame is off for every root |
| FiberLocks.StepKeeps | ports/cpython/python_threads.c:24-86 | every atomic access by any fiber keeps the lock and sample invariant |
| FiberLocks.RunKeeps | ports/cpython/python_threads.c:24-86 | the invariant holds in every state of every run |
| FiberLocks.MutualExclusion | ports/cpython/python_threads.c:24-39 | at most one fiber holds the mutex, and the lock word is set while one does |
| FiberLocks.FreeLockIsTaken | ports/cpython/python_threads.c:24-35 | trying takes the lock exactly when no fiber holds it and otherwise changes nothing and returns 16; a locking fiber takes it at its next swap under the same condition |
| FiberLocks.UnlockFrees | ports/cpython/python_threads.c:28-39 | unlocking returns 0 and leaves the mutex to nobody; locking returns 0 |
| FiberLocks.WaitReturnsHolding | ports/cpython/python_threads.c:52-77 | a wait returns holding the mutex on every path, with 0 exactly when woken, and with 22 at once, nothing changed, exactly for a deadline whose nanoseconds are out of range |
| FiberLocks.PollWakes | ports/cpython/python_threads.c:59-62 | a poll goes on exactly when the signals since the sample are a multiple of 2^32 |
| FiberLocks.Remembers | ports/cpython/python_threads.c:59-62 | a waiter keeps the signal count it sampled until it returns |
| FiberLocks.SignalWakes | ports/cpython/python_threads.c:52-86 | with at least one and fewer than 2^32 signals since its sample, a waiter is woken by its next poll |
| FiberLocks.WokenBySignal | ports/cpython/python_threads.c:52-86 | a wait that returns 0 saw a signal sent after its sample |
| FiberLocks.SignalThenPoll | ports/cpython/python_threads.c:59-86 | a signal is seen by the next poll of every waiter that sampled fewer than 2^32 - 1 signals before it |
| FiberLocks.ClockDecides | ports/cpython/python_threads.c:63-73 | a clock reading ends the wait with 110 exactly when the deadline, in nanoseconds, is not after it, and otherwise polls again with the same deadline; a failing clock returns its number |
| FiberLocks.TimeoutIsLate | ports/cpython/python_threads.c:52-77 | in every run a wait that returns 110 was given a deadline and, during the call, read a time at or after it |
| Endian.BytesOfLittle | src/pass/expand_mem.cpp:34-65 | loading and storing a word moves its bytes unchanged |
| MemExpand.BytesOfRepeated | src/pass/expand_mem.cpp:115-122 | the replicated word consists of the fill byte |
| MemExpand.JoinUp | src/pass/expand_mem.cpp:79-82 | ascending chunk copies compose when the destination is not above the source inside it |
| MemExpand.JoinDown | src/pass/expand_mem.cpp:75-78 | descending chunk copies compose when the destination is not below the source |
| MemExpand.CopyRange | src/pass/expand_mem.cpp:34-65 | one loop copies exactly its range as if simultaneously |
| MemExpand.Copy | src/pass/expand_mem.cpp:67-83 | words and tail together are a simultaneous copy |
| MemExpand.MemMove | src/pass/expand_mem.cpp:220-236 | equals a simultaneous copy for every length and every overlap |
| MemExpand.MemCpy | src/pass/expand_mem.cpp:235-238 | equals a copy for operands that are equal or disjoint |
| MemExpand.SetRange | src/pass/expand_mem.cpp:86-113 | one loop fills exactly its range |
| MemExpand.MemSet | src/pass/expand_mem.cpp:115-122 | exactly the requested bytes take the value's low byte |
| Domains.FindIndirectTargets | src/pass/capsule_domains.cpp:45-60 | each type lists exactly the escaping functions of that type |
| Domains.References.Add | src/pass/capsule_domains.cpp:62-82 | the traversal collects exactly functions found through constants, cycles included |
| Domains.AddOperands | src/pass/capsule_domains.cpp:62-82 | the functions appended are exactly the defined ones an instruction's operands refer to |
| Domains.AddBody | src/pass/capsule_domains.cpp:91-125 | the functions appended are exactly those a body draws in; refusal exactly for a boundary call inside the Capsule |
| Domains.Reach | src/pass/capsule_domains.cpp:84-129 | the least set closed under calls, references and type-matched indirect calls, or a function forced into it that makes a boundary call |
| Domains.FindRoots | src/pass/capsule_domains.cpp:155-174 | the entries and the boundary targets, or a boundary without a target |
| Domains.Assign | src/pass/capsule_domains.cpp:153-229 | two disjoint least closures; otherwise a boundary without a target, a function with a boundary call forced into the Capsule, or one in both closures, and no assignment exists |
| Domains.EdgesStay | src/pass/capsule_domains.cpp:193-229 | calls and references never leave a domain; only boundary calls cross |
| Domains.EscapingIsOwned | src/pass/capsule_domains.cpp:176-217 | every defined function whose address is taken, no entry and no driver, is in exactly one domain; entries are native; boundary targets and exit callers are Capsule |
| PackedLibrary.Validate | ports/cpython/python_stdlib.c:198-224 | passes exactly for a true header, terminated in-bounds entries and strictly increasing names |
| PackedLibrary.EntryInBytes | ports/cpython/python_stdlib.c:212-219 | in bytes: sixteen per entry from 24 on, a name that starts and ends inside the name table, a source inside the image that ends in NUL, and flags 0 or 1 |
| PackedLibrary.Find | ports/cpython/python_stdlib.c:44-60 | on every validated image the search ends with the entry of the key up to its first NUL, or none exactly if there is none |
| PackedLibrary.Pack | ports/cpython/pack_stdlib.py:29-51 | writes the image of a module list exactly when every number fits its field |
| PackedLibrary.PackedName | ports/cpython/pack_stdlib.py:35-51 | entry `i` reads back module `i`'s name |
| PackedLibrary.PackedEntry | ports/cpython/pack_stdlib.py:35-51 | entry `i` is valid and reads back module `i`'s source and flag |
| PackedLibrary.PackedIsValid | ports/cpython/pack_stdlib.py:34-51 | for modules in byte order, an image passes validation exactly when no two share a name |
| Utf8.Trichotomy | ports/cpython/python_stdlib.c:44-60 | the order of names is total and strict |
| Utf8.LessExactly | ports/cpython/python_stdlib.c:44-60 | a name comes first exactly when it is a proper beginning of the other or is smaller at the first difference |
| Utf8.PointInBytes | ports/cpython/pack_stdlib.py:35 | the encoding of a code point is the row of the table of section 3 of RFC 3629 for it, and carries it |
| Utf8.EncodableExactly | ports/cpython/pack_stdlib.py:35 | a name can be encoded exactly when each of its characters follows the syntax of section 4 of RFC 3629, which leaves out surrogates |
| Utf8.EncodingKeepsOrder | ports/cpython/pack_stdlib.py:35 | UTF-8 is one to one and keeps order both ways, so sorting by code point is sorting by `strcmp` |
| Utf8.EncodingKeepsNul | ports/cpython/pack_stdlib.py:35 | a name without NUL has an encoding without NUL |
| PackedLibrary.SortFiles | ports/cpython/pack_stdlib.py:28 | a permutation of the files in name order, of the same total size and distinctness |
| PackedLibrary.SmallFits | ports/cpython/pack_stdlib.py:46-51 | an image below 4 GiB has only numbers that fit their fields |
| PackedLibrary.PackFiles | ports/cpython/pack_stdlib.py:28-51 | for files in any order: packed whenever every name encodes and the image is below 4 GiB, and valid exactly when no two files share a name |
| PackedLibrary.PackedLookup | ports/cpython/python_stdlib.c:44-65 | for files in any order, a key finds exactly the packed name equal to its part before the first NUL, with that file's source and flag; for keys without NUL that is the key itself; images below 4 GiB always pack |
| PackedLibrary.CStringOfEncoding | ports/cpython/python_stdlib.c:62-65 | the C string of an encoded key is the encoding of its part before the first NUL |
| PackedLibrary.NulKeyIsCut | ports/cpython/python_stdlib.c:44-65 | a four-character key with a NUL that finds a two-character name |

## Left out

- Relaxation.MachineFunction.RelaxRounds: takes a number of rounds, because on cpu=v3 an island of another edge can land between a conditional and its relay, so the outer loop has no simple measure; the per-chain result is proved instead.
- Relaxation.MachineFunction.RelaxV4: is stated for blocks with one conditional followed by at most one jump, the shape for which one relay per conditional is enough.
- Contraction.Number: numbers nodes in an arbitrary order; the source's numbering depends on module order and decides only which error is reported first.
- ArenaFixups.BuildTables: integer initializers of odd bit widths are taken as rejected before they become fixups.
- StackRoot.InsideExactly: models the fallback by selection; the variant that ends the step on an out-of-range root lets through only the in-range offsets covered here.
- PackedLibrary.SortFiles: orders by name only; the source breaks ties between equal names by package flag and path, and such an image is refused at run time either way.
- FiberLocks.StepKeeps: models one mutex and one condition; calls to unlock or wait come from holders.
- MemExpand.MemCpy: overlapping operands of a plain copy are undefined in the source language.
- Kernel memory ordering weaker than sequential consistency.
- Repair of verifier cycles on cpu=v3, successor lists, live-ins, probabilities and calling-convention checks of machine functions.
- Software-stack transformation, spill relocation, soft-float lowering and the runtime drivers.
- Atomics.WholeWord: covers 32-bit words; the same loop over 64-bit words is not modelled.
- Native 32- and 64-bit atomics, which stay single instructions, and fences.
- Atomic accessors of the region memory, and initialization of region contents from globals.
- Debug information, BTF, statistics, metadata and pass registration.
- Host programs, module loading and the language ports apart from the two files above.
