# Helesta, modelled and proved in Dafny

Helesta compiles SysY through an SSA intermediate representation to ARMv7. This project models the parts of it whose
correctness is hard to see from the code, and proves what they are for. `dafny verify dfyconfig.toml` checks everything.

| part | modules |
|---|---|
| liveness, interference graphs, two colouring allocators, renaming | `Liveness`, `InterferenceGraph`, `ColoringState`, `Obstruction`, `CoalescingAllocator`, `SpillCosts`, `SimpleColoring`, `RegisterAllocation`, `MachineState` |
| multiplication, division and remainder by constants | `StrengthReduction`, `Word32` |
| loops run by several threads | `Barrier`, `ForkJoin`, `Chunks`, `Interleaving`, `Dependence`, `LoopParallel` |
| dominators, frontiers, phi placement, phi removal | `Dominators`, `DominatorTree`, `PhiPlacement`, `ParallelCopy` |
| global value numbering | `Ssa`, `SsaRewrites`, `ValueNumbering`, `Redundancy`, `Gvn` |
| linear and polynomial expressions, closed forms of loops | `LinearExpr`, `PolyExpr`, `LoopSums` |
| conditions and statements to blocks, with holes patched later | `ControlFlow` |
| caching of pure recursive functions | `Memo` |
| branches to predicated code, dead code in the back end | `EliminateBranch`, `DeadCode` |

Code that updates fields is a class here with the same fields; ghost fields hold what the proof needs besides. Results
about whole runs quantify over the meaning of the instructions they do not look into: an instruction of the back end is
a list of registers written, a list of registers read and an effect, and the outer state is a value that the effect may
use to record everything it is given, so that equal outer states mean equal effects in equal order.

Some results say exactly when the code is right, because it is not right always:

* phi removal emits a stray copy when at least two disjoint cycles are left and the first that is broken through `loc` is
  not alone (`ParallelCopy.RemovePhiCopies`);
* division and remainder by a constant go wrong when the destination overlaps an operand that the sequence still needs
  (`StrengthReduction.MergeOne`);
* coalescing that passes the conservative test may spoil a graph that could be coloured when machine registers of low
  degree are around (`CoalescingAllocator.PrecolouredMissed`); without machine registers it never does
  (`Obstruction.MergeDissolves`, `CoalescingAllocator.Allocator.Run`);
* dealing iterations out to threads goes wrong when `r - l` overflows (`Chunks.DealtExactly`);
* the dependence test accepts indexes that meet when step times coefficient of the induction variable divides the
  difference of their constants: for a positive step only when that coefficient is 0, for a negative one also when the
  constants are far apart (`Dependence.SeparateIff`, `SeparateSound`, `PositiveStep`). A negative step never reaches a
  transformed loop, because every pass that asks for dependences also demands, in `get_ilr`, that the induction variable
  goes up by 1, for which `UnitStep` leaves the coefficient alone to be looked at. And the test does not compare a store
  with itself (`LoopParallel.IndependentIff`, `SelfChecked`);
* the closed form of a sum is off by half a word when the loop starts at INT_MIN (`LoopSums.ReplacedIff`); loops with `>`
  or `>=` are replaced as if they counted up, which is right only when nothing is added modulo 2^32
  (`LoopSums.DownwardIff` and its companions);
* the modular closed form needs an odd modulus, an even coefficient or bounds an even number of moduli apart
  (`LoopSums.ModularIff`), and reads negative values as unsigned ones (`LoopSums.ModularExact`);
* repeated division by a power of two is wrong when the total shift wraps around (`LoopSums.DivLoopIff`), and a modulus
  on top of subtraction or division is ignored (`LoopSums.SubtractModIff`, `SubtractModTotal`, `DivModIff`).

The pieces about threads meet in `LoopParallel.ParallelIsSequential`: a loop without reported dependence, whose stores do
not meet themselves, leaves in every complete interleaving the memory that running its iterations in order leaves. The
loop may contain other loops: an iteration comes to an access any number of times, each time with any values in the
registers that the loop defines, the induction variable apart.

The meaning of ARM instructions follows section A8.8 of the ARMv7-A Architecture Reference Manual (DDI 0406C).

## Model

| member | source | states |
|---|---|---|
| `Liveness.LocalSets` | src/arm/program.cpp:99-113 | the backward scan yields exactly the registers read before any write, and exactly those written before any read |
| `Liveness.LiveInLeast` | src/arm/program.cpp:119-131 | whatever reads-before-writes along some path demands is in every solution of the dataflow equations, so the worklist result is the least one |
| `Liveness.LiveOutLeast` | src/arm/program.cpp:119-131 | the same for live-out sets |
| `Liveness.Func.CalcLive` | src/arm/program.cpp:97-132 | the worklist terminates; a register is live-in exactly when some path reaches a use before a definition, live-out exactly when it is live into a successor |
| `InterferenceGraph.Builder.ConnectAll` | src/arm/simple_coloring_alloc.hpp:90-95 | all registers of a list become pairwise adjacent; the graph stays symmetric and irreflexive and loses no edge |
| `InterferenceGraph.Builder.AddUses` | src/arm/simple_coloring_alloc.hpp:65-78 | adding the uses of an instruction keeps the live set a clique |
| `InterferenceGraph.Builder.AddDefs` | src/arm/simple_coloring_alloc.hpp:79-95 | definitions of the instruction above become adjacent to everything live with them |
| `InterferenceGraph.Builder.StepBack` | src/arm/simple_coloring_alloc.hpp:56-96 | one instruction of the backward scan keeps all cliques found so far and extends them by one program point |
| `InterferenceGraph.Builder.ScanBlock` | src/arm/simple_coloring_alloc.hpp:32-97 | at every point of the block, what is live together with what is defined there is a clique |
| `InterferenceGraph.Builder.BuildGraph` | src/arm/irc_coloring_alloc.hpp:61-179 | the graph of one class over exactly the registers that occur: two of them are adjacent if and only if somewhere both are live, or live after an instruction or defined by it; the weight of a move edge is the number of moves between its ends |
| `InterferenceGraph.MovesUpToStep` | src/arm/irc_coloring_alloc.hpp:106-116 | the weights count the moves of the blocks one after the other |
| `InterferenceGraph.MoveEdgeKeeps` | src/arm/irc_coloring_alloc.hpp:45-49 | recording a move edge keeps the move graph symmetric |
| `ColoringState.StartInv` | src/arm/irc_coloring_alloc.hpp:61-179 | the graph as built satisfies the allocation invariant |
| `ColoringState.PushKeeps` | src/arm/irc_coloring_alloc.hpp:181-192 | removing a node of low degree and pushing it with its neighbours keeps the invariant: every original edge is still in the graph or remembered by a stack entry that will be coloured later |
| `ColoringState.MergeKeeps` | src/arm/irc_coloring_alloc.hpp:249-270 | coalescing two non-adjacent nodes keeps the invariant: alias classes stay independent in the original graph and stacked nodes are never coalesced |
| `ColoringState.SpillKeeps` | src/arm/irc_coloring_alloc.hpp:422-432 | giving a node up keeps the invariant |
| `ColoringState.PopKeeps` | src/arm/irc_coloring_alloc.hpp:533-571 | a colour different from those of the remembered neighbours keeps the partial colouring right |
| `ColoringState.FinalProper` | src/arm/irc_coloring_alloc.hpp:515-586 | with nothing spilled, colours of the stack extended along aliases colour the original graph properly, with allocable colours, precoloured registers keeping theirs |
| `ColoringState.AllocableCount` | src/arm/archinfo.hpp:36-104 | ALLOCABLE_REGISTER_COUNT is the number of allocable registers of each class |
| `ColoringState.FreeColor` | src/arm/irc_coloring_alloc.hpp:557-565 | fewer than K forbidden colours leave an allocable one (`cur_ans >= 0`) |
| `CoalescingAllocator.Link` | src/arm/irc_coloring_alloc.hpp:249-270 | linking one root to another keeps `alias` an acyclic forest |
| `CoalescingAllocator.Allocator.GetAlias` | src/arm/irc_coloring_alloc.hpp:272-274 | path compression returns the class representative and changes no class |
| `CoalescingAllocator.Allocator.Remove` | src/arm/irc_coloring_alloc.hpp:181-192 | the node loses all edges; the worklist keeps holding exactly the ready nodes, each once |
| `CoalescingAllocator.Allocator.PrepareForSimplify` | src/arm/irc_coloring_alloc.hpp:200-218 | hopeless move edges are dropped; the worklist holds exactly the nodes without moves and with fewer than K neighbours |
| `CoalescingAllocator.Allocator.Simplify` | src/arm/irc_coloring_alloc.hpp:220-229 | every node is removed with fewer than K neighbours; afterwards none is ready |
| `CoalescingAllocator.DegreeAfter` | src/arm/irc_coloring_alloc.hpp:231-247 | the degree of a neighbour after coalescing drops by one exactly when it is a neighbour of both |
| `CoalescingAllocator.SignificantAt` | src/arm/irc_coloring_alloc.hpp:231-247 | counting unique neighbours of degree K and shared ones of degree K + 1 counts the significant neighbours of the combined node |
| `CoalescingAllocator.Conservative` | src/arm/irc_coloring_alloc.hpp:231-247 | decides the Briggs condition: the combined node has fewer than K neighbours of significant degree |
| `CoalescingAllocator.Allocator.Combine` | src/arm/irc_coloring_alloc.hpp:249-270 | edges and move edges of the second node are handed over to the first; the allocation invariant holds afterwards |
| `CoalescingAllocator.HandedOverOk` | src/arm/irc_coloring_alloc.hpp:249-270 | handed-over move edges stay symmetric with positive weights |
| `CoalescingAllocator.Allocator.CollectMoves` | src/arm/irc_coloring_alloc.hpp:277-288 | every move edge is listed in one direction |
| `CoalescingAllocator.NoneCoalescible` | src/arm/irc_coloring_alloc.hpp:276-321 | when no listed move can be coalesced, none can |
| `CoalescingAllocator.Allocator.TryMove` | src/arm/irc_coloring_alloc.hpp:290-319 | a listed move is combined exactly when, after earlier combinations, its ends are different, not adjacent and pass the conservative test |
| `CoalescingAllocator.Allocator.Coalesce` | src/arm/irc_coloring_alloc.hpp:276-321 | returns 0 exactly with an unchanged graph in which no move edge can be coalesced; otherwise a node is gone |
| `CoalescingAllocator.Allocator.PickFreeze` | src/arm/irc_coloring_alloc.hpp:324-343 | a node of low degree with moves and most neighbours, or none |
| `CoalescingAllocator.Allocator.Freeze` | src/arm/irc_coloring_alloc.hpp:323-354 | success drops move edges; failure means that no node of low degree has moves |
| `CoalescingAllocator.Allocator.PickCheapest` | src/arm/irc_coloring_alloc.hpp:370-404 | among candidates at most twelve loops apart, one of least cost: uses per neighbour times four to the loop depth |
| `CoalescingAllocator.Allocator.SelectSpill` | src/arm/irc_coloring_alloc.hpp:370-433 | takes a node that is no product of spilling, a constant if there is one, of least cost among those, and removes it |
| `CoalescingAllocator.PickColor` | src/arm/irc_coloring_alloc.hpp:557-564 | a free allocable colour of highest score |
| `CoalescingAllocator.Allocator.ColorOne` | src/arm/irc_coloring_alloc.hpp:533-571 | the popped register gets a colour different from all its remembered neighbours |
| `CoalescingAllocator.Allocator.AssignColors` | src/arm/irc_coloring_alloc.hpp:515-586 | a proper colouring in which coalesced registers share the colour of their class |
| `CoalescingAllocator.Allocator.Round` | src/arm/irc_coloring_alloc.hpp:604-633 | one turn shrinks the remaining nodes, or else the move edges (the lexicographic measure) |
| `CoalescingAllocator.Allocator.Run` | src/arm/irc_coloring_alloc.hpp:604-633 | terminates with a proper colouring, or with registers to rewrite each of which, when given up, belongs to an obstruction (a set of classes with K or more neighbours each within it and among the precoloured ones) free of the earlier ones, and which together break every obstruction; the spill assertion fails only on an obstruction of products of spilling; a colouring means that the final classes have no obstruction, and without precoloured registers there is one whenever the original graph has no obstruction |
| `CoalescingAllocator.PrecolouredMissed` | src/arm/irc_coloring_alloc.hpp:231-247 | with precoloured registers that may fail: two registers next to different machine registers pass the test, and coalesced they cannot be coloured |
| `Obstruction.StuckObstructs` | src/arm/irc_coloring_alloc.hpp:220-229 | what remains when no node has low degree is an obstruction of the original graph, read through the classes |
| `Obstruction.OneMoreNeeded` | src/arm/irc_coloring_alloc.hpp:370-433 | so the next register given up belongs to an obstruction none of the earlier ones belongs to |
| `Obstruction.ObstructionRemains` | src/arm/irc_coloring_alloc.hpp:181-192 | a register on the stack is in no obstruction that is free of given-up registers |
| `Obstruction.NothingLeftIsFree` | src/arm/irc_coloring_alloc.hpp:604-633 | so when no node remains, every obstruction contains a register that was given up |
| `Obstruction.StartDissolves` | src/arm/irc_coloring_alloc.hpp:61-179 | a graph without obstruction can be taken apart node by node |
| `Obstruction.MergeDissolves` | src/arm/irc_coloring_alloc.hpp:231-270 | it still can after coalescing that passes the test, when no register is precoloured |
| `SpillCosts.GetExpIs` | src/arm/irc_coloring_alloc.hpp:356-368 | `get_exp` by squaring is the power |
| `SpillCosts.LessIff` | src/arm/irc_coloring_alloc.hpp:375-390 | the comparison of candidates is that of weight times four to the depth when they are at most twelve loops apart, and that of the depths otherwise, also for weights that are 0 |
| `SimpleColoring.FirstFree` | src/arm/simple_coloring_alloc.hpp:275-290 | the lowest free register that costs no saving, else the lowest free allocable one |
| `SimpleColoring.SimpleAllocator.EnqueueLow` | src/arm/simple_coloring_alloc.hpp:236-242 | the queue starts with exactly the nodes of low degree, each once |
| `SimpleColoring.SimpleAllocator.Remove` | src/arm/simple_coloring_alloc.hpp:179-190 | neighbours whose degree drops below K are enqueued exactly once |
| `SimpleColoring.SimpleAllocator.Simplify` | src/arm/simple_coloring_alloc.hpp:191-203 | the allocation invariant is kept; afterwards every node left has K or more neighbours |
| `SimpleColoring.SimpleAllocator.ChooseSpill` | src/arm/simple_coloring_alloc.hpp:205-223 | the busiest constant that may be spilled, else the busiest register that may; -1 exactly when there is none |
| `SimpleColoring.SimpleAllocator.SpillAll` | src/arm/simple_coloring_alloc.hpp:246-251 | until no node is left or the assertion on candidates fails |
| `SimpleColoring.SimpleAllocator.Select` | src/arm/simple_coloring_alloc.hpp:257-292 | popping the history gives a proper colouring; no neighbour is uncoloured when its colour is read |
| `SimpleColoring.SimpleAllocator.Run` | src/arm/simple_coloring_alloc.hpp:234-298 | a proper colouring if and only if the graph has no obstruction; otherwise registers to spill, each needed, that together break every obstruction |
| `RegisterAllocation.LiveAtIsLiveBefore` | src/arm/program.cpp:97-132 | liveness by paths is the backward scan from the live-out set, at every instruction |
| `RegisterAllocation.ProperSeparates` | src/arm/simple_coloring_alloc.hpp:25-98 | a proper colouring of the built graph separates any two registers that are live or defined at one point |
| `RegisterAllocation.ProperDistinguishes` | src/arm/simple_coloring_alloc.hpp:25-98 | so colourings of both classes together distinguish all registers in scope |
| `RegisterAllocation.InstRelated` | src/arm/program.cpp:167-175 | one instruction of the renamed code keeps machine[colour(r)] = pseudo[r] for every live r |
| `RegisterAllocation.JumpRelated` | src/arm/program.cpp:167-175 | so does going to the next block |
| `RegisterAllocation.RunRelated` | src/arm/program.cpp:167-175 | so do any number of steps |
| `RegisterAllocation.AllocationPreservesExecution` | src/arm/program.cpp:167-175 | for any instruction meanings and any number of steps from the entry, the renamed code is at the same place with the same memory and the same values in the registers that matter |
| `RegisterAllocation.InstInMachine` | src/arm/program.cpp:167-175 | after renaming every allocated operand is an allocable machine register |
| `RegisterAllocation.AllocateClass` | src/arm/func.cpp:54-74 | liveness, graph and either allocator together: the problem is exactly that of the code, the colouring is proper, and it is refused only with an obstruction |
| `RegisterAllocation.AllocateRegisters` | src/arm/func.cpp:103-108 | both classes: the renamed function distinguishes all registers in scope, so the simulation applies; another attempt is asked for only when a class is obstructed, and without coalescing exactly then |
| `StrengthReduction.DivOpt` | src/arm/opt/merge_instr.cpp:33-45 | the search terminates with 0 <= B < 2^32, 0 <= s <= 30 and the magic inequality; L stays below 2^63 |
| `StrengthReduction.MagicExact` | src/arm/opt/merge_instr.cpp:33-45 | with the magic inequality, (x*B) >> (32+s) is the truncated quotient, less one for negative x, for every 32-bit x |
| `StrengthReduction.HighWordIs` | src/arm/opt/merge_instr.cpp:124-132 | smull with the low 31 bits plus the add/and/asr/add correction gives the high word of x*B |
| `StrengthReduction.QuotientFromHigh` | src/arm/opt/merge_instr.cpp:133-135 | asr and the sign-bit correction turn the high word into the C quotient |
| `StrengthReduction.QuotientCodeRuns` | src/arm/opt/merge_instr.cpp:121-136 | what the emitted sequence computes from the high word, scratch registers apart |
| `StrengthReduction.DivMagicRuns` | src/arm/opt/merge_instr.cpp:120-138 | the emitted sequence leaves x / v truncated, for every 32-bit x including -2^31 |
| `StrengthReduction.DivPow2Runs` | src/arm/opt/merge_instr.cpp:105-119 | the shift sequence leaves x / 2^k truncated |
| `StrengthReduction.ModPow2Runs` | src/arm/opt/merge_instr.cpp:140-162 | the bic or lsr sequence leaves the C remainder |
| `StrengthReduction.MergeRegReg` | src/arm/opt/merge_instr.cpp:62-185 | every replacement of a register-register instruction with a constant operand is right if and only if the guard on overlapping registers holds (constant registers being no destinations) |
| `StrengthReduction.MergeMul` | src/arm/opt/merge_instr.cpp:79-103 | shift, shift-add and shift-subtract forms multiply modulo 2^32 |
| `StrengthReduction.MergeDiv` | src/arm/opt/merge_instr.cpp:104-138 | right exactly when the destination is not the dividend (or the divisor is 2 or no power of two), constant dividends included |
| `StrengthReduction.MergeMod` | src/arm/opt/merge_instr.cpp:139-182 | right exactly when the destination overlaps no operand the sequence still needs, constant dividends included |
| `StrengthReduction.MergeMl` | src/arm/opt/merge_instr.cpp:186-200 | multiply-accumulate by a power of two as a shifted add or subtract |
| `StrengthReduction.MergeOne` | src/arm/opt/merge_instr.cpp:54-201 | one instruction: the replacement is correct if and only if the guard on overlapping registers holds, when the destination of a register-register instruction is no constant register; it takes place exactly for the instructions that have a better form, with encodable constants and without multiplication or division |
| `StrengthReduction.DivPow2Wrong` | src/arm/opt/merge_instr.cpp:108-118 | with destination equal to dividend the power-of-two division is wrong, for every such divisor above 2 |
| `StrengthReduction.ModPow2Wrong` | src/arm/opt/merge_instr.cpp:143-161 | the same for the remainder |
| `StrengthReduction.ModMagicWrong` | src/arm/opt/merge_instr.cpp:176-179 | the same for the magic remainder when the destination is the dividend or the divisor |
| `StrengthReduction.OverlapExample` | src/arm/opt/merge_instr.cpp:108-118 | a concrete division by 8 that goes wrong |
| `StrengthReduction.LegalIff` | src/arm/archinfo.hpp:106-116 | `is_legal_immediate` accepts exactly the words that are an 8-bit number rotated right by an even amount |
| `StrengthReduction.FewBitsIff` | src/arm/opt/merge_instr.cpp:79-103 | the bit counts find exactly the constants that are a power of two or a sum or difference of two |
| `StrengthReduction.MergeInstr` | src/arm/opt/merge_instr.cpp:47-204 | the whole block does what it did, r4 and r5 apart, from every state in which the constant registers hold their constants; nothing that has a better form is left, everything new can be encoded, everything else stays |
| `Barrier.StepKeeps` | src/arm/program.cpp:358-371 | every step of every thread keeps the protocol invariant, with spurious store-exclusive failures and lost reservations |
| `Barrier.RunInv` | src/arm/program.cpp:358-371 | so the invariant holds throughout every interleaving |
| `Barrier.ZeroMeansAll1` | src/arm/program.cpp:367-371 | a thread that reads 0 at the first barrier knows that all have arrived in its round |
| `Barrier.ZeroMeansAll2` | src/arm/program.cpp:367-371 | the same at the second barrier |
| `Barrier.BarrierSafety` | src/ir/opt/loop_ops.cpp:1117-1147 | in every run no thread is in the chunk of round k before all have arrived at round k, threads are at most one round apart, and each counter is minus the arrivals modulo the number of threads |
| `Barrier.FurthestIsFree` | src/arm/program.cpp:367-371 | a thread that is behind all others never has to spin |
| `Barrier.SomeThreadAdvances` | src/arm/program.cpp:358-371 | until all are done some thread can get on by itself |
| `Barrier.CanFinish` | src/ir/opt/loop_ops.cpp:1117-1147 | from every reachable state all threads can finish |
| `Barrier.StoresAreArrivals` | src/arm/program.cpp:358-371 | a thread has stored each counter as often as it has arrived there |
| `Barrier.StoresBeforeChunk` | src/ir/opt/loop_ops.cpp:1117-1147 | before its chunk of round r a thread has stored each counter r + 1 times |
| `Barrier.ChunksInOrder` | src/ir/opt/loop_ops.cpp:1117-1147 | up to any point of any run a thread has executed its chunk in exactly the rounds it has finished, once each and in order |
| `Barrier.EveryChunkOnce` | src/ir/opt/loop_ops.cpp:1117-1147 | in a complete run every thread executes its chunk once in every round, and nothing else |
| `ForkJoin.WorkerKeeps` | src/arm/program.cpp:341-356 | every step of lock, decrement and unlock keeps the invariant |
| `ForkJoin.RunInv` | src/ir/opt/loop_ops.cpp:1160-1183 | so it holds throughout every interleaving |
| `ForkJoin.JoinSafety` | src/ir/opt/loop_ops.cpp:945-972 | at most one worker is inside the critical section, and the main thread goes on only after every worker has done its decrement |
| `ForkJoin.OneExits` | src/arm/program.cpp:341-356 | a worker that holds the lock, or any while it is free, can go through its critical section and exit while the others stay |
| `ForkJoin.CanFinish` | src/ir/opt/loop_ops.cpp:1160-1183 | from every reachable state all workers can exit and the main thread can then go on |
| `Chunks.DealtAll` | src/ir/opt/loop_ops.cpp:1135-1153 | without overflow the threads execute the iterations of the loop, each once and in order |
| `Chunks.OverflowDealsWrong` | src/ir/opt/loop_ops.cpp:1137-1138 | when r - l overflows and the step is not 0, some thread executes an index outside the loop |
| `Chunks.DealtExactly` | src/ir/opt/loop_ops.cpp:1135-1153 | the exact condition for all bounds, both comparisons and any number of threads |
| `Interleaving.RunInv` | src/ir/opt/loop_ops.cpp:361-402 | in every interleaving of independent iterations each iteration has seen what it would see alone |
| `Interleaving.InterleavingsAgree` | src/ir/opt/loop_ops.cpp:361-402 | so any two complete interleavings end with the same memory |
| `Interleaving.EnoughTurns` | src/ir/opt/loop_ops.cpp:361-402 | an interleaving that gives every iteration as many turns as it needs alone is complete |
| `Interleaving.LoopOrderAgrees` | src/ir/opt/loop_ops.cpp:361-402 | when some interleaving completes, running the iterations one after the other completes too, and leaves the same memory |
| `Dominators.DomTreeBuilder.Dfs` | src/ir/opt/dom.cpp:15-25 | the traversal marks what is reachable without the removed node, in an order in which strict dominators come first |
| `Dominators.DomTreeBuilder.Mark` | src/ir/opt/dom.cpp:63-68 | marked means reachable avoiding the removed node, both directions |
| `Dominators.DomTreeBuilder.ConstructFathers` | src/ir/opt/dom.cpp:54-74 | the father of a node is the last one in preorder whose removal cuts it off |
| `Dominators.DomChain` | src/ir/opt/dom.cpp:54-74 | the dominators of a reachable block form a chain |
| `Dominators.LastCutIsImmediate` | src/ir/opt/dom.cpp:65-74 | that last node is the immediate dominator; the entry has none |
| `DominatorTree.DomTree.Dfs` | src/ir/opt/dom.cpp:27-37 | numbers and sizes give every subtree the interval of its nodes |
| `DominatorTree.IntervalTest` | src/ir/opt/dom.hpp:59-65 | comparing numbers decides who is below whom |
| `DominatorTree.AncIsDom` | src/ir/opt/dom.cpp:75-105 | in the tree of immediate dominators, ancestor means dominator |
| `DominatorTree.ConstructDomTree` | src/ir/opt/dom.cpp:54-106 | on every graph `dom` holds exactly when every path from the entry passes the node, `sdom` exactly when moreover the nodes differ, and fathers are immediate dominators (for reachable blocks) |
| `PhiPlacement.Climb` | src/ir/opt/dom.cpp:44-49 | the walk from one edge adds the target to exactly the frontiers it belongs to |
| `PhiPlacement.ConstructFrontiers` | src/ir/opt/dom.cpp:39-52 | DF(x) is the set of blocks j such that x dominates a predecessor of j and does not strictly dominate j |
| `PhiPlacement.PhiInsertion` | src/ir/opt/ssa_constrcution.cpp:25-46 | terminates with the least set that contains the frontiers of the definitions and of its own members; one phi per block |
| `PhiPlacement.DominatorOnWalk` | src/ir/opt/ssa_constrcution.cpp:25-46 | the last definition or phi block on a walk dominates its end |
| `PhiPlacement.JoinHasPhi` | src/ir/opt/ssa_constrcution.cpp:25-46 | where two disjoint walks from definitions first meet there is a phi |
| `Ssa.PhiRefAbove` | src/ir/opt/gvn.cpp:21-31 | when all arms of a phi name its own register or one other, that other one is defined in a strict dominator |
| `Ssa.ExecKeeps` | src/ir/ir.cpp:719-747 | executing an instruction keeps the defining equations of everything that dominates, and adds its own |
| `Ssa.EnterKeepsHolds` | src/ir/ir.cpp:697-718 | entering a block with its phi instructions keeps the equations of the strict dominators |
| `Ssa.EnterKeepsPhis` | src/ir/opt/gvn.cpp:21-31 | and the equality that a one-valued phi establishes |
| `Ssa.RunKeeps` | src/ir/ir.cpp:695-747 | so the equations hold at every block entry of every run of a strict program |
| `SsaRewrites.SubstKeeps` | src/ir/opt/gvn.cpp:108-115 | replacing a register by one that is defined above and has the same value keeps the program strict and every run unchanged |
| `SsaRewrites.FoldKeeps` | src/ir/opt/gvn.cpp:11-17 | so does putting a constant for a computation with that value |
| `SsaRewrites.DropKeepsRuns` | src/ir/opt/gvn.cpp:331-343 | dropping definitions nobody reads keeps, in every run, the blocks visited and the outer state |
| `ValueNumbering.UselessGives` | src/ir/scalar.hpp:81-111 | a useless computation gives the operand whose value is not known |
| `ValueNumbering.CommutesGives` | src/ir/scalar.hpp:61-79 | commutable operators commute on 32-bit words |
| `ValueNumbering.ReplaceSound` | src/ir/opt/gvn.cpp:108-115 | marking a definition and replacing its register keeps: strict form, runs, marked registers unread, use lists complete for what is still to be visited, visited code unchanged |
| `ValueNumbering.FoldSound` | src/ir/opt/gvn.cpp:186-200 | folding to a constant keeps the same |
| `ValueNumbering.TablesMove` | src/ir/opt/gvn.cpp:136-304 | table entries stay right while code elsewhere changes and further down the tree |
| `ValueNumbering.TablesInsert` | src/ir/opt/gvn.cpp:232-238 | a new entry is right, and commutable keys stay present in both orders or in neither |
| `ValueNumbering.HitOk` | src/ir/opt/gvn.cpp:178-181 | a register found in the table is kept, defined above and holds the same value |
| `ValueNumbering.OperandOk` | src/ir/opt/gvn.cpp:212-220 | the same for an operand that is the result |
| `ValueNumbering.PhiOk` | src/ir/opt/gvn.cpp:295-300 | the same for the one other register of a phi |
| `Redundancy.NotReducible` | src/ir/opt/gvn.cpp:143-263 | what the tables do not reduce is neither a computation of constants nor a useless one |
| `Redundancy.NotComputedAbove` | src/ir/opt/gvn.cpp:146-149 | what is in no table is computed nowhere above, in either order where it commutes |
| `Redundancy.CompleteStep` | src/ir/opt/gvn.cpp:136-304 | the tables hold every kept computation above the place of the walk |
| `Redundancy.CleanAtMove` | src/ir/opt/gvn.cpp:136-329 | what has been visited and kept stays free of redundancy while the walk goes on |
| `Redundancy.SubstOneOther` | src/ir/opt/gvn.cpp:21-31 | a phi with one other register stays one until it is visited |
| `Redundancy.LeftNotRedundant` | src/ir/opt/gvn.cpp:331-343 | so no redundant computation is left |
| `Redundancy.LeftPhis` | src/ir/opt/gvn.cpp:331-343 | and no phi that had one value |
| `Gvn.EraseAll` | src/ir/opt/gvn.cpp:305-328 | on leaving a node every recorded key is there to be erased (`erase == 1`) and the outer table is back |
| `Gvn.FindSameValue` | src/ir/opt/gvn.cpp:21-31 | finds the one other register named by the arms, if there is one |
| `Gvn.Context.BuildUses` | src/ir/opt/gvn.cpp:99-106 | every reader of every register is listed |
| `Gvn.Context.ReplaceSameValue` | src/ir/opt/gvn.cpp:108-115 | rewriting the listed readers rewrites the whole program |
| `Gvn.Context.ReplaceBy` | src/ir/opt/gvn.cpp:126-129 | the instruction is marked and its register replaced; tables and bookkeeping stay right |
| `Gvn.Context.FoldTo` | src/ir/opt/gvn.cpp:117-134 | a constant either hits the table or becomes a new entry of both tables |
| `Gvn.Context.Remember` | src/ir/opt/gvn.cpp:232-238 | a computation not seen before is entered, in both orders where it commutes |
| `Gvn.Context.VisitUnary` | src/ir/opt/gvn.cpp:143-172 | table hit, folding, identity, or new entry |
| `Gvn.Context.VisitBinary` | src/ir/opt/gvn.cpp:174-241 | table hit, folding, useless operation, or new entry in both orders |
| `Gvn.Context.VisitKey` | src/ir/opt/gvn.cpp:264-294 | arguments and addresses: table hit or new entry |
| `Gvn.Context.VisitIndex` | src/ir/opt/gvn.cpp:242-263 | offset 0, table hit or new entry |
| `Gvn.Context.VisitPhi` | src/ir/opt/gvn.cpp:295-300 | a phi with one other register is replaced by it |
| `Gvn.Context.VisitBlock` | src/ir/opt/gvn.cpp:137-301 | all instructions of a block: tables right at its end, extended by exactly the recorded keys |
| `Gvn.Context.Reconstruct` | src/ir/opt/gvn.cpp:331-343 | the blocks without the marked instructions |
| `Gvn.Context.Dfs` | src/ir/opt/gvn.cpp:136-329 | the walk below a node visits exactly what it dominates, restores all tables, and leaves finished code alone |
| `Gvn.GlobalValueNumbering` | src/ir/opt/gvn.cpp:346-352 | the result visits the same blocks and has the same effects, from the same values and in the same order, in every run of any length; in it no computation is made above in the same or the commuted order, none has constant operands only, none is an identity, a neutral operation or an index by constant 0, and no phi that had one value is left |
| `ParallelCopy.TreePhase` | src/ir/opt/bb_ops.cpp:188-209 | after the first loop what is left permutes a set of registers, and the moves so far are right for everything else |
| `ParallelCopy.AllReadIsPermutation` | src/ir/opt/bb_ops.cpp:200-209 | when every remaining destination is still read, the rest is a union of cycles |
| `ParallelCopy.CyclesMeet` | src/ir/opt/bb_ops.cpp:211-247 | two cycles that share a register are the same |
| `ParallelCopy.BreakCycle` | src/ir/opt/bb_ops.cpp:213-226 | breaking a cycle through a register that holds its first value moves the cycle and, when an entry was left in `ready`, overwrites that register |
| `ParallelCopy.OnlyCycle` | src/ir/opt/bb_ops.cpp:211-228 | when one cycle is left, or none is broken through `loc`, no register outside is overwritten |
| `ParallelCopy.SafeIffGood` | src/ir/opt/bb_ops.cpp:211-247 | the emitted code has no stray copy exactly when no two disjoint cycles exist of which one feeds a register outside |
| `ParallelCopy.RemovePhiCopies` | src/ir/opt/bb_ops.cpp:182-248 | for copies with distinct destinations and no self-copy, the emitted moves are the simultaneous assignment if and only if the copies are safe in that sense |
| `ParallelCopy.SimultaneousOnStates` | src/ir/opt/bb_ops.cpp:182-248 | what that means for every machine state: destinations get the old sources, everything else but the scratch register is unchanged |
| `ParallelCopy.UnsafeExample` | src/ir/opt/bb_ops.cpp:211-228 | five copies on which a stray copy is emitted |
| `LinearExpr.AddTermValue` | src/ir/opt/simplify_expr.cpp:18-29 | adding a term adds its value modulo 2^32 |
| `LinearExpr.AddScaled` | src/ir/opt/simplify_expr.cpp:51-62 | adding a multiple adds the multiple of the value, unless the expression has gone bad, which it does not with up to twenty terms together |
| `LinearExpr.Multiplied` | src/ir/opt/simplify_expr.cpp:63-73 | a product that is not bad has the product of the values, and a product with a constant is not bad |
| `LinearExpr.ExprOf` | src/ir/opt/simplify_expr.cpp:417-489 | the expression of an instruction has the value the instruction computes, in every state the block can be in, mentions what the expressions of its operands mention, and is good whenever these are, sums have few terms and products a constant |
| `LinearExpr.BuildExprs` | src/ir/opt/simplify_expr.cpp:399-505 | so do the expressions of all instructions of a block; each mentions only registers defined before, or itself; tree sizes follow from those of the operands and the use counts |
| `LinearExpr.AbsTimes` | src/ir/opt/simplify_expr.cpp:77-79 | grouping by absolute coefficient is right modulo 2^32, also for INT_MIN |
| `LinearExpr.Grouped` | src/ir/opt/simplify_expr.cpp:75-79 | the groups have the value of the expression |
| `LinearExpr.PositiveFirst` | src/ir/opt/simplify_expr.cpp:85-89 | moving a positive term to the front keeps the sum |
| `LinearExpr.EmitTerms` | src/ir/opt/simplify_expr.cpp:90-108 | the code for one group leaves its unscaled sum |
| `LinearExpr.EmitGroup` | src/ir/opt/simplify_expr.cpp:84-117 | the code after each group leaves the sum so far |
| `LinearExpr.LastDefGives` | src/ir/ir.hpp:844-854 | `set_last_def` puts the sum into the result register and changes no other visible one |
| `LinearExpr.GenIR` | src/ir/opt/simplify_expr.cpp:74-123 | the emitted code leaves c + sum of a*x modulo 2^32 in the result register, for all coefficients, reads only registers of the expression and new ones, and has at most four instructions a term and one more |
| `LinearExpr.EndConsistent` | src/ir/opt/simplify_expr.cpp:498-505 | at its end a block in single-assignment form satisfies all its definitions as equations |
| `LinearExpr.BlockKeeps` | src/ir/opt/simplify_expr.cpp:507-536 | with any of its definitions replaced by the code for their expressions and any unread ones dropped, the block holds the same values in all other old registers after every definition |
| `LinearExpr.ExactStep` | src/ir/opt/simplify_expr.cpp:514-533 | replacing one definition keeps the use counts exact |
| `LinearExpr.SimplifyBlock` | src/ir/opt/simplify_expr.cpp:498-538 | the walk from the end of a block: all registers read outside hold the same values, from every state; use counts stay exact, other instructions stay, new registers get new numbers; no definition that may go is left unread, and every good one whose tree is larger than its code can be has given way to shorter code |
| `PolyExpr.MulMonoVal` | src/ir/opt/simplify_expr.cpp:313-320 | adding exponents multiplies values |
| `PolyExpr.AddMonoVal` | src/ir/opt/simplify_expr.cpp:155-168 | adding a product adds its value modulo 2^32 |
| `PolyExpr.AddMonoSmall` | src/ir/opt/simplify_expr.cpp:155-168 | an expression that has not given up keeps fewer than five products of fewer than four factors, none with coefficient 0 |
| `PolyExpr.AddPoly` | src/ir/opt/simplify_expr.cpp:170-179 | adding a multiple of a polynomial adds that multiple of its value, coefficient by coefficient, and never gives up when both have at most four products together |
| `PolyExpr.AddProduct` | src/ir/opt/simplify_expr.cpp:141-153 | `set_mul` adds the product of the values, and does not give up when there is room for all products of terms |
| `PolyExpr.MultiplyBy` | src/ir/opt/simplify_expr.cpp:339-346 | `mul_eq` multiplies the values |
| `PolyExpr.MayGt` | src/ir/opt/simplify_expr.cpp:348-360 | the answer is no exactly when neither operand is bad and they differ in the constant only, by a positive word; the difference is then that constant, whatever the registers hold |
| `Dependence.MaybeEq` | src/ir/opt/simplify_expr.cpp:258-311 | answers no exactly when neither expression has gone bad, the polynomials differ in the constant only, every product is at most linear in the induction variable and otherwise invariant, and the constants are closer than the step |
| `Dependence.LinearAt` | src/ir/opt/simplify_expr.cpp:258-311 | a polynomial linear in the induction variable is its value at 0 plus a multiple |
| `Dependence.ValueDiff` | src/ir/opt/simplify_expr.cpp:258-311 | the distance of two such indexes in two iterations |
| `Dependence.GcdSelf` | src/ir/opt/simplify_expr.cpp:181-184 | the gcd collected over the terms is the step |
| `Dependence.SeparateIff` | src/ir/opt/simplify_expr.cpp:258-311 | what the test accepts, for a step of either sign: the polynomials differ in the constant only, every product is constant or at most linear in the induction variable, which occurs, and the wrapped difference of constants passes the comparison with the step |
| `Dependence.NeverHitsIff` | src/ir/opt/simplify_expr.cpp:258-311 | a distance avoids all non-zero multiples of a number exactly when it is 0 or no multiple, and not 0 when the number is 0 |
| `Dependence.SeparateSound` | src/ir/opt/simplify_expr.cpp:258-311 | for every step but 0, indexes judged separate differ in any two distinct iterations if and only if the difference of the constants avoids the non-zero multiples of step times coefficient |
| `Dependence.PositiveStep` | src/ir/opt/simplify_expr.cpp:258-311 | for a positive step that means that the coefficient of the induction variable is not 0 or the constants differ |
| `Dependence.UnitStep` | src/ir/opt/simplify_expr.cpp:258-311 | with step 1, which all loops that are transformed have, the constants are equal and only the coefficient counts |
| `Dependence.OwnTermLead` | src/ir/opt/simplify_expr.cpp:258-311 | that coefficient is not 0 when the variable occurs only as its own product |
| `Dependence.InvariantFactorMissed` | src/ir/opt/simplify_expr.cpp:281-303 | two accesses judged separate that meet when an invariant factor is 0 |
| `Dependence.NegativeStepMissed` | src/ir/opt/simplify_expr.cpp:258-311 | two accesses judged separate that meet when the step is negative |
| `Dependence.AddrMaybeEq` | src/ir/opt/simplify_expr.cpp:381-397 | the answer is no exactly when both addresses are known and the bases differ, or the numbers of dimensions are equal and some dimension is separate while no smaller one is missing from the other side; dimensions whose index has gone bad are passed over |
| `Dependence.OffsetsUnique` | src/ir/opt/simplify_expr.cpp:381-397 | indexes within their dimensions are determined by the offset |
| `LoopParallel.Dependent` | src/ir/opt/loop_ops.cpp:361-402 | reports a dependence exactly when there are too many pairs of accesses or some store is not separate from a load or from a later store; with fewer than ten accesses only the latter counts |
| `LoopParallel.SeparatedNeverMeet` | src/ir/opt/loop_ops.cpp:352-360 | separate accesses of two distinct iterations have different addresses, whatever the registers defined in the loop hold, those of inner loops included |
| `LoopParallel.UnitTrusted` | src/ir/opt/loop_ops.cpp:352-360 | with step 1 the conclusions of the test are right exactly in the runs in which every index that separates has a coefficient of the induction variable other than 0 |
| `LoopParallel.AffineTrusted` | src/ir/opt/loop_ops.cpp:352-360 | the conclusions of the test hold in every run when the induction variable is only a term of its own and constants do not overflow |
| `LoopParallel.IndependentIff` | src/ir/opt/loop_ops.cpp:391-401 | iterations of a loop, nested or not, without reported dependence are independent if and only if no store meets itself in another iteration |
| `LoopParallel.SelfChecked` | src/ir/opt/loop_ops.cpp:391-401 | comparing every store with itself too would leave no condition |
| `LoopParallel.RowsApart` | src/ir/opt/loop_ops.cpp:361-402 | in a nest of two loops the row index alone separates the element a[i][j] from itself |
| `LoopParallel.ParallelIsSequential` | src/ir/opt/loop_ops.cpp:361-402 | no dependence reported, no store meeting itself and confined iterations: whenever an interleaving completes, the loop order completes with the same memory |
| `LoopParallel.SelfPairMissed` | src/ir/opt/loop_ops.cpp:396-399 | a store to a fixed element is not reported |
| `LoopSums.TotalIs` | src/ir/opt/loop_ops.cpp:1390-1412 | the sum of a step of degree one over a range, with triangular numbers |
| `LoopSums.SCnp12Is` | src/arm/program.cpp:398-406 | `__s_c_np1_2` returns x(x+1)/2 modulo 2^32 for every 32-bit x |
| `LoopSums.Calc32Is` | src/ir/opt/loop_ops.cpp:1390-1412 | `calc` is the sum up to x, up to a constant, modulo 2^32 |
| `LoopSums.Iterate32Is` | src/ir/opt/loop_ops.cpp:1318-1415 | the loop adds up to the sum modulo 2^32 |
| `LoopSums.ClosedValue` | src/ir/opt/loop_ops.cpp:1413-1415 | what the closed form computes modulo 2^32, for all bounds and values |
| `LoopSums.ClosedIff` | src/ir/opt/loop_ops.cpp:1413-1415 | closed form and loop agree if and only if i1 is not INT_MIN or the coefficient of the counter is even |
| `LoopSums.ReplacedIff` | src/ir/opt/loop_ops.cpp:1352-1436 | the same with the guard of the replacement, for loops with < and <= and empty ranges |
| `LoopSums.DownwardIff` | src/ir/opt/loop_ops.cpp:1235-1436 | a loop with > or >= that ends at once is replaced rightly if and only if the guard fails or the sum, with the half word that INT_MIN costs, is a multiple of 2^32 |
| `LoopSums.DownwardSubtracted` | src/ir/opt/loop_ops.cpp:1301-1307 | the same for repeated subtraction |
| `LoopSums.DownwardDivided` | src/ir/opt/loop_ops.cpp:1280-1287 | the same for repeated division |
| `LoopSums.DownwardModular` | src/ir/opt/loop_ops.cpp:1338-1415 | the same for sums with a modulus |
| `LoopSums.DownwardWrong` | src/ir/opt/loop_ops.cpp:1431-1436 | a downward loop that is replaced wrongly |
| `LoopSums.SubtractedIs` | src/ir/opt/loop_ops.cpp:1301-1307 | repeated subtraction is one multiplication modulo 2^32 |
| `LoopSums.SubtractModIff` | src/ir/opt/loop_ops.cpp:1305-1307 | for `s = (s - c) % m` from any word the replacement is right if and only if the word it leaves is reduced, congruent to the exact total, and 0 or of the sign of the total with the first remainder taken (the loop itself not overflowing) |
| `LoopSums.SubtractModTotal` | src/ir/opt/loop_ops.cpp:1305-1307 | when first difference and total fit a word: right if and only if the total is reduced, and the first difference is reduced or not on the same side of 0 |
| `LoopSums.SubtractModWrong` | src/ir/opt/loop_ops.cpp:1305-1307 | one iteration on which it is wrong |
| `LoopSums.DivPow2Is` | src/arm/program.cpp:425-439 | `__divpow2` is the truncated quotient by 2^k for k up to 31 |
| `LoopSums.IterateDivIs` | src/ir/opt/loop_ops.cpp:1272-1287 | repeated division by 2^k is one division |
| `LoopSums.DivLoopIff` | src/ir/opt/loop_ops.cpp:1280-1287 | the replacement is right exactly when the shift count does not wrap to a small one that matters |
| `LoopSums.DivModIs` | src/ir/opt/loop_ops.cpp:1272-1287 | `s = (s / d) % m`: after the first iteration the modulus has no effect |
| `LoopSums.DivModIff` | src/ir/opt/loop_ops.cpp:1280-1287 | for every count the emitted `__divpow2` is right if and only if what the first remainder takes away is shifted out by the other iterations, or, for a shift that wraps, the wrapped shift leaves 0 |
| `LoopSums.ModularWords` | src/arm/program.cpp:373-396 | `__umulmod`, `__u_c_np1_2_mod` and `__umod` compute product, triangular number and sum modulo m |
| `LoopSums.FixModIs` | src/arm/program.cpp:408-416 | `__fixmod` gives the non-negative remainder |
| `LoopSums.TriangleMod` | src/arm/program.cpp:384-396 | reducing x first shifts x(x+1)/2 by a half multiple of m |
| `LoopSums.CalcMIs` | src/ir/opt/loop_ops.cpp:1390-1412 | `calc` with a modulus, for a reduced argument: the invariant values count as unsigned words |
| `LoopSums.IterateMIs` | src/ir/opt/loop_ops.cpp:1318-1415 | the modular loop ends with a remainder, of either sign, congruent to the sum, when nothing overflows |
| `LoopSums.TurnsOnce` | src/ir/opt/loop_ops.cpp:1318-1415 | the steps of such a loop change their sign at most once |
| `LoopSums.LastRemainderIs` | src/ir/opt/loop_ops.cpp:1318-1415 | the last remainder, with its sign, from the sums of the steps before and after that change |
| `LoopSums.ClosedMIs` | src/ir/opt/loop_ops.cpp:1413-1415 | what the modular closed form computes, for every m and all invariant values |
| `LoopSums.ModularExact` | src/ir/opt/loop_ops.cpp:1338-1415 | it is right if and only if the last remainder is not negative and m divides what reading the values as unsigned and reducing the bounds add to the sum |
| `LoopSums.ModularRising` | src/ir/opt/loop_ops.cpp:1338-1415 | when the start and the first and last step are not negative only the divisibility counts |
| `LoopSums.ModularIff` | src/ir/opt/loop_ops.cpp:1338-1415 | for values that are not negative: exactly when m is odd, or the coefficient of the counter is even, or the bounds are an even number of moduli apart |
| `LoopSums.NegativeValueWrong` | src/ir/opt/loop_ops.cpp:1338-1415 | one iteration with a negative value on which it is wrong |
| `ControlFlow.LeafOk` | src/ast/ast_visitor.cpp:91-121 | a leaf test branches to its two holes |
| `ControlFlow.AndOk` | src/ast/ast_visitor.cpp:1362-1372 | patching true holes of the left operand to the right one compiles `&&` with short circuit |
| `ControlFlow.OrOk` | src/ast/ast_visitor.cpp:1401-1411 | the same for `||` with false holes |
| `ControlFlow.NotOk` | src/ast/ast_visitor.cpp:1060-1063 | swapping the lists compiles `!` |
| `ControlFlow.RightVisited` | src/ast/ast_visitor.cpp:1362-1372 | after visiting the right operand every open hole is in exactly one list, once |
| `ControlFlow.Visitor.VisitCond` | src/ast/ast_visitor.cpp:1362-1411 | for every nesting of tests the code reaches a true hole exactly when the condition is true, a false hole exactly when it is false, performing the same tests in the same order |
| `ControlFlow.IfVisited` | src/ast/ast_visitor.cpp:682-700 | patched code of `if` runs as the statement does |
| `ControlFlow.IfElseVisited` | src/ast/ast_visitor.cpp:702-727 | the same for `if` with `else` |
| `ControlFlow.WhileRuns` | src/ast/ast_visitor.cpp:729-754 | a loop of blocks runs as `while` does, for every number of iterations, with break and continue |
| `ControlFlow.WhileVisited` | src/ast/ast_visitor.cpp:729-754 | patched code of `while` runs as the statement does |
| `ControlFlow.LeaveVisited` | src/ast/ast_visitor.cpp:756-770 | break and continue jump to the innermost target and go on in an unreachable block |
| `ControlFlow.Visitor.VisitStmt` | src/ast/ast_visitor.cpp:682-770 | succeeds exactly when break and continue are inside loops; then the code does what the big-step semantics says and leaves no hole open |
| `ControlFlow.Visitor.VisitBody` | src/ast/ast_visitor.cpp:682-770 | the same for a whole body, for every initial state |
| `Memo.HashIsSlot` | src/ir/opt/call_graph.cpp:402-403 | the hash is the non-negative remainder and within the table |
| `Memo.FreshTable` | src/ir/opt/call_graph.cpp:375-385 | the zeroed table is valid |
| `Memo.ReturnsUnique` | src/ir/opt/call_graph.cpp:323-431 | the function has at most one value per argument |
| `Memo.StoreKeeps` | src/ir/opt/call_graph.cpp:412-415 | storing key and value of one call keeps the table valid, whatever was in the slot |
| `Memo.Cached.EvalBody` | src/ir/opt/call_graph.cpp:323-431 | evaluating the body with cached recursive calls gives what the function gives |
| `Memo.Cached.Call` | src/ir/opt/call_graph.cpp:394-430 | from every valid table the cached function returns what the function returns and leaves a valid table, recursive calls overwriting slots included; what the table knows is not computed again, and after a call its slot holds argument and result |
| `EliminateBranch.NegatedHolds` | src/arm/opt/eliminate_branch.cpp:100-100 | `logical_not` negates the outcome for all flags |
| `EliminateBranch.Eliminate` | src/arm/opt/eliminate_branch.cpp:76-105 | performs one applicable change, or none exactly when there is none; so no conditional branch over up to four plain operations is left alone |
| `EliminateBranch.StepMatches` | src/arm/opt/eliminate_branch.cpp:76-105 | one step of the old code is zero or more steps of the new |
| `EliminateBranch.RunsMatch` | src/arm/opt/eliminate_branch.cpp:76-105 | runs of any length correspond |
| `EliminateBranch.EliminateKeepsRuns` | src/arm/opt/eliminate_branch.cpp:76-105 | the new code ends with a memory if and only if the old code does |
| `DeadCode.KeptLive` | src/arm/opt/dce.cpp:21-33 | what the backward pass holds live is live |
| `DeadCode.KeptFlags` | src/arm/opt/dce.cpp:22-30 | flags are held live only when read before being set |
| `DeadCode.BlockAgrees` | src/arm/opt/dce.cpp:18-34 | a pruned block ends with the same outer state and the same live-out registers |
| `DeadCode.Dce` | src/arm/opt/dce.cpp:16-35 | every block is pruned with exact live-out sets |
| `DeadCode.KeptAgain` | src/arm/opt/dce.cpp:18-34 | a second pass over a block drops nothing |
| `DeadCode.NothingIdle` | src/arm/opt/dce.cpp:18-34 | every instruction left has an effect, sets flags that what is left reads, or defines a register that is special or live in what is left |
| `DeadCode.DceKeepsRuns` | src/arm/opt/dce.cpp:16-35 | runs of any length visit the same blocks with the same outer state and live registers, when no block reads flags it has not set |

## Left out

- Floating point: no exact meaning here. This leaves out the float branches of value numbering and of the closed forms,
  float arguments of cached functions, and SIMD.
- Weak memory and system calls: `ldrex`/`strex` are steps under sequential consistency with reservations that may be lost
  at any time; `clone` and `waitid` are the start and the end of a thread.
- Spill rewriting: the rewritten function is not modelled; a run of the allocator ends there.
- PickCheapest: quotients are exact where the source rounds to doubles. Candidates more than twelve loops apart are
  compared by depth alone, so that the least cost is promised only when there are none.
- Score: only the length of the score table is stated, because every choice among free colours is proper; that the best
  score wins is stated by `PickColor`.
- Statistics of the allocators (`spill_cnt`, `move_eliminated`, `callee_save_used`).
- Tables and use lists of value numbering: seven tables keyed by kind of computation are one map keyed by the
  computation, and the use lists are a map instead of a vector. `SHL` is never emitted and left out; division by 0 while
  folding, undefined in the source, gives 0 as in the interpreter. A phi instruction may come to have one value after it
  has been visited, when an arm from further down is replaced; it then stays, in the source too. The
  assertions of the scopes are statements here, so builds without assertions, in which the source would not erase at
  all, are not modelled.
- GlobalValueNumbering: assumes strict SSA form, all blocks reachable and no phi in the entry block, as the passes before
  it leave the function; that the result is again in strict form is proved up to the final removal of marked code.
- Renaming of variables to SSA form after phi insertion.
- ConstructFrontiers, PhiInsertion: all blocks are taken to be reachable.
- Memo: on the path for argument 0 the source uses a register defined on the other path as the hash; the hash is treated
  as an expression of the argument on all paths.
- SimplifyBlock: one block; what other instructions read, phi instructions included, is counted as read outside. A
  register of the block that a phi instruction above its definition reads keeps itself as its expression in the source;
  here it gets the full one. Recursion over definitions of other blocks ends at the register itself or its constant, as
  in the source.
- NothingIdle: within one block; what is live at its end is taken from the function before the pass, so a definition
  needed only by dead code of a later block stays for another round, in the source too.
- Dependence: index arithmetic is over unbounded integers where the source relies on signed overflow being undefined; a
  difference of constants that does not fit a word is excluded by a precondition. Ranges (`EqContext::RANGE`) have no
  user in the source.
- Dependent: loops with calls or with several loop variables, for which the source reports a dependence at once. The
  source does not look at the operator of the induction variable, whose step is added here; loops with another operator
  are not transformed, because `get_ilr` demands an addition.
- ParallelIsSequential: that the conclusions of the test hold in the run (`TestTrusted`) is a condition, because they may
  fail when an invariant factor is 0 (`InvariantFactorMissed`); `AffineTrusted` and `UnitTrusted` say when they hold.
- ReplacedIff: the loop is its finite range of iterations. With `<=` and a last bound of INT_MAX the loop of the source
  never ends, and here it ends after that iteration; `Chunks.End` is likewise the bound plus one, not wrapped.
- DownwardIff: loops with `>` or `>=` whose condition holds at the start would count up to an overflow, which is
  undefined in the source; only those that end at once are decided.
- Term: the counter occurs at most once in a product. The source bounds its power by `std::max(max_pow, 1)`, which never
  exceeds 1, so a square reaches `assert(v0 == 1)` and stops the compiler.
- SubtractModIff, SubtractModTotal, DivModIff: positive moduli, the remainder by a negative one being the same; the loop
  itself does not overflow, which would be undefined.
- ModularExact, IterateMIs: no sum of the loop overflows, which would be undefined.
- MergeOne: when a register-register instruction writes a register that the table says is constant, the failing half is
  stated only for left operands that are not constant; the code generator writes such registers once, with their constant.
- `_unroll_simple_for_loop`, the copying of loop bodies in `loop_parallel`, and the choice of loops worth parallelising.
- ControlFlow: return statements, declarations and expressions with values; leaves of conditions are tests named by
  number. Conditions used as values (`mode == normal`) are not modelled.
- EliminateBranch: blocks are not empty (the source takes `insts.back()`), calls and returns inside a predicated block are
  excluded by `ok` as in the source, and removal of empty blocks is another pass. Instructions honour their condition.
- DceKeepsRuns: flags are not live across blocks, which is what the code generator produces.
- Constant register tables of the back end (`constant_reg`) are given, not derived.
- The lexer and parser, symbol tables, constant evaluation, array layout, printing and assembly text, command-line and
  per-input switches.
