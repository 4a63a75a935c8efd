# The mid-level optimizer over LightIR, verified in Dafny

This project models the optimizer passes that run over LightIR control-flow graphs and
proves what they promise. It covers

- **SSA construction**: the dominator pass (post-order numbering, immediate dominators by
  iteration, dominance frontiers, dominator tree) and Mem2Reg (phi placement by a growing
  worklist, renaming by a recursive walk with one stack per variable, removal of allocas).
  The main theorem, `Mem2RegPass.PromoteToRegisters`, says exactly when the pass gets through
  without reading an empty stack, and that then the result is in SSA form and goes through
  the same blocks with the same memory and output and returns the same value, on every
  machine, for all arguments and for any number of steps, iff every load of an integer or
  float slot is reached by a store to it. All conditions are about the function before the
  pass; a function that stores its slots before it loads them meets them.
- **Loop discovery**: Tarjan's search finds exactly the strongly connected components of
  two blocks or more, and peeling their bases yields nested loops that catch every cycle and
  are exactly the components left by the bases around them; the base is null iff a component
  has no entry.
- **Liveness**: the iteration over pairs (value, incoming block) ends with the least
  solution, which is what the paths of the graph say, and values that are not live do not
  influence the rest of a run, under guards that hold exactly where the use sets are complete.
- **Dead code elimination** and **constant-branch folding**: both keep every run, the former
  for as long as the calls made on it to functions without effect return.
- **The inliner's recursion check and scan**: the scan ends and leaves exactly the calls of
  the full expansion.
- **Use lists**: what replacing all uses of a value changes, when it changes too much, and
  that throughout the renaming walk it is the replacement by value.

## How the model reads the source

- Blocks are positions in the function's block list; the entry is block 0. Successor and
  predecessor lists are sequences that mirror each other and may list a block twice.
- An instruction is its identity and its operation; operands refer to identities. Globals
  and other named values that no instruction defines are read from the environment like
  arguments. Operators, loads, stores and calls on the rest of memory are uninterpreted
  total functions of a `Machine`, so theorems hold for every interpretation of them.
- A phi reads its pair for the block control came from, all phis of a block at once; a
  missing pair reads as undef, as the comment at `src/optimization/Mem2Reg.cpp:139` says.
- A promoted stack slot is a cell of the frame named by its alloca. Executing the alloca
  again does not reset it, and a cell that was never stored reads as undef. An access to a
  slot that is not allocated above it has no meaning: a function with one counts neither as
  SSA form nor as behaving like another.
- An address is a stack slot or any other pointer. The source leaves globals and geps alone
  and promotes every other pointer; code generation makes no others than stack slots.
- Iteration over an unordered set, and over a `std::set` of pointers, takes the elements in
  any order; every theorem holds for all orders. The one order that matters, that of a
  block's children in the dominator tree (`include/optimization/Dominators.h:55`), follows
  the addresses of the blocks, which are a parameter of the renaming walk.
- Fields the source keeps in node objects (`index`, `lowlink`, `onStack`, `idom_`) are maps
  from blocks, and a null entry or an index of -1 is a missing key. The null key that
  `create_dom_tree_succ` may fill for an unreachable block is not kept.
- The variable stacks belong to one function's walk: the source's global map starts each
  function with empty stacks, and its keys are allocas of one function.
- Identities of new phis come from a parameter that is above every identity in use.
- A run-time assertion of the source, a read of an empty stack or of a null base, or a read
  past the operands of an instruction is a result `ok == false`.

What the passes rely on and do not establish is a precondition. For Mem2Reg: the input has
no phis yet, as code generation leaves it; every predecessor of a reachable block is
reachable and the entry has no predecessor
(an `if` without `else` breaks the first,
`src/cminusfc/cminusf_builder.cpp:268-298`; `Frontiers.IfWithoutElseRunsOn` shows that a
runner loop then has no end, and `Frontiers.AllRunnersEndIff` when all of them end); promoted slots are used as addresses only and allocated above every
access; operands are defined above their uses. Nothing is assumed about where slots are
stored, nor, for the loop search, about which blocks are reachable.

Where code and intent differ, the model follows the code and the exact condition is proved:
`GivesUp.NoneStuckIff` for the walk, which aborts at `src/optimization/Mem2Reg.cpp:135` or
reads past an empty vector at line 107 depending on where the blocks lie in memory
(`PromotionCases.OrderDecides`; `GivesUp.EveryOrderIff` says when it never does);
`SsaForm.SlotsStayIff` for a load of a variable that is never pushed, which line 105 keeps
while `remove_alloca` deletes its slot (`PromotionCases.UnstoredReturnLosesSlot`);
`LoopSearch.LoopSearch.Run` for the null base of a loop that no edge enters
(`LoopNest.CutOffLoopIsNotEntered`);
`ActiveVars.ActiveVars.Run` for the liveness pass, which reads the third operand of every phi
(`src/optimization/ActiveVars.cpp:85`) though Mem2Reg leaves phis with one pair
(`PromotedLiveness.AnalyseTwoBranches`; `PromotedLiveness.PromoteAndAnalyse` says when both
passes get through);
`UseSets.CompleteIff` for the use sets (`src/optimization/ActiveVars.cpp:48-136` looks at two
phi pairs, enters the instruction in `def` first, skips operand 1 of a three-operand gep and
records operand 0 instead of operand 1 of a two-operand one), with
`LivenessSound.GepIndexIsLost` as the function that shows liveness wrong outside it;
`ParentLoop.AnswerIsRightIff` for the lookup of the next outer loop, which a sibling loop in
front hides (`ParentLoop.SiblingHidesParent`);
`BranchFold.DroppedLeavesNoneIff` for the pair loop that skips a pair after erasing one; and
`UseLists.OthersKeptIff` for use lists, where a stale record makes a replacement overwrite a
slot that holds something else.

## Files

`Graphs`, `ControlFlow`, `Ir` and `Wrappers` are shared; `IrCases` runs the documentation's
examples. `DomTree`, `IdomFixpoint`,
`PostOrder`, `Frontiers` and `Dominators` are the dominator pass. `Scopes`, `Promotion`,
`MeaningPreserved`, `Renaming`, `RenameWalk`, `PhiPlacement`, `PlacedPhis`, `ReachingStores`,
`VisitOrder`, `Mem2Reg`, `SsaForm`, `PhiPairs`, `GivesUp`, `Mem2RegPass` and `PromotionCases`
are the promotion. `Tarjan`, `LoopNest`, `ParentLoop` and `LoopSearch`; `Liveness`, `UseSets`,
`LivenessSound`, `LivePaths`, `ActiveVars` and `LivenessCases`; `DeadCode`, `NeededCode` and `DeadElimi`; `BranchFold`;
`CallCycles` and `FuncInline`; `UseLists` and `UseRuns` are one pass each; `CodeUses` gives
the code its use lists, for `Mem2Reg`, and `PromotedLiveness` is the promotion followed by
liveness.

## Model

| member | source | states |
|---|---|---|
| PostOrder.VisitFinishes | src/optimization/Dominators.cpp:74-83 | a depth-first visit of a fresh block numbers exactly the blocks it meets first, in consecutive order with the block itself last, and leaves them with all their successors met |
| PostOrder.NumberingComplete | src/optimization/Dominators.cpp:65-83 | after the visit from the entry exactly the reachable blocks are numbered, 0 to n-1 with the entry highest, and every other block has a predecessor with a higher number |
| Dominators.Dominators.PostOrderVisit | src/optimization/Dominators.cpp:74-83 | the recursive visit computes the specified depth-first numbering and ends |
| Dominators.Dominators.CreateReversePostOrder | src/optimization/Dominators.cpp:65-72 | the order lists every reachable block once, by falling number, and each non-entry block has a higher-numbered predecessor |
| Dominators.Dominators.Intersect | src/optimization/Dominators.cpp:130-143 | two-finger intersection ends at the block whose idom chain is exactly what the two chains share |
| Dominators.Dominators.NewIdom | src/optimization/Dominators.cpp:102-119 | the first placed predecessor exists, and intersecting with the other placed ones gives the block whose chain is the intersection of the chains of all placed predecessors |
| Dominators.Dominators.HandleBlock | src/optimization/Dominators.cpp:97-124 | one block of a sweep keeps the pass invariant; a parent only ever moves up the tree |
| Dominators.Dominators.Sweep | src/optimization/Dominators.cpp:96-124 | a sweep that reports no change left the tree as it was, with every block at the meet of its predecessors; after one that reports a change the total distance of the parents to the root is smaller |
| Dominators.Dominators.CreateIdom | src/optimization/Dominators.cpp:85-127 | the iteration ends, with every reachable block placed at the meet of its predecessors and every strict dominator still above |
| IdomFixpoint.SweepHasPlacedPred | src/optimization/Dominators.cpp:102-110 | every non-entry block of the order has a placed predecessor when its turn comes, so the assertion never fires |
| IdomFixpoint.PassStepSlack | src/optimization/Dominators.cpp:112-123 | when a parent changes, the distance of the parents to the root strictly falls, so the iteration ends |
| IdomFixpoint.ChainDominates | src/optimization/Dominators.cpp:85-127 | at the fixpoint every block of the idom chain lies on every walk from the entry |
| IdomFixpoint.FixpointIsDominance | src/optimization/Dominators.cpp:85-127 | at the fixpoint the idom chain of a reachable block is exactly its set of dominators, the blocks on every walk from the entry |
| Frontiers.ParentIsImmediateDominator | src/optimization/Dominators.cpp:85-127 | the computed parent strictly dominates the block and every other strict dominator dominates the parent |
| Frontiers.FrontierIsExact | src/optimization/Dominators.cpp:145-158 | the runners add b to the frontier of x iff x dominates a predecessor of b and does not strictly dominate b |
| Frontiers.RunnerEndsIff | src/optimization/Dominators.cpp:150-154 | the runner started at a predecessor of a reachable join meets the join's parent iff that predecessor is reachable; otherwise it runs on null forever |
| Frontiers.AllRunnersEndIff | src/optimization/Dominators.cpp:145-158 | all runner loops end iff no reachable block with two listed predecessors or more has an unreachable one |
| Frontiers.IfWithoutElseRunsOn | src/cminusfc/cminusf_builder.cpp:268-298 | on the blocks of an `if` without `else` some runner loop does not end: the unused else-block jumps to the block where control meets |
| Dominators.Dominators.RunFrom | src/optimization/Dominators.cpp:150-154 | the runner loop ends and adds the join to the frontiers of exactly the blocks on the chain from the predecessor below the join's parent |
| Dominators.Dominators.MarkJoin | src/optimization/Dominators.cpp:148-156 | a block with two listed predecessors or more is added by the runners of all of them, any other block by none |
| Dominators.Dominators.CreateDominanceFrontier | src/optimization/Dominators.cpp:145-158 | after the loop every frontier holds exactly the joins whose runners pass the block |
| Dominators.Dominators.CreateDomTreeSucc | src/optimization/Dominators.cpp:160-169 | the child sets list every placed non-root block under its parent and nothing else |
| Dominators.Dominators.Run | src/optimization/Dominators.cpp:5-26 | one function's dominator tree, frontiers and child sets, all as specified |
| PhiPlacement.CollectStores | src/optimization/Mem2Reg.cpp:29-55 | the variables that have a store kept by the filter, and for each stored variable exactly its storing blocks |
| PhiPlacement.StoresAreLive | src/optimization/Mem2Reg.cpp:44-52 | when slots are used as addresses only, the filter on killed values drops no stored variable |
| PhiPlacement.PhiPlacer.VisitFrontier | src/optimization/Mem2Reg.cpp:65-77 | one worklist entry: its frontier blocks have their phi afterwards and entered the worklist, and no phi was placed that the iterated frontier does not ask for |
| PhiPlacement.PhiPlacer.PlaceFor | src/optimization/Mem2Reg.cpp:59-78 | the worklist that grows while it is scanned ends, with phis for the variable at exactly the iterated dominance frontier of its storing blocks, the least set closed under frontiers |
| PhiPlacement.PhiPlacer.PlaceAll | src/optimization/Mem2Reg.cpp:57-79 | every live variable gets its iterated frontier and no other variable a phi |
| PhiPlacement.PhiPlacer.AddPhiTo | src/optimization/Mem2Reg.cpp:70-75 | one empty phi with a fresh identity in front of a block that has none for the variable |
| PhiPlacement.PhiPlacer.GeneratePhi | src/optimization/Mem2Reg.cpp:27-80 | every variable has exactly one empty phi in each block of the iterated frontier of its stores, in front of the otherwise unchanged code |
| ReachingStores.PlacedIffJoin | src/optimization/Mem2Reg.cpp:57-79 | for reachable blocks the placed phis are those of the textbook iterated dominance frontier: the blocks in every set that holds the frontier of the storing blocks and of its own members |
| ReachingStores.JoinIsLed | src/optimization/Mem2Reg.cpp:57-79 | a path from a store of the variable leads to every join of its iterated frontier |
| Scopes.ScopeIsAbove | src/optimization/Mem2Reg.cpp:82-174 | whatever is in scope at a point of the walk is an argument or defined above the point in the dominator tree |
| Scopes.ScopeTidy | src/optimization/Mem2Reg.cpp:82-147 | along every chain of the tree no name on top of a stack and no replacement is itself a replaced load |
| Scopes.ReplacedKnown | src/optimization/Mem2Reg.cpp:96-111 | what a promoted load was replaced by is the same wherever the load is in scope |
| Scopes.EdgeConsistency | src/optimization/Mem2Reg.cpp:57-147 | along an edge p to s without a phi for v in s, the name of v at the end of p is the name at the end of the immediate dominator of s |
| RenameWalk.StackedNamesAreAbove | src/optimization/Mem2Reg.cpp:86-124 | every name on a stack is defined strictly above the current point in the dominator tree, and none is a promoted load |
| Renaming.CodeReplaces | src/optimization/Mem2Reg.cpp:105-109 | replacing all uses of a promoted load keeps the code equal to its rendering with the larger substitution |
| Renaming.CodeFills | src/optimization/Mem2Reg.cpp:126-142 | appending the top names to a successor's phis fills exactly the pairs of that edge |
| Renaming.CodeDeletes | src/optimization/Mem2Reg.cpp:170-173 | deleting the listed instructions of a block removes the replaced loads and the promoted stores and nothing else |
| Renaming.PopsEnd | src/optimization/Mem2Reg.cpp:149-168 | after popping once per phi and store of the block every stack is what it was before the block |
| Mem2Reg.Renamer.PushPhis | src/optimization/Mem2Reg.cpp:86-94 | after step 3 the stack tops are the names after the phis of the block |
| ReachingStores.PathIsNamed | src/optimization/Mem2Reg.cpp:86-142 | wherever a path from a store of the variable arrives, the variable has a name |
| ReachingStores.NamedIff | src/optimization/Mem2Reg.cpp:86-124 | before an instruction a variable has a name iff some path from a store of it arrives there, iff a store or a join of its iterated frontier is above in the dominator tree or earlier in the block |
| RenameWalk.LoadFlowsIff | src/optimization/Mem2Reg.cpp:105-107 | in the middle of a block a load meets a stack that exists and is empty iff the variable has no name there and had its key on entry to the block |
| Mem2Reg.Renamer.RewriteLoad | src/optimization/Mem2Reg.cpp:97-111 | a load of a variable with a name is replaced by it, one without stays; it fails iff the variable has no name there and had its key on entry to the block |
| Mem2Reg.Renamer.RewriteBody | src/optimization/Mem2Reg.cpp:96-124 | after steps 4 and 5 the tops are the names at the end of the block and the list of deletions is exact |
| Mem2Reg.Renamer.FillOne | src/optimization/Mem2Reg.cpp:128-141 | the phis of one successor get one pair each, with the name reaching the end of this block, by use list and by value alike; it fails iff one asks for a stack that exists and is empty |
| Mem2Reg.Renamer.FillSuccessors | src/optimization/Mem2Reg.cpp:126-142 | every edge out of the block is filled; it fails iff a phi of a successor asks for a variable without a name here whose key was there on entry |
| Mem2Reg.Renamer.RewriteBlock | src/optimization/Mem2Reg.cpp:86-142 | steps 3 to 6 end with tops, deletions and fills as specified, iff the block reads no stack that exists and is empty |
| Mem2Reg.Renamer.PopAll | src/optimization/Mem2Reg.cpp:149-168 | step 7 restores every stack and never pops an empty one |
| Mem2Reg.Renamer.LeaveBlock | src/optimization/Mem2Reg.cpp:149-173 | popping and deleting at the end of a visit settle the block and its subtree with the stacks as on entry |
| VisitOrder.ChildIsNext | include/optimization/Dominators.h:41-55 | when a child is next, the finished blocks are those finished before its parent and the subtrees of the siblings at lower addresses |
| VisitOrder.EnteredIff | src/optimization/Mem2Reg.cpp:144-147 | the blocks entered before b are those strictly dominating b and those below a block with the same immediate dominator as, and a lower address than, a block at or above b |
| VisitOrder.SomeOrderIff | src/optimization/Mem2Reg.cpp:144-147 | some placement of the blocks in memory lets the walk enter c before b iff b does not dominate c |
| Mem2Reg.Renamer.First | include/optimization/Dominators.h:41-55 | the set of children yields the block at the lowest address first |
| Mem2Reg.Renamer.ReNameChildren | src/optimization/Mem2Reg.cpp:144-147 | the child subtrees are visited once each, by ascending address, with the stacks restored after each; it fails iff some block in them misses a name that a block entered before gave |
| Mem2Reg.Renamer.ReName | src/optimization/Mem2Reg.cpp:82-174 | the walk returns with every stack as on entry and the whole subtree settled: loads replaced, successors' phis filled, replaced loads and stores deleted; the use lists, edited alongside, are those of the code; it gives up iff some block of the subtree misses a name that a block entered before it gave |
| GivesUp.NoneStuckIff | src/optimization/Mem2Reg.cpp:105-137 | told from the input: the walk gets through iff no reachable load or edge to a join that no store of the variable reaches is in a block that is entered after a block defining the variable |
| GivesUp.EveryOrderIff | src/optimization/Mem2Reg.cpp:105-147 | it gets through wherever the blocks lie in memory iff every block with such a load or edge dominates all blocks that define the variable |
| GivesUp.StoredFirstMissesNothing | src/optimization/Mem2Reg.cpp:105-137 | if every promoted slot is stored in the entry block before any load there, a store reaches every load and every edge to a join |
| PromotionCases.OrderDecides | src/optimization/Mem2Reg.cpp:126-147 | if one of two branches stores a variable that is read where they meet, the walk gets through iff the other branch lies below it and below that block in memory |
| PromotionCases.PromoteTwoBranches | src/optimization/Mem2Reg.cpp:9-25 | the pass on that function gets through iff the blocks lie so; then the load is replaced, and the phi where the branches meet lacks the pair of the branch without the store |
| PromotionCases.TwoBranchesIsPromotable | src/optimization/Mem2Reg.cpp:126-147 | that function meets every precondition of the pass |
| Promotion.PhiTakesName | src/optimization/Mem2Reg.cpp:133-139 | on the edge from p the promoted phi takes the name that reaches the end of p, or undef when there is none |
| Promotion.BodySim | src/optimization/Mem2Reg.cpp:82-174 | the bodies of a block run in step: every cell equals the value of its current name, every value equals what its uses now refer to |
| MeaningPreserved.EdgeSim | src/optimization/Mem2Reg.cpp:57-147 | the relation between the two runs survives an edge for every variable without a phi there |
| MeaningPreserved.PhisSim | src/optimization/Mem2Reg.cpp:57-142 | the promoted phis, taken on the edge, give every variable with a phi the value of its cell |
| MeaningPreserved.AdvanceMatches | src/optimization/Mem2Reg.cpp:82-174 | one block and the edge taken from it keep the two runs matching |
| MeaningPreserved.RunsMatch | src/optimization/Mem2Reg.cpp:9-25 | for every machine, arguments, memory and number of blocks the promoted function matches the original; that every slot it still reads is allocated is `SsaForm.SlotsStayIff` |
| Mem2RegPass.UsesAreInScope | src/optimization/Mem2Reg.cpp:82-174 | operands defined above their uses are in scope on the computed tree |
| PlacedPhis.PlacedIsComplete | src/optimization/Mem2Reg.cpp:57-79 | where a runner passes a block that gives a variable a name, the join has a phi for it |
| Mem2RegPass.CollectAllocas | src/optimization/Mem2Reg.cpp:180-193 | exactly the scalar allocas of a block are listed |
| Mem2RegPass.RemoveAlloca | src/optimization/Mem2Reg.cpp:176-199 | every block loses exactly its scalar allocas |
| Mem2RegPass.PromotedIsFree | src/optimization/Mem2Reg.cpp:82-199 | no block that can run keeps a promoted load, store or scalar alloca iff every load has a name |
| GivesUp.NamedIffReached | src/optimization/Mem2Reg.cpp:97-137 | the loads and the edges to joins that have no name are those that no store of the variable reaches |
| SsaForm.UnnamedStays | src/optimization/Mem2Reg.cpp:105-109 | a load without a name is still there after the pass |
| SsaForm.ScalarSlotGoes | src/optimization/Mem2Reg.cpp:176-199 | the slot of an integer or float is allocated nowhere above any point any more |
| SsaForm.SlotsStayIff | src/optimization/Mem2Reg.cpp:97-199 | every slot that is still accessed is still allocated above the access iff every load of an integer or float slot has a name |
| PromotionCases.UnstoredReturnLosesSlot | src/cminusfc/cminusf_builder.cpp:198-222 | `int main(void) { output(1); }`: wherever its block lies the pass ends, and a load of an integer slot is reached by no store |
| PromotionCases.PromoteUnstoredReturn | src/optimization/Mem2Reg.cpp:9-25 | the pass on that function returns one that is not in SSA form and does not behave as it |
| PromotionCases.UnstoredReturnIsPromotable | src/cminusfc/cminusf_builder.cpp:198-222 | that function meets every precondition of the pass |
| SsaForm.FixedIsDefined | src/optimization/Mem2Reg.cpp:86-124 | a name in scope that is no replaced load is defined above in the promoted function, at the position its definition moves to |
| SsaForm.PairIsDefined | src/optimization/Mem2Reg.cpp:126-142 | the operand of a filled phi pair is defined at the end of the block the pair names |
| SsaForm.PromotedIsSsa | Documentations/lab5/CodeReading.md:56 | the promoted function is in SSA form (names are defined once, definitions dominate uses, phi operands are defined at the end of their block, accessed slots are allocated above) iff every load of an integer or float slot has a name |
| PhiPairs.PhiNamesEdges | src/optimization/Mem2Reg.cpp:126-142 | a promoted phi names a block exactly as often as the block lists the phi's own, if the variable has a name at the end of that block, and otherwise never |
| PhiPairs.PhisFilledIff | src/optimization/Mem2Reg.cpp:126-142 | every phi has one pair for each edge from a reachable block iff every block has a name for the phis of its successors |
| PhiPairs.PhisHaveTwoIff | src/optimization/Mem2Reg.cpp:126-142 | every promoted phi has two pairs or more iff two edges to its block start where the variable has a name |
| GivesUp.NamedTwiceIff | src/optimization/Mem2Reg.cpp:126-142 | the joins that get two names are those to which two edges lead from blocks at whose end a store of the variable arrives |
| GivesUp.ReachedJoinsAreFed | src/optimization/Mem2Reg.cpp:126-142 | where a store reaches every edge to a join, it reaches two of them |
| Mem2RegPass.Rename | src/optimization/Mem2Reg.cpp:21-23 | the walk from the entry and the removal of allocas, with the exact conditions for getting through, for SSA form and equal behaviour, for freedom of slots and for complete phis |
| Mem2RegPass.PromoteToRegisters | src/optimization/Mem2Reg.cpp:9-25 | the pass on one function: it gets through iff no block misses a name that a block entered before defines; then the result is in SSA form and behaves as the input iff a store reaches every load of an integer or float slot, is free of promoted memory iff a store reaches every load, has one pair for each edge iff a store reaches every edge to a join, and two pairs or more in each phi iff stores reach two edges to every join; apart from phis its code is the input's with operands replaced; slots stored first give all of these |
| Tarjan.PushKeepsInv | src/optimization/LoopSearch.cpp:69-72 | entering a node keeps the search invariant |
| Tarjan.ChildVisited | src/optimization/LoopSearch.cpp:76-81 | after a recursive visit the low link is the least number an edge from the visited part leads to |
| Tarjan.SuccessorSeen | src/optimization/LoopSearch.cpp:82-86 | a visited successor lowers the low link iff it is on the stack |
| Tarjan.SegmentIsScc | src/optimization/LoopSearch.cpp:89-105 | when the low link of a node is its own number, the stack from the node on is its strongly connected component |
| Tarjan.LeavesStack | src/optimization/LoopSearch.cpp:89-105 | popping that component keeps the search invariant |
| Tarjan.StaysOnStack | src/optimization/LoopSearch.cpp:90 | a node with a lower low link stays on the stack and still reaches a node being visited |
| Tarjan.SearchEnds | src/optimization/LoopSearch.cpp:51-63 | when every node is visited the result is exactly the maximal strongly connected sets of two nodes or more |
| Tarjan.ComponentsDisjoint | src/optimization/LoopSearch.cpp:51-105 | different components share no node |
| LoopSearch.LoopSearch.BuildCfg | src/optimization/LoopSearch.cpp:16-47 | the node sets hold exactly the edges of the successor and predecessor lists |
| LoopSearch.LoopSearch.PopComponent | src/optimization/LoopSearch.cpp:92-100 | the loop pops down to the node itself and returns what it popped |
| LoopSearch.LoopSearch.HandleSuccessor | src/optimization/LoopSearch.cpp:74-87 | one successor: visited if it was not, with the low link updated |
| LoopSearch.LoopSearch.LeaveNode | src/optimization/LoopSearch.cpp:89-105 | the component of a root is popped and recorded if it has two nodes or more |
| LoopSearch.LoopSearch.Traverse | src/optimization/LoopSearch.cpp:64-105 | the recursive visit keeps the search invariant, for every order of successors, and ends |
| LoopSearch.LoopSearch.StronglyConnectedComponents | src/optimization/LoopSearch.cpp:51-63 | the result is exactly the components of the remaining graph with two nodes or more; true is returned iff there is one |
| LoopNest.ComponentIsEntered | src/optimization/LoopSearch.cpp:106-137 | a component of a remaining graph is entered from outside, so a base can be found, unless it is a component of the whole graph |
| LoopNest.RootedIsEntered | src/optimization/LoopSearch.cpp:106-137 | where every block is reachable from an entry without predecessors, every component is entered from outside |
| LoopNest.CutOffLoopIsNotEntered | src/optimization/LoopSearch.cpp:178-191 | for a loop that is cut off from the entry the base is null |
| LoopSearch.LoopSearch.FindLoopBase | src/optimization/LoopSearch.cpp:106-137 | the base is a block of the component entered by an edge from outside it; null only if there is none |
| LoopSearch.LoopSearch.FindInReserved | src/optimization/LoopSearch.cpp:126-136 | an entry that comes from a removed base is found among the edges that base kept |
| LoopNest.PeelOne | src/optimization/LoopSearch.cpp:174-226 | removing a component's base keeps the loops nested and every strongly connected set of two blocks or more either whole in the remaining graph or caught by a recorded loop |
| LoopNest.NextRound | src/optimization/LoopSearch.cpp:161-236 | recorded loops are unions of components of what is left, so later loops nest in them |
| LoopNest.PeelingEnds | src/optimization/LoopSearch.cpp:161-236 | when no component of two blocks is left, every strongly connected set of two blocks or more lies in a recorded loop whose base is in the set |
| LoopNest.CyclesAreCaught | src/optimization/LoopSearch.cpp:161-236 | every cycle through two blocks or more lies wholly in a recorded loop whose base is on the cycle |
| LoopNest.RecordedIff | src/optimization/LoopSearch.cpp:161-236 | the recorded loops are exactly the components of two blocks or more of the graph without the bases of the recorded loops properly around them |
| LoopNest.ForestIsEntered | src/optimization/LoopSearch.cpp:106-137 | where loops that catch all of these sets were recorded, every component of two blocks or more of the graph is entered from outside |
| LoopSearch.LoopSearch.MapToBase | src/optimization/LoopSearch.cpp:193-211 | exactly the blocks of the loop now map to its base |
| LoopSearch.LoopSearch.Record | src/optimization/LoopSearch.cpp:180-211 | the tables gain exactly the new loop; inserting never hides an earlier one |
| LoopSearch.InsertKeeps | src/optimization/LoopSearch.cpp:180-192 | inserting adds an entry for a new key and keeps every entry that is there |
| LoopSearch.LoopSearch.RemoveBase | src/optimization/LoopSearch.cpp:213-224 | the neighbour sets become those of the graph without the base |
| LoopSearch.LoopSearch.PeelComponent | src/optimization/LoopSearch.cpp:174-224 | one component: its base is recorded and removed, or null iff no edge enters the component; null only if a component of the whole graph has no entry |
| LoopSearch.LoopSearch.PeelRound | src/optimization/LoopSearch.cpp:174-226 | all components of a round, in any order, with bases removed in between; a base is null only if a component of the whole graph has no entry |
| LoopSearch.LoopSearch.Run | src/optimization/LoopSearch.cpp:138-241 | no base is null iff every component of two blocks or more of the graph is entered from outside; then the rounds end and the loops are strongly connected, entered at their bases, nested or disjoint in recording order, catch every strongly connected set of two blocks or more, and are exactly the components of the graph without the bases around them |
| LoopSearch.LastIsInnermost | include/optimization/LoopSearch.hpp:44-49 | the loop recorded last among those holding a block lies in all of them |
| LoopSearch.LoopSearch.GetInnerLoop | include/optimization/LoopSearch.hpp:44-49 | null iff no recorded loop holds the block, otherwise a recorded loop that lies in every recorded loop holding it |
| LoopSearch.LoopSearch.GetParentLoop | src/optimization/LoopSearch.cpp:300-316 | null if all listed predecessors of the base are in the loop, otherwise the innermost loop of the first one that is not, if there is such a loop and it holds the base; what is returned properly encloses the loop, and it is the next outer loop iff that predecessor lies in it and in no recorded loop without the base (or there is no outer loop) |
| ParentLoop.AnswerEncloses | src/optimization/LoopSearch.cpp:300-316 | what is returned always properly encloses the loop |
| ParentLoop.AnswerIsRightIff | include/optimization/LoopSearch.hpp:50-51 | the result is the next outer loop, or null for none, iff there is no outer loop, or the next outer one holds the first outside predecessor and no recorded loop holds that predecessor without the base |
| ParentLoop.SingleEntryRightIff | include/optimization/LoopSearch.hpp:50-51 | where loops are entered at their bases only, every outer loop holds that predecessor |
| ParentLoop.ThreeLoopsRecorded | src/optimization/LoopSearch.cpp:138-241 | on a loop with two inner loops in a row the search can only record these three loops |
| ParentLoop.SiblingHidesParent | src/optimization/LoopSearch.cpp:305-309 | for the second of the two inner loops, as recorded, the lookup finds no outer loop although there is one |
| UseSets.CompleteIff | src/optimization/ActiveVars.cpp:48-136 | an instruction's reads are all recorded in the use set, without reading past its operands, iff the guards of the branches hold |
| LivePaths.RecordedIsOperand | src/optimization/ActiveVars.cpp:48-136 | whatever is recorded in a use set is an operand of the instruction, or a phi pair it has |
| LivePaths.RecordedAreOperands | src/optimization/ActiveVars.cpp:48-136 | under the guards exactly the operands not defined yet in the block are recorded |
| LivePaths.LiveAfterIff | src/optimization/ActiveVars.cpp:143-197 | under the guards a path reads a value by the use sets iff it reads it by the operands of the instructions |
| ActiveVars.ActiveVars.CollectLeftValues | src/optimization/ActiveVars.cpp:33-46 | all instructions and arguments of the function |
| ActiveVars.ActiveVars.BlockSets | src/optimization/ActiveVars.cpp:48-140 | the loop reads past the operands of an instruction iff the block has one with fewer than it asks for, such as a phi with fewer than two pairs; otherwise the use and def sets are those of the instructions |
| ActiveVars.ActiveVars.RecordUses | src/optimization/ActiveVars.cpp:48-136 | the operand reads of one instruction all exist iff arithmetic and comparisons have two operands, conversions one and phis two pairs; then what they record is what the use set takes |
| UseSets.LooksAtIff | src/optimization/ActiveVars.cpp:48-136 | what is recorded depends on operand i of n exactly for the first two of arithmetic and comparisons, both of a two-operand gep, the first and last of a three-operand one, and the first of the rest |
| UseSets.PhiLooksAtIff | src/optimization/ActiveVars.cpp:78-88 | what is recorded for a phi depends exactly on its first two pairs |
| UseSets.HasAskedIff | src/optimization/ActiveVars.cpp:48-136 | nothing is read past the operands iff every position looked at exists |
| ActiveVars.ActiveVars.CollectOut | src/optimization/ActiveVars.cpp:153-172 | the out-set of a block holds what every successor's in-set carries over this edge, phi pairs only for their own block |
| ActiveVars.ActiveVars.GrowIn | src/optimization/ActiveVars.cpp:174-194 | the in-set takes the uses and what is live out and not defined; the flag stays only if nothing was missing |
| ActiveVars.ActiveVars.Sweep | src/optimization/ActiveVars.cpp:149-195 | a sweep that changes no in-set leaves the least solution; any other one shrinks what is missing |
| ActiveVars.ActiveVars.Solve | src/optimization/ActiveVars.cpp:143-197 | the loop ends with the least solution of the liveness equations |
| Liveness.WalkIsLive | src/optimization/ActiveVars.cpp:143-197 | in every solution a value is live out of a block from which some path reads it first |
| Liveness.LeastIsPaths | src/optimization/ActiveVars.cpp:143-197 | in the least solution a value is live out of a block iff some path from the block reads it, or reads it in a phi for its last edge, before any block in between defines it |
| ActiveVars.LiveInIsPaths | src/optimization/ActiveVars.cpp:198-207 | a value is live in iff the block uses it, or does not define it and it is live out along a path |
| LivenessSound.BodyAgrees | src/optimization/ActiveVars.cpp:48-138 | two states that agree on what is live in agree on all that is read or defined while the block runs |
| LivenessSound.EnterAgrees | src/optimization/ActiveVars.cpp:153-172 | agreement on the values live out carries into every successor, phis included |
| LivenessSound.LivenessIsSound | src/optimization/ActiveVars.cpp:48-212 | under the guards two states that agree on the live-out values, memory and output continue identically along any edge, on every machine |
| LivenessSound.GepIndexIsLost | src/optimization/ActiveVars.cpp:102-110 | for a two-operand gep with an exposed index the index is not live before, and two states that agree on the live values return different results |
| ActiveVars.ActiveVars.Run | src/optimization/ActiveVars.cpp:16-212 | the pass gets through iff every binary operation and comparison has two operands, every int/float conversion one and every phi two pairs; then live_in and live_out are what the paths over the use sets say; whenever the guards hold it does, and live_out is what the paths over the instructions' own operands say and suffices for the rest of every run |
| PromotedLiveness.PromotedInBoundsIff | src/optimization/ActiveVars.cpp:78-88 | after Mem2Reg the reachable code has all the operands the liveness pass asks for iff the code before had, and every phi has two pairs |
| PromotedLiveness.PromoteAndAnalyse | src/cminusfc/cminusfc.cpp:105-126 | the two passes get through only if Mem2Reg does and stores reach two edges to every join; where all blocks are reachable and the input has the operands asked for, exactly then |
| PromotedLiveness.TwoBranchesIsFedOnce | src/optimization/ActiveVars.cpp:78-88 | if one of two branches stores a variable that is read where they meet, a store reaches one edge of that join only |
| PromotionCases.StoredBranchesIsStoredFirst | src/optimization/Mem2Reg.cpp:105-137 | with a store in the entry block the same function stores its slot first |
| PromotionCases.StoredBranchesIsPromotable | src/optimization/Mem2Reg.cpp:9-25 | and meets every precondition of the pass |
| PromotedLiveness.AnalyseStoredBranches | src/cminusfc/cminusfc.cpp:105-126 | so both passes get through on it, wherever its blocks lie |
| PromotedLiveness.AnalyseTwoBranches | src/optimization/ActiveVars.cpp:78-88 | without that store the liveness pass never gets through, wherever the blocks lie |
| LivenessCases.OneEachWayIsRecorded | src/optimization/ActiveVars.cpp:78-88 | the guards hold where a phi takes one value from each of two blocks |
| LivenessCases.AnalyseOneEachWay | Documentations/lab5/README.md:98 | each of these values is live at the end of the block the phi takes it from, and not at the end of the other |
| DeadElimi.DeadElimi.HasNoEffect | src/optimization/DeadElimi.cpp:67-81 | a function counts as without effect iff it holds no store and no call |
| DeadElimi.DeadElimi.GetNonEffectFunc | src/optimization/DeadElimi.cpp:59-84 | the list holds exactly the defined functions without store and call |
| DeadElimi.DeadElimi.Mark | src/optimization/DeadElimi.cpp:86-97 | marking ends, adds the instruction and all it needs, and nothing that every closed set would not hold |
| DeadElimi.DeadElimi.HasEffect | src/optimization/DeadElimi.cpp:34-57 | exactly stores, and calls of functions that are not on the list, count as effects |
| DeadElimi.DeadElimi.MarkBlock | src/optimization/DeadElimi.cpp:14-16 | the effects of a block and what its terminator reads are marked with all they need |
| DeadElimi.DeadElimi.MarkAll | src/optimization/DeadElimi.cpp:11-17 | the marked set is the least one that holds the effects and is closed under operands, which is: the instructions to which a chain of operands leads from a store, a call of a function that is undefined or holds a store or a call, or an operand of a terminator |
| NeededCode.MarkedIff | src/optimization/DeadElimi.cpp:11-17 | an instruction is in the least marked set iff such a chain leads to it |
| NeededCode.EffectIff | src/optimization/DeadElimi.cpp:34-57 | an instruction is an effect iff it is a store, or calls a function that the module does not define or that holds a store or a call |
| DeadElimi.DeadElimi.Sweep | src/optimization/DeadElimi.cpp:19-30 | every block keeps exactly its marked instructions, in order |
| DeadCode.NonEffectKeepsWorld | src/optimization/DeadElimi.cpp:59-84 | running a function without store and call changes neither memory nor output, after any number of steps |
| DeadCode.BodySame | src/optimization/DeadElimi.cpp:9-31 | the bodies run in lockstep: same memory, cells and output, same values but for removed instructions |
| DeadCode.SweptRuns | src/optimization/DeadElimi.cpp:9-31 | whole runs stay in lockstep when what goes has no effect and nothing that stays needs it |
| DeadElimi.SweptHasNoneDangling | src/optimization/DeadElimi.cpp:19-30 | no kept instruction or terminator refers to a removed instruction |
| DeadElimi.SweptIsSafe | src/optimization/DeadElimi.cpp:9-31 | keeping the least marked set meets the conditions of the simulation |
| DeadElimi.DeadElimi.Run | src/optimization/DeadElimi.cpp:3-32 | an instruction stays iff a chain of operands leads to it from a store, a call of a function that is undefined or holds a store or a call, or an operand of a terminator; nothing that stays refers to what went, and every run goes on as before for as long as the calls it makes to functions without effect return |
| DeadElimi.LoopingCallIsDropped | src/optimization/DeadElimi.cpp:59-84 | a call of a function that loops is dropped, and the program then returns where it would not have; a machine on which the call does something tells the difference |
| DeadElimi.LoopingNeverReturns | src/optimization/DeadElimi.cpp:59-84 | no call of that function returns |
| BranchFold.DroppedLeavesNoneIff | src/optimization/ConstPropagation.cpp:355-363 | the pair loop leaves a pair naming the folded block iff two pairs in a row named it |
| BranchFold.DroppedKeepsOthers | src/optimization/ConstPropagation.cpp:355-363 | on every other edge the phi takes the value it took before |
| BranchFold.RemovedJoins | include/lightir/BasicBlock.h:40 | removing a predecessor leaves the others in order |
| BranchFold.BranchFolder.DropPairs | src/optimization/ConstPropagation.cpp:357-363 | the index loop over the operands erases a pair and steps over the one that moves into its place |
| BranchFold.BranchFolder.DropPhis | src/optimization/ConstPropagation.cpp:355-365 | every phi of the block is treated, no other instruction |
| BranchFold.FoldKeepsMirror | src/optimization/ConstPropagation.cpp:352-371 | each edge stays listed equally often as successor and as predecessor |
| BranchFold.FoldKeepsRun | src/optimization/ConstPropagation.cpp:341-398 | the folded function goes through the same states, step by step |
| BranchFold.DroppedFits | src/optimization/ConstPropagation.cpp:354-366 | with one pair per predecessor, the pairs left are again one per predecessor and none names the folded block |
| BranchFold.FoldedIsUnnamed | src/optimization/ConstPropagation.cpp:354-366 | with one pair per predecessor no phi outside the kept target has a pair for the folded block |
| BranchFold.BranchFolder.Fold | src/optimization/ConstPropagation.cpp:341-398 | one block: its branch becomes a jump to the target the constant selects, its successors are treated in list order; the block goes from the predecessor lists of all of them, which keep their order, and comes last in that of the target; lists stay mirrored, phis stay fitting, runs stay the same |
| BranchFold.BranchFolder.Run | src/optimization/ConstPropagation.cpp:331-402 | every branch on an integer constant is a jump, to its first target unless the constant is zero and then to its second, and that target is the only successor; all other terminators and successor lists are as before, and so is every run |
| CallCycles.MarkedIsOnCycle | src/optimization/FuncInline.cpp:41-52 | a function marked recursive is on a call cycle |
| CallCycles.CyclesAreMarked | src/optimization/FuncInline.cpp:41-52 | every call cycle that main reaches holds a marked function |
| FuncInline.FuncInline.JudgeRecur | src/optimization/FuncInline.cpp:41-52 | the recursion with its path set ends, restores the set, and marks exactly the functions some simple path from the entry leads back to |
| FuncInline.FuncInline.BuildSuccs | src/optimization/FuncInline.cpp:10-26 | who calls which function of at most four blocks, and which functions are larger |
| FuncInline.FuncInline.CanBeInlined | src/optimization/FuncInline.cpp:174-195 | true iff the function has one to four blocks of at most five instructions each and no simple path of calls from main, through functions of at most four blocks, leads back to it |
| FuncInline.FuncInline.FindCall | src/optimization/FuncInline.cpp:61-67 | the first call of a block to a function of one to four blocks of at most five instructions each that no path from main leads back to, if there is one |
| FuncInline.MarkedIff | src/optimization/FuncInline.cpp:41-52 | a function is marked recursive iff a simple path of calls from main leads back to it |
| FuncInline.LeftIff | src/optimization/FuncInline.cpp:54-172 | full expansion leaves a call iff main calls the function directly or through expanded calls, and it has no block, more than four, or one of more than five instructions, or some path leads back to it |
| FuncInline.LeftReason | src/optimization/FuncInline.cpp:41-52 | where it is left for the last reason the function is on a call cycle |
| FuncInline.NoKeptCycle | src/optimization/FuncInline.cpp:41-52 | no function main reaches by inlinable calls reaches itself by them |
| FuncInline.RankDrops | src/optimization/FuncInline.cpp:54-172 | an inlinable call leads to a function of strictly smaller rank |
| FuncInline.SpliceExpands | src/optimization/FuncInline.cpp:67-169 | replacing an inlinable call by the callee's blocks lowers the weight and keeps the calls that full expansion leaves |
| FuncInline.FoundIsCalled | src/optimization/FuncInline.cpp:113-115 | the body copied is never main's own |
| FuncInline.FuncInline.Inlining | src/optimization/FuncInline.cpp:54-172 | the scan of main ends, leaves no call to a function of one to four blocks of at most five instructions each that no path from main leads back to, and its calls are exactly those of the full expansion |
| FuncInline.FuncInline.Run | src/optimization/FuncInline.cpp:6-29 | a call is left in main iff main reaches it through expanded calls and the function called has no block, more than four, or one of more than five instructions, or some path from main leads back to it, so that it is on a call cycle; the calls left are those of the full expansion, as often |
| UseLists.Value.AddUse | src/lightir/Value.cpp:12-15 | one record is appended |
| UseLists.Value.RemoveUse | src/lightir/Value.cpp:31-35 | exactly the records of the user go |
| UseLists.WithoutUserJoins | src/lightir/Value.cpp:31-35 | the other records stay in order, each as often as before |
| UseLists.WithoutUserOfOne | src/lightir/Value.cpp:31-35 | a single record goes iff it is the user's |
| UseLists.Value.SetOperand | src/lightir/User.cpp:22-28 | the slot holds the value and the value gains a record; the former value keeps its own |
| UseLists.Value.AddOperand | src/lightir/User.cpp:30-35 | a new last slot, recorded under its position |
| UseLists.Value.ReplaceAllUseWith | src/lightir/Value.cpp:22-29 | exactly the recorded slots are overwritten and the new value gains their records in order |
| UseLists.Value.RemoveUseOfOps | src/lightir/User.cpp:42-47 | no operand of the user keeps a record of it, all other records stay in order |
| UseLists.ReplacedIsComplete | src/lightir/Value.cpp:22-29 | from complete use lists no slot holds the old value afterwards and the lists are complete again |
| UseLists.OthersKeptIff | src/lightir/Value.cpp:22-29 | slots that did not hold the old value keep what they hold iff the old value has no stale record |
| UseLists.AssignedIsComplete | src/lightir/User.cpp:22-28 | setting an operand keeps complete lists complete and leaves a stale record with the value the slot held |
| UseLists.ReplaceAmong | src/lightir/Value.cpp:22-29 | the heap after replacing is the snapshot the three statements above are about |
| UseLists.AssignAmong | src/lightir/User.cpp:22-28 | the heap after setting an operand is the snapshot the statements are about |
| UseRuns.DetachAmong | src/lightir/User.cpp:42-47 | detaching the operands of a deleted instruction leaves the lists that the edit says, and the slots of the others |
| UseRuns.ReplaceKeepsOrder | src/lightir/Value.cpp:22-29 | from lists in order, replacing a value by one that was not replaced before rewrites exactly the operands that hold it, and leaves the lists in order |
| UseRuns.EditIsMeant | src/lightir/Value.cpp:22-29 | replacing, appending a phi operand and detaching a deleted instruction each do to the operands what is meant and leave the lists in order |
| UseRuns.RunIsMeant | src/lightir/Value.cpp:22-29 | over any run of such edits in which no replaced value is used again, replacing by use list is replacing by value |
| CodeUses.SlotIsOperand | src/lightir/User.cpp:22-35 | every operand of an instruction has its slot, behind the callee in a call |
| CodeUses.PairSlots | include/lightir/Instruction.h:472-476 | a phi holds its values at the even positions and the blocks behind them |
| CodeUses.ItemsDiffer | src/lightir/User.cpp:22-35 | different operands are recorded with different values |
| CodeUses.ReplaceFollows | src/lightir/Value.cpp:22-29 | from lists in order, replacing a value not replaced before by one that never was gives, by use list, the slots and lists of the code in which every use is replaced |
| CodeUses.FillFollows | include/lightir/Instruction.h:472-476 | appending pairs to the phis of a block by `add_operand` gives the slots and lists of the filled code |
| CodeUses.DeleteFollows | src/lightir/BasicBlock.cpp:31-35 | deleting instructions with `remove_use_of_ops` gives the slots and lists of the code without them |
| CodeUses.FollowStarts | src/lightir/User.cpp:30-35 | a function with distinct identities has use lists in order, built operand by operand |
| RenameWalk.NextIsNotReplaced | src/optimization/Mem2Reg.cpp:96-111 | in the walk the load that comes next has not been replaced before |
| RenameWalk.TopIsNotReplaced | src/optimization/Mem2Reg.cpp:96-111 | the name that replaces a load is neither the load nor any load replaced so far |
| RenameWalk.NamesAreNotReplaced | src/optimization/Mem2Reg.cpp:126-142 | no name appended to a phi is a load replaced so far |
| Mem2Reg.Renamer.ReplaceUses | src/optimization/Mem2Reg.cpp:105-109 | every replacement of the walk is the same by use list and by value, and leaves the lists in order |
| Mem2Reg.Renamer.DeleteAll | src/optimization/Mem2Reg.cpp:170-173 | the deletions of a block are the same by use list and by value |
| IrCases.InOrderRuns | Documentations/lab5/CodeReading.md:173-191 | the promoted `main` of the example reads two inputs one after the other and passes them on, the second in front iff the comparison holds, on every machine |
| IrCases.PhisSwap | Documentations/lab5/CodeReading.md:186-188 | two phis that take each other's value swap them |
| IrCases.StoredIsLoaded | Documentations/common/LightIR.md:191-209 | an alloca yields an address, a store writes the memory that a later load reads |

## Left out

- `Dominators::create_doms` (`src/optimization/Dominators.cpp:28-63`) is never called by `run` and dereferences the first predecessor of the entry.
- The first half of constant propagation (`src/optimization/ConstPropagation.cpp:161-329`) folds LT and LE the wrong way round and keeps constants of globals over stores and calls, so it does not preserve meaning as written.
- Loop-invariant hoisting selects loads and stores as invariants; a theorem would need restrictions that remove the interest.
- The copying and splicing of the inliner keep no operands here: only which block calls what is modelled, with the added branch as an item that calls nothing and without the return phi. `remove_inline_func` is left out.
- `User::remove_operands` does not renumber the recorded slots; branch folding therefore works on plain pair sequences.
- `LoopSearch::dump_graph` and all printing only read results.
- Code generation, lexing, parsing, IR printing, JSON output and the driver, but for the order of Mem2Reg and the liveness pass, are not part of this model.
- Floating point, 32-bit overflow and the meaning of operators are parameters of the machine.
- Functions are treated one at a time where the source loops over the module (dominators, Mem2Reg, loop search, liveness, folding), since they share no state but the variable stacks.
- The heap of CFG nodes, blocks and instructions is held in maps and sequences that the methods reassign; aliasing between nodes is not modelled outside `UseLists`.
- DeadElimi.DeadElimi.Run: runs are compared for as long as the calls they make to functions without store and call return, because a call to one that loops is removed and the program then goes on (`DeadElimi.LoopingCallIsDropped`).
- PromotedLiveness.PromoteAndAnalyse: phis that Mem2Reg places in unreachable blocks get no pair; the exact condition is given where there are no unreachable blocks.
- LivenessSound.LivenessIsSound: requires the guards of `UseSets.CompleteIff` and that no operand names a store or the instruction itself; without the former it is false, as `LivenessSound.GepIndexIsLost` shows.
- MeaningPreserved.RunsMatch: a load that the pass keeps reads its cell in the model even where its alloca is gone; the claim of equal behaviour in `Mem2RegPass.PromoteToRegisters` therefore asks besides that every accessed slot is allocated.
- `remove_alloca` deletes instructions without operands, so it is not followed on use lists; a promoted slot has its own item there, apart from the alloca's value.
- A pointer that is neither a global, nor a gep, nor a stack slot: the source would promote a load or store through it, while the model leaves everything but stack slots alone. Code generation makes none.
