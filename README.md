# A verified model of a small compiler middle end

This project models the middle end of a small educational C++ compiler
(`jit_aot_course`) in Dafny. The modelled parts are:

- the IR: values, instructions, binary operations and comparisons, control
  flow instructions, phis, basic blocks and functions;
- the CFG builder, which resolves jump targets by name and installs edges;
- the iterative dominator computation and a depth-first traversal;
- natural-loop analysis: back edges, loop bodies, exits, and the loop
  nesting hierarchy;
- two optimisation passes over basic blocks:
  - constant folding of `Mul`, `Shl`, `Shr` and `And`, with
    replace-all-uses;
  - a peephole optimiser with algebraic rules for `Mul`, `And` and `Shr`.

How the model represents the program:

- **Values.** `Value` and `Instruction` are datatypes. A value's identity
  (the pointer the source compares) is an `Ident`. Values the passes create
  get identities derived from the instruction they replace.
- **Blocks and functions.** These are classes whose fields the source updates
  in place. A block keeps its instructions as a `seq`. Edges are the indices of
  blocks in the function's block list.
- **Analyses.** The dominator and loop analyses read an immutable `Cfg`
  snapshot of the edge sets. `BuildCfg` proves that the snapshot is consistent.
- **Loops.** A `Loop` is a class. The hierarchy builder sorts an `array` of
  loops in place and links their `parent` and `subLoops` fields.
- **Arithmetic.** 32-bit `int` arithmetic is explicit (`Machine32`): products
  and left shifts wrap modulo 2^32, a right shift is logical on the unsigned
  reading, and `&` works on the 32-bit patterns. `Semantics` gives every value
  its meaning under an environment for the parameters. That meaning is the
  reference against which both passes are proved sound.

Two places where the model goes beyond the headers as they stand:

- Enumerations. The kind enumeration at `include/instruction.h:9` lists nine
  kinds, but the passes build and test `And`, `Shl` and `Shr`, so the model has
  all twelve.
- Block edges. `include/basic_block.h` as present declares no
  predecessor/successor sets. They are modelled from their use in
  `include/control_flow.h`, `include/cfg.h` and `include/loop_analysis.h`.

## Model

| member | source | states |
|---|---|---|
| Instructions.ValueKindOf | include/instruction.h:13-15 | each value reports exactly its own kind: parameter, constant or instruction |
| Instructions.NewInstruction | include/instruction.h:56-58 | an instruction keeps the kind and operand list it was built with, and reports the instruction kind |
| Instructions.NewConstant | include/instruction.h:37-47 | a constant keeps its value and name and reports the constant kind |
| Instructions.NewParameter | include/instruction.h:23-29 | a parameter keeps its name and reports the parameter kind |
| BinOps.BinaryOp | include/bin_ops.h:12 | a binary operation has exactly the two operands it was given, in order, and its kind |
| BinOps.NewCmp | include/bin_ops.h:45 | a comparison has kind `Cmp`, its two operands and its predicate, and is not a binary operation |
| BinOps.CmpName | include/bin_ops.h:48-49 | the mnemonic of each predicate, in enum order; `CmpNameInjective` proves each is two letters and no two predicates share one |
| BinOps.CmpNameInjective | include/bin_ops.h:48-49 | the printed predicate names are two letters long and distinct for distinct predicates |
| BasicBlocks.BasicBlock.constructor | include/basic_block.h:18 | a new block has its name, no instructions and no edges |
| BasicBlocks.BasicBlock.CreateInstr | include/basic_block.h:23-27 | exactly one instruction is appended; the earlier ones are unchanged and in order; the new one is returned; it is a new object, so a block whose instructions are distinct objects keeps them distinct |
| BasicBlocks.BasicBlock.ClearPredecessors | include/cfg.h:35 | the predecessor set becomes empty |
| BasicBlocks.BasicBlock.ClearSuccessors | include/control_flow.h:62 | the successor set becomes empty |
| BasicBlocks.BasicBlock.AddSuccessor | include/control_flow.h:63 | the successor set gains exactly the given block |
| BasicBlocks.BasicBlock.AddPredecessor | include/control_flow.h:64 | the predecessor set gains exactly the given block |
| Functions.Function.constructor | include/function.h:17 | a new function has its name and no parameters, constants or blocks |
| Functions.Function.CreateParam | include/function.h:19-22 | the parameter list grows by exactly the new parameter, which is returned |
| Functions.Function.CreateBasicBlock | include/function.h:24-27 | the block list grows by exactly one new, empty block with the given name; the entry block stays first |
| Functions.Function.CreateConstant | include/function.h:29-32 | the constant list grows by exactly the new constant with the given value and name |
| ControlFlow.NewReturn | include/control_flow.h:11 | a return has an operand exactly when its value is non-null, and keeps the value |
| ControlFlow.NewJump | include/control_flow.h:37-39 | a jump keeps its target name, has no operands, and has null block references |
| ControlFlow.NewCondJump | include/control_flow.h:86-89 | a conditional jump keeps both target names, has no operands, and has null block references |
| ControlFlow.SetParentBlock | include/control_flow.h:41-43 | only the parent block reference changes |
| ControlFlow.SetTargetBlock | include/control_flow.h:45-47 | only the target reference changes |
| ControlFlow.SetTrueTargetBlock | include/control_flow.h:95-97 | only the true-target reference changes; the false target is kept |
| ControlFlow.SetFalseTargetBlock | include/control_flow.h:99-101 | only the false-target reference changes; the true target is kept |
| ControlFlow.NewPhi | include/control_flow.h:147 | a new phi has no incoming pairs, and its operands agree with them |
| ControlFlow.AddIncoming | include/control_flow.h:149-152 | one (block, value) pair and the value as an operand are appended; the pairs and operands keep agreeing |
| ControlFlow.InstalledTargets | include/control_flow.h:57-65 | a jump with both references set installs exactly its target; a conditional jump with a parent installs exactly its non-null targets; otherwise nothing |
| ControlFlow.UpdateCfg | include/control_flow.h:115-129 | the parent's successors become exactly the installed targets; each target gains the parent as a predecessor; nothing else changes |
| CfgAnalysis.FindBlockByName | include/cfg.h:122-129 | returns the first block with the name, or none when no block has it |
| CfgAnalysis.FindBlockByNameStable | include/cfg.h:122-129 | appending blocks does not change the block a name already resolves to |
| CfgAnalysis.Resolve | include/cfg.h:14-29 | a jump whose name resolves gets that target and its own block as parent; a conditional jump is wired only when both names resolve; anything else is unchanged; `ResolveSettled` proves what the result installs |
| CfgAnalysis.ResolveSettled | include/cfg.h:14-29 | resolving a jump sets its references in range, with the parent being its own block, and makes it install exactly the blocks its names denote |
| CfgAnalysis.ResolveAll | include/cfg.h:13-31 | every instruction of a block is resolved, the length and order kept; `ResolveIdempotent` proves a second resolution changes nothing |
| CfgAnalysis.ResolveIdempotent | include/cfg.h:12-32 | resolving a block twice gives the same as once, and the named targets do not change |
| CfgAnalysis.ResolveBlock | include/cfg.h:13-31 | every instruction of the block is resolved in place, in order |
| CfgAnalysis.ClearEdges | include/cfg.h:34-37 | every block's edge sets become empty and its instructions are untouched |
| CfgAnalysis.InstallBlock | include/cfg.h:40-44 | only the block's last instruction installs edges: its successors become the named targets, and each target gains it as a predecessor |
| CfgAnalysis.InstallEdges | include/cfg.h:39-45 | each block's successors are the targets named by its last instruction, and its predecessors are the blocks naming it |
| CfgAnalysis.BuildCfg | include/cfg.h:11-46 | jumps are resolved; each block's successors are those its names call for; the predecessor sets are exactly the inverse of the successor sets |
| CfgAnalysis.DfsTraversal | include/cfg.h:109-120 | the order lists each newly visited block once, the start first; every newly visited block is reachable from the start, and all its successors are visited |
| Dominators.IntersectPreds | include/cfg.h:79-94 | the result is exactly the intersection of the predecessors' dominator sets |
| Dominators.MeetMonotone | include/cfg.h:84-94 | the intersection over predecessors is monotone in the dominator sets |
| Dominators.Visit | include/cfg.h:74-102 | an update replaces exactly the block's set by the equation's value, and that set only shrinks; without an update nothing changes and the block already satisfies its equation |
| Dominators.Pass | include/cfg.h:73-103 | every set only shrinks from one pass to the next; a pass that reports no change leaves every block with predecessors satisfying its equation; a pass that reports a change strictly lowers the total |
| Dominators.UpdateShrinks | include/cfg.h:99-102 | replacing a block's set by its new value keeps the iteration invariant and lies above every solution |
| Dominators.ComputeDominators | include/cfg.h:49-107 | the result solves the dominator equations and is the greatest solution; blocks without predecessors other than the entry keep all blocks; for a reachable block it is exactly the set of blocks on every entry path |
| Dominators.SolutionSound | include/cfg.h:49-107 | every dominator a solution gives a block lies on every entry path to that block |
| Dominators.PathSolutionSolves | include/cfg.h:49-107 | path-based dominance solves the equations the iteration computes |
| Dominators.DominatorsExact | include/cfg.h:49-107 | the greatest solution equals path-based dominance at every reachable block |
| LoopAnalysis.Loop.constructor | include/loop_analysis.h:21-22 | a new loop has its header and latch and no blocks, exits, parent or sub-loops |
| LoopAnalysis.Loop.AddBlock | include/loop_analysis.h:24 | the block set gains exactly the block |
| LoopAnalysis.Loop.AddSubLoop | include/loop_analysis.h:26 | the sub-loop list gains exactly the loop at its end |
| LoopAnalysis.Loop.GetDepth | include/loop_analysis.h:32-40 | the depth is the number of steps up the parent chain |
| LoopAnalysis.Loop.Contains | include/loop_analysis.h:28-30 | a block belongs to the loop when it is a member or the header; `DiscoverLoop` makes these exactly the blocks of the natural loop |
| LoopAnalysis.DepthBound | include/loop_analysis.h:32-40 | the depth is zero exactly for a loop without a parent, and is bounded by the loop's position |
| LoopAnalysis.NaturalLoopIsBody | include/loop_analysis.h:108-131 | the natural loop is the smallest set that holds header and latch and is closed under predecessors except at the header |
| LoopAnalysis.LoopBodyUnique | include/loop_analysis.h:108-131 | any smallest such set is the natural loop, so the body is unique |
| LoopAnalysis.GetLoopExits | include/loop_analysis.h:83-101 | the exits are exactly the members and header that have a successor outside the loop |
| LoopAnalysis.ExitsWithin | include/loop_analysis.h:83-101 | every exit is a member or the header |
| LoopAnalysis.DiscoverLoop | include/loop_analysis.h:108-136 | the loop's blocks are exactly the natural loop of the back edge, and its exits are exactly those of that body |
| LoopAnalysis.PushPreds | include/loop_analysis.h:126-130 | the worklist gains exactly the predecessors not yet in the loop, and keeps everything it held |
| LoopAnalysis.SortBySize | include/loop_analysis.h:139-141 | the loops are permuted into non-increasing size |
| LoopAnalysis.LinkLoops | include/loop_analysis.h:143-150 | each parent is the last earlier loop containing the header; each sub-loop list holds every later loop whose header it contains, in order |
| LoopAnalysis.BuildLoopHierarchy | include/loop_analysis.h:138-151 | the array is a permutation, sorted by size and linked as above |
| LoopAnalysis.LinkedParents | include/loop_analysis.h:143-150 | a loop has no parent exactly when no earlier loop contains its header; a parent contains the header and is the smallest earlier such loop |
| LoopAnalysis.LinkedSubLoops | include/loop_analysis.h:103-150 | a loop is a sub-loop of another exactly when it comes later and its header is contained; a loop is innermost exactly when no later loop's header is contained |
| LoopAnalysis.IsInnermostLoop | include/loop_analysis.h:103-105 | a loop with no recorded sub-loops; `LinkedSubLoops` proves that after linking this holds exactly when no later loop's header is contained |
| LoopAnalysis.FindLoopsAt | include/loop_analysis.h:48-57 | the loops found so far are exactly one per back edge whose latch lies below the current block |
| LoopAnalysis.DiscoverAll | include/loop_analysis.h:46-57 | the loops found over all blocks and their successors are exactly one per back edge, each new, with its natural body and exits |
| LoopAnalysis.AddLoop | include/loop_analysis.h:50-54 | exactly one loop for the new back edge is added |
| LoopAnalysis.LinkFound | include/loop_analysis.h:59 | the same loops, sorted and linked, with their bodies and exits unchanged |
| LoopAnalysis.FindLoops | include/loop_analysis.h:43-61 | one loop per back edge (an edge whose target dominates its source), each with its natural body and exits, sorted and linked |
| LoopAnalysis.BackEdgeCycle | include/loop_analysis.h:48-57 | a back edge out of a reachable block closes a cycle through its header |
| LoopAnalysis.AcyclicNoReachableBackEdge | include/loop_analysis.h:48-57 | an acyclic CFG has no back edge out of a reachable block |
| LoopAnalysis.SpuriousLoop | include/loop_analysis.h:48-57 | in an acyclic CFG with an unreachable block, that block's edge counts as a back edge |
| Machine32.MulWrap | include/constant_folding.h:55 | the product wraps modulo 2^32, and is exact when it fits |
| Machine32.ShlWrap | include/constant_folding.h:67 | a left shift is the product with 2^k, wrapped, and is exact when it fits |
| Machine32.ShrLogical | include/constant_folding.h:61 | a shift by at least one is the non-negative quotient of the unsigned reading by 2^k; a shift by zero is the identity; on non-negative values it is division by 2^k |
| Machine32.AndFacts | include/peephole_optimizer.h:87-108 | `&` with 0 gives 0, with -1 gives the other operand, and with itself gives itself; it is symmetric |
| ConstantFolding.FoldedValue | include/constant_folding.h:41-74 | a fold exists exactly when both operands are constants, the kind is `Mul`, `Shl`, `Shr` or `And`, and any shift amount lies in 0..31; the folded value is what the instruction computes in every environment |
| ConstantFolding.TryFoldBinaryOp | include/constant_folding.h:41-77 | a new constant exactly when a fold exists, carrying the folded value |
| ConstantFolding.FoldedConstantEquivalent | include/constant_folding.h:53-76 | the new constant denotes the same as the folded instruction |
| ConstantFolding.RedirectOperands | include/constant_folding.h:91-95 | every operand that is the old instruction becomes the new value, and every other operand is kept |
| ConstantFolding.ReplaceAllUsesWith | include/constant_folding.h:79-98 | the block becomes the rewrite in which only instructions after the old one have their uses redirected |
| ConstantFolding.RewriteUsesMeaning | include/constant_folding.h:79-98 | ids, kinds and shapes are kept; instructions up to the old one are untouched; no use of the old instruction survives after it; an equivalent replacement keeps every instruction's meaning |
| ConstantFolding.FoldConstants | include/constant_folding.h:10-38 | the block becomes the result of the folding scan, and a change is reported exactly when the block got shorter |
| ConstantFolding.FoldShrinks | include/constant_folding.h:10-38 | folding never lengthens a block, and it changes exactly when it removes an instruction |
| ConstantFolding.FoldStep | include/constant_folding.h:25-27 | one fold removes exactly the folded instruction, keeps distinct ids, and keeps everything before it |
| ConstantFolding.FoldLeavesNothing | include/constant_folding.h:15-35 | after folding, no instruction in the block can be folded |
| ConstantFolding.FoldIdempotent | include/constant_folding.h:10-38 | folding a folded block changes nothing |
| ConstantFolding.FoldKeepsOrder | include/constant_folding.h:27 | the surviving instructions keep their relative order |
| ConstantFolding.RunOnFunction | include/constant_folding.h:103-113 | every block is folded on its own, and a change is reported exactly when some block changed |
| Peephole.IsPowerOfTwo | include/peephole_optimizer.h:179-181 | positive with no bit shared with its predecessor; `PowerOfTwoExactly` proves this is exactly the powers of two that fit in an `int` |
| Peephole.PowerOfTwoExactly | include/peephole_optimizer.h:179-181 | the bit test holds exactly for 2^k with k < 31 |
| Peephole.FloorLog2Bounds | include/peephole_optimizer.h:183-190 | the logarithm k has 2^k <= x < 2^(k+1); it is at most 30 for an `int`; for a power of two it is the exponent |
| Peephole.Log2 | include/peephole_optimizer.h:183-190 | the halving loop computes that logarithm |
| Peephole.ShiftIsProduct | include/peephole_optimizer.h:59-72 | shifting by the exponent of a power of two equals multiplying by it |
| Peephole.MulRule | include/peephole_optimizer.h:35-75 | applies only to `Mul`; the replacement is the constant 0, one of the operands, or a left shift of an operand by a constant at most 30 |
| Peephole.MulSound | include/peephole_optimizer.h:35-75 | wherever the product is defined, the replacement has the same value |
| Peephole.AndRule | include/peephole_optimizer.h:81-111 | applies only to `And`; the replacement is the constant 0 or one of the operands |
| Peephole.AndSound | include/peephole_optimizer.h:81-111 | wherever the `&` is defined, the replacement has the same value |
| Peephole.ShrRule | include/peephole_optimizer.h:116-141 | applies only to `Shr` by a constant amount; the replacement is the constant 0 or the shifted operand |
| Peephole.ShrSound | include/peephole_optimizer.h:116-141 | wherever the shift is defined, the replacement has the same value |
| Peephole.Rewrite | include/peephole_optimizer.h:18-20 | trying the three rule sets in order is the same as picking the set by the instruction's kind; only `Mul`, `And` and `Shr` are ever rewritten |
| Peephole.RewriteSound | include/peephole_optimizer.h:18-20 | the first rule that applies, in source order, is sound |
| Peephole.Slot | include/peephole_optimizer.h:160-175 | an instruction goes into the slot as it is; any other value goes in as an operand-less `Add` wrapper; `SlotMeaning` proves what the slot then denotes |
| Peephole.SlotMeaning | include/peephole_optimizer.h:156-177 | an instruction goes into the slot as it is; a constant goes in wrapped, keeping its meaning; anything else goes in as a wrapper that denotes nothing; a wrapper is never rewritten again |
| Peephole.ReplaceInstruction | include/peephole_optimizer.h:156-177 | only the slot at the index changes, and it receives the value as `Slot` places it |
| Peephole.ApplyMulPeepholes | include/peephole_optimizer.h:35-75 | applies exactly when a multiplication rule matches, and installs its replacement |
| Peephole.ApplyAndPeepholes | include/peephole_optimizer.h:81-111 | applies exactly when an `and` rule matches, and installs its replacement |
| Peephole.ApplyShrPeepholes | include/peephole_optimizer.h:116-141 | applies exactly when a right-shift rule matches, and installs its replacement |
| Peephole.RewriteLighter | include/peephole_optimizer.h:35-141 | every rewrite strictly lowers the slot's weight, so the restarting scan terminates |
| Peephole.OptimizeBlock | include/peephole_optimizer.h:11-29 | the block becomes the result of the scan, and the pass reports whether it rewrote |
| Peephole.ScanResult | include/peephole_optimizer.h:11-29 | the scan keeps the block's length; it reports a change exactly when the block differs; afterwards no rule applies to any slot except possibly the first |
| Peephole.ScanFromStartResult | include/peephole_optimizer.h:22-23 | restarting at slot 0 leaves no slot that any rule applies to |
| Peephole.SlotZeroNotRevisited | include/peephole_optimizer.h:22-23 | a concrete block where the scan as written leaves a rewritable first slot, and the restart at 0 does not |
| Peephole.RunOnFunction | include/peephole_optimizer.h:195-205 | every block is optimised on its own, and a change is reported exactly when some block changed |

## Left out

- Printing, the `str`/`print` members and `analyzeLoopNesting`/`printLoopInfo`. These only produce output.
- Memory ownership:
  - a Dafny model has no `new` or `delete` and no `unique_ptr`;
  - an instruction that a peephole rewrite moves into another slot is now owned twice in the source;
  - `findLoops`' loops are never freed.
- A peephole rewrite does not update uses:
  - in the source, other instructions keep pointing at the deleted instruction;
  - in the model, operands are value snapshots, so no dangling reference is visible;
  - as a result the model proves that each rewrite is sound, but not that a whole block's meaning is preserved across successive rewrites.
- `ConstantFolding.ReplaceAllUsesWith`: two effects of the source's pointers are not captured, because operands are value snapshots:
  - dangling uses: the folded instruction is erased, and only operands later in the same block are redirected. A use in another block points at freed memory in the source, while in the model it keeps evaluating as the old instruction;
  - lost aliasing: the source rewrites operands in place on the shared instruction object. The model updates only the copy held in the block's slot, so an `Inst` copy of that instruction held as an operand elsewhere keeps the old operand list. A later peephole rewrite can move such a stale copy into a slot and match its rules on it.
- Replace-all-uses only rewrites operand lists. A `Return`'s separate `retVal` and a phi's `incoming` pairs keep the old value in the source as well.
- `Peephole.SlotMeaning`: replacing an instruction with a parameter installs a wrapper around a null constant. The model says that the wrapper denotes nothing, because the source would dereference null when printing it.
- Iteration order over `unordered_set` (edges, loop blocks) is not modelled. Where the order can matter it is an arbitrary choice (`:|`), and every contract holds for any order.
- `std::sort` is not stable. Loops of equal size may come out in any order, and the model proves its results for every such order.
- C++ undefined behaviour is modelled as defined:
  - a signed overflow in `*` or `<<` wraps modulo 2^32;
  - an out-of-range `Shr` amount gives "no value" (`None`), which lets any replacement be sound.
- `LoopAnalysis.Loop.GetDepth`: the depth is stated through a ghost list of loops in which every parent comes earlier, as the hierarchy builder guarantees. The model does not cover parent chains built by other means.
- The dominator and loop analyses read a `Cfg` snapshot of the blocks' edge sets rather than the live blocks. `BuildCfg` proves the snapshot consistent.
- `CfgAnalysis.BuildCfg` requires every instruction to be either unresolved or resolved in its own block, as `createInstr` leaves them. A jump moved between blocks by hand is not covered.

## Findings

| source | as written | input that shows it | evidently intended | confidence | as-written member | corrected member |
|---|---|---|---|---|---|---|
| include/loop_analysis.h:48-57 | every edge whose target is in its source's dominator set is a back edge, even when the source is unreachable; the dominator iteration skips a block without predecessors, so that block keeps every block as a dominator | three blocks: the entry returns; block 1 has no predecessors and jumps to block 2; block 2 returns. The edge 1 -> 2 becomes a loop in an acyclic CFG | only back edges out of reachable blocks, which always close a cycle | not executed | LoopAnalysis.SpuriousLoop | LoopAnalysis.AcyclicNoReachableBackEdge |
| include/peephole_optimizer.h:22-23 | after a rewrite the loop sets `i = 0` and then `continue` increments it, so the scan resumes at slot 1 and never revisits slot 0 | one block `[mul(mul(p, 0), 1)]`: the outer multiply by 1 puts `mul(p, 0)` into slot 0, which is then left although the zero rule applies | restart at slot 0 so that no rewritable slot remains | not executed | Peephole.SlotZeroNotRevisited | Peephole.ScanFromStartResult |
