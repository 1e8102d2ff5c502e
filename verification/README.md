# Verified model of the bytecode auditor

This Dafny project models the parts of the repository whose correctness is not
visible from any single function, and proves what those parts promise. It sits
beside the code it describes: every module names the component it models, and
the table below gives the source lines.

`dafny verify dfyconfig.toml` checks everything.

## What is modelled

**From bytes to control flow** (`HexText`, `Disassembler`, `Opcodes`, `Blocks`,
`Graphs`, `Dominators`, `SweepOrder`, `ChainCode`, `Cfg`, `Slicer`,
`ContractSlicer`, `Evm`, `InstructionTable`, `ControlFlow`). The linear sweep,
the block cutter with its `BasicBlock` objects, the static edges, the
reachability search, the dominator sweeps, natural loops, and the searches that
cut a contract into functions. `Evm` is a separate byte-level machine written
from sections 9.4 and H of the Ethereum Yellow Paper, with its own table of
bytes and stack effects; it shares only the names of the instructions with the
analysers, and `InstructionTable` compares the two tables. The main results join
the two sides: the static edges out of a block are exactly the steps out of it,
those jumps excepted that the blocks do not show; a run of the machine follows
static edges exactly when the blocks show every jump it takes; and then every
listed dominator of a block has run when control gets there.

**Values** (`Words`, `Bits`, `Congruence`, `Exchange`, `PowerExchange`,
`StackSim`, `ExprIr`, `Printed`, `Simplifier`, `NormalForm`). The abstract stack
simulator of one block against that machine, what it knows as well as what it
gets right, with the operands for which its exchanged instructions are right;
and the structured rewrite passes against the value of an expression modulo
2^256, against its printed form, and against the normal form that they reach.

**The runner** (`Records`, `Checkpoint`, `Reorg`, `SaveQueue`, `WorkerPool`,
`Ledger`). The checkpoint object and its editing functions, and four step
systems: following a chain that may reorganise between blocks, with crashes and
restarts; the queue of checkpoint saves; the bounded worker pool; and the
webhook ledger. Each step system gives the environment every choice that the
source leaves open at an `await`, and each theorem is about every run.

**Joins and codecs** (`Engine`, `Selection`, `Numerals`, `JsonOut`,
`JsonParser`, `Utf8Order`, `Metadata`, `KeccakF`, `Keccak`, `KeccakBits`). The
sequence matcher as an exact relational join with what every field of a
constraint selects, the JSON printer with a parser of RFC 8259 that undoes it,
the metadata decoder with an encoder of RFC 8949 that it undoes, and the Keccak
object, whose digest is compared bit by bit with KECCAK[512] as FIPS 202 defines
it on strings of bits.

Code that changes things step by step is written as methods with loops and
classes, each proved equal to a specification function or a relation; lemmas
then say what that specification means.

## Where the code does not do what one would expect

The model follows the code. Each of these is stated as a theorem, with the exact
condition under which the expectation holds where there is one.

- The dominator sweeps stop after 100 rounds. After k sweeps a block lists
  exactly the blocks on all its entry paths with fewer than k edges that go
  back in the iteration order (`SweepOrder.ListedIff`), so the result is exact
  if and only if what an entry path avoids is avoided by one with fewer than
  100 such edges (`SweepOrder.ExactIff`). Up to 102 reachable blocks that always
  holds, in every order (`Dominators.ExactAfterEnoughRounds`); a chain of 103
  blocks swept in ascending order is a failing input
  (`Dominators.CapGivesWrongDominators`), and bytecode has that chain as its
  blocks (`ChainCode.CodeGetsWrongDominators`).
- A jump takes a static edge if and only if a PUSH stands just before it, or it
  is a JUMPI to the block behind it (`ControlFlow.JumpIsStaticIff`), and a run
  follows static edges if and only if all its jumps are of that kind
  (`ControlFlow.RunFollowsIff`). A program with a computed jump leaves them
  (`ControlFlow.ComputedJumpEscapes`).
- The simulator folds SUB, DIV, MOD, EXP, SHL and SHR with their operands
  exchanged. The folded constant is right if and only if the operands may be
  exchanged (`StackSim.ReversedFoldRightIff`), and for each of the six opcodes
  the operands for which that is so are given outright and proved complete
  (`Exchange.SubOrderMatters`, `Exchange.DivModOrderMatters`,
  `Exchange.ShlOrderMatters`, `Exchange.ShrOrderMatters`,
  `PowerExchange.ExpOrderMatters`). For EXP they are equal operands, even
  operands whose powers both vanish modulo 2^256, and the pairs 2, 4 and
  126, 252. MSTORE, MSTORE8 and SSTORE records have place and value exchanged
  (`StackSim.StoresAreExchanged`), and the false target of a conditional jump is
  looked for inside its own block and never found
  (`StackSim.FalseTargetNeverSet`).
- The documentation of the simplifier says that it repeats its passes until a
  fixed point. The printed form does tell whether a round changed anything
  (`Simplifier.ReprTells`), whatever text the leaves hold, so the loop never
  stops early at anything else; but it stops after five rounds. The result is a
  fixed point if and only if no more rounds than the limit change the
  expression, and fewer rounds than it has nodes ever do
  (`Simplifier.SettledIff`, `Simplifier.SimplifyAgainIff`); six nested terms
  need six (`Simplifier.NestedNeeds`, `Simplifier.SimplifyNotIdempotent`).
  Dropping a double negation is right if and only if its operand is 0 or 1
  (`Simplifier.DoubleNegationNeedsBoolean`).
- Selector extraction recognises the masked quotient with the operands the
  simulator's way round. Read as an expression that quotient is the selector
  only for a few words (`Simplifier.ExtractionRightIff`), none of them with a
  selector above 1 (`Simplifier.OrdinarySelectorsLost`); with the operands
  exchanged back the pass is right for every word. All other passes together
  keep the value of every expression with 160-bit addresses and boolean double
  negations (`Simplifier.OtherPassesKeep`), so a round is right if and only if
  selector extraction is (`Simplifier.RoundKeepsIff`).
- After a reorganisation the runner goes on at the same block and does not scan
  the blocks it rewound: the predecessor is missing from the history if and only
  if a reorganisation was detected (`Reorg.GapIffReorg`), and a range leaves no
  gap if and only if none of its blocks revealed one (`Reorg.RangeGapIff`).
- A webhook ends in both records if and only if it was loaded so or the save
  after its acceptance was rejected (`Ledger.InBothIff`).
- The body search of a function stops at 500 blocks; it is complete if and only
  if there are no more than that to find (`Slicer.CapIff`).
- The metadata decoder reads the entry count from the low five bits of the
  first byte, and lengths and integers of at most two bytes. Exactly the maps of
  1 to 23 entries within those sizes survive a round trip
  (`Metadata.RoundTripIff`); a text of 256 bytes and the integer 65536 are
  failing inputs (`Metadata.LostEntries`). Metadata with no code before it is
  not stripped (`Metadata.StripGivesCode`).
- Keccak padding overflows the block when a message is one byte short of a
  multiple of 136, and the last padding bit is lost
  (`Keccak.LastBlockIff`, `Keccak.PaddingIsLost`). For all other lengths the
  digest is KECCAK[512] of the message (`KeccakBits.DigestIsKeccak`).
- A static edge out of a block that ends in a byte that is no instruction leads
  to the next block, although the machine never takes it
  (`ControlFlow.EdgeIsTaken`).

## Model

| member | source | states |
|---|---|---|
| `HexText.HexRoundTrip` | evm_decon/disassembler.py:61-62 | decoding the hexadecimal text of any bytes gives the bytes back |
| `HexText.SpaceBetweenPairs` | evm_decon/disassembler.py:65 | behind any number of pairs of digits, a character that is no digit makes no difference if it is whitespace of ASCII, and makes the text undecodable otherwise |
| `HexText.NormalizeHex` | evm_decon/pipeline.py:100-104 | text made of hexadecimal digits is its own normal form, with or without the prefix 0x or 0X |
| `HexText.SpacesDropped` | evm_decon/pipeline.py:100-101 | a whitespace character anywhere in the text makes no difference |
| `HexText.SpacesAre` | evm_decon/pipeline.py:100-101 | whitespace is what has the property White_Space in Unicode, and the four separators U+001C to U+001F |
| `HexText.ValidateBytes` | evm_decon/pipeline.py:107-122 | the text of any bytes is refused if there are none or more than 524288, and otherwise becomes its digits |
| `HexText.ValidateOther` | evm_decon/pipeline.py:107-122 | an odd number of characters is reported as such whatever they are, and an even one only if some character is no hexadecimal digit |
| `HexText.ValidDecodes` | evm_decon/pipeline.py:107-122 | text that passes validation always decodes, to half as many bytes as it has digits, so the fallback for undecodable text is never taken |
| `Disassembler.Disassemble` | evm_decon/disassembler.py:52-171 | text that is not hexadecimal after clean-up gives no instructions and the one error; any other text gives the sweep of its bytes |
| `Disassembler.HexTextReads` | evm_decon/disassembler.py:53-62 | for every byte string, its text with and without prefix is cleaned up to those bytes |
| `Disassembler.DigitsAreNumber` | evm_decon/disassembler.py:53-62 | any number of digits is read as the bytes of the number they denote, an odd one with a zero in front |
| `Disassembler.DroppedIff` | evm_decon/disassembler.py:58 | a character inside digits is dropped if and only if it is a space, a line feed or a carriage return |
| `Disassembler.SurroundingDropped` | evm_decon/disassembler.py:53 | whitespace around any text makes no difference |
| `Disassembler.EofIs` | evm_decon/disassembler.py:74-92 | an EOF container is code that starts with EF and 00 |
| `Disassembler.InstructionAt` | evm_decon/disassembler.py:98-162 | an instruction never reaches past the code, its raw bytes are the code from its offset on, and its size is cut only where the code ends |
| `Disassembler.ReadInstruction` | evm_decon/disassembler.py:98-162 | one turn of the sweep reads that instruction and reports a PUSH exactly when operand bytes are missing, with how many were expected and found |
| `Disassembler.DisassembleBytes` | evm_decon/disassembler.py:74-171 | the loop yields the whole sweep, one report per truncated PUSH, and for an EOF container nothing but the version report |
| `Disassembler.SweepTiles` | evm_decon/disassembler.py:94-162 | from any offset the instructions cover the rest of the code without gap or overlap |
| `Disassembler.SweepConcatenates` | evm_decon/disassembler.py:94-162 | the raw bytes of the swept instructions concatenate to the swept code |
| `Disassembler.InstructionLossless` | evm_decon/disassembler.py:98-162 | opcode byte and operand value determine the raw bytes; only PUSH has an operand, and it is below 256 to the power of its width |
| `Disassembler.JumpdestsAreValidJumps` | evm_decon/disassembler.py:94-162 | from any offset, the JUMPDEST offsets are the valid jump destinations of section 9.4.3 of the Yellow Paper, both ways |
| `Disassembler.DisassemblyLossless` | evm_decon/disassembler.py:94-162 | all of the above for whole legacy code |
| `Opcodes.Decode` | evm_decon/opcodes.py:30-155 | PUSH0 to PUSH32, DUP, SWAP, LOG and JUMPDEST stand at their bytes and nowhere else, with the width the byte encodes |
| `InstructionTable.DecodeIff` | evm_decon/opcodes.py:30-155 | a byte is decoded to an instruction if and only if it stands for it in the tables of section H.2 of the Yellow Paper, the later instructions included; every byte outside them is unknown |
| `InstructionTable.EffectsAre` | evm_decon/opcodes.py:30-155 | the words every instruction takes from the stack and leaves on it are those of these tables |
| `InstructionTable.NextStartIs` | evm_decon/opcodes.py:114-115 | the inline bytes are those that the machine skips |
| `InstructionTable.TerminatorIff` | evm_decon/opcodes.py:158-161 | the terminators are JUMP, JUMPI and the instructions that halt the machine, and no others |
| `InstructionTable.StepIs` | evm_decon/opcodes.py:30-155 | a step of the machine, defined by these tables, runs the instruction that is decoded |
| `Blocks.BasicBlock.constructor` | evm_decon/blocks.py:99-131 | a closed block has its first and last offsets, its terminator if the last opcode is one, its type, and no exits yet |
| `Blocks.CutBlocks` | evm_decon/blocks.py:59-86 | the loop numbers blocks by position and produces exactly the specified cut |
| `Blocks.CutIsPartition` | evm_decon/blocks.py:56-86 | for any instruction list: JUMPDEST occurs only first and a terminator only last in a block, cuts happen only where one of them forces it, and the blocks concatenate to the list |
| `Blocks.PartitionUnique` | evm_decon/blocks.py:56-57 | these rules leave exactly one partition |
| `Blocks.AddExits` | evm_decon/blocks.py:152-187 | the exits appended in place for a jump, a conditional jump, a halting terminator and a fall-through, in order |
| `Blocks.IndexBlocks` | evm_decon/blocks.py:141-144 | the dictionary from start offsets to blocks |
| `Blocks.ResolveEdges` | evm_decon/blocks.py:134-187 | every block keeps its exits and gets its static exits behind them, in both lists |
| `Blocks.BuildBasicBlocks` | evm_decon/blocks.py:37-96 | fresh numbered blocks that partition the disassembly, with the JUMPDEST offsets and exactly the static exits |
| `ControlFlow.ExitsAre` | evm_decon/blocks.py:134-187 | the static edges are exactly the pushed jumps to a block that starts with a JUMPDEST, and the steps to the next block after a JUMPI or an instruction that ends no block |
| `ControlFlow.EdgeIsTaken` | evm_decon/blocks.py:146-187 | a static edge is taken by some step of the machine from the last instruction of its block, with the pushed operand on the stack, if and only if that is an instruction |
| `ControlFlow.EdgesAreSteps` | evm_decon/blocks.py:134-187 | for such a block the static edges are exactly the blocks that steps from its end lead to, those jumps excepted that the blocks do not show |
| `ControlFlow.JumpIsStaticIff` | evm_decon/blocks.py:152-170 | a jump of the machine takes a static edge if and only if a PUSH stands just before it, or it is a JUMPI that goes where it would fall |
| `ControlFlow.StepTakesEdge` | evm_decon/blocks.py:146-187 | a machine step that does not jump goes to the next instruction or takes a static edge; one that jumps takes a static edge if and only if the blocks show it |
| `ControlFlow.RunFollowsIff` | evm_decon/blocks.py:134-187 | a run of the machine takes static edges at every step out of a block if and only if the blocks show every jump it takes |
| `ControlFlow.PushedIsShown` | evm_decon/blocks.py:152-170 | code with a PUSH before every jump shows every jump of every run |
| `ControlFlow.RunWalksEdges` | evm_decon/blocks.py:134-187 | every run whose jumps the blocks show enters blocks along a path of static edges from block 0 |
| `ControlFlow.DominatorsHaveRun` | evm_decon/cfg.py:118-154 | whenever such a run is in block n, every block that the analysis lists as a dominator of n has been entered, if the sweeps converged, as they do with at most 102 reachable blocks |
| `ControlFlow.ComputedJumpEscapes` | evm_decon/blocks.py:152-160 | a four-instruction program with a computed jump has a run that reaches a block without static edges to it |
| `Graphs.SimplePath` | evm_decon/cfg.py:103-115 | a path can be cut down to one without repetition; this bounds how many sweeps are needed |
| `Graphs.DominatorsOrdered` | evm_decon/cfg.py:118-154 | two dominators of one reachable block are ordered by dominance |
| `Graphs.DominanceAntisymmetric` | evm_decon/cfg.py:118-154 | two reachable blocks that dominate each other are the same |
| `Dominators.MeetAll` | evm_decon/cfg.py:143-148 | the inner loop computes the intersection over the reachable predecessors |
| `Dominators.SweepOnce` | evm_decon/cfg.py:138-152 | one pass handles the blocks in iteration order on the map it is changing, and reports no change only if there was none |
| `Dominators.ComputeDominators` | evm_decon/cfg.py:118-154 | the loop with its early exit returns what 100 full sweeps return |
| `Dominators.FixpointStays` | evm_decon/cfg.py:137-152 | once a sweep changes nothing, no later sweep does |
| `Dominators.RoundsComplete` | evm_decon/cfg.py:118-154 | at every round, cap or no cap, every path-defined dominator is listed |
| `Dominators.RoundsPrecise` | evm_decon/cfg.py:118-154 | after k sweeps in any order, a listed block lies on every entry path of at most k edges |
| `Dominators.ExactIffFixpoint` | evm_decon/cfg.py:118-154 | the map is exactly path-defined dominance if and only if the next sweep changes nothing |
| `Dominators.ExactAfterEnoughRounds` | evm_decon/cfg.py:137 | k sweeps are enough for k + 2 reachable blocks, whatever the iteration order |
| `Dominators.ConvergedIff` | evm_decon/cfg.py:118-154 | the reported dominators are right if and only if at most 102 blocks are reachable or one more sweep would change nothing |
| `Dominators.CapGivesWrongDominators` | evm_decon/cfg.py:137 | for every k, a chain of k + 3 blocks swept k times in ascending order lists a block that does not dominate |
| `SweepOrder.RoundEquation` | evm_decon/cfg.py:138-152 | after a sweep a block lists itself and what all its reachable predecessors listed when it was handled: from this sweep if they come before it in the order, from the last one otherwise |
| `SweepOrder.ListedIff` | evm_decon/cfg.py:118-154 | for every graph, order and k: after k sweeps a block lists exactly the reachable blocks on all its entry paths with fewer than k edges, not counting the first, that go back in the order |
| `SweepOrder.ExactIff` | evm_decon/cfg.py:137 | k sweeps give path dominance if and only if whatever an entry path avoids is avoided by one with fewer than k such edges |
| `SweepOrder.OneSweepIsEnough` | evm_decon/cfg.py:137 | an order in which all edges go forward needs one sweep, however many blocks there are |
| `ChainCode.ChainIsCode` | evm_decon/blocks.py:134-187 | for 2 to 13107 blocks there is bytecode whose static edges are those of the failing chain |
| `ChainCode.CodeGetsWrongDominators` | evm_decon/cfg.py:118-154 | so bytecode of 103 blocks gets a reported dominator that a path of static edges avoids |
| `Dominators.RoundsShrink` | evm_decon/cfg.py:137-152 | no sweep ever adds a dominator back |
| `Dominators.SizeDecreases` | evm_decon/cfg.py:137-152 | a sweep that changes anything makes the dominator sets smaller in total, so the loop would end without its cap |
| `Dominators.ListedIsReachable` | evm_decon/cfg.py:127-134 | only reachable blocks are ever listed |
| `Cfg.ComputeReachable` | evm_decon/cfg.py:103-115 | the queue visits exactly the known blocks that a path within the known blocks reaches from the entry |
| `Cfg.FindBackEdges` | evm_decon/cfg.py:157-168 | exactly the edges from a reachable block to one of its listed dominators |
| `Cfg.NaturalLoopBody` | evm_decon/cfg.py:275-288 | the worklist collects exactly the header and the blocks with a path to the tail around the header |
| `Cfg.ExitBlocks` | evm_decon/cfg.py:188-193 | exactly the blocks outside the body that a body block exits to, each once |
| `Cfg.ComputeLoops` | evm_decon/cfg.py:171-193 | one record per back edge, each with that body and those exits |
| `Cfg.BuildAdjacency` | evm_decon/cfg.py:59-72 | successors are the static exits of every block, and the predecessor dictionary is their inverse |
| `Cfg.AnalyzeCfg` | evm_decon/cfg.py:49-84 | the stages put together: reachability, 100 sweeps, back edges and loop records of the same graph |
| `Cfg.LoopEnteredAtHeader` | evm_decon/cfg.py:275-288 | an edge into a natural loop from outside goes to its header |
| `Cfg.HeaderDominatesBody` | evm_decon/cfg.py:275-288 | the header of a natural back edge dominates every member |
| `Cfg.LoopsNest` | evm_decon/cfg.py:275-288 | two reachable natural loops with different headers are disjoint on reachable blocks, or one contains the other |
| `Cfg.RecordedLoops` | evm_decon/cfg.py:171-193 | the same three facts for the records of any analysis whose sweeps converged |
| `Cfg.BackEdgesFound` | evm_decon/cfg.py:157-168 | no natural back edge is ever missed, and if the sweeps converged nothing else is reported |
| `Slicer.BfsReachable` | evm_decon/function_slicer.py:292-316 | the capped search visits nothing outside the reachable blocks and leaves nothing nearer than its last level; below the cap it finds exactly the blocks reached around the excluded ones |
| `Slicer.CapIff` | evm_decon/function_slicer.py:297-316 | the search finds everything if and only if there are no more blocks to find than the cap |
| `Slicer.ReachableBlocks` | evm_decon/behavior_sections.py:218-233 | exactly the blocks at distance less than the depth limit; none for a limit of zero or less |
| `Slicer.PushedAre` | evm_decon/function_slicer.py:275-278 | the possible return addresses of a block are the operands of its pushes, in order, and nothing else |
| `Slicer.ResolveReturnAddressEdges` | evm_decon/function_slicer.py:245-289 | an edge is there afterwards if and only if it was there before or its block ends in JUMP and pushed that JUMPDEST before its last push; old edges keep their places |
| `Slicer.AddReturnEdges` | evm_decon/function_slicer.py:268-289 | the same for one block |
| `Slicer.MoreEdgesReachMore` | evm_decon/function_slicer.py:261-265 | added edges never lengthen the way to a block |
| `Slicer.ClassifyBlocks` | evm_decon/function_slicer.py:120-134 | a block is owned by a selector if and only if no other selector reaches it, and shared if and only if two do |
| `Slicer.ReachOfEntries` | evm_decon/function_slicer.py:103-118 | exactly the selectors with a jump target that starts a block have a search result, found from the block of their last such entry |
| `Slicer.CollectUnits` | evm_decon/function_slicer.py:103-160 | around a given dispatcher, one unit for every entry with a jump target, in order, with its name, its target, its block and the search result of its selector; a block is owned or shared exactly as those results say; bodies avoid the dispatcher |
| `ContractSlicer.CopyExits` | evm_decon/function_slicer.py:79-82 | the successor dictionary has exactly the exits of every block |
| `ContractSlicer.ComparisonIff` | evm_decon/function_slicer.py:221-229 | a block has a selector comparison if and only if one of its opcode bytes is that of PUSH4, CALLDATALOAD or CALLDATASIZE |
| `ContractSlicer.CheckBlock` | evm_decon/function_slicer.py:217-236 | the checks of one block, with the loop over its instructions |
| `ContractSlicer.FindDispatcher` | evm_decon/function_slicer.py:173-242 | the dispatcher is exactly what a walk from block 0 reaches over blocks that look like a part of it: no function entry, a selector comparison or an early number, and an early offset |
| `ContractSlicer.LessIff` | evm_decon/function_slicer.py:163 | selectors are compared by their first difference, and a prefix comes first |
| `ContractSlicer.SortedIsStable` | evm_decon/function_slicer.py:163 | the final sort by selector orders the units and keeps those of each selector as they were, so it loses and adds none |
| `ContractSlicer.SliceFunctions` | evm_decon/function_slicer.py:52-170 | the whole: the searches go over exactly the exits and the return edges of the blocks, around exactly that dispatcher; units, owners and shared blocks are those of the search results, and the units come sorted by selector |
| `StackSim.PopValues` | evm_decon/stack_sim.py:588-591 | popping takes at most what is there, from the top |
| `StackSim.Evaluate` | evm_decon/stack_sim.py:62-100 | the pushed value for every opcode and every mixture of constant and unknown operands |
| `StackSim.SimulateInstruction` | evm_decon/stack_sim.py:214-597 | one turn of the instruction loop, underflow included |
| `StackSim.SimulateBlock` | evm_decon/stack_sim.py:196-610 | the trace of a block: exit stack, branch condition and both targets, memory and storage records |
| `StackSim.FalseTargetNeverSet` | evm_decon/stack_sim.py:513-515 | in a block the false target of a conditional jump is never set |
| `StackSim.FoldIsSwapped` | evm_decon/stack_sim.py:256-382 | a fold computes the machine instruction, with the operands exchanged for exactly the six reversed opcodes |
| `StackSim.FoldIsRight` | evm_decon/stack_sim.py:256-382 | a fold is the machine instruction if and only if it is not reversed or its operands may be exchanged |
| `StackSim.ResultSound` | evm_decon/stack_sim.py:62-100 | an ordinary instruction keeps heights equal and constants true unless it folds reversed operands that may not be exchanged |
| `StackSim.ShuffleSound` | evm_decon/stack_sim.py:219-248 | PUSH, DUP and SWAP do so always |
| `StackSim.StepSound` | evm_decon/stack_sim.py:214-597 | one instruction of any kind |
| `StackSim.MachineStepIsConcrete` | evm_decon/stack_sim.py:214-597 | a step of the byte-level machine is a step of the kind the soundness theorems assume |
| `StackSim.BlockSound` | evm_decon/stack_sim.py:196-610 | over a whole block: same height as the machine, and every reported constant is the word the machine has |
| `StackSim.BranchSound` | evm_decon/stack_sim.py:500-518 | a reported jump target is the word the machine jumps to, and the reported condition allows the word it tests |
| `StackSim.ResultKnownIff` | evm_decon/stack_sim.py:62-100 | a pushed word is known if and only if the machine computes it from its operands alone and they are known |
| `StackSim.UnknownIff` | evm_decon/stack_sim.py:586-592 | exactly the five opcode bytes without a branch of their own push an unknown value rather than an expression |
| `StackSim.ShuffleMoves` | evm_decon/stack_sim.py:237-248 | DUP and SWAP move every value, known or not, along with the word it stands for |
| `StackSim.BlockComplete` | evm_decon/stack_sim.py:196-610 | in a block that pushes, moves, computes or drops words only, from known words, the exit stack is exactly the stack of the machine, unless operands are folded in the wrong order |
| `StackSim.LoadsAreRecorded` | evm_decon/stack_sim.py:459-489 | a load is recorded once, at its offset and with the place the machine reads; nothing but loads and stores is recorded |
| `StackSim.ReversedFoldRightIff` | evm_decon/stack_sim.py:263-382 | a folded reversed instruction reports the true word if and only if its operands are among those that may be exchanged |
| `Exchange.SubOrderMatters` | evm_decon/stack_sim.py:262-266 | exchanged subtraction is right only for equal operands or operands half the modulus apart |
| `Exchange.DivModOrderMatters` | evm_decon/stack_sim.py:275-284 | exchanged division and remainder are right only for equal operands or a zero operand |
| `Exchange.ShlOrderMatters` | evm_decon/stack_sim.py:85-91 | exchanged left shifts are right only for equal operands, two shifts of 256 or more, one such shift with enough factors of two, or 1 and 2 |
| `Exchange.ShrOrderMatters` | evm_decon/stack_sim.py:94-100 | exchanged right shifts are right only for equal operands or when the larger loses all its bits to the smaller |
| `PowerExchange.ExpOrderMatters` | evm_decon/stack_sim.py:286-290 | exchanged powers are right only for equal operands, even operands whose powers both vanish modulo 2^256, and the pairs 2, 4 and 126, 252 |
| `PowerExchange.ExchangeIff` | evm_decon/stack_sim.py:262-382 | the six conditions together |
| `PowerExchange.OrderCanMatter` | evm_decon/stack_sim.py:262-382 | for each of the six opcodes a pair of operands for which the exchange is wrong |
| `StackSim.StoresAreExchanged` | evm_decon/stack_sim.py:464-489 | a store record has the written value as its place and the place as its value, and is right only when they are equal |
| `Evm.WordBits` | evm_decon/stack_sim.py:349-386 | the bitwise instructions that simulator, simplifier and machine share work on each of the 256 bits, and a shift moves them all; bit i is the parity of the quotient by 2 to the power of i |
| `Simplifier.Simplify` | evm_decon/simplifier.py:28-39 | the loop computes the rounds up to the limit or the first unchanged printed form, and reaches a fixed point if and only if the limit allows the rounds needed |
| `NormalForm.NormalIff` | evm_decon/simplifier.py:194-204 | a round of all passes leaves an expression alone if and only if, as far as each pass looks, it has no two constants to fold, no double negation, no product with zero, no mask around an address or a masked word, no masked selector quotient, no masked argument word, and at its root neither a negated comparison nor the load of 0x40 |
| `NormalForm.SettlesToNormalIff` | evm_decon/simplifier.py:28-39 | the result is such a normal form if and only if the limit allows all rounds that change something, as it does with a round for each node beyond the root |
| `NormalForm.ArgumentRecognised` | evm_decon/simplifier.py:376-382 | the masked calldata word at 4 + 32 i becomes the address argument i with that offset |
| `Simplifier.SimplifyKeepsMeaning` | evm_decon/simplifier.py:28-39 | for every expression, environment and number of rounds the value modulo 2^256 is kept, if doubly negated operands are 0 or 1, addresses have 160 bits and masked quotients of the selector constant are the selector |
| `Simplifier.OtherPassesKeep` | evm_decon/simplifier.py:194-204 | the composition of the seven passes other than selector extraction keeps the value of every expression whose doubly negated operands are 0 or 1 and whose sender and arguments have 160 bits |
| `Simplifier.RoundKeepsIff` | evm_decon/simplifier.py:194-204 | a round of all passes keeps that value if and only if selector extraction keeps the value of what it is given |
| `Simplifier.PassesKeep` | evm_decon/simplifier.py:194-204 | the composition of all passes keeps the value where masked quotients of the selector constant are the selector |
| `Simplifier.FoldConstMeans` | evm_decon/simplifier.py:213-241 | a folded constant is the value of the operation, shifts of any size included |
| `Simplifier.ConstantFoldKeeps` | evm_decon/simplifier.py:207-255 | constant folding keeps the value of every expression, and the conditions of the other passes |
| `Simplifier.DoubleNegation` | evm_decon/simplifier.py:258-282 | the pass ends although it recurses on its own result: no result is larger than its argument, and none is a double negation |
| `Simplifier.DoubleNegationKeeps` | evm_decon/simplifier.py:258-282 | dropping double negations keeps the value where doubly negated operands are 0 or 1 |
| `Simplifier.DoubleNegationNeedsBoolean` | evm_decon/simplifier.py:258-282 | dropping one is right if and only if the operand is 0 or 1 |
| `Simplifier.ZeroMultiplicationKeeps` | evm_decon/simplifier.py:285-302 | products with zero keep their value in every expression |
| `Simplifier.AddressMaskKeeps` | evm_decon/simplifier.py:305-332 | dropped address masks keep the value where sender and arguments have 160 bits |
| `Simplifier.MaskOfAddress` | evm_decon/simplifier.py:305-332 | the mask keeps 160-bit words and makes every word one |
| `Simplifier.SelectorExtractionKeeps` | evm_decon/simplifier.py:335-361 | selector extraction keeps the value where a masked quotient of the selector constant is the selector |
| `Simplifier.ExtractionRightIff` | evm_decon/simplifier.py:335-361 | the pass rewrites the masked quotient of any operand; with the selector as the upper four bytes of a word x that keeps the value if and only if x is 0, x is the selector constant, or x is smaller and the quotient is a multiple of 2^32; with the operands exchanged back it keeps it for every x |
| `Simplifier.OrdinarySelectorsLost` | evm_decon/simplifier.py:335-361 | no word with a selector above 1 is among these |
| `Simplifier.CalldataArgsKeeps` | evm_decon/simplifier.py:364-386 | a recognised argument is the masked calldata word it replaces, in every expression |
| `Simplifier.RecognisedArg` | evm_decon/simplifier.py:419-431 | the offset arithmetic of argument recognition is inverted without wrap-around |
| `Simplifier.ComparisonNormalizeKeeps` | evm_decon/simplifier.py:389-406 | a negated comparison and the inverse comparison have one value |
| `Simplifier.MemoryBoilerplateKeeps` | evm_decon/simplifier.py:409-414 | the free memory pointer is the word at 0x40 |
| `Simplifier.ConstantFoldIdempotent` | evm_decon/simplifier.py:207-255 | applying the pass twice is applying it once |
| `Simplifier.DoubleNegationIdempotent` | evm_decon/simplifier.py:258-282 | likewise |
| `Simplifier.ZeroMultiplicationIdempotent` | evm_decon/simplifier.py:285-302 | likewise |
| `Simplifier.AddressMaskIdempotent` | evm_decon/simplifier.py:305-332 | likewise |
| `Simplifier.SelectorExtractionIdempotent` | evm_decon/simplifier.py:335-361 | likewise |
| `Simplifier.CalldataArgsIdempotent` | evm_decon/simplifier.py:364-386 | likewise |
| `Simplifier.TopLevelPassesIdempotent` | evm_decon/simplifier.py:389-414 | likewise for the two passes that look at the root only |
| `Simplifier.PassesShrink` | evm_decon/simplifier.py:194-204 | a round of all passes changes nothing or makes the tree smaller |
| `Simplifier.PassesConverge` | evm_decon/simplifier.py:9 | as many rounds as the tree has nodes beyond its root always reach an expression that no pass changes |
| `Printed.SameText` | evm_decon/expr_ir.py:281-332 | inside any text, an expression obtained by rewriting subtrees prints like its origin only if it is its origin, whatever text leaves and operators hold |
| `Printed.OperatorTexts` | evm_decon/expr_ir.py:298-337 | every operator is printed as the text it is written with |
| `Printed.ConstantText` | evm_decon/expr_ir.py:47-57 | a constant is printed in two, four or eight hexadecimal digits or in as many as it needs, and they denote it |
| `Printed.ArgumentText` | evm_decon/expr_ir.py:157-159 | an argument is printed with its number, and with its type if that is known |
| `Simplifier.ReprTells` | evm_decon/simplifier.py:34-38 | a round leaves the printed form alone if and only if it leaves the expression alone |
| `Simplifier.SettleIsRounds` | evm_decon/simplifier.py:28-39 | so the result is that of all the rounds the limit allows |
| `Simplifier.SettledIff` | evm_decon/simplifier.py:28-39 | the result is a fixed point of the passes if and only if no more rounds than the limit change the expression, and always if the limit allows a round per node beyond the root |
| `Simplifier.SimplifyAgainIff` | evm_decon/simplifier.py:28-39 | exactly then another call with any limit changes nothing |
| `Simplifier.SettleOfNested` | evm_decon/simplifier.py:28-39 | n rounds remove exactly n of k nested terms |
| `Simplifier.NestedNeeds` | evm_decon/simplifier.py:28-39 | k nested terms need exactly k rounds |
| `Simplifier.SimplifyNotIdempotent` | evm_decon/simplifier.py:28-39 | for more than five nested terms, simplifying the simplified expression changes it again |
| `Records.SortByKeeps` | runner/src/state.ts:192-194 | the sort is a permutation in ascending order |
| `Records.SortIsStable` | runner/src/state.ts:192-194 | and stable: entries with equal time stamps keep their order |
| `Records.FindAfterPut` | runner/src/state.ts:155-158 | reading back after writing a key gives what was written, and every other key is as before |
| `Records.FindAfterRemove` | runner/src/state.ts:159 | reading back after deleting a key gives nothing, and every other key is as before |
| `Records.PruneKeepsLatest` | runner/src/state.ts:183-196 | pruning keeps as many entries as the limit allows, invents none, and keeps none older than one it drops |
| `Records.PruneIdempotent` | runner/src/state.ts:183-196 | a second pruning changes nothing |
| `Records.PruneKeepsDistinct` | runner/src/state.ts:183-196 | keys stay distinct |
| `Checkpoint.TrimmedWithinLimits` | runner/src/state.ts:65-80 | the edit before every write brings the history and the three records within their limits |
| `Checkpoint.TrimmedKeepsLatest` | runner/src/state.ts:65-80 | what that edit drops is never newer than what it keeps, by creation, delivery and last failure; it drops nothing below the limits, and only the oldest history |
| `Checkpoint.EmptyIs` | runner/src/state.ts:120-131 | an empty checkpoint ends one block before the first |
| `Checkpoint.RewindIs` | runner/src/state.ts:145-152 | a rewind drops the entries above its block and no others |
| `Checkpoint.RunnerCheckpoint.Assign` | runner/src/runner.ts:272 | the shared object takes over every field |
| `Checkpoint.RunnerCheckpoint.MarkEventDelivered` | runner/src/state.ts:154-160 | the event is delivered and no longer pending; no other event is touched |
| `Checkpoint.RunnerCheckpoint.RecordPendingWebhook` | runner/src/state.ts:162-177 | the event is pending with one more attempt than before; no other event is touched |
| `Reorg.EnsureReorgSafeCheckpoint` | runner/src/runner.ts:242-274 | the check rewinds the shared checkpoint to the target and saves it, or leaves it alone, as specified |
| `Reorg.ProcessRange` | runner/src/runner.ts:184-226 | the shared checkpoint goes through every block of the range, each on the chain of its moment: a good checkpoint that ends before the range comes out good, ends at its last block and lies on the chain seen last |
| `Reorg.RangeDoneGood` | runner/src/runner.ts:184-226 | the same for the checkpoint as a value |
| `Reorg.TargetOnChain` | runner/src/runner.ts:260-271 | the rewind goes to an entry on the observed chain within the depth limit, or before the first block |
| `Reorg.TargetIsNewest` | runner/src/runner.ts:259-271 | no newer entry within the limit is on the chain |
| `Reorg.RewindIsRight` | runner/src/runner.ts:259-272 | both, for the unsorted history of a good checkpoint |
| `Reorg.ReorgSafeGood` | runner/src/runner.ts:242-274 | after the check the history is a strictly rising chain of ancestors, all on the observed chain |
| `Reorg.UpdateHistoryGood` | runner/src/state.ts:133-143 | adding the block just handled keeps that, and ends the history at it |
| `Reorg.TrimmedGood` | runner/src/state.ts:65-80 | trimming before a save keeps that |
| `Reorg.GapIffReorg` | runner/src/runner.ts:196-224 | block b - 1 is missing from the history after block b if and only if a reorganisation was detected there |
| `Reorg.RangeGapIff` | runner/src/runner.ts:196-224 | with room for a range, its history has every number from the block before it on if and only if every block of the range is a child of the one handled before it |
| `Reorg.StartsAtFirstBlock` | runner/src/runner.ts:145-182 | without a checkpoint file the first block handled is the configured one |
| `Reorg.NextKeepsInv` | runner/src/runner.ts:145-274 | every step of the node keeps the invariant: start from file or empty, poll, check, edit, save, finish, crash |
| `Reorg.RunsStayGood` | runner/src/runner.ts:145-274 | in every state of every run, whatever the chain does between blocks and wherever the process crashes, live and stored history are rising chains of ancestors that end at the last processed block, and after each block all entries lie on the chain just observed |
| `SaveQueue.RunsKeepInv` | runner/src/state.ts:58-80 | in every interleaving saves settle in call order, and the last save to have begun writes the checkpoint as it is in memory |
| `SaveQueue.AtMostOneWriter` | runner/src/state.ts:58-63 | at most one write is in progress |
| `SaveQueue.DrainedFileIsCurrent` | runner/src/state.ts:58-80 | once the queue has drained with its last save successful, the file is the checkpoint in memory, within its limits |
| `SaveQueue.FileOnlyByRenaming` | runner/src/utils.ts:77-80 | only a renaming that succeeds changes the file, to the payload of that write |
| `SaveQueue.OneFailureIsSurvived` | runner/src/utils.ts:81-93 | a write whose first renaming fails can still leave the checkpoint in the file |
| `SaveQueue.NoSecondRetry` | runner/src/utils.ts:81-99 | only a first write or renaming is retried, with the same payload |
| `SaveQueue.NeverStuck` | runner/src/state.ts:58-63 | as long as a save has not settled some save can make a step: a failed save blocks none |
| `SaveQueue.WorkDecreases` | runner/src/utils.ts:67-99 | every step of a write, retries included, uses up a bounded amount of work |
| `SaveQueue.QuietRunsEnd` | runner/src/state.ts:58-80 | without new calls every run ends, and it can go on until the queue has drained |
| `WorkerPool.RunsKeepInv` | runner/src/runner.ts:727-738 | in every interleaving items are started in order, each once, by at most the allowed number of runners, which never share an item |
| `WorkerPool.QuietMeansAllStarted` | runner/src/runner.ts:727-738 | when no runner can go on, every item was started once, unless every runner has failed |
| `WorkerPool.ThrowEndsRunner` | runner/src/runner.ts:731-737 | a worker that throws ends its runner for good |
| `WorkerPool.StepsDecrease` | runner/src/runner.ts:727-738 | every step brings the pool closer to rest |
| `WorkerPool.RestsIffQuiet` | runner/src/runner.ts:727-738 | a step is possible if and only if some runner has not ended |
| `Ledger.RunsKeepInv` | runner/src/runner.ts:647-698 | the ledger invariant holds in every interleaving of emissions with distinct ids |
| `Ledger.InBothIff` | runner/src/runner.ts:682-697 | an event is in both records if and only if it was loaded so or the save after its acceptance was rejected |
| `Ledger.EmittedEndsInOneRecord` | runner/src/runner.ts:647-698 | every event emitted and no longer in flight is in delivered or pending, and in only one of them but for those |
| `Ledger.NeverPostedAgain` | runner/src/runner.ts:656-662 | no event is accepted twice, and none is asked for again once it is delivered |
| `Ledger.AttemptsCountFailures` | runner/src/state.ts:162-177 | the attempts of a waiting event count its failures in this run and in earlier ones; after a rejected save they start over at 1 |
| `Ledger.RecordOfFailures` | runner/src/state.ts:162-177 | in every state of every run the record of a waiting event has the time of its first failure, the time and the reason of its last, and their number; a loaded record goes on, an acceptance starts afresh |
| `Ledger.RejectedSaveLeavesBoth` | runner/src/runner.ts:682-697 | from any checkpoint that has not delivered an event, a run of four states puts it into both records |
| `JsonOut.EncodeString` | go/internal/cli/jsonout.go:175-210 | the loop appends the quoted and escaped text |
| `JsonOut.EncodeMap` | go/internal/cli/jsonout.go:126-152 | whatever order the map is iterated in, the members are appended in the one sorted order |
| `JsonOut.EncodeList` | go/internal/cli/jsonout.go:154-173 | the items are appended in order, with their separators and indentation |
| `JsonOut.EncodeStrings` | go/internal/cli/jsonout.go:103-108 | a list of strings is appended as the list of its values |
| `JsonOut.LinesIndented` | go/internal/cli/jsonout.go:59-63 | every line inside braces or brackets begins with exactly two spaces a level, and the closing line with one level less |
| `JsonOut.StringsAsList` | go/internal/cli/jsonout.go:103-108 | and prints like the list of those values |
| `JsonOut.EncodeValue` | go/internal/cli/jsonout.go:65-124 | every kind of value, the two typed nils included |
| `JsonOut.EncodePythonCompat` | go/internal/cli/jsonout.go:22-28 | a fresh buffer ends up with the specified document |
| `JsonOut.SortGivesListing` | go/internal/cli/jsonout.go:131-135 | sorting distinct keys lists each once in order |
| `JsonOut.ListingUnique` | go/internal/cli/jsonout.go:131-135 | a set of keys has one such listing, so the output does not depend on map iteration |
| `JsonOut.ListingOf` | go/internal/cli/jsonout.go:131-135 | sorting the collected keys gives that listing |
| `Utf8Order.ByteOrderIsRuneOrder` | go/internal/cli/jsonout.go:135 | comparing strings by bytes and by code points is the same |
| `JsonParser.RuneReads` | go/internal/cli/jsonout.go:178-207 | the parser undoes every escape, surrogate pairs of section 7 of RFC 8259 included |
| `JsonParser.TextReads` | go/internal/cli/jsonout.go:175-210 | it undoes every string |
| `JsonParser.IntReads` | go/internal/cli/jsonout.go:83-90 | it undoes every integer of any sign and size, before the end of the text, a comma or a line feed |
| `JsonParser.ValueReads` | go/internal/cli/jsonout.go:65-173 | it undoes every value at every nesting level, before the end of the text, a comma or a line feed |
| `JsonParser.RoundTrip` | go/internal/cli/jsonout.go:22-28 | parsing a printed document gives the value back |
| `JsonParser.OutputIsAscii` | go/internal/cli/jsonout.go:195-207 | whatever the strings hold, the output is printable ASCII and line feeds |
| `Engine.ExtendContext` | evm_check/engine.py:366-416 | the extended context, with bindings overwritten in table order and only for names that start with a dollar sign |
| `Engine.MatchStep` | evm_check/engine.py:309-363 | one step yields the contexts of its fitting choices in index order; the first kind of constraint given decides |
| `Engine.MatchWrites` | evm_check/engine.py:318-330 | the same for writes |
| `Engine.MatchReads` | evm_check/engine.py:331-343 | the same for reads |
| `Engine.MatchDelegatecalls` | evm_check/engine.py:344-352 | the same for delegate calls |
| `Engine.MatchExternalCalls` | evm_check/engine.py:353-362 | the same for external calls |
| `Engine.StepIsExact` | evm_check/engine.py:309-363 | a step finds exactly the choices that satisfy its relation, each once, in order |
| `Engine.MatchSequences` | evm_check/engine.py:216-230 | the result is the join: the contexts of all runs of fitting choices, in lexicographic order, none lost and none repeated |
| `Engine.JoinIsExact` | evm_check/engine.py:222-230 | why the nested loops compute it |
| `Engine.JoinIsUnique` | evm_check/engine.py:216-230 | a rule and a state model have only one such result |
| `Engine.BindingLasts` | evm_check/engine.py:374-394 | a variable holds what a step bound until a later step names it again |
| `Engine.SameSlotJoins` | evm_check/engine.py:431-433 | a step joined on a variable uses the slot of the step that bound it, in storage and in delegate calls |
| `Engine.SameTargetJoins` | evm_check/engine.py:517-519 | a joined external call goes to the target of the call that bound the variable |
| `Engine.EnlargingOnlyAdds` | evm_check/engine.py:309-363 | more slots, writers, readers or calls never remove a match |
| `Engine.EnlargingEmbeds` | evm_check/engine.py:309-363 | a state model that has everything at least as often has all matches, each at a place of its own |
| `Selection.FieldSelects` | evm_check/engine.py:419-528 | giving one more field of a constraint in any step keeps exactly the matches whose picked slot, writer, reader or call has that value, with the same contexts |
| `Selection.FreeAccepts` | evm_check/engine.py:419-528 | a further step whose constraint gives no field accepts every slot whose confidence is not negative with all its writers or readers, or every call of its kind |
| `Selection.StrictSelects` | evm_check/engine.py:426-427 | strict matching leaves out the matches that pick a record marked unusable, and no others |
| `Selection.BoundValue` | evm_check/engine.py:374-394 | what an entry of the bind table binds: the slot, path, first guard or origin of what was picked, or the target of a call |
| `Selection.OnlyDollarNames` | evm_check/engine.py:376-377 | no name without a dollar sign is ever bound |
| `Metadata.DecodeCborSimple` | evm_decon/metadata.py:36-175 | the cursor loop with its early ends and exception paths computes the decoding |
| `Metadata.KeyReads` | evm_decon/metadata.py:71-101 | an encoded key is read back |
| `Metadata.ValueReads` | evm_decon/metadata.py:107-168 | an encoded value of every supported kind and length is read back |
| `Metadata.RoundTrip` | evm_decon/metadata.py:36-175 | decoding the encoding of 1 to 23 supported entries gives their map |
| `Metadata.MapHoldsEntries` | evm_decon/metadata.py:36-175 | with distinct keys that map holds every entry and nothing else |
| `Metadata.PairsAreBounded` | evm_decon/metadata.py:64-69 | a decoded map never has more entries than the count in its first byte |
| `Metadata.UnsupportedIsLost` | evm_decon/metadata.py:92-168 | an entry with a key or text over 255 bytes, a byte string over 65535 or an integer over 65535 ends the loop or sets nothing, so an entry is lost |
| `Metadata.RoundTripIff` | evm_decon/metadata.py:36-175 | any map of distinct keys that section 3 of RFC 8949 can encode survives if and only if it has 1 to 23 entries and all are within those sizes |
| `Metadata.LostEntries` | evm_decon/metadata.py:120-162 | a text of 256 bytes and the integer 65536 are lost |
| `Metadata.ValueReadIff` | evm_decon/metadata.py:107-168 | on any data, a value is read exactly where an item with that value stands, in shortest form or not |
| `Metadata.ValueOtherwise` | evm_decon/metadata.py:107-168 | exactly the other major types and simple values, and integers longer than two bytes, set nothing; the decoding fails exactly where an argument is cut off |
| `Metadata.KeyReadIff` | evm_decon/metadata.py:71-101 | on any data, a key is read exactly where a text of at most 255 bytes stands, or a byte string whose length is the low five bits of its head |
| `Metadata.AppendedDecodes` | evm_decon/metadata.py:209-234 | whatever code stands before it, appended CBOR is decoded as if it stood alone |
| `Metadata.MetadataIsFound` | evm_decon/metadata.py:209-234 | metadata behind any code is found, with its map, its length and its start, if and only if its map survives |
| `Metadata.FoundIff` | evm_decon/metadata.py:209-250 | in any data, metadata is found if and only if the data splits into code, CBOR that decodes, and the length of that |
| `Metadata.NotFoundIs` | evm_decon/metadata.py:209-250 | the report for all other data, its length and its start: too short, no such split, no CBOR map, or a map that does not decode |
| `Metadata.DroppedIff` | evm_decon/metadata.py:189 | a character inside digits is dropped if and only if it is a space or a line feed |
| `Metadata.NotHexIs` | evm_decon/metadata.py:191-200 | text that is not hexadecimal after clean-up has no metadata, with no length and no start |
| `Metadata.SurroundingDropped` | evm_decon/metadata.py:186 | whitespace around any text makes no difference |
| `Metadata.NothingStripped` | evm_decon/pipeline.py:148-152 | without metadata the text is only cleaned up |
| `Metadata.StripGivesCode` | evm_decon/pipeline.py:148-155 | stripping any appended CBOR gives exactly the code if and only if there is code and the CBOR decodes |
| `KeccakF.OffsetsFollowWalk` | evm_decon/keccak.py:26-32 | the rotation table is that of section 3.2.2 of FIPS 202 |
| `KeccakBits.ConstantBits` | evm_decon/keccak.py:17-24 | bit by bit, the round constants are those of the shift register of algorithm 5 in section 3.2.5 of FIPS 202 |
| `KeccakBits.StepMappings` | evm_decon/keccak.py:43-66 | on lanes, theta, rho, pi, chi and iota are the step mappings of sections 3.2.1 to 3.2.5 of FIPS 202, bit by bit |
| `KeccakBits.RolLane` | evm_decon/keccak.py:40-41 | a rotation moves every bit up by the shift, the topmost ones to the bottom |
| `KeccakBits.RoundsAre` | evm_decon/keccak.py:43-66 | any number of rounds on lanes are the rounds on bits |
| `KeccakBits.AddIs` | evm_decon/keccak.py:77-80 | a block of bytes is added to the first 1088 bits of the state |
| `KeccakBits.SqueezeIs` | evm_decon/keccak.py:120-124 | the output bytes are the first 256 bits of the state |
| `Keccak.ApplyTheta` | evm_decon/keccak.py:46-51 | the in-place loop computes theta |
| `Keccak.ApplyThetaInline` | evm_decon/keccak.py:103-107 | so does the copy inside digest, with its rotation by one |
| `Keccak.ApplyRhoPi` | evm_decon/keccak.py:53-57 | the scatter loop computes pi after rho |
| `Keccak.ApplyRhoPiInline` | evm_decon/keccak.py:108-114 | so does the copy inside digest, which leaves out the rotation by zero |
| `Keccak.ApplyChi` | evm_decon/keccak.py:59-62 | the loop computes chi |
| `Keccak.KeccakF1600` | evm_decon/keccak.py:43-66 | 24 rounds of the step mappings |
| `Keccak.KeccakF1600Inline` | evm_decon/keccak.py:101-118 | the permutation inlined in digest is the same function |
| `Keccak.AddBlock` | evm_decon/keccak.py:77-80 | a block is added to the first 17 lanes |
| `Keccak.Keccak256.constructor` | evm_decon/keccak.py:34-38 | a new object has absorbed nothing |
| `Keccak.Keccak256.Update` | evm_decon/keccak.py:68-82 | the object has absorbed exactly the concatenation of everything passed so far, however it was split |
| `Keccak.Keccak256.DigestNow` | evm_decon/keccak.py:84-124 | the digest depends on that concatenation alone, and the object is left unchanged |
| `Keccak.OneShot` | evm_decon/keccak.py:130-134 | the helper computes the digest of its argument |
| `Keccak.AbsorbConcat` | evm_decon/keccak.py:68-82 | absorbing in two parts is absorbing at once |
| `Keccak.DigestIsSponge` | evm_decon/keccak.py:84-124 | the digest is the sponge of section 4 of FIPS 202 for every message whose length is not 135 modulo 136 |
| `Keccak.LastBlockIff` | evm_decon/keccak.py:89-93 | the last block is padded right if and only if the length is not 135 modulo 136 |
| `Keccak.PaddingIsLost` | evm_decon/keccak.py:89-93 | for the other lengths the final bit of the padding is missing |
| `KeccakBits.PaddedMessage` | evm_decon/keccak.py:89-93 | the padding bytes of the reference are, bit for bit, pad10*1 of section 5.1 of FIPS 202 |
| `KeccakBits.DigestIsKeccak` | evm_decon/keccak.py:68-124 | bit for bit, the digest is KECCAK[512] of the message with 256 bits of output, for every message whose length is not 135 modulo 136 |
| `KeccakBits.DigestWithoutFinalOne` | evm_decon/keccak.py:89-93 | for the other lengths it is the output for the message filled up with a one and seven zeros |
| `Keccak.LaneReads` | evm_decon/keccak.py:78-79 | a lane survives being written as bytes |

## Left out

- RPC, WebSocket, fetch, child processes, files, SQLite, locks, the health server, logging, command lines and the panel are not modelled: they are I/O or library wrappers.
- JavaScript reorders dictionary keys that look like array indexes; event ids and cache keys are hashes, and the records keep insertion order.
- Time is an ordered integer that the environment chooses; SHA-256 event ids are arbitrary distinct strings; randomness in temporary file names is not modelled.
- Mnemonics, operand text, categories, annotations and the bytecode hash of the disassembler carry no behaviour here.
- The loop counter, bound, step and iteration guesses, block labels and `_detect_nesting` are text heuristics; the parent relation they build is not a forest. Loop bodies are kept as sets, not as sorted lists.
- The slicer's blocks are kept as sets, not as sorted lists; the fields of a unit that later phases fill are not modelled.
- `simulate` keeps only the first entry stack at a merge, so its whole-program result is not sound; only the per-block statement is made. Expression text, source offsets, operation records and constant context are not kept.
- `simplify_text`, `simplify_condition`, profile packs, semantic scoring and `known_bytecodes.py` are string heuristics without a specification.
- Expression constants outside 0 to 2^256 - 1, and left shifts large enough to exhaust memory before they overflow, are not modelled.
- Simplifier.SelectorExtractionKeeps: assumes, by `SelectorsRight`, that a masked quotient of the selector constant is the selector, because the pass relies on the simulator's exchanged operands and ignores the other operand; `Simplifier.ExtractionRightIff` says when that is so.
- Simplifier.PassesKeep: makes the same assumption about selector quotients.
- Simplifier.SimplifyKeepsMeaning: makes the same assumption about selector quotients.
- StackSim.SimulateBlock: its trace has no operation records and no annotations, which are text.
- ControlFlow.DominatorsHaveRun: is about runs of the machine without gas, from an empty stack, in one call frame.
- Replay of pending webhooks, the replay and dry-run modes and `noWebhook` are not modelled; the history theorems start from a checkpoint whose history begins at the start block.
- The chain may change between blocks, not during the check of one block.
- The body of `processDeployment` is not modelled beyond its worker pool and its emissions; in the runs of `Reorg` it may edit the records in any way.
- Ledger.EmittedEndsInOneRecord: assumes distinct ids in flight and no eviction by pruning.
- Reorg.ProcessRange: gives all blocks of a range one time stamp; the history theorems do not depend on it.
- WorkerPool.QuietMeansAllStarted: says nothing about items that were not started when every runner has failed.
- Floats, `json.Number`, structs that go through `encoding/json`, and strings that are not valid UTF-8 are not modelled in the JSON printer. `EncodePythonCompat` returns no error for the modelled values.
- Rules without a sequence are matched by contract predicates, whose result is a parameter of `Engine.MatchSequences`. Field values are well typed; an empty writer or reader record is still recorded in its step entry.
- `policy.py`, `findings.py`, `llm_judge.py`, `sarif.py`, schema validation and `diff` are tables and field checks.
- The `cbor2` fallback, UTF-8 replacement decoding (text is kept as its bytes) and the compiler, hash and experimental fields read from the decoded map are not modelled.
- Sizes above 2^64 - 1 entries have no encoding and are excluded from `Metadata.RoundTripIff`.
- `get_selector`, `hexdigest` and text arguments of `update` are thin wrappers around the byte functions.
- Agreement between the Python and the Go implementations is not modelled.
