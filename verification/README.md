# trim: a Dafny model of its dead-code removal

`trim` decides which code in a compiled binary is dead, removes those bytes and
re-points everything that refers to what moved. This project models the parts of it
that work on plain integers, lists and byte arrays, and proves what each of them is
for. `dafny verify dfyconfig.toml` checks the whole project.

| part | modules | main result |
|---|---|---|
| dominators | `Dominance`, `Idoms` | the Cooper-Harvey-Kennedy loop ends, and ends on exactly the immediate dominators |
| constant propagation | `Lattice`, `SccpModel`, `Sccp`, `FuncCfg` | the worklist reaches the least solution; a block keeps exactly the successors that some run can take; nothing reported dead is executed by any run of single instructions from the function's entry, wherever in the function computed jumps land |
| AArch64 effects | `A64Bitmask`, `A64Effects`, `A64Run`, `A64Asm` | effect lists simulate the processor, exactly so in all they do not clobber, and clobber exactly what they cannot know; no run of the processor executes an address reported dead |
| RELR packing | `RelrCodec`, `ElfModel`, `RelrMemory`, `RelrSplit`, `RelrTables`, `RelrImage`, `RelrDrain` | the packed and drained file relocates to the same memory at every load base |
| compaction | `AddressMap`, `Compact` | the byte move is the address map |
| branches | `Retarget`, `X86Branch`, `A64Branch`, `RiscvBranch`, `RiscvPair`, `RiscvPatch`, `X86Asm`, `RiscvAsm` | a patched branch or AUIPC pair goes where its target went; what is taken for a branch, and its displacement, is exactly what assembles one |
| unwind tables | `CfaProgram`, `CfaAsm`, `Unwind` | re-spacing keeps every instruction and moves every row by the bytes removed before it; narrowing ends with no unwind entry stuck, and an entry is stuck exactly when it cannot follow |
| JVM bytecode | `JvmCode`, `JvmAsm`, `JavaDead`, `JavaCompact`, `JavaHandlers` | compaction preserves every run; where the scan is wrong about switches and handlers, exactly |
| searches | `JumpTables`, `MethodTables`, `HydrateAsm`, `FuncSweep` | each fast search equals its simple meaning |

`Bits`, `Bytes`, `Arith` and `Wrappers` are shared helpers.

Decoders are not trusted to describe themselves. `A64Asm`, `JvmAsm`, `X86Asm`, `RiscvAsm`,
`CfaAsm` and `HydrateAsm` list the instructions of each format with the bytes their
specification gives them, and prove that decoding gives back the instruction assembled;
where they say so, nothing else is decoded.

## Where the code does less than its description says

Each of these is a lemma with the exact condition, or a concrete input.

- Switch padding in Java bytecode is computed from the file offset, the JVM pads by the
  offset in the method (section 6.5 of the JVM specification); the two agree on all
  code exactly when the method body starts at a multiple of four (`JvmCode.PadAgrees`).
  Behind a wrongly padded switch the scan may decode from the middle of an instruction
  and report code that runs; compaction refuses methods with switches, and reassembly
  then overwrites the ranges with `nop`. At every offset that is no multiple of four a
  method without handlers loses its last two instructions (`JavaHandlers.SwitchLost`), so
  the scan is right about all methods without handlers exactly at multiples of four
  (`JavaHandlers.BaseExact`); about those without a switch either it is right anywhere.
- A drain keeps `p_offset` congruent to `p_vaddr` for a moving segment exactly when the
  segment's alignment divides the drained length. Power-of-two alignments of all moving
  segments are enough (`RelrDrain.AlignmentKept`); one other alignment elsewhere can
  break it (`RelrDrain.OddAlignmentLost`, `RelrDrain.UnitExact`).
- A branch out of .text to something after it can get longer, by less than a page. No
  patcher checks that the field still holds the displacement; the branch follows its
  target exactly when it does (the `PastTextExact` lemmas), and each field has an
  input where it does not (the `PastTextLost` lemmas).
- The RISC-V patcher reads quadrant 1, `funct3` 1 as C.JAL on RV64 too, where it is
  C.ADDIW. Any such halfword stays as it is exactly when its own shift and the shift of
  the place its immediate seems to name differ by 0 or 1 modulo 4096
  (`RiscvBranch.CjKeptExact`). With that place in or before .text the shifts must be equal
  (`RiscvBranch.AddiwKeptExact`); past .text the instruction must move by whole pages
  (`RiscvBranch.AddiwPastText`). `RiscvBranch.AddiwRewritten` is an input that is rewritten.
- The bytecode scan says it collects handler entries but collects only branch and switch
  targets. It reports a byte exactly when a terminator ends at or before it, no decoded
  branch or switch target lies from there up to it, and there are at least two bytes up to
  the next such target or the end (`JavaHandlers.ReportedExact`). Handlers of that kind are
  reported dead and, since compaction refuses methods with handlers, overwritten. With the
  padding in step, nothing reported is executed exactly when no handler that protects an
  executed instruction starts on such a byte (`JavaHandlers.HandlersExact`);
  `JavaHandlers.HandlerLost` is a method that loses one.
- An AUIPC is patched together with the first instruction that uses its register. A later
  use keeps its word, and designates where its own target went exactly when that target
  moves with the upper part (`RiscvPair.SecondUserExact`, `RiscvPatch.PatchBranches`);
  `RiscvPair.SecondUserLost` is a load that misses.
- Any OP-IMM counts as the addition that completes an address. One that is not keeps its
  immediate exactly when the two shifts differ by a multiple of 4096
  (`RiscvPair.CompletionKeptExact`); `RiscvPair.MaskRewritten` is an ANDI that is rewritten.
- The range sweep saturates range ends, so the highest 64-bit address is in no range
  that runs past it (`FuncSweep.CoversExact`).
- A zero flag of unknown compare width is known exactly for a zero difference or a
  non-zero low byte (`SccpModel.FlagsZeroExact`).

## Model

| member | source | states |
|---|---|---|
| Dominance.BuildPredecessors | src/analysis/dominance.rs:32-45 | predecessor lists hold exactly the listed edges into the first `n` blocks |
| Dominance.ComputeRpo | src/analysis/dominance.rs:48-77 | the reverse postorder lists every reachable block once, entry first, each other block after some predecessor |
| Dominance.DominatesPred | src/analysis/dominance.rs:123-141 | a dominator of a block dominates every reachable predecessor or is the block |
| Idoms.BuildRpoNumbers | src/analysis/dominance.rs:80-91 | numbers are positions in the order |
| Idoms.Intersect | src/analysis/dominance.rs:144-159 | the common ancestors of the result are exactly the common ancestors of the two cursors; it ends because parents lower the number |
| Idoms.FindNewIdom | src/analysis/dominance.rs:123-141 | the meet of all processed predecessors, None only when none is processed |
| Idoms.MeetMovesUp | src/analysis/dominance.rs:101-118 | after the first pass a new value is an ancestor of the block's previous one |
| Idoms.OnePass | src/analysis/dominance.rs:101-118 | a pass keeps the invariant, and a pass that changes anything lowers the sum of dominator numbers |
| Idoms.AncDominates | src/analysis/dominance.rs:94-120 | at a fixpoint every ancestor is a dominator |
| Idoms.FixedIsExact | src/analysis/dominance.rs:94-120 | a sound fixpoint is the exact immediate-dominator tree |
| Idoms.IdomUnique | src/analysis/dominance.rs:94-120 | a block has at most one immediate dominator |
| Idoms.ComputeIdoms | src/analysis/dominance.rs:94-120 | ends, with exactly the immediate dominators |
| Idoms.ComputeDomTree | src/analysis/dominance.rs:18-29 | on every graph: entry maps to itself, unreachable blocks to nothing, every other block to its immediate dominator |
| Lattice.MeetIsLub | src/analysis/lattice.rs:18-30 | the meet is the least upper bound of Bot, Const, Top |
| Lattice.BinopSound | src/analysis/lattice.rs:47-71 | abstract arithmetic stands for the concrete result |
| Lattice.BinopMonotone | src/analysis/lattice.rs:47-71 | less precise operands give no more precise result |
| Lattice.WordOps | src/analysis/lattice.rs:47-71 | each operation is its 64-bit machine operation, shifts by the low six bits of the count |
| Lattice.SarWordIs | src/analysis/lattice.rs:64-71 | the arithmetic shift copies the sign bit into the vacated bits |
| SccpModel.FlagsZeroExact | src/analysis/sccp.rs:433-442 | the flag answer is given exactly when every width 8, 16, 32, 64 agrees on it |
| SccpModel.ApplySound | src/analysis/sccp.rs:271-366 | one abstract effect describes every concrete outcome, clobbers arbitrary |
| SccpModel.ApplyAllSound | src/analysis/sccp.rs:258-268 | so does a block's effect list |
| SccpModel.ApplyAllKnown | src/analysis/sccp.rs:258-366 | a block with known inputs leaves known, with the run's values, every register its effects do not clobber |
| SccpModel.TargetsSound | src/analysis/sccp.rs:369-431 | a resolved branch keeps every successor a concrete run can take |
| SccpModel.TargetsPrecise | src/analysis/sccp.rs:405-420 | and keeps no other: for each successor kept some registers the values describe take it |
| SccpModel.TargetsExact | src/analysis/sccp.rs:369-431 | a successor is kept exactly when some registers that the values describe take it, so every branch whose outcome is known is folded |
| Sccp.InitialHead | src/analysis/sccp.rs:223-230 | the state the solver starts in keeps the loop's invariant, lies below every solution and has spent one pop |
| Sccp.SccpState.InitEntryRegs | src/analysis/sccp.rs:251-255 | entry registers become Top |
| Sccp.SccpState.MergeAndEnqueue | src/analysis/sccp.rs:445-470 | the state after one merge, with the worklist, is the specified merge |
| Sccp.SccpState.EvalBlock | src/analysis/sccp.rs:258-268 | output values are the block's transfer |
| Sccp.SccpState.PropagateSuccs | src/analysis/sccp.rs:369-392 | merges into the one resolved successor or all of them |
| Sccp.ApplyEffect | src/analysis/sccp.rs:271-312 | in-place effect equals the transfer function |
| SccpModel.CmpRegExact | src/analysis/sccp.rs:315-330 | after CMP the zero flag is known exactly when both operands are, and then tells whether the registers are equal at every compare width |
| SccpModel.CmpImmExact | src/analysis/sccp.rs:333-341 | the same for CMP with an immediate |
| SccpModel.TestRegExact | src/analysis/sccp.rs:344-355 | after TEST it is known exactly when both operands are, and tells whether the registers share a bit at every width |
| SccpModel.TestImmExact | src/analysis/sccp.rs:358-366 | the same for TEST with an immediate |
| Sccp.VisitKeeps | src/analysis/sccp.rs:236-246 | a visit keeps: executable blocks hold no Bot, and executable blocks off the worklist have merged into their successors |
| Sccp.VisitBelow | src/analysis/sccp.rs:236-246 | a visit never exceeds any solution |
| Sccp.VisitPays | src/analysis/sccp.rs:445-470 | every push is paid by a new edge or a value risen to Top |
| Sccp.RunSccp | src/analysis/sccp.rs:223-248 | converging means the least solution; it converges whenever the pop bound is within the cap |
| Sccp.CapSuffices | src/analysis/sccp.rs:230-240 | with at most two successors a block, pops stay within 1 + 2n + 17(n-1), below 20n |
| Sccp.RunsStayMarked | src/analysis/sccp.rs:223-248 | every block of every concrete run is marked, its values describing the registers |
| Sccp.UnmarkedNeverEntered | src/analysis/sccp.rs:473-496 | no run enters an unmarked block |
| Sccp.FindSccpDead | src/analysis/sccp.rs:473-496 | reports exactly the unmarked blocks of sufficient size |
| Sccp.SccpDeadBlocks | src/analysis/sccp.rs:32-65 | unless skipped, reports the unmarked blocks of the least solution, and no run enters one |
| FuncCfg.FindBlockStarts | src/analysis/cfg.rs:320-345 | the sorted starts are exactly the entry, addresses after terminators and direct targets inside |
| FuncCfg.Resolve | src/analysis/cfg.rs:462-470 | every target that starts a block is listed |
| FuncCfg.AddTargets | src/analysis/cfg.rs:434-446 | keeps the fall-through and lists every target that starts a block |
| FuncCfg.EdgesExact | src/analysis/cfg.rs:418-470 | the edges of a block are exactly the blocks its last instruction can lead to |
| FuncCfg.TermExact | src/analysis/sccp.rs:104-129 | a block folds exactly when it ends in a decoded conditional branch, the next block starts behind it and exactly one other block starts at its targets |
| FuncCfg.FoldsTwoTargets | src/analysis/sccp.rs:104-129 | a block that folds has no successor but the branch's two, as exact folding requires |
| FuncCfg.ProgOf | src/analysis/sccp.rs:49-58 | edges, terminators and effects form a well-formed program whose foldable terminators name listed successors |
| FuncCfg.StartIsIns | src/analysis/cfg.rs:320-345 | every block starts at an instruction |
| FuncCfg.TerminatorEnds | src/analysis/cfg.rs:348-350 | an instruction that is not straight-line ends its block |
| FuncCfg.NextBlock | src/analysis/cfg.rs:457-459 | the block after starts at the next instruction |
| FuncCfg.LastIs | src/analysis/cfg.rs:405-415 | the last instruction found is the one that ends the block, and effects after it add nothing |
| FuncCfg.CondTaken | src/analysis/sccp.rs:104-129 | a conditional branch goes to the block its foldable terminator names for that outcome |
| FuncCfg.EdgeTaken | src/analysis/cfg.rs:418-454 | every transfer of control to the start of a block is an allowed edge of the graph |
| FuncCfg.ComputedJump | src/analysis/cfg.rs:451-453 | once a computed jump is reached, every block is entered by some run |
| FuncCfg.TrackStep | src/analysis/cfg.rs:291-317 | a step of one instruction stays inside a block, is a step of the block run, or is a computed jump and every block is entered |
| FuncCfg.TraceTracked | src/analysis/cfg.rs:291-317 | every run of instructions is followed by a run of blocks, or every block is entered |
| FuncCfg.DeadNeverExecuted | src/analysis/sccp.rs:473-496 | no instruction of a never-entered block is executed, wherever computed jumps land |
| FuncCfg.DeadRegions | src/analysis/sccp.rs:32-65 | from instructions to regions: exactly the unmarked blocks, and no address in them is ever executed, wherever computed jumps land |
| A64Bitmask.BitmaskImmLoop | src/analysis/regstate.rs:859-887 | the replicating loop computes the immediate |
| A64Bitmask.ElementBit | src/analysis/regstate.rs:890-896 | bits of a rotated element, by index |
| A64Bitmask.BitmaskExact | src/analysis/regstate.rs:859-887 | None exactly for reserved encodings; else the one number whose bits are those of the architecture |
| A64Bitmask.BitmaskFits | src/analysis/regstate.rs:877-886 | the immediate fits the register width |
| A64Effects.AddSubImmSimulates | src/analysis/regstate.rs:795-817 | ADD, SUB, CMP, CMN immediate, both widths, SP and XZR |
| A64Effects.LogicalImmSimulates | src/analysis/regstate.rs:821-846 | AND, ORR, EOR, ANDS, MOV, TST immediate |
| A64Effects.MovWideSimulates | src/analysis/regstate.rs:900-918 | MOVN, MOVZ, MOVK |
| A64Effects.AddSubRegSimulates | src/analysis/regstate.rs:1051-1077 | ADD, SUB register, any shifted operand |
| A64Effects.LogicalRegSimulates | src/analysis/regstate.rs:1082-1108 | logical register forms, shifted and inverted included |
| A64Effects.EffectsSimulate | src/analysis/regstate.rs:780-918 | whatever the processor does, the effects can follow |
| A64Effects.EffectsExact | src/analysis/regstate.rs:795-1108 | every outcome holds the processor's value in each tracked register the list does not clobber, and explains its Z unless the flags are clobbered |
| A64Asm.DataMeans | src/analysis/regstate.rs:795-1108 | the processor a word is decoded for does what the instruction assembled into that word does, operation, operands, width and flags |
| A64Asm.Assembled | src/analysis/regstate.rs:780-1108 | every allocated word of the modelled classes is assembled from an instruction |
| A64Asm.PatternExact | src/analysis/regstate.rs:859-896 | the bitmask immediate is the number with the rotated run of ones in every element |
| A64Asm.ClobbersExact | src/analysis/regstate.rs:795-1108 | an instruction's effects clobber a register or the flags exactly when an operand is untracked, shifted or inverted, or the flags are those of adding registers; MOV from XZR is not clobbered |
| A64Effects.FlagsZeroAgrees | src/analysis/sccp.rs:433-442 | a known zero flag is the processor's |
| A64Effects.BranchTestSound | src/analysis/regstate.rs:599-626 | the branch the processor takes is one the model allows |
| A64Effects.BranchTestExact | src/analysis/regstate.rs:611-626 | on a register test it is the only one |
| A64Asm.CondTest | src/analysis/regstate.rs:599-610 | only B.EQ and B.NE are decoded, as tests of Z, and the processor takes them on Z |
| A64Asm.ZeroTest | src/analysis/regstate.rs:611-626 | CBZ and CBNZ test the register at its width, and the processor takes them on it |
| A64Asm.BitTest | src/analysis/regstate.rs:611-626 | TBZ and TBNZ test the one bit named, and the processor takes them on it |
| A64Run.ChangeFollowed | src/analysis/regstate.rs:742-765 | a clobber list can leave whatever the processor left in the registers it names |
| A64Run.ExecutionFollowed | src/analysis/sccp.rs:173-189 | whatever an instruction or call does, its effects can follow |
| A64Run.RunFollowed | src/analysis/sccp.rs:144-189 | every run of the processor is followed by a trace of the function, step by step |
| A64Run.CpuDeadRegions | src/analysis/sccp.rs:32-65 | no run of the processor, from any state at the function's entry and wherever computed jumps land, executes an address that is reported dead |
| RelrCodec.EncodeRelr | src/format/elf/relr.rs:839-863 | decodes back to the same addresses and never uses more words than addresses, for every strictly increasing aligned list |
| RelrCodec.DecodeRelr | src/format/elf/relr.rs:866-883 | the addresses the words relocate, with wrapping arithmetic |
| RelrCodec.DecodedMeans | src/format/elf/relr.rs:866-883 | in closed form: an address is decoded exactly when it is an even word, or bit j + 1 of the k-th odd word after an even word a is set and the address is a + 8 + 8 (63 k + j) modulo 2^64; odd words at the front count from 0 |
| ElfModel.LoadRange | src/format/elf/relr.rs:517-531 | a found range lies in one loadable segment, at that file offset |
| ElfModel.LoadRangeExact | src/format/elf/relr.rs:517-531 | found exactly in the first PT_LOAD with file bytes for the whole range |
| ElfModel.OffsetsDiffer | src/format/elf/relr.rs:517-531 | different addresses have different file bytes when segments do not overlap |
| RelrMemory.PackableExact | src/format/elf/relr.rs:764-771 | packable exactly when RELATIVE without a symbol on an aligned, file-backed word |
| RelrMemory.RebasedOnce | src/format/elf/relr.rs:866-883 | applying RELR adds the base to each named word once, and to nothing else |
| RelrMemory.PackedDropped | src/format/elf/relr.rs:737-771 | entries that patch other words may be left out at an address |
| RelrMemory.SameMemory | src/format/elf/relr.rs:737-863 | kept RELA then RELR over in-place addends gives every byte RELA gave |
| RelrMemory.SameMemoryRelrFirst | src/format/elf/relr.rs:737-863 | so does RELR first |
| RelrSplit.SplitRelocs | src/format/elf/relr.rs:737-762 | packed and kept entries in order, kept bytes intact, leading RELATIVE count; fails exactly when nothing can be packed |
| RelrSplit.SplitCounts | src/format/elf/relr.rs:737-762 | every entry is packed or kept |
| RelrSplit.SortedOffsets | src/format/elf/relr.rs:776-786 | refused exactly when two entries of one word disagree; else each word once, ascending |
| RelrSplit.OverlapsExact | src/format/elf/relr.rs:829-832 | one probe decides whether any word meets the range |
| RelrSplit.CheckTargets | src/format/elf/relr.rs:791-810 | accepts exactly words clear of other relocations and of both tables |
| RelrTables.WriteAddends | src/format/elf/relr.rs:1046-1055 | each packed word holds its addend, other bytes stay, the count is of the words that differed |
| RelrTables.WriteTables | src/format/elf/relr.rs:1059-1081 | both tables read back, the rest is zero, bytes outside stay; fails exactly when they do not fit |
| RelrTables.LoaderFinds | src/format/elf/relr.rs:890-917 | what a loader finds under each tag number of the new `.dynamic` |
| RelrTables.WriteDynamic | src/format/elf/relr.rs:1085-1092 | the entries read back up to DT_NULL |
| RelrImage.ImageKept | src/format/elf/relr.rs:286-332 | the loaded and relocated image is unchanged outside table, `.dynamic` and headers, in either table order |
| RelrImage.Rewrite | src/format/elf/relr.rs:286-332 | the three writes, and exactly when they succeed |
| RelrImage.PackRelative | src/format/elf/relr.rs:239-332 | on well-mapped files succeeds exactly for acceptable inputs, so the "does not fit" refusal is unreachable; the result is a packed file |
| RelrImage.SameImage | src/format/elf/relr.rs:239-332 | reading both tables from the packed file and applying them in either order gives the original image at every base |
| RelrDrain.PlanDrain | src/format/elf/relr.rs:923-953 | drains exactly when nothing follows or straddles and a unit fits, as many whole units as fit |
| RelrDrain.NextContentExact | src/format/elf/relr.rs:989-1004 | the next content is the first start of a section or segment with bytes or of a header table, else the end of the file |
| RelrDrain.ContentEndExact | src/format/elf/relr.rs:959-973 | content ends where the last section, segment, header table or file header does |
| RelrDrain.NextSegment | src/format/elf/relr.rs:989-1004 | no segment with bytes starts between |
| RelrDrain.NextSection | src/format/elf/relr.rs:989-1004 | no section with bytes starts between |
| RelrDrain.ShiftAlign | src/format/elf/relr.rs:1033-1039 | at least a page and every moving alignment, and one of them |
| RelrDrain.ApplyDrain | src/format/elf/relr.rs:1182-1210 | fails only past the end of the file; moves headers and bytes together |
| RelrDrain.SegmentKept | src/format/elf/relr.rs:1182-1210 | every other segment keeps its bytes at its possibly lowered offset |
| RelrDrain.TableSegmentKept | src/format/elf/relr.rs:1184-1190 | the table's segment keeps every byte up to the new tables |
| RelrDrain.SectionKept | src/format/elf/relr.rs:1195-1199 | every other section keeps its bytes |
| RelrDrain.HeaderTablesKept | src/format/elf/relr.rs:1200-1205 | both header tables stay whole where the ELF header says |
| RelrDrain.DroppedIsFree | src/format/elf/relr.rs:1008-1029 | a dropped byte belongs to no segment but the freed tail of the table's |
| RelrDrain.MovedCongruent | src/format/elf/relr.rs:1033-1039 | a moved segment stays congruent exactly when its alignment divides the drained length |
| RelrDrain.UnitExact | src/format/elf/relr.rs:1033-1039 | over all drained lengths: exactly when its alignment divides the unit |
| RelrDrain.AlignmentKept | src/format/elf/relr.rs:1033-1039 | with powers of two every segment with bytes stays congruent |
| RelrDrain.OddAlignmentLost | src/format/elf/relr.rs:1033-1039 | a layout where another segment's odd alignment breaks it |
| RelrDrain.LoadedKept | src/format/elf/relr.rs:1182-1210 | no loaded byte outside the freed range changes |
| RelrDrain.DrainedImage | src/format/elf/relr.rs:1182-1210 | relocation of the drained file gives the same memory |
| RelrDrain.PackedDrainedImage | src/format/elf/relr.rs:239-332 | packing, header edits and drain together keep the relocated image at every base |
| AddressMap.ShiftAt | src/patch/relocs.rs:52-60 | the loop sums the parts below the address |
| AddressMap.ShiftIsCount | src/patch/relocs.rs:52-60 | the shift is the number of dead bytes below |
| AddressMap.TotalShiftCounts | src/patch/relocs.rs:52-100 | for every address: nothing before .text, the dead bytes below inside, and the whole 4096-byte pages of all dead bytes after |
| AddressMap.ShiftStep | src/patch/relocs.rs:52-60 | one address further the shift grows by one exactly over a dead byte |
| AddressMap.ShiftBetween | src/patch/relocs.rs:52-60 | shifts grow by at most the distance, and by less from a live address |
| AddressMap.MapIncreases | src/patch/relocs.rs:87-100 | the map is strictly increasing on live addresses, across both ends of .text |
| AddressMap.ShiftAligned | src/arch/mod.rs:110-120 | live addresses move by whole instructions when every dead interval is made of whole ones |
| AddressMap.MergeIntervals | src/patch/relocs.rs:175-190 | sorted, separated, and the same addresses dead |
| AddressMap.CombineIntervals | src/patch/relocs.rs:39-49 | an address is dead exactly when one of the lists says so |
| Compact.CompactionFits | src/patch/compact.rs:17-41 | accepts exactly sorted disjoint intervals inside a .text inside the file |
| Compact.BuildLiveText | src/patch/compact.rs:82-109 | the live bytes, in order |
| Compact.LivePlace | src/patch/compact.rs:82-109 | each live byte lies at its offset less its shift |
| Compact.LiveRunLands | src/patch/compact.rs:82-109 | a run of live bytes lands as one run |
| Compact.ApplyCompact | src/patch/compact.rs:114-145 | overwrite, zero fill and drain, exactly when the pages fit the bytes freed |
| Compact.CompactText | src/patch/compact.rs:46-69 | under the accepted intervals the file is the specified one |
| Compact.CompactedAgrees | src/patch/compact.rs:46-145 | bytes before stay, live .text bytes land where the map says, bytes after move down the pages removed |
| Retarget.DispShrinks | src/patch/relocs.rs:87-100 | for a wholly live branch to or before .text the new displacement lies between zero and the old |
| Retarget.DispPastText | src/patch/relocs.rs:87-100 | past .text it grows by less than a page |
| Retarget.PatchAll | src/arch/aarch64_patch.rs:17-31 | every live instruction is patched, dead ones and all other bytes stay |
| X86Branch.DecodeRelRef | src/arch/x86_patch.rs:29-70 | the displacement field lies inside the instruction and is that of the opcode right behind the leading prefixes; None exactly when that opcode has none |
| X86Asm.DecodeExact | src/arch/x86_patch.rs:23-70 | a displacement is found exactly in CALL, JMP and Jcc as assembled, rel8 or rel32 behind the four prefixes, at its place and with its value |
| X86Branch.SetRelReads | src/arch/x86_patch.rs:109-118 | the field reads back and no other byte changes |
| X86Branch.BranchFollows | src/arch/x86_patch.rs:90-119 | the patched branch goes where its target went |
| X86Branch.PastTextExact | src/arch/x86_patch.rs:104-118 | past .text it does exactly when the displacement fits |
| X86Branch.PastTextLost | src/arch/x86_patch.rs:104-118 | a JMP rel8 that does not |
| X86Branch.PatchCallJmp | src/arch/x86_patch.rs:73-87 | so do all live branches of the list, and nothing else changes |
| A64Branch.SetOffsetReads | src/arch/aarch64_patch.rs:63-120 | a reachable displacement reads back for B, BL, B.cond, CBZ, TBZ |
| A64Branch.SetOffsetKeeps | src/arch/aarch64_patch.rs:63-120 | opcode, condition, register and tested bit stay |
| A64Asm.OffsetMeans | src/arch/aarch64_patch.rs:39-120 | the form and displacement read from an assembled B, BL, B.cond, CBZ, CBNZ, TBZ or TBNZ are its own |
| A64Asm.BranchAssembled | src/arch/aarch64_patch.rs:39-120 | every word taken for a branch is assembled from one |
| A64Branch.BranchFollows | src/arch/aarch64_patch.rs:39-120 | the patched branch goes where its target went |
| A64Branch.PastTextExact | src/arch/aarch64_patch.rs:39-120 | past .text it does exactly when the displacement fits |
| A64Branch.PastTextLost | src/arch/aarch64_patch.rs:39-120 | a TBZ that does not |
| A64Branch.AlignedRetargetable | src/arch/mod.rs:110-120 | between live addresses, with intervals of whole words, both shifts are whole words |
| A64Branch.PatchBranches | src/arch/aarch64_patch.rs:17-31 | so do all live branches of the list |
| RiscvBranch.JalReads | src/arch/riscv_patch.rs:41-104 | the J-type immediate round trips, rd and opcode stay |
| RiscvBranch.BranchReads | src/arch/riscv_patch.rs:51-115 | the B-type immediate round trips |
| RiscvBranch.CjReads | src/arch/riscv_patch.rs:61-137 | the C.J immediate round trips |
| RiscvBranch.CbReads | src/arch/riscv_patch.rs:83-151 | the C.BEQZ immediate round trips, register kept |
| RiscvBranch.OffsetInReach | src/arch/riscv_patch.rs:96-151 | decoded displacements are even and in reach |
| RiscvAsm.BranchExact | src/arch/riscv_patch.rs:41-305 | a word is taken for a branch of some form and displacement exactly when it assembles one: JAL, the B-type branches, C.J, C.JAL, C.BEQZ, C.BNEZ |
| RiscvBranch.BranchFollows | src/arch/riscv_patch.rs:175-305 | the patched branch goes where its target went |
| RiscvBranch.PastTextExact | src/arch/riscv_patch.rs:175-305 | past .text it does exactly when the displacement fits |
| RiscvBranch.PastTextLost | src/arch/riscv_patch.rs:243-305 | a C.J that does not |
| RiscvBranch.AlignedRetargetable | src/arch/mod.rs:110-120 | between live addresses, with intervals of even length, both shifts are even |
| RiscvBranch.CjKeptExact | src/arch/riscv_patch.rs:259-282 | every halfword read as C.J or C.JAL stays as it is exactly when the two shifts differ by 0 or 1 modulo 4096 |
| RiscvBranch.AddiwKeptExact | src/arch/riscv_patch.rs:259-282 | an RV64 C.ADDIW whose seeming target is in or before .text stays exactly when the shifts are equal |
| RiscvBranch.AddiwPastText | src/arch/riscv_patch.rs:259-282 | past .text it stays exactly when it moves by whole pages |
| RiscvBranch.AddiwRewritten | src/arch/riscv_patch.rs:259-282 | an RV64 C.ADDIW that is rewritten as C.JAL |
| RiscvPair.PairReads | src/arch/riscv_patch.rs:308-340 | any reachable offset is split into upper and lower part and read back, I-type or S-type |
| RiscvPair.PairFollows | src/arch/riscv_patch.rs:421-484 | the patched AUIPC pair designates where its target went |
| RiscvPair.PastTextExact | src/arch/riscv_patch.rs:421-484 | past .text it does exactly when the offset is in reach |
| RiscvPair.PastTextLost | src/arch/riscv_patch.rs:421-484 | the farthest pair, which does not |
| RiscvPair.SecondUserExact | src/arch/riscv_patch.rs:421-484 | a later use of the register designates where its target went exactly when the two shifts differ by the change of the upper part |
| RiscvPair.SecondUserLost | src/arch/riscv_patch.rs:421-484 | a second load that does not |
| RiscvPair.CompletionKeptExact | src/arch/riscv_patch.rs:465-484 | the completing word stays exactly when the two shifts differ by a multiple of 4096 |
| RiscvPair.MaskRewritten | src/arch/riscv_patch.rs:405-412 | an ANDI taken for a completion and rewritten |
| RiscvPatch.FindAuipcPair | src/arch/riscv_patch.rs:384-418 | the first of four instructions to use the register before one overwrites it; None exactly when there is none |
| RiscvAsm.UsesExact | src/arch/riscv_patch.rs:395-412 | an instruction counts as a use of a register exactly when it assembles a JALR, load, OP-IMM or store based on it |
| RiscvAsm.PairReads | src/arch/riscv_patch.rs:308-331 | of an assembled AUIPC and its completion the register, the offset and what is overwritten are read as assembled |
| RiscvPatch.PairsApart | src/arch/riscv_patch.rs:384-418 | no instruction belongs to two AUIPC pairs |
| RiscvPatch.LaterApart | src/arch/riscv_patch.rs:384-418 | a later use of an AUIPC's register belongs to no pair |
| RiscvPatch.PatchAuipcPairs | src/arch/riscv_patch.rs:347-381 | every live AUIPC with its completion is patched from the original words, and nothing else changes |
| RiscvPatch.PatchBranches | src/arch/riscv_patch.rs:18-33 | after both passes every pair and every branch that stays goes where its target went, later uses exactly when their target moves with the upper part, and only live instructions and halves of pairs changed |
| Bytes.RoundTrip | src/format/elf/ehframe.rs:106-129 | a value that fits its field is read back, either byte order |
| Bytes.DigitAt | src/format/elf/ehframe.rs:119-129 | byte i of a stored number, from the low end, counts 256 to the power i in either order |
| Bytes.ValueExact | src/format/elf/nativeaot.rs:760-764 | bytes read as the one number that has them for digits |
| Bytes.ReadUnLoop | src/format/elf/ehframe.rs:109-117 | the loop reads the field |
| CfaProgram.PlanCfa | src/format/elf/ehframe.rs:815-860 | the cursor loop computes the plan |
| CfaProgram.PlanExact | src/format/elf/ehframe.rs:815-860 | a plan is found exactly when the program is understood and each advance keeps a whole number of units, no more than it had |
| CfaProgram.MapEndCounts | src/format/elf/ehframe.rs:92-98 | a boundary in .text, its end included, moves down by the dead bytes below |
| CfaProgram.DistanceIsLive | src/format/elf/ehframe.rs:92-98 | two boundaries end up apart by the bytes left between them |
| CfaAsm.ProgramWalks | src/format/elf/ehframe.rs:815-886 | the rows of an assembled program are its instructions at their locations |
| CfaAsm.WalkExact | src/format/elf/ehframe.rs:815-886 | a program has rows exactly when it is assembled from instructions, operands of every opcode included, and exactly those rows |
| CfaProgram.NewDeltaExact | src/format/elf/ehframe.rs:828-852 | a new delta is no larger than the old and lands on the mapped location |
| CfaProgram.PlanWithin | src/format/elf/ehframe.rs:815-860 | every store stays inside the program |
| CfaProgram.PlanRespaces | src/format/elf/ehframe.rs:815-886 | the patched program has the same instructions at the same offsets, opcode and operands or the advance width, each row starting at the mapped location |
| Unwind.CutRange | src/format/elf/ehframe.rs:794-810 | the loop computes the cut |
| Unwind.CutExact | src/format/elf/ehframe.rs:794-810 | a byte is dead after a cut exactly when its interval misses the range or its aligned block, counted from the end kept, lies clear of it |
| Unwind.CutNonEmpty | src/format/elf/ehframe.rs:808-809 | no interval left is empty |
| Unwind.CutBounds | src/format/elf/ehframe.rs:794-810 | so the range comes back, and less than `align` bytes on either side |
| Unwind.CutMultiples | src/format/elf/ehframe.rs:741-742 | the pieces left keep a multiple of `align` bytes |
| Unwind.CutFits | src/format/elf/ehframe.rs:794-810 | cutting keeps intervals sorted and disjoint |
| Unwind.WholeFollows | src/format/elf/ehframe.rs:719-733 | an entry none of whose bytes is removed is never stuck |
| Unwind.LengthIsLive | src/format/elf/ehframe.rs:719-733 | the new length of a function in .text is the number of its bytes left |
| Unwind.FitsExact | src/format/elf/ehframe.rs:321-333 | a field holds a length exactly when it is below the field's range, or in the signed range at either end of 64 bits |
| Unwind.StuckExact | src/format/elf/ehframe.rs:784-789 | stuck exactly when no one interval removes the function, its length changes, and the field does not hold it or the program cannot be re-spaced |
| Unwind.RoundGains | src/format/elf/ehframe.rs:744-764 | every round frees at least one more entry for good |
| Unwind.UnwindSafeIntervals | src/format/elf/ehframe.rs:744-764 | ends within its rounds with no entry stuck, sorted intervals, only bytes the input removed, multiples of `align` kept, and the input itself if nothing was stuck |
| Unwind.LiveFollows | src/format/elf/ehframe.rs:696-733 | an entry not stuck gets its new range, read back through sign extension where the field is signed, and its program re-spaced |
| JvmCode.PadAgrees | src/format/java/bytecode.rs:327-399 | file-offset padding is method-offset padding exactly at multiples of four |
| JvmCode.SwitchTakes | src/format/java/bytecode.rs:361-399 | a switch takes the entries its header counts, as many whole ones as the code holds |
| JvmAsm.LengthIs | src/format/java/bytecode.rs:327-399 | every assembled JVM instruction, `wide` and both switches included, is decoded with its own length |
| JvmAsm.TargetsAre | src/format/java/bytecode.rs:220-324 | the targets read from its bytes are exactly its own |
| JvmAsm.FlowsIs | src/format/java/bytecode.rs:144-216 | control passes on exactly where the instruction lets it: its targets, the next one unless it ends the flow, the handlers |
| JvmAsm.MethodStarts | src/format/java/bytecode.rs:144-216 | linear decoding of an assembled method meets its instructions and nothing else |
| JvmCode.ReachableIsStart | src/format/java/bytecode.rs:144-216 | only instruction starts are reachable |
| JavaDead.CollectBranchTargets | src/format/java/bytecode.rs:220-324 | the target set |
| JavaDead.ScanDeadInMethod | src/format/java/bytecode.rs:144-216 | the scan computes the specified ranges |
| JavaDead.RunsAreLive | src/format/java/bytecode.rs:144-216 | no run reaches a scanned-dead instruction |
| JavaDead.ScanIsSound | src/format/java/bytecode.rs:144-216 | ranges are sorted, disjoint, whole instructions, never entered |
| JavaCompact.PatchCodeBranches | src/format/java/bytecode.rs:555-608 | every branch in the code is patched in place |
| JavaCompact.OffsetShrinks | src/format/java/bytecode.rs:540-608 | new offsets lie between zero and the old ones, so they fit |
| JavaCompact.ExciseRanges | src/format/java/bytecode.rs:611-627 | the bytes outside the ranges, in order |
| JavaCompact.NewPcInjective | src/format/java/bytecode.rs:540-551 | no two reachable positions are moved to one |
| JavaCompact.StepForward | src/format/java/bytecode.rs:427-476 | each original step is a step of the compacted method |
| JavaCompact.StepBack | src/format/java/bytecode.rs:427-476 | and each compacted step comes from one |
| JavaCompact.SameReach | src/format/java/bytecode.rs:427-476 | the reachable positions correspond exactly |
| JavaCompact.CompactMethodCode | src/format/java/bytecode.rs:427-476 | compacts unless a guard refuses or nothing is dead, and the result is shorter |
| JavaCompact.CompactionPreservesMeaning | src/format/java/bytecode.rs:427-476 | every reachable instruction survives at its shifted position with shifted targets, and nothing else becomes reachable |
| JavaHandlers.ReportedExact | src/format/java/bytecode.rs:144-324 | for all code at any offset a byte is reported exactly when it lies behind a terminator, before any decoded target, in a stretch of at least two bytes |
| JavaHandlers.HandlersExact | src/format/java/bytecode.rs:144-324 | for bodies at a multiple of four or without a switch, nothing reported is executed exactly when no enterable handler lies behind a terminator and before any target |
| JavaHandlers.NoHandlersSound | src/format/java/bytecode.rs:144-324 | for the same bodies without an exception table nothing reported is executed |
| JavaHandlers.SameDecoding | src/format/java/bytecode.rs:327-399 | at a multiple of four, or without a switch, the source's decoding is the JVM's |
| JavaHandlers.SwitchLost | src/format/java/bytecode.rs:361-399 | at every other offset a method whose last two instructions run, are reported dead and are overwritten |
| JavaHandlers.BaseExact | src/format/java/bytecode.rs:144-399 | no method has executed code reported exactly at the offsets that are a multiple of four |
| JavaHandlers.HandlerLost | src/format/java/mod.rs:110-122 | a handler that runs, is reported dead and is overwritten |
| JavaHandlers.NopFill | src/format/java/mod.rs:118-122 | the bytes with every reported one zero |
| JavaHandlers.FillKeepsRuns | src/format/java/mod.rs:110-122 | for bodies in step, overwriting keeps every run and the bytes of every instruction that runs, when no enterable handler lies behind a terminator and before any target |
| JumpTables.NewRunCfg | src/arch/x86_patch.rs:329-356 | the index lists exactly the branches to each address and the addresses entered from elsewhere |
| JumpTables.PredecessorsExact | src/arch/x86_patch.rs:399-423 | exactly the modelled edges, or None exactly when control may come from elsewhere |
| JumpTables.StepExact | src/arch/x86_patch.rs:399-423 | the edges walked backwards are exactly the ways control can go |
| JumpTables.EntryIsOutside | src/arch/x86_patch.rs:329-356 | what the walk counts as entered from outside is the start, `endbr64`, a called or an address-taken instruction |
| JumpTables.DefOfExact | src/arch/x86_patch.rs:428-438 | a definition says exactly what an instruction may leave in the register; a call may change RAX, RCX, RDX, RSI, RDI, R8 to R11 and no other |
| JumpTables.ReachingLea | src/arch/x86_patch.rs:365-392 | returns a base exactly when it is the one definition that reaches the load within the visit limit |
| JumpTables.BaseHolds | src/arch/x86_patch.rs:365-438 | on every run from an outside entry, along the ways control can go and with all that calls may change, the register holds the base at the load |
| JumpTables.MatchDispatch | src/arch/x86_patch.rs:287-324 | the loop computes the straight-line match |
| JumpTables.DispatchExact | src/arch/x86_patch.rs:287-324 | matched exactly where, within eight straight-line instructions of the load, the first sum of entry and base is jumped to with nothing written in between |
| JumpTables.DispatchJumps | src/arch/x86_patch.rs:287-324 | a matched dispatch jumps to base plus loaded entry |
| MethodTables.RunCommands | src/format/elf/nativeaot.rs:818-895 | the loop replays the stream; slots hold zero, do not overlap and stay within the room |
| HydrateAsm.ReplayExact | src/format/elf/nativeaot.rs:818-895 | a stream replays as some memory exactly when it is assembled from commands that build it, one after the other, with short and long payloads |
| MethodTables.ResolveFixups | src/format/elf/nativeaot.rs:899-924 | succeeds exactly when every table entry reads, and fills each use with its entry |
| MethodTables.Dehydrate | src/format/elf/nativeaot.rs:792-814 | succeeds exactly when stream and fixup table read; every slot with its target comes out, sorted and disjoint, over zeroed bytes |
| MethodTables.WriteAtExact | src/format/elf/nativeaot.rs:767-770 | the bisection finds a write exactly when one starts there |
| MethodTables.PlainExact | src/format/elf/nativeaot.rs:773-776 | one probe tells whether any write overlaps |
| MethodTables.UintExact | src/format/elf/nativeaot.rs:760-764 | a number is read exactly when all its bytes were rebuilt, and has them for digits |
| MethodTables.MethodTableExact | src/format/elf/nativeaot.rs:990-1006 | the shape tested: a plain non-zero word, a pointer or null, plain counts that add up to the slots, and as many pointers or nulls |
| MethodTables.OnlyTwoBelow | src/format/elf/nativeaot.rs:959-968 | below a header only the start two words lower can also pass |
| MethodTables.MethodTableStart | src/format/elf/nativeaot.rs:969-986 | the lowest candidate not below the floor, None only when there is none |
| FuncSweep.FuncsContaining | src/format/elf/symbols.rs:109-133 | exactly the functions some queried address lies in, nested and overlapping ranges included |
| FuncSweep.CoversExact | src/format/elf/symbols.rs:109-115 | what saturating the end costs |

## Left out

- Parsing done by goblin, wasmparser and iced-x86: decoded instructions, sections and headers are inputs; so is which registers an x86 instruction writes.
- Effect extraction for x86, ARM32, RISC-V, MIPS, s390x and LoongArch, and of the AArch64 classes that only clobber: `A64Run` takes what such a word may change as given.
- 64-bit overflow of address sums outside the places modelled explicitly (RELR decoding, unwind subtraction, saturating ends): callers bound their inputs below it.
- Dominance frontiers and SSA construction.
- AArch64 ADR and ADRP, x86 memory operands and the rewriting of jump-table entries: their targets involve data or instructions that are not rewritten together.
- The lenient first pass over jump tables; case edges are an input of the exact walk.
- COPY and IRELATIVE relocations, which read memory or run code; other entries store up to eight bytes that depend on the entry and the base.
- PLT relocations (DT_JMPREL) are known by the addresses they patch.
- The bytes of ELF header tables: their parsed fields move, and the image theorems allow any edit of header bytes away from the tables and packed words.
- Section header renaming and appending, the glibc and static-pie refusals.
- `.eh_frame` parsing and the binary search table: unwind entries are given with their fields.
- StackMapTable frames: an overwritten method is compared by its runs, not by what the JVM's verifier makes of it.
- Java class-file headers around a method body; ranges are relative to the method body, the source counts from the file start.
- Padding absorption around dead intervals; compaction and unwinding start from intervals that fit .text, as the fit test guarantees.
- WebAssembly and .NET IL scanners, PE and Mach-O fields, symbol tables, reports and file I/O.
- Compact.BuildLiveText: states its result only for intervals that fit; for others the source ignores some of them, and the outer text is what `CompactText` promises.
- JumpTables.DispatchJumps: says nothing about the value the MOVSXD loads, which is memory content.
- X86Branch.PatchCallJmp: a branch partly outside the file is left alone, the source writes its field if that lies inside; decoded branches end with their field.
