# TriCore LLVM backend: a Dafny model of its core

This project models the core of an LLVM backend for the Infineon TriCore
architecture, plus the TriCore target of the lld linker, and proves
properties of the model. The modelled parts are:

- **Calling-convention hook** (`callconv_hook.dfy`, module `CallConvHook`).
  This is a process-wide log recording which physical register each formal
  parameter of each function was given. It also holds two cursors. A class
  with the log as a `seq` field, and methods that update it.
- **Argument and return lowering** (`arg_lowering.dfy`, module
  `ArgLowering`). It decides where each formal parameter, call argument and
  return value lives. Pointer parameters go to A4..A7, 64-bit ones to E4/E6,
  and the others to D4..D7, with the calling convention's proposal as
  fallback. The log holds only the entries of the function being lowered,
  so a call reuses logged registers only when it calls that same function,
  and then by position in the log, not by parameter.
  Return values go to A2 for pointers.
- **SelectionDAG custom lowering** (`dag_lowering.dfy`, module
  `DagLowering`). It covers the operation dispatch, target node names,
  shifts, the multiply-high shape, `EmitCMP` and the BR_CC / SETCC /
  SELECT_CC lowerings built on it, and global addresses.
- **Select diamond** (`select_diamond.dfy`, module `SelectDiamond`). The
  custom inserter splits a block at a `Select8` pseudo into a branch
  diamond with a PHI. The machine function is a class with block-indexed
  `seq` fields.
- **Post-RA pseudo expansion and register copies** (`instr_info.dfy`,
  module `InstrInfo`). 64-bit bitwise and carry-chain pseudos are split
  into 32-bit halves, and MOVi32 becomes MOV / MOVH+ADDI. A basic block is
  a class whose instruction list is edited in place.
- **Register information** (`register_info.dfy`, module `RegisterInfo`).
  Covers reserved registers, the callee-saved list, the frame register, and
  frame-index elimination.
- **Assembler backend** (`asm_backend.dfy`, module `AsmBackend`). Covers
  fixup value adjustment, applying a fixup to a fragment held in an
  `array<bv8>`, the fixup-kind table, and the nop and relaxation hooks.
- **Disassembler** (`disassembler.dfy`), **MC expressions**
  (`mc_expr.dfy`), **ALU codes** (`alu_code.dfy`) and **the lld target**
  (`lld_target.dfy`).
- `registers.dfy`, `bits.dfy` and `wrappers.dfy` hold the register
  numbering, the fixed-width integer casts, and `Option`/`Result`.

Registers are integers numbered the way LLVM's generator numbers them:
0 is "no register", A0..A15 are 1..16, D0..D15 are 17..32, E0, E2, ..., E14
are 33..40, then FCX, PC, PCXI, PSW. Only even extended registers exist
(`clang/lib/Basic/Targets/TriCore.cpp:20-25`), so the extended argument range E4..E6 holds two registers,
E4 and E6, not three.

The hook's `init()` empties the log (`llvm/lib/Target/TriCore/TriCoreISelLowering.cpp:100-105`), so every
`LowerFormalArguments` starts from an empty log. The model follows that.

Observations the model makes visible:

- The operations marked Custom but without a case in `LowerOperation`
  (SREM, UREM, SDIVREM, UDIVREM, SMUL_LOHI, UMUL_LOHI) reach the
  unreachable default (`DagLowering.LowerOperation`).
- `LowerMulHigh` shifts the 32-bit product right by the full width, so
  read as MUL and SRL it is always 0
  (`DagLowering.MulHighShiftsOutEverything`).
- A call to any other function than the one being lowered finds no log
  entries, and every argument keeps the proposed location
  (`ArgLowering.CallToOtherFunctionKeepsProposal`).
- A stack-placed parameter logs nothing, so log positions and parameter
  positions drift apart. For `f(int, int, int, int, int, int *)` with the
  fifth int on the stack, a self-call would pass the fifth argument, an
  int, in A4 (`ArgLowering.StackParameterMisalignsReuse`).
- `LowerFormalArguments` classifies location i by IR parameter i. A
  parameter the convention splits over two locations therefore shifts the
  classes of the locations after it (`ArgLowering.SplitParameterShiftsClasses`).
  A stack object is sized by the location's value type. So an i64 part of
  a split i128 gets 8 bytes (`ArgLowering.SplitPartOnStackTakesEightBytes`).
- The data scan looks only at D4..D7 and ignores a logged E register.
  In `f(int *p, long long x, int y)`, x takes E4 and y takes D4, which is
  the low half of E4 (`ArgLowering.DataParamOverlapsExtPair`).
- `EmitCMP` gives unsigned predicates the signed condition codes
  (`DagLowering.NormalizeCmpCases`). Its constant fold C+1 wraps at the
  type's width.
- The ADDrc path of `eliminateFrameIndex` always subtracts the magnitude
  of the object offset. The load/store path adds the offset. The two
  therefore disagree on objects at positive offsets
  (`RegisterInfo.AddrcPathNegatesPositiveOffsets`). Whether that is
  intended depends on the frame layout, which is not part of this model.
- The frame pointer A14 is not reserved (`RegisterInfo.ReservedRegsClassified`).
- The assembler backend is declared big-endian (`llvm/lib/Target/TriCore/MCTargetDesc/TriCoreAsmBackend.cpp:30`), but
  `applyFixup` writes the value least significant byte first
  (`AsmBackend.PatchedIntoZeros`).

## Model

| member | source | states |
|---|---|---|
| Registers.LastArgReg | llvm/lib/Target/TriCore/TriCoreISelLowering.cpp:145-195 | the argument ranges end at A7, D7 and E6, after their first register and below the sentinel |
| Registers.ArgRegCount | llvm/lib/Target/TriCore/TriCoreISelLowering.cpp:145-195 | the size of each argument range is last - first + 1 |
| Registers.ArgRangesDisjoint | llvm/lib/Target/TriCore/TriCoreISelLowering.cpp:145-195 | a register lies in the argument range of at most one class |
| Registers.EvenSub | llvm/lib/Target/TriCore/TriCoreInstrInfo.cpp:35-38 | the even sub-register of an extended register is a data register |
| Registers.OddSub | llvm/lib/Target/TriCore/TriCoreInstrInfo.cpp:35-38 | the odd sub-register of an extended register is the data register after the even one |
| Registers.PairOf | llvm/lib/Target/TriCore/TriCoreInstrInfo.cpp:35-38 | the extended register a data register belongs to |
| Registers.SplitRegsRoundTrip | llvm/lib/Target/TriCore/TriCoreInstrInfo.cpp:35-38 | splitting is a bijection: both halves belong to the register they came from, and distinct registers have distinct halves |
| Registers.SplitRegsOfE4 | llvm/lib/Target/TriCore/TriCoreInstrInfo.cpp:35-38 | E4 splits into D4/D5 and E6 into D6/D7 |
| Bits.WordsRecombine | llvm/lib/Target/TriCore/TriCoreInstrInfo.cpp:238-240 | the high and low 32-bit words of a 64-bit immediate give it back |
| CallConvHook.FirstIndex | llvm/lib/Target/TriCore/TriCoreISelLowering.cpp:120-130 | -1 iff no entry has the name; otherwise the index of the first entry with it |
| CallConvHook.LastIndex | llvm/lib/Target/TriCore/TriCoreISelLowering.cpp:132-140 | -1 iff no entry has the name; otherwise the index of the last entry with it |
| CallConvHook.CountOf | llvm/lib/Target/TriCore/TriCoreISelLowering.cpp:200-208 | the number of entries for a name is at most the log's length |
| CallConvHook.RegsInRange | llvm/lib/Target/TriCore/TriCoreISelLowering.cpp:145-151 | the registers collected for a name all lie in the scanned range |
| CallConvHook.RegsUpTo | llvm/lib/Target/TriCore/TriCoreISelLowering.cpp:145-151 | the registers a prefix of the log yields lie in the range, at most one per entry |
| CallConvHook.NextReg | llvm/lib/Target/TriCore/TriCoreISelLowering.cpp:145-195 | the first register of the range when none is logged; the sentinel after the last one; otherwise the last logged one plus one |
| CallConvHook.NextArgReg | llvm/lib/Target/TriCore/TriCoreISelLowering.cpp:145-195 | the next register of a class is the sentinel or lies in that class's range |
| CallConvHook.CountZeroIffNotFound | llvm/lib/Target/TriCore/TriCoreISelLowering.cpp:120-208 | the count is zero exactly when both finders answer -1 |
| CallConvHook.FirstPlusCountWithinLog | llvm/lib/Target/TriCore/TriCoreISelLowering.cpp:120-208 | first index + count never passes the end of the log |
| CallConvHook.AppendEntry | llvm/lib/Target/TriCore/TriCoreISelLowering.cpp:210-217 | appending an entry adds one to its own name's count only, and the collected registers stay in range |
| CallConvHook.RegsUpToExtend | llvm/lib/Target/TriCore/TriCoreISelLowering.cpp:145-151 | the registers of a prefix do not depend on what follows |
| CallConvHook.CountFromFirst | llvm/lib/Target/TriCore/TriCoreISelLowering.cpp:120-130 | the prefix up to the first entry of a name counts that name once |
| CallConvHook.NoneBeforeFirst | llvm/lib/Target/TriCore/TriCoreISelLowering.cpp:120-130 | no entry of a name precedes its first entry |
| CallConvHook.ConventionHook.constructor | llvm/lib/Target/TriCore/TriCoreISelLowering.cpp:81 | both cursors are zero and the log is empty |
| CallConvHook.ConventionHook.Init | llvm/lib/Target/TriCore/TriCoreISelLowering.cpp:100-105 | init zeroes both cursors and empties the log |
| CallConvHook.ConventionHook.SetCurPos | llvm/lib/Target/TriCore/TriCoreISelLowering.cpp:107 | sets curPos and nothing else |
| CallConvHook.ConventionHook.SetArgPos | llvm/lib/Target/TriCore/TriCoreISelLowering.cpp:108 | sets curArg and nothing else |
| CallConvHook.ConventionHook.IncrArgPos | llvm/lib/Target/TriCore/TriCoreISelLowering.cpp:110 | curArg advances by one, wrapping at 2^32 |
| CallConvHook.ConventionHook.Bump | llvm/lib/Target/TriCore/TriCoreISelLowering.cpp:112-116 | curPos advances by one, wrapping at 2^32 |
| CallConvHook.ConventionHook.FindInRegRecord | llvm/lib/Target/TriCore/TriCoreISelLowering.cpp:120-130 | the loop answers FirstIndex of the log |
| CallConvHook.ConventionHook.FindInRegLastRecord | llvm/lib/Target/TriCore/TriCoreISelLowering.cpp:132-140 | the backward loop answers LastIndex of the log |
| CallConvHook.ConventionHook.NextInRange | llvm/lib/Target/TriCore/TriCoreISelLowering.cpp:145-195 | the list-building scan answers NextReg of the log |
| CallConvHook.ConventionHook.GetNextAddrRegs | llvm/lib/Target/TriCore/TriCoreISelLowering.cpp:145-161 | answers NextArgReg for the address class (A4..A7) |
| CallConvHook.ConventionHook.GetNextDataRegs | llvm/lib/Target/TriCore/TriCoreISelLowering.cpp:163-178 | answers NextArgReg for the data class (D4..D7) |
| CallConvHook.ConventionHook.GetNextExtRegs | llvm/lib/Target/TriCore/TriCoreISelLowering.cpp:180-195 | answers NextArgReg for the extended class (E4..E6) |
| CallConvHook.ConventionHook.GetNextRegs | llvm/lib/Target/TriCore/TriCoreISelLowering.cpp:282-298 | dispatches to the scan of the parameter's class |
| CallConvHook.ConventionHook.GetNumOfArgs | llvm/lib/Target/TriCore/TriCoreISelLowering.cpp:200-208 | the counting loop answers CountOf |
| CallConvHook.ConventionHook.SaveRegRecord | llvm/lib/Target/TriCore/TriCoreISelLowering.cpp:210-217 | appends exactly one entry; the cursors are untouched |
| ArgLowering.StackSize | llvm/lib/Target/TriCore/TriCoreISelLowering.cpp:349-351 | a stack location's object is 8 bytes iff the location's value type is i64, else 4 |
| ArgLowering.FormalArgs | llvm/lib/Target/TriCore/TriCoreISelLowering.cpp:276-361 | the reference definition over the first k locations, location i classified by parameter i: one value per location, and the log grows only by register-placed ones |
| ArgLowering.CanonicalRegsInRange | llvm/lib/Target/TriCore/TriCoreISelLowering.cpp:145-195 | when every parameter came from the hook, a class's logged registers are the first ids of its range, in order |
| ArgLowering.CanonicalNextReg | llvm/lib/Target/TriCore/TriCoreISelLowering.cpp:145-195 | the hook then hands out the next id of the range, or the sentinel once the range is used up |
| ArgLowering.PlacementWhenHooked | llvm/lib/Target/TriCore/TriCoreISelLowering.cpp:282-298 | with a free register of its class, a parameter takes the hook's register and not the proposed location |
| ArgLowering.HookedLogIsCanonical | llvm/lib/Target/TriCore/TriCoreISelLowering.cpp:300-333 | while every parameter came from the hook, the log is the canonical one |
| ArgLowering.FormalArgValueAt | llvm/lib/Target/TriCore/TriCoreISelLowering.cpp:276-361 | a parameter's value depends only on the log the earlier parameters left |
| ArgLowering.FormalArgsKeepsValue | llvm/lib/Target/TriCore/TriCoreISelLowering.cpp:276-361 | lowering more parameters never changes an earlier parameter's value |
| ArgLowering.FormalArgInHookRegister | llvm/lib/Target/TriCore/TriCoreISelLowering.cpp:282-298 | while the hook has registers left, the (j+1)-th pointer / 64-bit / other parameter among the first k lands in the (j+1)-th register of A4..A7 / E4..E6 / D4..D7 |
| ArgLowering.FormalArgOnStack | llvm/lib/Target/TriCore/TriCoreISelLowering.cpp:341-360 | a stack-placed location among the first k gets the proposed slot, with an 8-byte object iff its value type is i64, else 4 bytes |
| ArgLowering.FormalArgsLogEntries | llvm/lib/Target/TriCore/TriCoreISelLowering.cpp:311-333 | each register parameter logs one entry under the function's name, flagged as a pointer iff it is one |
| ArgLowering.FifthDataParamFallsBack | llvm/lib/Target/TriCore/TriCoreISelLowering.cpp:294-298 | of five int parameters the first four take D4..D7 and the fifth keeps its proposed location |
| ArgLowering.LowerFormalArgument | llvm/lib/Target/TriCore/TriCoreISelLowering.cpp:278-338 | one loop iteration yields the reference placement, appends its log entries, and bumps curPos exactly for a register-placed parameter |
| ArgLowering.LowerFormalAt | llvm/lib/Target/TriCore/TriCoreISelLowering.cpp:276-361 | the loop body at location i extends the reference state from i to i + 1 locations and advances curArg |
| ArgLowering.LowerFormalArguments | llvm/lib/Target/TriCore/TriCoreISelLowering.cpp:249-366 | with no more locations than parameters, the values and the log equal the reference definition, curPos is reset and curArg is the location count; with more, it fails with ArgumentPastLastParameter after logging every parameter |
| ArgLowering.SplitParameterShiftsClasses | llvm/lib/Target/TriCore/TriCoreISelLowering.cpp:276-361 | an i128 split over two locations, followed by a pointer: the second half is classified as the pointer and takes A4 |
| ArgLowering.SplitPartOnStackTakesEightBytes | llvm/lib/Target/TriCore/TriCoreISelLowering.cpp:341-351 | in g(int×4, __int128), the i128's first i64 part keeps its stack location and gets an 8-byte object |
| ArgLowering.DataParamOverlapsExtPair | llvm/lib/Target/TriCore/TriCoreISelLowering.cpp:163-178 | in f(int *p, long long x, int y), p, x and y take A4, E4 and D4, and D4 is the even half of E4 |
| ArgLowering.FormalArgsLogNamed | llvm/lib/Target/TriCore/TriCoreISelLowering.cpp:311-333 | every log entry a definition leaves carries that function's name |
| ArgLowering.CopiesAndStoresPartition | llvm/lib/Target/TriCore/TriCoreISelLowering.cpp:497-519 | every argument is passed exactly once, as a register copy or a stack store, in order |
| ArgLowering.ReusedLocs | llvm/lib/Target/TriCore/TriCoreISelLowering.cpp:492-500 | one location per argument |
| ArgLowering.ReusedLocFromLog | llvm/lib/Target/TriCore/TriCoreISelLowering.cpp:497-500 | argument i below the callee's count goes to the register of log entry first + i |
| ArgLowering.ReusedLocsAt | llvm/lib/Target/TriCore/TriCoreISelLowering.cpp:497-500 | arguments past the callee's count keep their proposed location |
| ArgLowering.CallReusesDefinitionRegisters | llvm/lib/Target/TriCore/TriCoreISelLowering.cpp:492-500 | on a function's first call to itself, when every parameter got a hook register, the corrected order passes each leading argument in the register that parameter was given |
| ArgLowering.CallToOtherFunctionKeepsProposal | llvm/lib/Target/TriCore/TriCoreISelLowering.cpp:492-500 | after lowering one function's parameters, a call to any other function keeps every proposed location |
| ArgLowering.FiveIntsAndPointerDefinition | llvm/lib/Target/TriCore/TriCoreISelLowering.cpp:276-361 | for f(int×5, int *) with the fifth int on the stack: D4..D7, the stack slot, then A4 logged fifth |
| ArgLowering.StackParameterMisalignsReuse | llvm/lib/Target/TriCore/TriCoreISelLowering.cpp:492-500 | in that f, a self-call's fifth argument, an int, is moved to A4 |
| ArgLowering.LowerCallArg | llvm/lib/Target/TriCore/TriCoreISelLowering.cpp:497-510 | one iteration reads the log at the argument cursor and advances it for register arguments |
| ArgLowering.LowerCallArgs | llvm/lib/Target/TriCore/TriCoreISelLowering.cpp:452-519 | the copies and stores follow the reused locations, read before the log is reset |
| ArgLowering.CallOutcomeAsWritten | llvm/lib/Target/TriCore/TriCoreISelLowering.cpp:492-500 | the written order fails exactly when the callee has entries and the call has arguments |
| ArgLowering.LowerCallArgsAsWritten | llvm/lib/Target/TriCore/TriCoreISelLowering.cpp:492-519 | the written order answers CallOutcomeAsWritten and leaves the log empty |
| ArgLowering.RecursiveCallReadsEmptiedLog | llvm/lib/Target/TriCore/TriCoreISelLowering.cpp:492-500 | for a recursive int f(int n), the written order reads an empty log while the corrected one passes D4 |
| ArgLowering.ReturnRegs | llvm/lib/Target/TriCore/TriCoreISelLowering.cpp:651-658 | every result goes to A2 for a pointer, else its proposed register; a stack location fails |
| ArgLowering.CopyReturnRegs | llvm/lib/Target/TriCore/TriCoreISelLowering.cpp:592-603 | the shared loop answers ReturnRegs |
| ArgLowering.LowerReturn | llvm/lib/Target/TriCore/TriCoreISelLowering.cpp:626-674 | a variadic function is an error; otherwise the return registers |
| ArgLowering.LowerCallResultAsWritten | llvm/lib/Target/TriCore/TriCoreISelLowering.cpp:576-606 | reads the results from ReturnRegs of the caller's return type |
| ArgLowering.LowerCallResult | llvm/lib/Target/TriCore/TriCoreISelLowering.cpp:576-606 | reads the results from ReturnRegs of the callee's return type |
| ArgLowering.CallResultMatchesReturn | llvm/lib/Target/TriCore/TriCoreISelLowering.cpp:586-596 | for results proposed in any registers other than A2 (D2, E2), the callee's type always yields registers; the caller's type yields the same ones exactly when caller and callee agree on returning a pointer |
| ArgLowering.PointerCallerReadsWrongRegister | llvm/lib/Target/TriCore/TriCoreISelLowering.cpp:586-596 | int *h() calling int g(): g returns in D2, the written call site reads A2 |
| DagLowering.LowerOperation | llvm/lib/Target/TriCore/TriCoreISelLowering.cpp:228-247 | which opcodes reach which lowering; the remainder and mul-lohi opcodes reach the unreachable default |
| DagLowering.TargetNodeName | llvm/lib/Target/TriCore/TriCoreISelLowering.cpp:369-389 | a name exactly for the fourteen target nodes, each with the TRICOREISD:: prefix |
| DagLowering.TargetNodeNamesDistinct | llvm/lib/Target/TriCore/TriCoreISelLowering.cpp:369-389 | distinct target nodes have distinct names |
| DagLowering.LowerShifts | llvm/lib/Target/TriCore/TriCoreISelLowering.cpp:718-756 | SHL becomes SH; SRL/SRA become SH/SHA by the negated constant, or by SUB(0, amount) |
| DagLowering.NegatedShiftConstant | llvm/lib/Target/TriCore/TriCoreISelLowering.cpp:735-740 | the negated amount, truncated to 32 bits, is the negated amount |
| DagLowering.NegatedAmountReading | llvm/lib/Target/TriCore/TriCoreISelLowering.cpp:733-753 | the amount node of a right shift by k reads as -k |
| DagLowering.LowerShiftsMeaning | llvm/lib/Target/TriCore/TriCoreISelLowering.cpp:718-756 | read as assumed, the lowered shifts by k in [0, 32) are SHL, logical SRL and arithmetic SRA |
| DagLowering.LowerMulHigh | llvm/lib/Target/TriCore/TriCoreISelLowering.cpp:676-716 | MULHS/MULHU become SRL(MUL(a, b), width) |
| DagLowering.MulHighShiftsOutEverything | llvm/lib/Target/TriCore/TriCoreISelLowering.cpp:710-713 | read with MUL as the 32-bit product and SRL as the quotient, the 32-bit node evaluates to 0 for all operands, including 0x10000 × 0x10000, whose high half is 1 |
| DagLowering.FoldLeftConstant | llvm/lib/Target/TriCore/TriCoreISelLowering.cpp:793-843 | the shared fold leaves tricoreCC unset exactly when the folded operand is a constant and the caller does not set it |
| DagLowering.NormalizeCmp | llvm/lib/Target/TriCore/TriCoreISelLowering.cpp:770-844 | keeps constants within the type, picks EQ/NE/GE/LT, and leaves tricoreCC unset exactly for the UGE/ULE fold |
| DagLowering.EmitCmpAsWritten | llvm/lib/Target/TriCore/TriCoreISelLowering.cpp:758-912 | tricoreCC is missing exactly on the UGE/ULE paths that fold a constant |
| DagLowering.EmitCmp | llvm/lib/Target/TriCore/TriCoreISelLowering.cpp:758-912 | the corrected version sets tricoreCC to COND_NE always and otherwise equals the written one |
| DagLowering.NormalizeCmpCases | llvm/lib/Target/TriCore/TriCoreISelLowering.cpp:770-844 | ULE/UGT/LE/GT are UGE/ULT/GE/LT with the operands exchanged; unsigned predicates equal the signed ones |
| DagLowering.NormalizeCmpFolds | llvm/lib/Target/TriCore/TriCoreISelLowering.cpp:793-843 | a constant C on the folded side turns C >= x into x < C+1 and C < x into x >= C+1 |
| DagLowering.EmitCmpSignedMeaning | llvm/lib/Target/TriCore/TriCoreISelLowering.cpp:903-911 | read as assumed, the 32-bit CMP holds exactly when the signed comparison of the original operands does |
| DagLowering.CompareNodesWide | llvm/lib/Target/TriCore/TriCoreISelLowering.cpp:846-900 | the 64-bit compare chain: high words, then low words, then a third LOGICCMP for ordering codes |
| DagLowering.WideConstantHalves | llvm/lib/Target/TriCore/TriCoreISelLowering.cpp:860-870 | a 64-bit constant is compared as two words that give it back |
| DagLowering.LowerBrCC | llvm/lib/Target/TriCore/TriCoreISelLowering.cpp:914-930 | as written: BR_CC over EmitCMP's flag with the given chain and destination; its condition is unset exactly on the UGE/ULE constant fold, COND_NE otherwise |
| DagLowering.LowerBrCCCorrected | llvm/lib/Target/TriCore/TriCoreISelLowering.cpp:914-930 | with the corrected EmitCMP: the same node with COND_NE always |
| DagLowering.LowerSelectCC | llvm/lib/Target/TriCore/TriCoreISelLowering.cpp:948-964 | as written, for any comparand type: SELECT_CC of the true and false values over EmitCMP's flag; condition unset exactly on the UGE/ULE constant fold |
| DagLowering.LowerSelectCCCorrected | llvm/lib/Target/TriCore/TriCoreISelLowering.cpp:948-964 | with the corrected EmitCMP: the same node with COND_NE always |
| DagLowering.LowerSetCCAsWritten | llvm/lib/Target/TriCore/TriCoreISelLowering.cpp:932-945 | the written SETCC selects between the rewritten comparands over EmitCMP's flag; condition unset exactly on the UGE/ULE constant fold |
| DagLowering.LowerSetCC | llvm/lib/Target/TriCore/TriCoreISelLowering.cpp:932-945 | the corrected SETCC selects 1 or 0 over the same flag |
| DagLowering.LowerSetCCMeaning | llvm/lib/Target/TriCore/TriCoreISelLowering.cpp:932-945 | read as assumed, for 32-bit EQ/NE and signed predicates (no INT32_MAX fold), the corrected SETCC is 1 exactly when the comparison holds, else 0 |
| DagLowering.SetCCYieldsComparand | llvm/lib/Target/TriCore/TriCoreISelLowering.cpp:939-943 | x > 5 with x = 7: the written SETCC yields 7, the corrected one 1 |
| DagLowering.UnsignedFoldLeavesConditionUnset | llvm/lib/Target/TriCore/TriCoreISelLowering.cpp:788-801 | unsigned 5 >= x leaves the written tricoreCC unset, so the written BR_CC and SELECT_CC carry no condition; the corrected BR_CC carries COND_NE |
| DagLowering.LowerGlobalAddressNode | llvm/lib/Target/TriCore/TriCoreISelLowering.cpp:966-982 | the target global address with its offset, in a Wrapper node |
| SelectDiamond.RetargetPhi | llvm/lib/Target/TriCore/TriCoreISelLowering.cpp:1018 | keeps the opcode and length; a PHI names the new block wherever it named the old one |
| SelectDiamond.UpdatePhis | llvm/lib/Target/TriCore/TriCoreISelLowering.cpp:1018 | the PHI update keeps the block's length |
| SelectDiamond.UpdatePhisAt | llvm/lib/Target/TriCore/TriCoreISelLowering.cpp:1018 | the update works instruction by instruction |
| SelectDiamond.UpdatePhisRetargets | llvm/lib/Target/TriCore/TriCoreISelLowering.cpp:1018 | afterwards no PHI names the old block, and every other instruction is unchanged |
| SelectDiamond.PhisUpdated | llvm/lib/Target/TriCore/TriCoreISelLowering.cpp:1018 | the update applies to every moved successor and to no other block |
| SelectDiamond.IncomingValue | llvm/lib/Target/TriCore/TriCoreISelLowering.cpp:1038-1044 | a PHI's value for a block is taken from a pair naming that block |
| SelectDiamond.Incoming | llvm/lib/Target/TriCore/TriCoreISelLowering.cpp:1038-1044 | the same, for a PHI instruction |
| SelectDiamond.RetargetedIncoming | llvm/lib/Target/TriCore/TriCoreISelLowering.cpp:1018 | retargeting moves the incoming value from the old block to the new one |
| SelectDiamond.RetargetPhiIncoming | llvm/lib/Target/TriCore/TriCoreISelLowering.cpp:1018 | after the update a PHI takes from the new block what it took from the old, and nothing from the old |
| SelectDiamond.JoinPhiIncoming | llvm/lib/Target/TriCore/TriCoreISelLowering.cpp:1037-1044 | the join PHI takes the true value from the old block, the false value from the fall-through block, and nothing else |
| SelectDiamond.MachineFunction.CreateBlocksAfter | llvm/lib/Target/TriCore/TriCoreISelLowering.cpp:1010-1013 | two new empty blocks, laid out right after the current one, in order |
| SelectDiamond.MachineFunction.SpliceTail | llvm/lib/Target/TriCore/TriCoreISelLowering.cpp:1016-1017 | the instructions after the select move to the new block, in order |
| SelectDiamond.MachineFunction.TransferSuccessors | llvm/lib/Target/TriCore/TriCoreISelLowering.cpp:1018 | the successors move to the new block and PHIs in them are updated |
| SelectDiamond.MachineFunction.AddSuccessor | llvm/lib/Target/TriCore/TriCoreISelLowering.cpp:1020-1021 | adds one successor edge |
| SelectDiamond.MachineFunction.Append | llvm/lib/Target/TriCore/TriCoreISelLowering.cpp:1025-1027 | BuildMI at the end of a block |
| SelectDiamond.MachineFunction.Prepend | llvm/lib/Target/TriCore/TriCoreISelLowering.cpp:1041-1044 | BuildMI at the start of a block |
| SelectDiamond.MachineFunction.EraseAt | llvm/lib/Target/TriCore/TriCoreISelLowering.cpp:1046 | removes one instruction |
| SelectDiamond.MachineFunction.SplitAfter | llvm/lib/Target/TriCore/TriCoreISelLowering.cpp:1008-1018 | the first half of the inserter: new blocks, the moved tail, and the moved successors |
| SelectDiamond.MachineFunction.WireDiamond | llvm/lib/Target/TriCore/TriCoreISelLowering.cpp:1019-1046 | the second half: the branch, the fall-through edges, the PHI, and the select erased |
| SelectDiamond.MachineFunction.InsertSelectDiamond | llvm/lib/Target/TriCore/TriCoreISelLowering.cpp:985-1048 | the whole diamond: layout, code and successors of all three blocks, and every other block unchanged |
| InstrInfo.Build | llvm/lib/Target/TriCore/TriCoreInstrInfo.cpp:204-217 | BuildMI: the explicit operands, then the implicit PSW def and use for carry instructions |
| InstrInfo.RegRegHalf | llvm/lib/Target/TriCore/TriCoreInstrInfo.cpp:75-115 | a half operation keeps its opcode and has the PSW operands where the opcode has them |
| InstrInfo.RegImmHalf | llvm/lib/Target/TriCore/TriCoreInstrInfo.cpp:116-176 | the same for a register-constant half |
| InstrInfo.ChainLink | llvm/lib/Target/TriCore/TriCoreInstrInfo.cpp:210-223 | the PSW use is killed; the PSW def is dead iff requested; other operands unchanged |
| InstrInfo.MovImmLo | llvm/lib/Target/TriCore/TriCoreInstrInfo.cpp:284-286 | the low half is 16-bit signed and congruent to the immediate modulo 2^16 |
| InstrInfo.MovImmExpansion | llvm/lib/Target/TriCore/TriCoreInstrInfo.cpp:279-311 | one or two instructions, each defining the destination with its dead flag |
| InstrInfo.MovSymbolExpansion | llvm/lib/Target/TriCore/TriCoreInstrInfo.cpp:312-323 | MOVH then ADDI, each defining the destination |
| InstrInfo.ExpandMov | llvm/lib/Target/TriCore/TriCoreInstrInfo.cpp:273-327 | one or two instructions defining the MOVi32's destination |
| InstrInfo.Expansion | llvm/lib/Target/TriCore/TriCoreInstrInfo.cpp:40-329 | an expansion exists exactly for the handled pseudos and has one or two instructions |
| InstrInfo.MachineBlock.InsertBefore | llvm/lib/Target/TriCore/TriCoreInstrInfo.cpp:62-64 | BuildMI before an instruction inserts exactly one instruction there |
| InstrInfo.MachineBlock.Erase | llvm/lib/Target/TriCore/TriCoreInstrInfo.cpp:70 | erase removes exactly one instruction |
| InstrInfo.MachineBlock.ReplaceWith | llvm/lib/Target/TriCore/TriCoreInstrInfo.cpp:62-71 | the instruction is replaced by its expansion in place |
| InstrInfo.ExpandPostRAPseudo | llvm/lib/Target/TriCore/TriCoreInstrInfo.cpp:40-329 | a handled pseudo is replaced by its expansion and answers true; otherwise the block is unchanged and answers false |
| InstrInfo.HalfRegSplits | llvm/lib/Target/TriCore/TriCoreInstrInfo.cpp:35-38 | splitRegs yields the even then the odd data register |
| InstrInfo.NotExpansionHalves | llvm/lib/Target/TriCore/TriCoreInstrInfo.cpp:49-72 | NOTrr64 becomes two NOTs on the destination's halves, with its dead flag and the source's kill flag |
| InstrInfo.RegRegHalfOperands | llvm/lib/Target/TriCore/TriCoreInstrInfo.cpp:75-115 | a register-register half reads and writes the matching halves with their flags |
| InstrInfo.RegImmHalfOperands | llvm/lib/Target/TriCore/TriCoreInstrInfo.cpp:116-176 | a register-constant half reads and writes the matching halves and takes the constant |
| InstrInfo.BitwiseExpansion | llvm/lib/Target/TriCore/TriCoreInstrInfo.cpp:73-176 | 64-bit AND/XOR/OR become the matching 32-bit operation on both halves, and the constant's words give it back |
| InstrInfo.CarryChainFlags | llvm/lib/Target/TriCore/TriCoreInstrInfo.cpp:177-272 | carry-out on the low half, carry-in on the high half, PSW uses killed, the high PSW def dead iff the pseudo's was |
| InstrInfo.CarryChainOperands | llvm/lib/Target/TriCore/TriCoreInstrInfo.cpp:177-272 | the explicit operands are the register halves and the constant's two words |
| InstrInfo.MovImmSplit | llvm/lib/Target/TriCore/TriCoreInstrInfo.cpp:281-290 | MOVH of the upper half plus the lower half gives a 32-bit immediate back; the upper half is 0 iff the immediate fits 16 bits signed |
| InstrInfo.MovImmShape | llvm/lib/Target/TriCore/TriCoreInstrInfo.cpp:297-310 | MOV alone iff the upper half is 0; otherwise MOVH, plus ADDI iff the low 16 bits are not zero |
| InstrInfo.MovSymbolShape | llvm/lib/Target/TriCore/TriCoreInstrInfo.cpp:312-323 | MOVH of the global with the high flag, then ADDI with the low flag, keeping offset and target flags |
| InstrInfo.CopyOpcodeMatchesClasses | llvm/lib/Target/TriCore/TriCoreInstrInfo.cpp:334-344 | the move chosen reads the source's class and writes the destination's |
| InstrInfo.CopyPhysReg | llvm/lib/Target/TriCore/TriCoreInstrInfo.cpp:330-348 | one move inserted, defining the destination and reading the source with its kill flag |
| RegisterInfo.GetReservedRegs | llvm/lib/Target/TriCore/TriCoreRegisterInfo.cpp:42-52 | exactly PC, PCXI, A10, A11, PSW and FCX are reserved |
| RegisterInfo.ReservedRegsClassified | llvm/lib/Target/TriCore/TriCoreRegisterInfo.cpp:42-52 | the stack pointer is reserved, the frame pointer A14 is not, and no data or extended register is |
| RegisterInfo.UpToTerminator | llvm/lib/Target/TriCore/TriCoreRegisterInfo.cpp:36-40 | a zero-terminated list is read up to its first NoRegister |
| RegisterInfo.NoCalleeSavedRegs | llvm/lib/Target/TriCore/TriCoreRegisterInfo.cpp:36-40 | the callee-saved list is empty |
| RegisterInfo.FrameRegister | llvm/lib/Target/TriCore/TriCoreRegisterInfo.cpp:122-126 | A14 iff the function has a frame pointer, else A10 |
| RegisterInfo.AddrcOffsetImm | llvm/lib/Target/TriCore/TriCoreRegisterInfo.cpp:91-107 | no instruction is added exactly when the 32-bit offset is 0 |
| RegisterInfo.EliminateFrameIndexIn | llvm/lib/Target/TriCore/TriCoreRegisterInfo.cpp:73-120 | the rewritten instruction keeps its operand count |
| RegisterInfo.FrameIndexElimination | llvm/lib/Target/TriCore/TriCoreRegisterInfo.cpp:86-119 | ADDrc becomes MOV_Drr from the base register, plus ADDrc dst, dst, -abs(offset) iff the offset is not 0; other instructions get the base register and the offset unchanged |
| RegisterInfo.AddrcPathNegatesPositiveOffsets | llvm/lib/Target/TriCore/TriCoreRegisterInfo.cpp:90-118 | for a positive offset the two paths use opposite immediates; for a negative one the same |
| RegisterInfo.EliminateFrameIndex | llvm/lib/Target/TriCore/TriCoreRegisterInfo.cpp:73-120 | the block holds the rewritten instruction, followed by the added one exactly when the answer is true |
| AsmBackend.MovImmField | llvm/lib/Target/TriCore/MCTargetDesc/TriCoreAsmBackend.cpp:76-81 | bits 12-15 go to bits 16-19 and bits 0-11 stay put; nothing else is set |
| AsmBackend.MovImmOf | llvm/lib/Target/TriCore/MCTargetDesc/TriCoreAsmBackend.cpp:76-81 | reading the field back gives at most 16 bits |
| AsmBackend.MovImmFieldRoundTrip | llvm/lib/Target/TriCore/MCTargetDesc/TriCoreAsmBackend.cpp:76-82 | the packed field reads back as the value's low 16 bits |
| AsmBackend.AdjustFixupValue | llvm/lib/Target/TriCore/MCTargetDesc/TriCoreAsmBackend.cpp:65-85 | defined exactly for the three target kinds; call keeps 24 bits; lo16 packs the value, hi16 packs value >> 16 |
| AsmBackend.CallFixupIs24Bits | llvm/lib/Target/TriCore/MCTargetDesc/TriCoreAsmBackend.cpp:71-72 | a call fixup value is below 2^24 and equals Value & 0xffffff |
| AsmBackend.HiLoFixupsRecombine | llvm/lib/Target/TriCore/MCTargetDesc/TriCoreAsmBackend.cpp:73-82 | the hi16 and lo16 fields of one value, read back, give its low 32 bits |
| AsmBackend.Patched | llvm/lib/Target/TriCore/MCTargetDesc/TriCoreAsmBackend.cpp:105-107 | patching keeps the fragment's length |
| AsmBackend.PatchedKeepsBits | llvm/lib/Target/TriCore/MCTargetDesc/TriCoreAsmBackend.cpp:102-107 | patching changes only the four bytes at the offset and never clears a bit |
| AsmBackend.PatchedIdempotent | llvm/lib/Target/TriCore/MCTargetDesc/TriCoreAsmBackend.cpp:105-107 | patching twice with the same value is patching once |
| AsmBackend.BytesRecombine | llvm/lib/Target/TriCore/MCTargetDesc/TriCoreAsmBackend.cpp:105-107 | the four bytes written, read little-endian, give the value |
| AsmBackend.PatchedIntoZeros | llvm/lib/Target/TriCore/MCTargetDesc/TriCoreAsmBackend.cpp:105-107 | over zero bytes the fragment then holds the value, least significant byte first |
| AsmBackend.ApplyFixup | llvm/lib/Target/TriCore/MCTargetDesc/TriCoreAsmBackend.cpp:87-108 | a zero adjusted value leaves the fragment unchanged; otherwise the fragment is patched at the offset |
| AsmBackend.GetFixupKindInfo | llvm/lib/Target/TriCore/MCTargetDesc/TriCoreAsmBackend.cpp:115-134 | generic below the first target kind, the table row for the three target kinds, invalid beyond |
| AsmBackend.FixupInfoMatchesKinds | llvm/lib/Target/TriCore/MCTargetDesc/TriCoreAsmBackend.cpp:117-125 | the table has a row per handled kind: the mov fixups are 32-bit PC-relative, the call fixup 24-bit absolute |
| AsmBackend.WriteNopData | llvm/lib/Target/TriCore/MCTargetDesc/TriCoreAsmBackend.cpp:57-63 | succeeds exactly for a count of 0 |
| AsmBackend.FixupNeedsRelaxation | llvm/lib/Target/TriCore/MCTargetDesc/TriCoreAsmBackend.cpp:40-45 | never relaxes |
| Disassembler.SignedImmediate | llvm/lib/Target/TriCore/Disassembler/TriCoreDisassembler.cpp:34-52 | for widths 8/16/32/64, the field's low bits as two's complement, congruent to it; nothing otherwise |
| Disassembler.UnsignedImmediate | llvm/lib/Target/TriCore/Disassembler/TriCoreDisassembler.cpp:54-72 | Imm mod 2^w below 64 bits; at 64 bits the int64 with the same bit pattern; nothing for other widths |
| Disassembler.DecodeSImmOperand | llvm/lib/Target/TriCore/Disassembler/TriCoreDisassembler.cpp:34-52 | Success with exactly that immediate appended, or Fail with nothing appended |
| Disassembler.DecodeImmOperand | llvm/lib/Target/TriCore/Disassembler/TriCoreDisassembler.cpp:54-72 | Success with exactly that immediate appended, or Fail with nothing appended |
| Disassembler.SignedUnsignedAgree | llvm/lib/Target/TriCore/Disassembler/TriCoreDisassembler.cpp:34-72 | below 64 bits the two decodes are congruent and differ by 2^w exactly when the top bit is set; at 64 they are equal |
| Disassembler.Check | llvm/lib/Target/TriCore/Disassembler/TriCoreDisassembler.cpp:91 | decoding may go on unless the status is Fail; a non-Success status overwrites the result |
| Disassembler.GetInstruction | llvm/lib/Target/TriCore/Disassembler/TriCoreDisassembler.cpp:85-93 | every byte sequence at every address is rejected |
| McExpr.KindNumber | llvm/lib/Target/TriCore/MCTargetDesc/TriCoreMCExpr.h:19 | each variant kind's enumerator value is below 3 |
| McExpr.Create | llvm/lib/Target/TriCore/MCTargetDesc/TriCoreMCExpr.cpp:17-20 | create makes a target expression |
| McExpr.CreateRoundTrip | llvm/lib/Target/TriCore/MCTargetDesc/TriCoreMCExpr.h:33-36 | getKind and getSubExpr give back what create stored |
| McExpr.Unwrap | llvm/lib/Target/TriCore/MCTargetDesc/TriCoreMCExpr.cpp:22-43 | reading a hi(...)/lo(...) wrapper off text gives a kind and the text inside |
| McExpr.PrintUnwraps | llvm/lib/Target/TriCore/MCTargetDesc/TriCoreMCExpr.cpp:22-43 | a hi or lo expression prints so that its kind and its subexpression's text come back; KindNone prints as its subexpression |
| McExpr.HiLoPrintDiffer | llvm/lib/Target/TriCore/MCTargetDesc/TriCoreMCExpr.cpp:28-37 | a hi and a lo of the same expression never print alike |
| McExpr.EvaluateStep | llvm/lib/Target/TriCore/MCTargetDesc/TriCoreMCExpr.cpp:49-59 | fails exactly when the subexpression fails; otherwise keeps both symbols and the constant and takes this kind |
| McExpr.EvaluateThroughWrappers | llvm/lib/Target/TriCore/MCTargetDesc/TriCoreMCExpr.cpp:49-59 | through any nesting, evaluation follows the innermost expression, with the outermost kind |
| AluCode.GetAluOp | llvm/lib/Target/TriCore/TriCoreAluCode.h:27-30 | the result is below 64 and is the code modulo 64 |
| AluCode.GetAluOpIdempotent | llvm/lib/Target/TriCore/TriCoreAluCode.h:27-30 | masking twice is masking once; codes below 64 are their own operation |
| AluCode.UnknownIsNotAnOperation | llvm/lib/Target/TriCore/TriCoreAluCode.h:24-30 | no masked code equals UNKNOWN |
| AluCode.StringToAluCode | llvm/lib/Target/TriCore/TriCoreAluCode.h:39-42 | every string gives UNKNOWN |
| AluCode.IsdToAluCode | llvm/lib/Target/TriCore/TriCoreAluCode.h:44-49 | every node type gives UNKNOWN |
| LldTarget.GetRelExpr | lld/ELF/Arch/TriCore.cpp:38-50 | PC-relative exactly for the five PCP types, absolute otherwise |
| LldTarget.RelExprIgnoresSymbolAndLocation | lld/ELF/Arch/TriCore.cpp:38-50 | the answer depends on the type alone |
| LldTarget.TriCoreTarget.constructor | lld/ELF/Arch/TriCore.cpp:33-36 | the trap instruction is four 0x43 bytes |
| LldTarget.TriCoreTarget.Relocate | lld/ELF/Arch/TriCore.cpp:52 | the output bytes are unchanged |
| LldTarget.TargetInfoSlot.GetTriCoreTargetInfo | lld/ELF/Arch/TriCore.cpp:54-57 | the first call constructs the target; every later call returns the same object |
| LldTarget.GetTwice | lld/ELF/Arch/TriCore.cpp:54-57 | two calls return the same object |

## Left out

- Debug output (`outs()`, `std::cout`, `printRegRecord`) at `llvm/lib/Target/TriCore/TriCoreISelLowering.cpp:96`, the parameter dumps of `LowerFormalArguments` and `LowerShifts`, and `llvm/lib/Target/TriCore/TriCoreRegisterInfo.cpp:76`: I/O with no effect on the results.
- The generated calling convention (`CC_TriCore`, `RetCC_TriCore`) and `CCState`: the locations they propose are inputs.
- The IR type queries of the hook (`isRegValPtrType`, `isRegValid64Type`): a parameter's type is an input (`ArgLowering.ParamType`).
- The SelectionDAG and MachineFunction frameworks: chains, glue, virtual-register creation, live-ins, CopyFromReg/CopyToReg nodes, loads, stores, CALLSEQ and CALL nodes, and `DebugLoc`. Only which value goes to which register or slot is modelled.
- `CanLowerReturn` (`llvm/lib/Target/TriCore/TriCoreISelLowering.cpp:612-624`): a query of the generated convention, which is not part of this model.
- What the target nodes and instructions compute (CMP, LOGICCMP, SH, SHA, SELECT_CC, ADDX/ADDC and the others). They are defined in instruction descriptions that are not part of this model. Where a lemma needs a meaning, the reading it assumes is written next to it.
- DagLowering.LowerMulHigh: the contract gives the node shape; what it evaluates to is stated separately, under an assumed reading of MUL and SRL, by `DagLowering.MulHighShiftsOutEverything`.
- DagLowering.LowerSetCCMeaning: stated for 32-bit EQ/NE and signed predicates, and excludes a folded constant of INT32_MAX, where C+1 wraps; the unsigned predicates get signed codes and are not claimed to compare correctly.
- ArgLowering.LowerFormalArguments: with more locations than IR parameters the source advances its argument iterator past the last parameter and dereferences it; the model reports `ArgumentPastLastParameter` there instead.
- DagLowering.EmitCmpSignedMeaning: stated for 32-bit EQ/NE and signed predicates, and excludes a folded constant of INT32_MAX, where C+1 wraps; unsigned predicates get signed codes and the 64-bit chain would need an assumed LOGICCMP semantics.
- Register and opcode enumerations are generated and not shown. The numbering above is assumed, and only the opcodes the code mentions are named.
- AsmBackend: `FirstTargetFixupKind` is LLVM's 128 (the header defining it is not part of this model). The generic fixup kinds' table is answered by `GenericKindInfo` without its contents.
- `createObjectTargetWriter` and the ELF object writer: they only forward to the framework.
- Disassembler.Check: the generated `Check` helper is not shown; the model uses LLVM's usual definition.
- `tricoreAluCodeToString`: every path is `llvm_unreachable`, so no input returns; it has no model.
- `visitUsedExpr`, `findAssociatedFragment` and `fixELFSymbolsInTLSFixups` of the MC expression: they forward to the framework or do nothing.
- McExpr: expressions other than the target's own are leaves carrying their printed text and their evaluation.
- LldTarget: ELF relocation numbers are not part of this model; the five PCP types are constructors, every other type is `OtherRelType`. Symbols are opaque ids. The thread-safe initialisation of the function-local static is not modelled.
- RegisterInfo.EliminateFrameIndex: the frame object's offset and whether the function has a frame pointer are parameters; the register scavenger argument is unused by the source. Negating INT32_MIN, undefined in C++, is modelled as a 32-bit wrap.
- InstrInfo.CopyPhysReg: register pairs outside the data and address classes reach `llvm_unreachable` and are excluded by its precondition.
- Variadic functions and calls: the source asserts or reports them as unsupported; `LowerReturn` models the report as a `Failure`, the others are not inputs.
- CallConvHook.ConventionHook.Bump: the copy of the hook that `operator++(int)` returns is never used by the source and is not modelled.

## Findings

| source | as written | input that shows it | evidently intended | confidence | as-written member | corrected member |
|---|---|---|---|---|---|---|
| llvm/lib/Target/TriCore/TriCoreISelLowering.cpp:492-500 | `LowerCall` calls `init()`, which empties the log, before reading `regRecord[curArg]` for the callee's leading arguments. That read is undefined behaviour; `clear()` keeps the vector's storage, so a release build most likely reads the stale entry. The model returns `Failure(ReadPastEndOfLog)` for it | a recursive `int f(int n)` calling itself: one entry is logged for `f`, so the read is past the end of the emptied log | read the recorded registers before resetting the hook | not executed; high | ArgLowering.LowerCallArgsAsWritten (with ArgLowering.RecursiveCallReadsEmptiedLog) | ArgLowering.LowerCallArgs (with ArgLowering.CallReusesDefinitionRegisters) |
| llvm/lib/Target/TriCore/TriCoreISelLowering.cpp:586-596 | `LowerCallResult` forces A2 when the calling function returns a pointer | `int *h()` calling `int g()`: `g` returns in D2, the call site reads A2 | test the callee's return type, as `LowerReturn` does for the callee | not executed; high | ArgLowering.LowerCallResultAsWritten (with ArgLowering.PointerCallerReadsWrongRegister) | ArgLowering.LowerCallResult (with ArgLowering.CallResultMatchesReturn) |
| llvm/lib/Target/TriCore/TriCoreISelLowering.cpp:788-801 | the UGE/ULE path that folds a constant leaves `tricoreCC` unset | unsigned `5 >= x`: SETUGE with the constant 5 on the left | set `tricoreCC` to COND_NE, as every other path does | not executed; high | DagLowering.EmitCmpAsWritten, used by DagLowering.LowerBrCC and DagLowering.LowerSelectCC (with DagLowering.UnsignedFoldLeavesConditionUnset) | DagLowering.EmitCmp, used by DagLowering.LowerBrCCCorrected and DagLowering.LowerSelectCCCorrected |
| llvm/lib/Target/TriCore/TriCoreISelLowering.cpp:939-943 | `LowerSETCC` builds a SELECT_CC whose two values are the comparands | `x > 5` with x = 7 yields 7 instead of 1 | select the constants 1 and 0 | not executed; medium (relies on the assumed SELECT_CC reading) | DagLowering.LowerSetCCAsWritten (with DagLowering.SetCCYieldsComparand) | DagLowering.LowerSetCC (with DagLowering.LowerSetCCMeaning) |
