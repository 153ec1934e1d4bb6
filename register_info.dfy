/**
 * Register information (TriCoreRegisterInfo): the reserved registers, the
 * (empty) callee-saved list, the frame register, and the elimination of
 * frame-index operands after frame layout.
 *
 * A frame object's offset is the int64_t the frame information answers for
 * it; it is a parameter here, as is whether the function keeps a frame
 * pointer. The source reads it into an `int`, so it is truncated to 32 bits
 * first.
 */
module RegisterInfo {
  import opened Wrappers
  import opened Bits
  import opened Registers
  import opened InstrInfo

  /** requiresRegisterScavenging, trackLivenessAfterRegAlloc and useFPForScavengingIndex. */
  const RequiresRegisterScavenging: bool := true
  const TrackLivenessAfterRegAlloc: bool := true
  const UseFPForScavengingIndex: bool := false

  /** The registers getReservedRegs marks. */
  predicate IsReserved(r: Reg)
  {
    r == PC || r == PCXI || r == A(10) || r == A(11) || r == PSW || r == FCX
  }

  /** getReservedRegs: a bit per register, all clear, then the six reserved ones set. */
  method GetReservedRegs() returns (reserved: seq<bool>)
    ensures |reserved| == NumRegs
    ensures forall r :: 0 <= r < NumRegs ==> (reserved[r] <==> IsReserved(r))
  {
    reserved := seq(NumRegs, _ => false);
    reserved := reserved[PC := true];
    reserved := reserved[PCXI := true];
    reserved := reserved[A(10) := true];
    reserved := reserved[A(11) := true];
    reserved := reserved[PSW := true];
    reserved := reserved[FCX := true];
  }

  /** The register that addresses the frame: A14 when the function keeps a frame pointer, else the stack pointer A10. */
  function FrameRegister(hasFP: bool): (r: Reg)
    ensures r == A(14) || r == A(10)
    ensures r == A(14) <==> hasFP
  {
    if hasFP then A(14) else A(10)
  }

  /**
   * Of the frame registers only the stack pointer is reserved: the frame
   * pointer A(14) stays allocatable. No data register and no extended pair is
   * reserved, and only A10 and A11 among the address registers.
   */
  lemma ReservedRegsClassified(r: Reg)
    ensures IsReserved(FrameRegister(false)) && !IsReserved(FrameRegister(true))
    ensures IsDataReg(r) || IsExtReg(r) ==> !IsReserved(r)
    ensures IsAddrReg(r) && IsReserved(r) ==> r == A(10) || r == A(11)
  {
  }

  /** getCalleeSavedRegs' table: a list ended by NoRegister. */
  const CalleeSavedTable: seq<Reg> := [NoRegister]

  /** The registers a NoRegister-terminated list names. */
  function UpToTerminator(list: seq<Reg>): (regs: seq<Reg>)
    ensures |regs| <= |list| && regs == list[..|regs|]
    ensures NoRegister !in regs
    ensures |regs| < |list| ==> list[|regs|] == NoRegister
  {
    if |list| == 0 || list[0] == NoRegister then []
    else [list[0]] + UpToTerminator(list[1..])
  }

  /** The function saves no register on behalf of its callers. */
  lemma NoCalleeSavedRegs()
    ensures UpToTerminator(CalleeSavedTable) == []
  {
  }

  /** The operand a frame index becomes: the base register, used, no flags. */
  function BaseOperand(hasFP: bool): MOperand
  {
    RegOp(FrameRegister(hasFP), false, false, false)
  }

  /**
   * The immediate of the ADDrc that eliminateFrameIndex adds after an ADDrc
   * with a frame index, or None when the offset is zero. The offset is
   * negated into an int (wrapping at INT32_MIN), then a negative result is
   * used as it is and a positive one negated again.
   */
  function AddrcOffsetImm(objectOffset: int): (imm: Option<int>)
    ensures imm.None? <==> Int32(objectOffset) == 0
  {
    var offset := Int32(-Int32(objectOffset));
    if offset == 0 then None
    else if offset < 0 then Some(offset)
    else Some(-offset)
  }

  /** The rewritten instruction and the instruction inserted after it, if any. */
  datatype Elimination = Elimination(rewritten: MInstr, added: Option<MInstr>)

  /** Well-formed input to eliminateFrameIndex: what each of its two paths reads. */
  predicate FrameIndexUse(mi: MInstr, fiOperand: nat)
  {
    fiOperand < |mi.ops| && mi.ops[fiOperand].FrameIndexOp? &&
    (mi.opcode == ADDrc ==> mi.ops[0].RegOp?) &&
    (mi.opcode != ADDrc ==> fiOperand + 1 < |mi.ops| && mi.ops[fiOperand + 1].ImmOp?)
  }

  /**
   * eliminateFrameIndex on one instruction. An ADDrc becomes a MOV_Drr from
   * the base register, followed by `ADDrc dst, dst, imm` unless the offset is
   * zero; any other instruction gets the base register in place of the frame
   * index and the object offset in the next operand.
   */
  function EliminateFrameIndexIn(mi: MInstr, fiOperand: nat, objectOffset: int, hasFP: bool): (r: Elimination)
    requires FrameIndexUse(mi, fiOperand)
    ensures |r.rewritten.ops| == |mi.ops|
  {
    if mi.opcode == ADDrc then
      var moved := MInstr(MOV_Drr, mi.ops[fiOperand := BaseOperand(hasFP)]);
      var dst := mi.ops[0].reg;
      match AddrcOffsetImm(objectOffset)
      case None => Elimination(moved, None)
      case Some(imm) => Elimination(moved, Some(MInstr(ADDrc, [DefReg(dst, false), UseReg(dst, false), ImmOp(imm)])))
    else
      Elimination(MInstr(mi.opcode, mi.ops[fiOperand := BaseOperand(hasFP)][fiOperand + 1 := ImmOp(Int32(objectOffset))]), None)
  }

  /**
   * Both paths put the frame register in place of the frame index. The
   * ADDrc path turns the instruction into a MOV_Drr and keeps every other
   * operand; it adds an instruction exactly when the offset is not zero, and
   * that instruction adds minus the offset's magnitude to the destination.
   * Any other instruction keeps its opcode, takes the offset unchanged in the
   * next operand, and nothing is added.
   */
  lemma FrameIndexElimination(mi: MInstr, fiOperand: nat, objectOffset: int, hasFP: bool)
    requires FrameIndexUse(mi, fiOperand)
    ensures var r := EliminateFrameIndexIn(mi, fiOperand, objectOffset, hasFP);
            var off := Int32(objectOffset);
            r.rewritten.ops[fiOperand] == RegOp(FrameRegister(hasFP), false, false, false) &&
            (mi.opcode == ADDrc ==>
               r.rewritten.opcode == MOV_Drr &&
               (forall j :: 0 <= j < |mi.ops| && j != fiOperand ==> r.rewritten.ops[j] == mi.ops[j]) &&
               (r.added.Some? <==> off != 0) &&
               (r.added.Some? ==> r.added.value == MInstr(ADDrc, [DefReg(mi.ops[0].reg, false), UseReg(mi.ops[0].reg, false), ImmOp(-Abs(off))]))) &&
            (mi.opcode != ADDrc ==>
               r.rewritten.opcode == mi.opcode && r.added.None? &&
               r.rewritten.ops[fiOperand + 1] == ImmOp(off) &&
               (forall j :: 0 <= j < |mi.ops| && j != fiOperand && j != fiOperand + 1 ==> r.rewritten.ops[j] == mi.ops[j]))
  {
    var off := Int32(objectOffset);
    if mi.opcode == ADDrc && off != 0 {
      var imm := AddrcOffsetImm(objectOffset);
      if off == -Half(32) {
        assert Int32(-off) == -Half(32);
      } else {
        assert Int32(-off) == -off;
      }
      assert imm == Some(-Abs(off));
    }
  }

  function Abs(x: int): (r: int)
    ensures r >= 0 && (r == x || r == -x)
  {
    if x < 0 then -x else x
  }

  /**
   * The two paths disagree on objects above the frame register: for a
   * positive offset the ADDrc path computes base - offset while a memory
   * access gets base + offset. For a negative offset they agree.
   */
  lemma AddrcPathNegatesPositiveOffsets(mi: MInstr, other: MInstr, fiOperand: nat, objectOffset: int, hasFP: bool)
    requires FrameIndexUse(mi, fiOperand) && mi.opcode == ADDrc
    requires FrameIndexUse(other, fiOperand) && other.opcode != ADDrc
    requires IsInt32(objectOffset) && objectOffset != 0
    ensures var added := EliminateFrameIndexIn(mi, fiOperand, objectOffset, hasFP).added;
            var access := EliminateFrameIndexIn(other, fiOperand, objectOffset, hasFP).rewritten;
            added.Some? && access.ops[fiOperand + 1].ImmOp? &&
            (objectOffset > 0 ==> added.value.ops[2].imm == -access.ops[fiOperand + 1].imm) &&
            (objectOffset < 0 ==> added.value.ops[2].imm == access.ops[fiOperand + 1].imm)
  {
    FrameIndexElimination(mi, fiOperand, objectOffset, hasFP);
    FrameIndexElimination(other, fiOperand, objectOffset, hasFP);
  }

  /**
   * eliminateFrameIndex: rewrites the instruction at `at` in place and, for
   * an ADDrc with a non-zero offset, inserts the offset addition right after
   * it. Answers whether it inserted an instruction.
   */
  method EliminateFrameIndex(mbb: MachineBlock, at: nat, spAdj: int, fiOperand: nat, objectOffset: int, hasFP: bool)
    returns (inserted: bool)
    requires spAdj == 0
    requires at < |mbb.instrs| && FrameIndexUse(mbb.instrs[at], fiOperand)
    modifies mbb
    ensures var r := EliminateFrameIndexIn(old(mbb.instrs[at]), fiOperand, objectOffset, hasFP);
            inserted == r.added.Some? &&
            mbb.instrs == old(mbb.instrs[..at]) + [r.rewritten] + (if inserted then [r.added.value] else []) + old(mbb.instrs[at + 1..])
  {
    var r := EliminateFrameIndexIn(mbb.instrs[at], fiOperand, objectOffset, hasFP);
    ghost var before := mbb.instrs;
    mbb.instrs := mbb.instrs[at := r.rewritten];
    assert mbb.instrs == before[..at] + [r.rewritten] + before[at + 1..];
    if r.added.None? {
      return false;
    }
    mbb.InsertBefore(at + 1, r.added.value);
    assert mbb.instrs[at + 1..][..1] == [r.added.value];
    inserted := true;
  }
}
