/**
 * Post-register-allocation pseudo expansion and physical register copies
 * (TriCoreInstrInfo).
 *
 * A machine instruction is an opcode and a list of operands; a register
 * operand carries the def / dead / kill flags the expansion copies around.
 * The opcode enumeration and the operand lists of the real instructions come
 * from the target description, which is not part of this model; only the
 * opcodes the expansion mentions are named, every other one is
 * `OtherOpcode`. The carry instructions (ADDX, ADDC, SUBX, SUBC) carry two
 * implicit PSW operands after their explicit ones; the expansion's use of
 * them fixes operand 3 as the PSW definition and operand 4 as the PSW use.
 */
module InstrInfo {
  import opened Wrappers
  import opened Bits
  import opened Registers

  datatype Opcode =
    // pseudos expanded after register allocation
    | NOTrr64 | ANDsrr64 | XORsrr64 | ORsrr64
    | XORrc64 | ANDrc64 | ORrc64 | ANDNrc64 | ORNrc64 | XORrcneg64
    | ADDi64 | SUBi64 | ADDi64C | MOVi32
    // real instructions they become
    | NOTsr | ANDsrr | XORsrr | ORsrr
    | ANDrc | XORrc | XNORrc | ORNrc | ANDNrc | ORrc | ADDrc
    | ADDXrr | ADDCrr | SUBXrr | SUBCrr | ADDXrc | ADDCrc
    | MOVrlc | MOVHrlc | ADDIrlc
    // register-to-register copies
    | MOVrr | MOV_AArr | MOV_Arr | MOV_Drr
    | OtherOpcode(id: nat)

  /** The MO_HI_OFFSET / MO_LO_OFFSET target flag OR-ed into a global operand, or neither. */
  datatype AddrHalf = WholeAddr | HiOffset | LoOffset

  datatype MOperand =
    | RegOp(reg: Reg, isDef: bool, isDead: bool, isKill: bool)
    | ImmOp(imm: int)
    | GlobalOp(global: nat, offset: int, targetFlags: int, half: AddrHalf)
    | FrameIndexOp(index: nat)

  datatype MInstr = MInstr(opcode: Opcode, ops: seq<MOperand>)

  /** `addReg(r, RegState::Define | getDeadRegState(dead))` */
  function DefReg(r: Reg, dead: bool): MOperand { RegOp(r, true, dead, false) }

  /** `addReg(r, getKillRegState(kill))` */
  function UseReg(r: Reg, kill: bool): MOperand { RegOp(r, false, false, kill) }

  predicate HasCarryOperands(op: Opcode)
  {
    op in {ADDXrr, ADDCrr, SUBXrr, SUBCrr, ADDXrc, ADDCrc}
  }

  /** BuildMI with the given explicit operands, followed by the implicit PSW def and use of a carry instruction. */
  function Build(op: Opcode, explicit: seq<MOperand>): (mi: MInstr)
    ensures |mi.ops| == |explicit| + (if HasCarryOperands(op) then 2 else 0)
    ensures mi.opcode == op && mi.ops[..|explicit|] == explicit
    ensures HasCarryOperands(op) ==> mi.ops[|explicit|] == DefReg(PSW, false) && mi.ops[|explicit| + 1] == UseReg(PSW, false)
  {
    if HasCarryOperands(op) then MInstr(op, explicit + [DefReg(PSW, false), UseReg(PSW, false)])
    else MInstr(op, explicit)
  }

  /** `MIB->getOperand(k).setIsKill()` */
  function SetKill(mi: MInstr, k: nat): MInstr
    requires k < |mi.ops| && mi.ops[k].RegOp?
  {
    mi.(ops := mi.ops[k := mi.ops[k].(isKill := true)])
  }

  /** `MIB->getOperand(k).setIsDead()` when `dead` holds. */
  function SetDeadIf(mi: MInstr, k: nat, dead: bool): MInstr
    requires k < |mi.ops| && mi.ops[k].RegOp?
  {
    if dead then mi.(ops := mi.ops[k := mi.ops[k].(isDead := true)]) else mi
  }

  // ---------------------------------------------------------------------
  // The pseudos and the operands they carry
  // ---------------------------------------------------------------------

  predicate IsPseudo(op: Opcode)
  {
    op in {NOTrr64, ANDsrr64, XORsrr64, ORsrr64, XORrc64, ANDrc64, ORrc64, ANDNrc64, ORNrc64, XORrcneg64,
           ADDi64, SUBi64, ADDi64C, MOVi32}
  }

  predicate IsSrr64(op: Opcode) { op in {ANDsrr64, XORsrr64, ORsrr64} }
  predicate IsRc64(op: Opcode) { op in {XORrc64, ANDrc64, ORrc64, ANDNrc64, ORNrc64, XORrcneg64} }

  predicate IsExtOperand(o: MOperand) { o.RegOp? && IsExtReg(o.reg) }
  predicate IsImm64(o: MOperand) { o.ImmOp? && IsInt64(o.imm) }

  /**
   * The operands each pseudo is defined with: 64-bit registers where the
   * expansion splits them, a 64-bit immediate, the implicit PSW operand of
   * the carry pseudos, a register and an immediate or global for MOVi32.
   */
  predicate Shaped(mi: MInstr)
  {
    var op, ops := mi.opcode, mi.ops;
    if op == NOTrr64 then
      |ops| >= 2 && IsExtOperand(ops[0]) && ops[1].RegOp?
    else if op in {ADDi64, SUBi64} then
      |ops| >= 4 && IsExtOperand(ops[0]) && IsExtOperand(ops[1]) && IsExtOperand(ops[2]) && ops[3].RegOp?
    else if op == ADDi64C then
      |ops| >= 4 && IsExtOperand(ops[0]) && IsExtOperand(ops[1]) && IsImm64(ops[2]) && ops[3].RegOp?
    else if op == MOVi32 then
      |ops| >= 2 && ops[0].RegOp? && (IsImm64(ops[1]) || ops[1].GlobalOp?)
    else if IsSrr64(op) then
      |ops| >= 3 && IsExtOperand(ops[0]) && IsExtOperand(ops[1]) && IsExtOperand(ops[2])
    else if IsRc64(op) then
      |ops| >= 3 && IsExtOperand(ops[0]) && IsExtOperand(ops[1]) && IsImm64(ops[2])
    else
      true
  }

  /** The 32-bit register-register operation a 64-bit one is done with. */
  function SrrOpcode(op: Opcode): Opcode
    requires IsSrr64(op)
  {
    if op == ANDsrr64 then ANDsrr else if op == XORsrr64 then XORsrr else ORsrr
  }

  /** The 32-bit register-constant operation a 64-bit one is done with. */
  function RcOpcode(op: Opcode): Opcode
    requires IsRc64(op)
  {
    if op == ANDrc64 then ANDrc
    else if op == XORrc64 then XORrc
    else if op == XORrcneg64 then XNORrc
    else if op == ORNrc64 then ORNrc
    else if op == ANDNrc64 then ANDNrc
    else ORrc
  }

  // ---------------------------------------------------------------------
  // The instructions each pseudo becomes
  // ---------------------------------------------------------------------

  /** splitRegs: the k-th (0 = even, low; 1 = odd, high) sub-register of a 64-bit register. */
  function HalfReg(r: Reg, k: nat): Reg
    requires IsExtReg(r) && k < 2
  {
    if k == 0 then EvenSub(r) else OddSub(r)
  }

  /** The k-th half of a 64-bit destination, defined, with its dead flag. */
  function HalfDef(o: MOperand, k: nat): MOperand
    requires IsExtOperand(o) && k < 2
  {
    DefReg(HalfReg(o.reg, k), o.isDead)
  }

  /** The k-th half of a 64-bit source, read, with its kill flag. */
  function HalfUse(o: MOperand, k: nat): MOperand
    requires IsExtOperand(o) && k < 2
  {
    UseReg(HalfReg(o.reg, k), o.isKill)
  }

  /** NOTrr64, half k: NOT of the destination's half in place, with the source's kill flag. */
  function NotHalf(k: nat, dst: MOperand, src: MOperand): MInstr
    requires IsExtOperand(dst) && src.RegOp? && k < 2
  {
    Build(NOTsr, [HalfDef(dst, k), UseReg(HalfReg(dst.reg, k), src.isKill)])
  }

  /** A register-register operation on the k-th halves of the three registers. */
  function RegRegHalf(op: Opcode, k: nat, ops: seq<MOperand>): (mi: MInstr)
    requires |ops| >= 3 && IsExtOperand(ops[0]) && IsExtOperand(ops[1]) && IsExtOperand(ops[2]) && k < 2
    ensures mi.opcode == op
    ensures HasCarryOperands(op) ==> |mi.ops| == 5 && mi.ops[3] == DefReg(PSW, false) && mi.ops[4] == UseReg(PSW, false)
  {
    Build(op, [HalfDef(ops[0], k), HalfUse(ops[1], k), HalfUse(ops[2], k)])
  }

  /** A register-constant operation on the k-th halves of the two registers. */
  function RegImmHalf(op: Opcode, k: nat, ops: seq<MOperand>, imm: int): (mi: MInstr)
    requires |ops| >= 2 && IsExtOperand(ops[0]) && IsExtOperand(ops[1]) && k < 2
    ensures mi.opcode == op
    ensures HasCarryOperands(op) ==> |mi.ops| == 5 && mi.ops[3] == DefReg(PSW, false) && mi.ops[4] == UseReg(PSW, false)
  {
    Build(op, [HalfDef(ops[0], k), HalfUse(ops[1], k), ImmOp(imm)])
  }

  /** The carry chain: the PSW use (operand 4) is killed, the PSW definition (operand 3) is dead when `dead` holds. */
  function ChainLink(mi: MInstr, dead: bool): (r: MInstr)
    requires |mi.ops| == 5 && mi.ops[3].RegOp? && mi.ops[4].RegOp?
    ensures r.opcode == mi.opcode && |r.ops| == 5 && r.ops[..3] == mi.ops[..3]
    ensures r.ops[3] == (if dead then mi.ops[3].(isDead := true) else mi.ops[3]) && r.ops[4] == mi.ops[4].(isKill := true)
  {
    SetKill(SetDeadIf(mi, 3, dead), 4)
  }

  /** NOTrr64 */
  function ExpandNot(mi: MInstr): seq<MInstr>
    requires mi.opcode == NOTrr64 && Shaped(mi)
  {
    [NotHalf(0, mi.ops[0], mi.ops[1]), NotHalf(1, mi.ops[0], mi.ops[1])]
  }

  /** ANDsrr64 / XORsrr64 / ORsrr64 and the six register-constant forms: the same operation on both halves. */
  function ExpandBitwise(mi: MInstr): seq<MInstr>
    requires (IsSrr64(mi.opcode) || IsRc64(mi.opcode)) && Shaped(mi)
  {
    if IsSrr64(mi.opcode) then
      var op := SrrOpcode(mi.opcode);
      [RegRegHalf(op, 0, mi.ops), RegRegHalf(op, 1, mi.ops)]
    else
      var op := RcOpcode(mi.opcode);
      [RegImmHalf(op, 0, mi.ops, LowWord(mi.ops[2].imm)), RegImmHalf(op, 1, mi.ops, HighWord(mi.ops[2].imm))]
  }

  /** ADDi64 / SUBi64 / ADDi64C: carry out of the low halves into the high halves. */
  function ExpandCarry(mi: MInstr): seq<MInstr>
    requires mi.opcode in {ADDi64, SUBi64, ADDi64C} && Shaped(mi)
  {
    var lo :=
      if mi.opcode == ADDi64 then RegRegHalf(ADDXrr, 0, mi.ops)
      else if mi.opcode == SUBi64 then RegRegHalf(SUBXrr, 0, mi.ops)
      else RegImmHalf(ADDXrc, 0, mi.ops, LowWord(mi.ops[2].imm));
    var hi :=
      if mi.opcode == ADDi64 then RegRegHalf(ADDCrr, 1, mi.ops)
      else if mi.opcode == SUBi64 then RegRegHalf(SUBCrr, 1, mi.ops)
      else RegImmHalf(ADDCrc, 1, mi.ops, HighWord(mi.ops[2].imm));
    [ChainLink(lo, false), ChainLink(hi, mi.ops[3].isDead)]
  }

  /** The low 16 bits of a MOVi32 immediate, sign-extended (ImmLo_ext64). */
  function MovImmLo(imm: int): (lo: int)
    ensures InSigned(16, lo) && Unsigned(16, lo) == imm % TWO_16
  {
    Signed(16, imm % TWO_16)
  }

  /**
   * The upper half MOVH loads (hiShift): the immediate minus its
   * sign-extended low half, shifted right by 16 on int64, with 65536 added
   * when negative.
   */
  function MovImmHigh(imm: int): int
  {
    var shifted := Signed(64, imm - MovImmLo(imm)) / TWO_16;
    if shifted < 0 then TWO_16 + shifted else shifted
  }

  /**
   * MOVi32 with an immediate: MOV of the low 16 bits alone, or MOVH of the
   * upper half plus an ADDI of the sign-extended low half when the low 16
   * bits are not zero.
   */
  function MovImmExpansion(dst: Reg, dead: bool, imm: int): (e: seq<MInstr>)
    ensures 1 <= |e| <= 2
    ensures |e[0].ops| == 2 && e[0].ops[0] == DefReg(dst, dead)
    ensures |e| == 2 ==> |e[1].ops| == 3 && e[1].ops[0] == DefReg(dst, dead)
  {
    var hi := MovImmHigh(imm);
    var lo16 := imm % TWO_16;
    if hi == 0 then
      [Build(MOVrlc, [DefReg(dst, dead), ImmOp(lo16)])]
    else if lo16 == 0 then
      [Build(MOVHrlc, [DefReg(dst, dead), ImmOp(hi)])]
    else
      [Build(MOVHrlc, [DefReg(dst, dead), ImmOp(hi)]), Build(ADDIrlc, [DefReg(dst, dead), UseReg(dst, false), ImmOp(MovImmLo(imm))])]
  }

  /** MOVi32 with a global: MOVH of its high part, then ADDI of its low part. */
  function MovSymbolExpansion(dst: Reg, dead: bool, g: MOperand): (e: seq<MInstr>)
    requires g.GlobalOp?
    ensures |e| == 2 && |e[0].ops| == 2 && |e[1].ops| == 3
    ensures e[0].ops[0] == DefReg(dst, dead) && e[1].ops[0] == DefReg(dst, dead)
  {
    [ Build(MOVHrlc, [DefReg(dst, dead), g.(half := HiOffset)]),
      Build(ADDIrlc, [DefReg(dst, dead), UseReg(dst, false), g.(half := LoOffset)]) ]
  }

  /** MOVi32 */
  function ExpandMov(mi: MInstr): (e: seq<MInstr>)
    requires mi.opcode == MOVi32 && Shaped(mi)
    ensures 1 <= |e| <= 2
    ensures |e[0].ops| == 2 && e[0].ops[0] == DefReg(mi.ops[0].reg, mi.ops[0].isDead)
    ensures |e| == 2 ==> |e[1].ops| == 3 && e[1].ops[0] == DefReg(mi.ops[0].reg, mi.ops[0].isDead)
  {
    if mi.ops[1].ImmOp? then MovImmExpansion(mi.ops[0].reg, mi.ops[0].isDead, mi.ops[1].imm)
    else MovSymbolExpansion(mi.ops[0].reg, mi.ops[0].isDead, mi.ops[1])
  }

  /** What expandPostRAPseudo puts in place of an instruction, or None when it does not handle the opcode. */
  function Expansion(mi: MInstr): (e: Option<seq<MInstr>>)
    requires Shaped(mi)
    ensures e.Some? <==> IsPseudo(mi.opcode)
    ensures e.Some? ==> 1 <= |e.value| <= 2
  {
    var op := mi.opcode;
    if op == NOTrr64 then Some(ExpandNot(mi))
    else if op in {ADDi64, SUBi64, ADDi64C} then Some(ExpandCarry(mi))
    else if op == MOVi32 then Some(ExpandMov(mi))
    else if IsSrr64(op) || IsRc64(op) then Some(ExpandBitwise(mi))
    else None
  }

  // ---------------------------------------------------------------------
  // The block the expansion edits
  // ---------------------------------------------------------------------

  /** A machine basic block: its instruction list, edited in place. */
  class MachineBlock {
    var instrs: seq<MInstr>

    constructor (initial: seq<MInstr>)
      ensures instrs == initial
    {
      instrs := initial;
    }

    /** BuildMI(MBB, I, ...): insert before position `pos`. */
    method InsertBefore(pos: nat, mi: MInstr)
      requires pos <= |instrs|
      modifies this
      ensures instrs == old(instrs[..pos]) + [mi] + old(instrs[pos..])
    {
      instrs := instrs[..pos] + [mi] + instrs[pos..];
    }

    /** MBB.erase(MI) */
    method Erase(pos: nat)
      requires pos < |instrs|
      modifies this
      ensures instrs == old(instrs[..pos]) + old(instrs[pos + 1..])
    {
      instrs := instrs[..pos] + instrs[pos + 1..];
    }

    /** One or two BuildMI calls before the instruction at `at`, then the erase of that instruction. */
    method ReplaceWith(at: nat, news: seq<MInstr>)
      requires at < |instrs| && 1 <= |news| <= 2
      modifies this
      ensures instrs == old(instrs[..at]) + news + old(instrs[at + 1..])
    {
      ghost var before := instrs;
      InsertBefore(at, news[0]);
      if |news| == 2 {
        InsertBefore(at + 1, news[1]);
      }
      assert instrs == before[..at] + news + before[at..];
      Erase(at + |news|);
      assert instrs[..at + |news|] == before[..at] + news;
    }
  }

  /**
   * expandPostRAPseudo on the instruction at `at`: a handled pseudo is
   * replaced by its expansion and answers true; any other instruction
   * leaves the block as it was and answers false.
   */
  method ExpandPostRAPseudo(mbb: MachineBlock, at: nat) returns (expanded: bool)
    requires at < |mbb.instrs| && Shaped(mbb.instrs[at])
    modifies mbb
    ensures var e := Expansion(old(mbb.instrs[at]));
            expanded == e.Some? &&
            mbb.instrs == (if e.Some? then old(mbb.instrs[..at]) + e.value + old(mbb.instrs[at + 1..]) else old(mbb.instrs))
  {
    var e := Expansion(mbb.instrs[at]);
    if e.None? {
      return false;
    }
    mbb.ReplaceWith(at, e.value);
    return true;
  }

  // ---------------------------------------------------------------------
  // What the expansion promises
  // ---------------------------------------------------------------------

  /** `half` is the k-th (0 = even, low; 1 = odd, high) data register of the 64-bit register `whole`. */
  predicate HalfOf(half: Reg, whole: Reg, k: nat)
  {
    IsExtReg(whole) && IsDataReg(half) && PairOf(half) == whole && (half - D(0)) % 2 == k
  }

  /** splitRegs yields the even then the odd data register of the pair. */
  lemma HalfRegSplits(r: Reg, k: nat)
    requires IsExtReg(r) && k < 2
    ensures HalfOf(HalfReg(r, k), r, k)
  {
    SplitRegsRoundTrip(r, r);
  }

  /**
   * NOTrr64 becomes two NOTs, low half then high half; each defines and
   * reads the same half of the destination with the destination's dead
   * flag and the source's kill flag; the source's register plays no part.
   */
  lemma NotExpansionHalves(mi: MInstr, k: nat)
    requires mi.opcode == NOTrr64 && Shaped(mi) && k < 2
    ensures var e := ExpandNot(mi);
            |e| == 2 && e[k].opcode == NOTsr && |e[k].ops| == 2 &&
            e[k].ops[0].isDef && e[k].ops[0].isDead == mi.ops[0].isDead &&
            !e[k].ops[1].isDef && e[k].ops[1].isKill == mi.ops[1].isKill &&
            e[k].ops[0].reg == e[k].ops[1].reg && HalfOf(e[k].ops[0].reg, mi.ops[0].reg, k)
    ensures forall r: Reg :: var mi' := mi.(ops := mi.ops[1 := mi.ops[1].(reg := r)]);
              Shaped(mi') && ExpandNot(mi') == ExpandNot(mi)
  {
    HalfRegSplits(mi.ops[0].reg, k);
  }

  /** A register-register half: the k-th halves of all three registers, the dead flag of the destination, the kill flags of the sources. */
  lemma RegRegHalfOperands(op: Opcode, k: nat, ops: seq<MOperand>)
    requires |ops| >= 3 && IsExtOperand(ops[0]) && IsExtOperand(ops[1]) && IsExtOperand(ops[2]) && k < 2
    ensures var mi := RegRegHalf(op, k, ops);
            mi.opcode == op && |mi.ops| >= 3 &&
            mi.ops[0].isDef && mi.ops[0].isDead == ops[0].isDead &&
            (forall j :: 0 <= j < 3 ==> mi.ops[j].RegOp? && HalfOf(mi.ops[j].reg, ops[j].reg, k)) &&
            (forall j :: 1 <= j < 3 ==> !mi.ops[j].isDef && mi.ops[j].isKill == ops[j].isKill)
  {
    HalfRegSplits(ops[0].reg, k);
    HalfRegSplits(ops[1].reg, k);
    HalfRegSplits(ops[2].reg, k);
  }

  /** A register-constant half: the k-th halves of both registers and the given constant. */
  lemma RegImmHalfOperands(op: Opcode, k: nat, ops: seq<MOperand>, imm: int)
    requires |ops| >= 2 && IsExtOperand(ops[0]) && IsExtOperand(ops[1]) && k < 2
    ensures var mi := RegImmHalf(op, k, ops, imm);
            mi.opcode == op && |mi.ops| >= 3 &&
            mi.ops[0].isDef && mi.ops[0].isDead == ops[0].isDead &&
            (forall j :: 0 <= j < 2 ==> mi.ops[j].RegOp? && HalfOf(mi.ops[j].reg, ops[j].reg, k)) &&
            !mi.ops[1].isDef && mi.ops[1].isKill == ops[1].isKill && mi.ops[2] == ImmOp(imm)
  {
    HalfRegSplits(ops[0].reg, k);
    HalfRegSplits(ops[1].reg, k);
  }

  /**
   * AND / XOR / OR on 64-bit registers and constants become the same
   * 32-bit operation on both halves, low half first: ANDsrr64, XORsrr64,
   * ORsrr64 to ANDsrr, XORsrr, ORsrr; ANDrc64, XORrc64, XORrcneg64,
   * ORNrc64, ANDNrc64, ORrc64 to ANDrc, XORrc, XNORrc, ORNrc, ANDNrc, ORrc,
   * and distinct pseudos to distinct operations. Each half works on the
   * matching halves of the registers; a constant is split into its low and
   * high words, which give it back.
   */
  lemma BitwiseExpansion(mi: MInstr, other: Opcode)
    requires Shaped(mi) && (IsSrr64(mi.opcode) || IsRc64(mi.opcode))
    ensures var e := ExpandBitwise(mi);
            |e| == 2 && e[0].opcode == e[1].opcode &&
            (mi.opcode == ANDsrr64 <==> e[0].opcode == ANDsrr) &&
            (mi.opcode == XORsrr64 <==> e[0].opcode == XORsrr) &&
            (mi.opcode == ORsrr64 <==> e[0].opcode == ORsrr) &&
            (mi.opcode == ANDrc64 <==> e[0].opcode == ANDrc) &&
            (mi.opcode == XORrc64 <==> e[0].opcode == XORrc) &&
            (mi.opcode == XORrcneg64 <==> e[0].opcode == XNORrc) &&
            (mi.opcode == ORNrc64 <==> e[0].opcode == ORNrc) &&
            (mi.opcode == ANDNrc64 <==> e[0].opcode == ANDNrc) &&
            (mi.opcode == ORrc64 <==> e[0].opcode == ORrc)
    ensures var e := ExpandBitwise(mi);
            IsSrr64(mi.opcode) ==> e == [RegRegHalf(e[0].opcode, 0, mi.ops), RegRegHalf(e[0].opcode, 1, mi.ops)]
    ensures var e := ExpandBitwise(mi);
            IsRc64(mi.opcode) ==>
              e == [RegImmHalf(e[0].opcode, 0, mi.ops, LowWord(mi.ops[2].imm)), RegImmHalf(e[0].opcode, 1, mi.ops, HighWord(mi.ops[2].imm))] &&
              HighWord(mi.ops[2].imm) * TWO_32 + Unsigned(32, LowWord(mi.ops[2].imm)) == mi.ops[2].imm
    ensures IsRc64(mi.opcode) && IsRc64(other) && other != mi.opcode ==> RcOpcode(other) != RcOpcode(mi.opcode)
    ensures IsSrr64(mi.opcode) && IsSrr64(other) && other != mi.opcode ==> SrrOpcode(other) != SrrOpcode(mi.opcode)
  {
    if IsRc64(mi.opcode) {
      WordsRecombine(mi.ops[2].imm);
    }
  }

  /**
   * ADDi64 / SUBi64 / ADDi64C become an extended (carry-out) operation on
   * the low halves and a carry-in one on the high halves. Both kill their
   * PSW use; the low half's PSW definition is left live and the high
   * half's is dead exactly when the pseudo's was.
   */
  lemma CarryChainFlags(mi: MInstr)
    requires Shaped(mi) && mi.opcode in {ADDi64, SUBi64, ADDi64C}
    ensures var e := ExpandCarry(mi);
            |e| == 2 &&
            (e[0].opcode, e[1].opcode) ==
              (if mi.opcode == ADDi64 then (ADDXrr, ADDCrr) else if mi.opcode == SUBi64 then (SUBXrr, SUBCrr) else (ADDXrc, ADDCrc)) &&
            |e[0].ops| == 5 && |e[1].ops| == 5 &&
            e[0].ops[3] == DefReg(PSW, false) && e[0].ops[4] == RegOp(PSW, false, false, true) &&
            e[1].ops[3] == DefReg(PSW, mi.ops[3].isDead) && e[1].ops[4] == RegOp(PSW, false, false, true)
  {
  }

  /**
   * The explicit operands of the carry chain are those of the halves: the
   * register halves of ADDi64 / SUBi64, the register halves and the low and
   * high words of ADDi64C's constant, which give it back.
   */
  lemma CarryChainOperands(mi: MInstr, k: nat)
    requires Shaped(mi) && mi.opcode in {ADDi64, SUBi64, ADDi64C} && k < 2
    ensures var e := ExpandCarry(mi);
            |e| == 2 && |e[k].ops| == 5 &&
            (mi.opcode != ADDi64C ==> e[k].ops[..3] == RegRegHalf(e[k].opcode, k, mi.ops).ops[..3]) &&
            (mi.opcode == ADDi64C ==>
               e[k].ops[..3] == RegImmHalf(e[k].opcode, k, mi.ops, if k == 0 then LowWord(mi.ops[2].imm) else HighWord(mi.ops[2].imm)).ops[..3] &&
               HighWord(mi.ops[2].imm) * TWO_32 + Unsigned(32, LowWord(mi.ops[2].imm)) == mi.ops[2].imm)
  {
    if mi.opcode == ADDi64C {
      WordsRecombine(mi.ops[2].imm);
    }
  }

  /**
   * The MOVi32 split of a 32-bit immediate: the upper half is a 16-bit
   * unsigned value, the lower half a 16-bit signed one, and MOVH of the
   * upper half plus the lower half gives the immediate back modulo 2^32;
   * the upper half is 0 exactly for immediates a sign-extended 16-bit MOV
   * covers.
   */
  lemma MovImmSplit(imm: int)
    requires IsInt32(imm)
    ensures 0 <= MovImmHigh(imm) < TWO_16 && InSigned(16, MovImmLo(imm))
    ensures (MovImmHigh(imm) * TWO_16 + MovImmLo(imm)) % TWO_32 == imm % TWO_32
    ensures MovImmHigh(imm) == 0 <==> InSigned(16, imm)
  {
    var lo := MovImmLo(imm);
    var d := imm - lo;
    assert d % TWO_16 == 0 by {
      assert Unsigned(16, lo) == imm % TWO_16;
      ModDifference(imm, lo);
    }
    assert IsInt64(d);
    var q := d / TWO_16;
    assert d == q * TWO_16;
    assert -32768 <= q <= 32768;
    if q < 0 {
      assert MovImmHigh(imm) * TWO_16 + lo == imm + TWO_32;
    } else {
      assert MovImmHigh(imm) * TWO_16 + lo == imm;
    }
    if InSigned(16, imm) {
      assert lo == imm;
    }
  }

  /** Two integers with the same residue modulo 2^16 differ by a multiple of 2^16. */
  lemma ModDifference(a: int, b: int)
    requires a % TWO_16 == b % TWO_16
    ensures (a - b) % TWO_16 == 0
  {
    var qa, qb := a / TWO_16, b / TWO_16;
    assert a == qa * TWO_16 + a % TWO_16;
    assert b == qb * TWO_16 + b % TWO_16;
    assert a - b == (qa - qb) * TWO_16;
  }

  /**
   * MOVi32 with an immediate emits MOV of the low 16 bits exactly when the
   * upper half is 0, MOVH of the upper half otherwise, and an ADDI of the
   * sign-extended low half after the MOVH exactly when the low 16 bits are
   * not all zero.
   */
  lemma MovImmShape(mi: MInstr)
    requires Shaped(mi) && mi.opcode == MOVi32 && mi.ops[1].ImmOp?
    ensures var e := MovImmExpansion(mi.ops[0].reg, mi.ops[0].isDead, mi.ops[1].imm);
            var imm := mi.ops[1].imm;
            var hi := MovImmHigh(imm);
            (e[0].opcode == MOVrlc <==> hi == 0) &&
            (hi == 0 ==> e == [Build(MOVrlc, [DefReg(mi.ops[0].reg, mi.ops[0].isDead), ImmOp(imm % TWO_16)])]) &&
            (hi != 0 ==> e[0] == Build(MOVHrlc, [DefReg(mi.ops[0].reg, mi.ops[0].isDead), ImmOp(hi)])) &&
            (|e| == 2 <==> hi != 0 && imm % TWO_16 != 0) &&
            (|e| == 2 ==> e[1].opcode == ADDIrlc && e[1].ops[1] == UseReg(mi.ops[0].reg, false) && e[1].ops[2] == ImmOp(MovImmLo(imm)))
  {
  }

  /**
   * MOVi32 with a global: MOVH of the global with the high-part flag, then
   * ADDI of the destination to itself with the low-part flag, both keeping
   * the global's offset and target flags.
   */
  lemma MovSymbolShape(mi: MInstr)
    requires Shaped(mi) && mi.opcode == MOVi32 && mi.ops[1].GlobalOp?
    ensures var e := MovSymbolExpansion(mi.ops[0].reg, mi.ops[0].isDead, mi.ops[1]);
            var g := mi.ops[1];
            |e| == 2 && e[0].opcode == MOVHrlc && e[1].opcode == ADDIrlc &&
            e[0].ops[1] == g.(half := HiOffset) && e[1].ops[2] == g.(half := LoOffset) &&
            e[1].ops[1] == UseReg(mi.ops[0].reg, false)
  {
  }

  // ---------------------------------------------------------------------
  // copyPhysReg
  // ---------------------------------------------------------------------

  /** The register pairs copyPhysReg handles: data and address registers in any combination. */
  predicate CopyableReg(r: Reg) { IsDataReg(r) || IsAddrReg(r) }

  /** The move copyPhysReg picks for a destination and source register. */
  function CopyOpcode(dest: Reg, src: Reg): (op: Opcode)
    requires CopyableReg(dest) && CopyableReg(src)
  {
    if IsDataReg(dest) && IsDataReg(src) then MOVrr
    else if IsAddrReg(dest) && IsAddrReg(src) then MOV_AArr
    else if IsAddrReg(dest) && IsDataReg(src) then MOV_Arr
    else MOV_Drr
  }

  /** The register class a move writes, and the one it reads, as its name says. */
  function MoveClasses(op: Opcode): (bool, bool)
  {
    if op == MOV_AArr then (true, true)
    else if op == MOV_Arr then (true, false)
    else if op == MOV_Drr then (false, true)
    else (false, false)
  }

  /** The chosen move reads the source's class and writes the destination's, so each of the four pairs has its own move. */
  lemma CopyOpcodeMatchesClasses(dest: Reg, src: Reg)
    requires CopyableReg(dest) && CopyableReg(src)
    ensures CopyOpcode(dest, src) in {MOVrr, MOV_AArr, MOV_Arr, MOV_Drr}
    ensures MoveClasses(CopyOpcode(dest, src)) == (IsAddrReg(dest), IsAddrReg(src))
  {
  }

  /** copyPhysReg: one move inserted at `at`, defining the destination and reading the source. */
  method CopyPhysReg(mbb: MachineBlock, at: nat, dest: Reg, src: Reg, killSrc: bool)
    requires at <= |mbb.instrs| && CopyableReg(dest) && CopyableReg(src)
    modifies mbb
    ensures mbb.instrs == old(mbb.instrs[..at]) + [MInstr(CopyOpcode(dest, src), [DefReg(dest, false), UseReg(src, killSrc)])] + old(mbb.instrs[at..])
  {
    var opc: Opcode;
    if IsDataReg(dest) && IsDataReg(src) {
      opc := MOVrr;
    } else if IsAddrReg(dest) && IsAddrReg(src) {
      opc := MOV_AArr;
    } else if IsAddrReg(dest) && IsDataReg(src) {
      opc := MOV_Arr;
    } else {
      opc := MOV_Drr;
    }
    mbb.InsertBefore(at, Build(opc, [DefReg(dest, false), UseReg(src, killSrc)]));
  }
}
