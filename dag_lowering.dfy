/**
 * Custom SelectionDAG lowering of TriCoreISelLowering.cpp: the operation
 * dispatch, target node names, shifts, the multiply-high shape, EmitCMP and
 * the three lowerings built on it (BR_CC, SETCC, SELECT_CC), and global
 * addresses.
 *
 * SelectionDAG values are modelled as an operand of the node being lowered
 * (a constant or an opaque value) and the nodes built from them. What the
 * target nodes compute is defined by instruction descriptions that are not
 * part of this model; where a lemma needs it, the reading it assumes is
 * written out next to the lemma.
 */
module DagLowering {
  import opened Wrappers
  import opened Bits

  /** An operand of the node being lowered: a ConstantSDNode (its sign-extended value) or any other value. */
  datatype Operand = Const(value: int) | Opaque(id: nat)

  /** The two integer types the comparisons are lowered for. */
  datatype ValueType = I32 | I64

  function BitsOf(vt: ValueType): Width
  {
    if vt == I32 then 32 else 64
  }

  /** TriCoreCC::CondCodes */
  const COND_EQ: int := 0
  const COND_NE: int := 1
  const COND_GE: int := 2
  const COND_LT: int := 3

  /** The integer condition codes EmitCMP handles; any other code is unreachable in the source. */
  datatype CondCode = SETEQ | SETNE | SETUGE | SETULE | SETUGT | SETULT | SETGE | SETLE | SETGT | SETLT

  /** The nodes the lowerings build. */
  datatype Node =
    | Leaf(o: Operand)                                // an operand passed through unchanged
    | Imm(value: int)                                 // DAG.getConstant
    | ExtractElement(src: Operand, half: nat)         // ISD::EXTRACT_ELEMENT, 0 = low word, 1 = high word
    | Sub(l: Node, r: Node)                           // ISD::SUB
    | Mul(l: Node, r: Node)                           // ISD::MUL
    | Srl(l: Node, r: Node)                           // ISD::SRL
    | Sh(shifted: Node, amount: Node)                 // TRICOREISD::SH
    | Sha(shifted: Node, amount: Node)                // TRICOREISD::SHA
    | Cmp(l: Node, r: Node, code: int)                // TRICOREISD::CMP
    | LogicCmp(prev: Node, l: Node, r: Node, code: int) // TRICOREISD::LOGICCMP, glued to prev
    | BrCC(chain: Operand, dest: Operand, flag: Node, cc: Option<int>)  // TRICOREISD::BR_CC
    | SelectCC(t: Node, f: Node, cc: Option<int>, flag: Node)           // TRICOREISD::SELECT_CC
    | GlobalWrapper(global: nat, offset: int)         // TRICOREISD::Wrapper of a target global address

  // ---------------------------------------------------------------------
  // Operation dispatch and node names
  // ---------------------------------------------------------------------

  /**
   * The generic opcodes the constructor marks Custom for i32, so that the
   * legalizer hands them to LowerOperation.
   */
  datatype IsdOpcode = GlobalAddress | BR_CC | SELECT_CC | SETCC | SHL | SRL | SRA | MULHS | MULHU
                     | SREM | UREM | SDIVREM | UDIVREM | SMUL_LOHI | UMUL_LOHI

  datatype Lowering = GlobalAddressLowering | BrCCLowering | SelectCCLowering | SetCCLowering | ShiftLowering | MulHighLowering

  /**
   * LowerOperation's switch: the routine an opcode is sent to, or None for
   * the unreachable default. The remainder and multiply-lohi operations are
   * marked Custom but have no case.
   */
  function LowerOperation(op: IsdOpcode): (r: Option<Lowering>)
    ensures r.None? <==> op in {SREM, UREM, SDIVREM, UDIVREM, SMUL_LOHI, UMUL_LOHI}
    ensures r == Some(ShiftLowering) <==> op in {SHL, SRL, SRA}
    ensures r == Some(MulHighLowering) <==> op in {MULHS, MULHU}
  {
    match op
    case GlobalAddress => Some(GlobalAddressLowering)
    case BR_CC => Some(BrCCLowering)
    case SELECT_CC => Some(SelectCCLowering)
    case SETCC => Some(SetCCLowering)
    case SHL => Some(ShiftLowering)
    case SRL => Some(ShiftLowering)
    case SRA => Some(ShiftLowering)
    case MULHS => Some(MulHighLowering)
    case MULHU => Some(MulHighLowering)
    case _ => None
  }

  /** TRICOREISD::NodeType, counted from FIRST_NUMBER. */
  const NodeNames: seq<string> := [
    "TRICOREISD::RetFlag", "TRICOREISD::LOAD_SYM", "TRICOREISD::MOVEi32", "TRICOREISD::CALL",
    "TRICOREISD::BR_CC", "TRICOREISD::CMP", "TRICOREISD::Wrapper", "TRICOREISD::SH", "TRICOREISD::SHA",
    "TRICOREISD::SELECT_CC", "TRICOREISD::LOGICCMP", "TRICOREISD::IMASK", "TRICOREISD::EXTR",
    "TRICOREISD::ABS"]

  /**
   * getTargetNodeName for the opcode FIRST_NUMBER + k: a name for each of
   * the fourteen target nodes, null (None) for FIRST_NUMBER itself and for
   * anything outside the enumeration.
   */
  function TargetNodeName(k: int): (r: Option<string>)
    ensures r.Some? <==> 1 <= k <= 14
    ensures r.Some? ==> |r.value| > 12 && r.value[..12] == "TRICOREISD::"
  {
    if 1 <= k <= |NodeNames| then Some(NodeNames[k - 1]) else None
  }

  /** Distinct target nodes have distinct names. */
  lemma TargetNodeNamesDistinct(k: int, k': int)
    requires TargetNodeName(k).Some? && TargetNodeName(k') == TargetNodeName(k)
    ensures k == k'
  {
  }

  // ---------------------------------------------------------------------
  // Shifts
  // ---------------------------------------------------------------------

  datatype ShiftOp = ShiftLeft | ShiftRightLogical | ShiftRightArith

  /**
   * LowerShifts: SHL becomes SH with the same amount; SRL / SRA become SH /
   * SHA by the negated amount, a constant when the amount is a constant
   * (which the source asserts lies in [-32, 32)) and SUB(0, amount)
   * otherwise.
   */
  function LowerShifts(op: ShiftOp, value: Operand, amount: Operand): (n: Node)
    requires op != ShiftLeft && amount.Const? ==> -32 <= amount.value < 32
    ensures op == ShiftLeft ==> n == Sh(Leaf(value), Leaf(amount))
    ensures op == ShiftRightLogical ==> n.Sh? && n.shifted == Leaf(value)
    ensures op == ShiftRightArith ==> n.Sha? && n.shifted == Leaf(value)
    ensures op != ShiftLeft && amount.Const? ==> n.amount == Imm(-amount.value)
    ensures op != ShiftLeft && amount.Opaque? ==> n.amount == Sub(Imm(0), Leaf(amount))
  {
    match op
    case ShiftLeft => Sh(Leaf(value), Leaf(amount))
    case _ =>
      var negated := match amount
        case Const(c) => Imm(NegatedShiftConstant(c))
        case Opaque(_) => Sub(Imm(0), Leaf(amount));
      if op == ShiftRightLogical then Sh(Leaf(value), negated) else Sha(Leaf(value), negated)
  }

  /**
   * `-shiftSD->getZExtValue()` as a uint64_t, handed to getConstant as an
   * i32 constant: the low 32 bits of the negated amount.
   */
  function NegatedShiftConstant(c: int): (r: int)
    requires -32 <= c < 32
    ensures r == -c
  {
    Signed(32, TWO_64 - Unsigned(64, c))
  }

  function Pow2(n: nat): (p: nat)
    ensures p >= 1
  {
    if n == 0 then 1 else 2 * Pow2(n - 1)
  }

  /**
   * The reading of SH and SHA this model assumes, after the TriCore
   * instructions of those names: the amount is a signed 32-bit value; a non-negative
   * amount shifts left, a negative one shifts right (logically for SH,
   * arithmetically for SHA). Values are 32-bit words held as unsigned
   * integers. Only the node forms the shift lowering builds are read.
   */
  function Eval(n: Node, env: nat -> int): Option<int>
  {
    match n
    case Leaf(Const(c)) => Some(Unsigned(32, c))
    case Leaf(Opaque(id)) => Some(Unsigned(32, env(id)))
    case Imm(v) => Some(Unsigned(32, v))
    case Sub(l, r) =>
      (match (Eval(l, env), Eval(r, env))
       case (Some(a), Some(b)) => Some(Unsigned(32, a - b))
       case _ => None)
    case Mul(l, r) =>
      (match (Eval(l, env), Eval(r, env))
       case (Some(a), Some(b)) => Some(Unsigned(32, a * b))
       case _ => None)
    case Srl(v, a) =>
      (match (Eval(v, env), Eval(a, env))
       case (Some(x), Some(y)) => if y >= 0 then Some(LshrWord(x, y)) else None
       case _ => None)
    case Sh(v, a) => ShiftReading(Eval(v, env), Eval(a, env), false)
    case Sha(v, a) => ShiftReading(Eval(v, env), Eval(a, env), true)
    case _ => None
  }

  function ShiftReading(value: Option<int>, amount: Option<int>, arith: bool): Option<int>
  {
    match (value, amount)
    case (Some(x), Some(y)) =>
      var amt := Signed(32, y);
      if 0 <= amt < 32 then Some(ShlWord(x, amt))
      else if -32 <= amt < 0 then (if arith then Some(AshrWord(x, -amt)) else Some(LshrWord(x, -amt)))
      else None
    case _ => None
  }

  /** The generic shifts on a 32-bit word. */
  function ShlWord(x: int, n: nat): int { Unsigned(32, x * Pow2(n)) }
  function LshrWord(x: int, n: nat): int { x / Pow2(n) }
  function AshrWord(x: int, n: nat): int { Unsigned(32, Signed(32, x) / Pow2(n)) }

  /** The 32-bit word an operand holds. */
  function WordOf(o: Operand, env: nat -> int): (w: int)
    ensures InUnsigned(32, w)
  {
    match o
    case Const(c) => Unsigned(32, c)
    case Opaque(id) => Unsigned(32, env(id))
  }

  /** A shift by zero leaves a word unchanged, whichever way it shifts. */
  lemma ShiftByZero(x: int)
    requires InUnsigned(32, x)
    ensures ShlWord(x, 0) == x && LshrWord(x, 0) == x && AshrWord(x, 0) == x
  {
  }

  /** The amount node of a lowered right shift by k reads as -k. */
  lemma NegatedAmountReading(op: ShiftOp, value: Operand, amount: Operand, env: nat -> int, k: int)
    requires op != ShiftLeft && 0 <= k < 32 && WordOf(amount, env) == k
    requires amount.Const? ==> amount.value == k
    ensures var y := Eval(LowerShifts(op, value, amount).amount, env);
            y.Some? && Signed(32, y.value) == -k
  {
    var u := Unsigned(32, -k);
    if amount.Opaque? {
      assert Eval(Leaf(amount), env) == Some(k);
      assert Eval(Sub(Imm(0), Leaf(amount)), env) == Some(u);
    }
    assert Signed(32, u) == -k;
  }

  /**
   * Under that reading, the lowered shift by an amount k in [0, 32) is the
   * generic one: a left shift for SHL, a logical right shift for SRL and an
   * arithmetic right shift for SRA.
   */
  lemma LowerShiftsMeaning(op: ShiftOp, value: Operand, amount: Operand, env: nat -> int, k: int)
    requires 0 <= k < 32 && WordOf(amount, env) == k
    requires amount.Const? ==> amount.value == k
    ensures var x := WordOf(value, env);
            Eval(LowerShifts(op, value, amount), env) ==
              match op
              case ShiftLeft => Some(ShlWord(x, k))
              case ShiftRightLogical => Some(LshrWord(x, k))
              case ShiftRightArith => Some(AshrWord(x, k))
  {
    var x := WordOf(value, env);
    assert Eval(Leaf(value), env) == Some(x);
    if op == ShiftLeft {
      assert Eval(Leaf(amount), env) == Some(k);
    } else {
      NegatedAmountReading(op, value, amount, env, k);
      if k == 0 {
        ShiftByZero(x);
      }
    }
  }

  // ---------------------------------------------------------------------
  // Multiply high
  // ---------------------------------------------------------------------

  /** LowerMulHigh: SRL(MUL(a, b), width of the type), for MULHS and MULHU alike. */
  function LowerMulHigh(a: Operand, b: Operand, bits: nat): (n: Node)
    ensures n.Srl? && n.l == Mul(Leaf(a), Leaf(b)) && n.r == Imm(bits)
  {
    Srl(Mul(Leaf(a), Leaf(b)), Imm(bits))
  }

  /**
   * Read with MUL as the 32-bit product and SRL as the exact quotient by
   * 2^amount (LLVM leaves a shift by the full width undefined), the 32-bit
   * multiply-high node is always 0, even where the high half of the product
   * is not: 0x10000 * 0x10000 has high half 1.
   */
  lemma MulHighShiftsOutEverything(a: Operand, b: Operand, env: nat -> int)
    ensures Eval(LowerMulHigh(a, b, 32), env) == Some(0)
    ensures Eval(LowerMulHigh(Const(0x10000), Const(0x10000), 32), env) == Some(0)
            && 0x10000 * 0x10000 / TWO_32 == 1
  {
    var ab := Unsigned(32, WordOf(a, env) * WordOf(b, env));
    ProductIsWord(a, b, env);
    ShiftOutWord(Mul(Leaf(a), Leaf(b)), ab, 32, env);
    var sq := Unsigned(32, 0x10000 * 0x10000);
    ProductIsWord(Const(0x10000), Const(0x10000), env);
    ShiftOutWord(Mul(Leaf(Const(0x10000)), Leaf(Const(0x10000))), sq, 32, env);
  }

  /** MUL of two leaves evaluates to a 32-bit word. */
  lemma ProductIsWord(a: Operand, b: Operand, env: nat -> int)
    ensures Eval(Mul(Leaf(a), Leaf(b)), env) == Some(Unsigned(32, WordOf(a, env) * WordOf(b, env)))
  {
    assert Eval(Leaf(a), env) == Some(WordOf(a, env)) && Eval(Leaf(b), env) == Some(WordOf(b, env));
  }

  /** Shifting a 32-bit word right by its width leaves nothing. */
  lemma ShiftOutWord(v: Node, x: int, k: nat, env: nat -> int)
    requires Eval(v, env) == Some(x) && InUnsigned(32, x) && k == 32
    ensures Eval(Srl(v, Imm(k)), env) == Some(0)
  {
    assert Eval(Imm(k), env) == Some(k);
    Pow2Of32();
    BelowDivisor(x, Pow2(k));
  }

  lemma {:induction false} Pow2Add(m: nat, n: nat)
    ensures Pow2(m + n) == Pow2(m) * Pow2(n)
  {
    if m > 0 {
      Pow2Add(m - 1, n);
    }
  }

  lemma Pow2Of32()
    ensures Pow2(32) == TWO_32
  {
    assert Pow2(4) == 16;
    Pow2Add(4, 4);
    Pow2Add(8, 8);
    Pow2Add(16, 16);
  }

  lemma BelowDivisor(m: int, p: int)
    requires 0 <= m < p
    ensures m / p == 0
  {
  }

  // ---------------------------------------------------------------------
  // EmitCMP
  // ---------------------------------------------------------------------

  /** The comparison EmitCMP settles on before building nodes. */
  datatype Normalized = Normalized(lhs: Operand, rhs: Operand, tcc: int, tricoreCC: Option<int>)

  /**
   * `lhs >= rhs` (GE, UGE) or `lhs < rhs` (LT, ULT), with a constant left
   * operand C folded into `rhs <op'> C+1` with GE and LT exchanged. The new
   * constant is built with the operands' type, so C+1 wraps at the type's
   * width. `setsCC` is false for the UGE path, which assigns tricoreCC only
   * when nothing is folded.
   */
  function FoldLeftConstant(l: Operand, r: Operand, vt: ValueType, ge: bool, setsCC: bool): (n: Normalized)
    ensures n.tricoreCC == if l.Const? && !setsCC then None else Some(COND_NE)
  {
    match l
    case Const(c) =>
      Normalized(r, Const(Signed(BitsOf(vt), c + 1)), if ge then COND_LT else COND_GE,
                 if setsCC then Some(COND_NE) else None)
    case Opaque(_) => Normalized(l, r, if ge then COND_GE else COND_LT, Some(COND_NE))
  }

  /** A constant operand holds a sign-extended value of the comparison's type. */
  predicate Fits(o: Operand, vt: ValueType)
  {
    o.Const? ==> InSigned(BitsOf(vt), o.value)
  }

  /** EmitCMP's switch, as written. */
  function NormalizeCmp(lhs: Operand, rhs: Operand, cc: CondCode, vt: ValueType): (n: Normalized)
    ensures Fits(lhs, vt) && Fits(rhs, vt) ==> Fits(n.lhs, vt) && Fits(n.rhs, vt)
    ensures n.tcc in {COND_EQ, COND_NE, COND_GE, COND_LT}
    ensures n.tricoreCC == if (cc == SETUGE && lhs.Const?) || (cc == SETULE && rhs.Const?) then None else Some(COND_NE)
  {
    match cc
    case SETEQ => if lhs.Const? then Normalized(rhs, lhs, COND_EQ, Some(COND_NE)) else Normalized(lhs, rhs, COND_EQ, Some(COND_NE))
    case SETNE => if lhs.Const? then Normalized(rhs, lhs, COND_NE, Some(COND_NE)) else Normalized(lhs, rhs, COND_NE, Some(COND_NE))
    case SETULE => FoldLeftConstant(rhs, lhs, vt, true, false)
    case SETUGE => FoldLeftConstant(lhs, rhs, vt, true, false)
    case SETUGT => FoldLeftConstant(rhs, lhs, vt, false, true)
    case SETULT => FoldLeftConstant(lhs, rhs, vt, false, true)
    case SETLE => FoldLeftConstant(rhs, lhs, vt, true, true)
    case SETGE => FoldLeftConstant(lhs, rhs, vt, true, true)
    case SETGT => FoldLeftConstant(rhs, lhs, vt, false, true)
    case SETLT => FoldLeftConstant(lhs, rhs, vt, false, true)
  }

  /** The flag node(s) for a settled comparison. */
  function CompareNodes(n: Normalized, vt: ValueType): Node
    requires vt == I64 ==> Fits(n.rhs, vt)
  {
    if vt == I32 then Cmp(Leaf(n.lhs), Leaf(n.rhs), n.tcc)
    else
      var (rhsLo, rhsHi) := RhsHalves(n.rhs);
      var lhsLo, lhsHi := ExtractElement(n.lhs, 0), ExtractElement(n.lhs, 1);
      var compareHi := Cmp(lhsHi, rhsHi, if n.tcc != COND_NE then COND_EQ else n.tcc);
      var compareLo := LogicCmp(compareHi, lhsLo, rhsLo, n.tcc);
      if n.tcc == COND_NE || n.tcc == COND_EQ then compareLo
      else if n.rhs.Const? then LogicCmp(compareLo, lhsHi, rhsHi, n.tcc + 10)
      else LogicCmp(compareLo, rhsHi, lhsHi, COND_LT + 10)
  }

  /** The low and high words of a 64-bit right operand: immediates for a constant, extractions otherwise. */
  function RhsHalves(rhs: Operand): (Node, Node)
    requires Fits(rhs, I64)
  {
    match rhs
    case Const(v) =>
      (Imm(LowWord(v)), Imm(HighWord(v)))
    case Opaque(_) => (ExtractElement(rhs, 0), ExtractElement(rhs, 1))
  }

  /** What EmitCMP hands back: the rewritten operands, tricoreCC, and the flag node. */
  datatype CmpResult = CmpResult(lhs: Operand, rhs: Operand, tricoreCC: Option<int>, flag: Node)

  /**
   * EmitCMP exactly as written, leaving tricoreCC unset on the UGE / ULE
   * paths that fold a constant.
   */
  function EmitCmpAsWritten(lhs: Operand, rhs: Operand, cc: CondCode, vt: ValueType): (r: CmpResult)
    requires Fits(lhs, vt) && Fits(rhs, vt)
    ensures r.tricoreCC.None? <==> (cc == SETUGE && lhs.Const?) || (cc == SETULE && rhs.Const?)
    ensures r.tricoreCC.Some? ==> r.tricoreCC.value == COND_NE
  {
    var n := NormalizeCmp(lhs, rhs, cc, vt);
    CmpResult(n.lhs, n.rhs, n.tricoreCC, CompareNodes(n, vt))
  }

  /** EmitCMP with tricoreCC set to COND_NE on every path, as on all the paths that do set it. */
  function EmitCmp(lhs: Operand, rhs: Operand, cc: CondCode, vt: ValueType): (r: CmpResult)
    requires Fits(lhs, vt) && Fits(rhs, vt)
    ensures r.tricoreCC == Some(COND_NE)
    ensures r.(tricoreCC := None) == EmitCmpAsWritten(lhs, rhs, cc, vt).(tricoreCC := None)
  {
    var n := NormalizeCmp(lhs, rhs, cc, vt);
    CmpResult(n.lhs, n.rhs, Some(COND_NE), CompareNodes(n, vt))
  }

  // ---------------------------------------------------------------------
  // What EmitCMP promises
  // ---------------------------------------------------------------------

  /** The operand of ULE / UGT / LE / GT / UGE / ULT / GE / LT that EmitCMP folds when it is a constant. */
  function FoldSide(lhs: Operand, rhs: Operand, cc: CondCode): Operand
  {
    if cc in {SETULE, SETUGT, SETLE, SETGT} then rhs else lhs
  }

  /**
   * ULE / UGT / LE / GT are UGE / ULT / GE / LT with the operands
   * exchanged; unsigned predicates get the codes of the signed ones; EQ
   * and NE only move a constant to the right.
   */
  lemma NormalizeCmpCases(lhs: Operand, rhs: Operand, vt: ValueType)
    ensures NormalizeCmp(lhs, rhs, SETULE, vt) == NormalizeCmp(rhs, lhs, SETUGE, vt)
    ensures NormalizeCmp(lhs, rhs, SETUGT, vt) == NormalizeCmp(rhs, lhs, SETULT, vt)
    ensures NormalizeCmp(lhs, rhs, SETLE, vt) == NormalizeCmp(rhs, lhs, SETGE, vt)
    ensures NormalizeCmp(lhs, rhs, SETGT, vt) == NormalizeCmp(rhs, lhs, SETLT, vt)
    ensures NormalizeCmp(lhs, rhs, SETULT, vt) == NormalizeCmp(lhs, rhs, SETLT, vt)
    ensures NormalizeCmp(lhs, rhs, SETUGE, vt).(tricoreCC := None) == NormalizeCmp(lhs, rhs, SETGE, vt).(tricoreCC := None)
    ensures forall cc :: cc in {SETEQ, SETNE} ==>
              var n := NormalizeCmp(lhs, rhs, cc, vt);
              n.tcc == (if cc == SETEQ then COND_EQ else COND_NE) &&
              (n.lhs, n.rhs) == (if lhs.Const? then (rhs, lhs) else (lhs, rhs))
  {
  }

  /**
   * A constant C on the folded side of an ordering comparison turns
   * `C >= x` into `x < C+1` and `C < x` into `x >= C+1`; otherwise the
   * comparison keeps its (exchanged) operands and takes GE or LT.
   */
  lemma NormalizeCmpFolds(lhs: Operand, rhs: Operand, cc: CondCode, vt: ValueType)
    requires cc !in {SETEQ, SETNE}
    ensures var n := NormalizeCmp(lhs, rhs, cc, vt);
            var folded := FoldSide(lhs, rhs, cc);
            var other := if folded == lhs && cc !in {SETULE, SETUGT, SETLE, SETGT} then rhs else lhs;
            var ge := cc in {SETUGE, SETULE, SETGE, SETLE};
            if folded.Const? then
              n.lhs == other && n.rhs == Const(Signed(BitsOf(vt), folded.value + 1)) &&
              n.tcc == (if ge then COND_LT else COND_GE)
            else
              n.lhs == folded && n.rhs == other && n.tcc == (if ge then COND_GE else COND_LT)
  {
  }

  /** The 32-bit reading of an operand as a signed value. */
  function SValue(o: Operand, env: nat -> int): int
  {
    match o
    case Const(c) => c
    case Opaque(id) => Signed(32, env(id))
  }

  /**
   * The reading of CMP's condition codes this model assumes, after the
   * names of TriCoreCC::CondCodes: equal, not equal, signed greater or
   * equal, signed less than.
   */
  predicate CmpReading(code: int, a: int, b: int)
  {
    if code == COND_EQ then a == b
    else if code == COND_NE then a != b
    else if code == COND_GE then a >= b
    else a < b
  }

  /** The generic signed comparisons. */
  predicate SignedHolds(cc: CondCode, a: int, b: int)
    requires cc !in {SETUGE, SETULE, SETUGT, SETULT}
  {
    match cc
    case SETEQ => a == b
    case SETNE => a != b
    case SETGE => a >= b
    case SETLE => a <= b
    case SETGT => a > b
    case SETLT => a < b
  }

  /**
   * Under that reading, a 32-bit EmitCMP of a signed predicate or EQ / NE
   * builds one CMP of the rewritten operands that holds exactly when the
   * generic comparison of the original operands does, provided a folded
   * constant is not INT32_MAX (where C+1 wraps).
   */
  lemma EmitCmpSignedMeaning(lhs: Operand, rhs: Operand, cc: CondCode, env: nat -> int)
    requires cc !in {SETUGE, SETULE, SETUGT, SETULT}
    requires Fits(lhs, I32) && Fits(rhs, I32)
    requires cc !in {SETEQ, SETNE} && FoldSide(lhs, rhs, cc).Const? ==> FoldSide(lhs, rhs, cc).value < Half(32) - 1
    ensures var r := EmitCmp(lhs, rhs, cc, I32);
            r.flag.Cmp? && r.flag.l == Leaf(r.lhs) && r.flag.r == Leaf(r.rhs) &&
            (CmpReading(r.flag.code, SValue(r.lhs, env), SValue(r.rhs, env)) <==>
             SignedHolds(cc, SValue(lhs, env), SValue(rhs, env)))
  {
    var folded := FoldSide(lhs, rhs, cc);
    if cc !in {SETEQ, SETNE} {
      NormalizeCmpFolds(lhs, rhs, cc, I32);
      if folded.Const? {
        assert Signed(32, folded.value + 1) == folded.value + 1;
      }
    }
  }

  /** Chain length of a compare: the CMP, plus each LOGICCMP glued on top of it. */
  function ChainLength(n: Node): nat
  {
    match n
    case LogicCmp(prev, _, _, _) => 1 + ChainLength(prev)
    case _ => 1
  }

  /**
   * A 64-bit comparison compares the high words (code EQ unless the code
   * is NE), then the low words with the code; EQ and NE stop there, every
   * other code adds a third LOGICCMP of the high words with code TCC+10
   * for a constant right operand and COND_LT+10 with the high words
   * exchanged otherwise.
   */
  lemma CompareNodesWide(n: Normalized)
    requires Fits(n.rhs, I64)
    ensures var (rhsLo, rhsHi) := RhsHalves(n.rhs);
            var hiCmp := Cmp(ExtractElement(n.lhs, 1), rhsHi, if n.tcc == COND_NE then COND_NE else COND_EQ);
            var loCmp := LogicCmp(hiCmp, ExtractElement(n.lhs, 0), rhsLo, n.tcc);
            var flag := CompareNodes(n, I64);
            ChainLength(flag) == (if n.tcc in {COND_EQ, COND_NE} then 2 else 3) &&
            (n.tcc in {COND_EQ, COND_NE} ==> flag == loCmp) &&
            (n.tcc !in {COND_EQ, COND_NE} && n.rhs.Const? ==> flag == LogicCmp(loCmp, ExtractElement(n.lhs, 1), rhsHi, n.tcc + 10)) &&
            (n.tcc !in {COND_EQ, COND_NE} && n.rhs.Opaque? ==> flag == LogicCmp(loCmp, rhsHi, ExtractElement(n.lhs, 1), COND_LT + 10))
  {
    var flag := CompareNodes(n, I64);
    if n.tcc !in {COND_EQ, COND_NE} {
      assert flag.prev.LogicCmp? && ChainLength(flag.prev.prev) == 1;
      assert ChainLength(flag.prev) == 2;
    } else {
      assert flag.LogicCmp? && ChainLength(flag.prev) == 1;
    }
  }

  /** A constant right operand is compared word by word as the two halves that give it back. */
  lemma WideConstantHalves(v: int)
    requires IsInt64(v)
    ensures var (lo, hi) := RhsHalves(Const(v));
            lo.Imm? && hi.Imm? && IsInt32(lo.value) && IsInt32(hi.value) &&
            hi.value * TWO_32 + Unsigned(32, lo.value) == v
  {
    WordsRecombine(v);
  }

  // ---------------------------------------------------------------------
  // BR_CC, SETCC, SELECT_CC, GlobalAddress
  // ---------------------------------------------------------------------

  /**
   * LowerBR_CC: BR_CC(chain, dest, flag, tricoreCC) over EmitCMP's flag (i32
   * and i64 operands), passing on whatever tricoreCC EmitCMP left, unset
   * on the UGE / ULE constant folds.
   */
  function LowerBrCC(chain: Operand, cc: CondCode, lhs: Operand, rhs: Operand, dest: Operand, vt: ValueType): (n: Node)
    requires Fits(lhs, vt) && Fits(rhs, vt)
    ensures n.BrCC? && n.chain == chain && n.dest == dest
    ensures n.cc.None? <==> (cc == SETUGE && lhs.Const?) || (cc == SETULE && rhs.Const?)
    ensures n.cc.Some? ==> n.cc.value == COND_NE
    ensures n.flag == EmitCmp(lhs, rhs, cc, vt).flag
  {
    var r := EmitCmpAsWritten(lhs, rhs, cc, vt);
    BrCC(chain, dest, r.flag, r.tricoreCC)
  }

  /** LowerBR_CC over the corrected EmitCMP: the same branch, with COND_NE on every path. */
  function LowerBrCCCorrected(chain: Operand, cc: CondCode, lhs: Operand, rhs: Operand, dest: Operand, vt: ValueType): (n: Node)
    requires Fits(lhs, vt) && Fits(rhs, vt)
    ensures var w := LowerBrCC(chain, cc, lhs, rhs, dest, vt);
            n == BrCC(w.chain, w.dest, w.flag, Some(COND_NE))
  {
    var r := EmitCmp(lhs, rhs, cc, vt);
    BrCC(chain, dest, r.flag, r.tricoreCC)
  }

  /**
   * LowerSELECT_CC: SELECT_CC(true value, false value, tricoreCC, flag).
   * The comparands may be i32 or i64 (the operation is keyed on the
   * selected value's type), and tricoreCC is passed on as EmitCMP left it.
   */
  function LowerSelectCC(lhs: Operand, rhs: Operand, t: Operand, f: Operand, cc: CondCode, vt: ValueType): (n: Node)
    requires Fits(lhs, vt) && Fits(rhs, vt)
    ensures n.SelectCC? && n.t == Leaf(t) && n.f == Leaf(f)
    ensures n.cc.None? <==> (cc == SETUGE && lhs.Const?) || (cc == SETULE && rhs.Const?)
    ensures n.cc.Some? ==> n.cc.value == COND_NE
    ensures n.flag == EmitCmp(lhs, rhs, cc, vt).flag
  {
    var r := EmitCmpAsWritten(lhs, rhs, cc, vt);
    SelectCC(Leaf(t), Leaf(f), r.tricoreCC, r.flag)
  }

  /** LowerSELECT_CC over the corrected EmitCMP: the same select, with COND_NE on every path. */
  function LowerSelectCCCorrected(lhs: Operand, rhs: Operand, t: Operand, f: Operand, cc: CondCode, vt: ValueType): (n: Node)
    requires Fits(lhs, vt) && Fits(rhs, vt)
    ensures var w := LowerSelectCC(lhs, rhs, t, f, cc, vt);
            n == SelectCC(w.t, w.f, Some(COND_NE), w.flag)
  {
    var r := EmitCmp(lhs, rhs, cc, vt);
    SelectCC(Leaf(t), Leaf(f), r.tricoreCC, r.flag)
  }

  /**
   * LowerSETCC as written: a SELECT_CC whose two values are the comparands
   * EmitCMP left behind, not the constants 1 and 0, with tricoreCC as
   * EmitCMP left it.
   */
  function LowerSetCCAsWritten(lhs: Operand, rhs: Operand, cc: CondCode): (n: Node)
    requires Fits(lhs, I32) && Fits(rhs, I32)
    ensures var r := EmitCmp(lhs, rhs, cc, I32);
            n.SelectCC? && n.t == Leaf(r.lhs) && n.f == Leaf(r.rhs) && n.flag == r.flag
    ensures n.cc.None? <==> (cc == SETUGE && lhs.Const?) || (cc == SETULE && rhs.Const?)
  {
    var r := EmitCmpAsWritten(lhs, rhs, cc, I32);
    SelectCC(Leaf(r.lhs), Leaf(r.rhs), r.tricoreCC, r.flag)
  }

  /** LowerSETCC selecting 1 when the comparison holds and 0 otherwise. */
  function LowerSetCC(lhs: Operand, rhs: Operand, cc: CondCode): (n: Node)
    requires Fits(lhs, I32) && Fits(rhs, I32)
    ensures n.SelectCC? && n.t == Imm(1) && n.f == Imm(0) && n.cc == Some(COND_NE)
    ensures n.flag == LowerSetCCAsWritten(lhs, rhs, cc).flag
  {
    var r := EmitCmp(lhs, rhs, cc, I32);
    SelectCC(Imm(1), Imm(0), r.tricoreCC, r.flag)
  }

  /**
   * The reading of a 32-bit SELECT_CC with condition COND_NE this model
   * assumes: the true value when the glued CMP holds, else the false one.
   */
  function SelectReading(n: Node, env: nat -> int): Option<int>
  {
    match n
    case SelectCC(t, f, Some(cc), Cmp(Leaf(a), Leaf(b), code)) =>
      if cc != COND_NE then None
      else if CmpReading(code, SValue(a, env), SValue(b, env)) then Eval(t, env) else Eval(f, env)
    case _ => None
  }

  /**
   * Read that way, the corrected SETCC yields 1 exactly when the signed
   * comparison holds and 0 otherwise.
   */
  lemma LowerSetCCMeaning(lhs: Operand, rhs: Operand, cc: CondCode, env: nat -> int)
    requires cc !in {SETUGE, SETULE, SETUGT, SETULT}
    requires Fits(lhs, I32) && Fits(rhs, I32)
    requires cc !in {SETEQ, SETNE} && FoldSide(lhs, rhs, cc).Const? ==> FoldSide(lhs, rhs, cc).value < Half(32) - 1
    ensures SelectReading(LowerSetCC(lhs, rhs, cc), env)
            == Some(if SignedHolds(cc, SValue(lhs, env), SValue(rhs, env)) then 1 else 0)
  {
    EmitCmpSignedMeaning(lhs, rhs, cc, env);
  }

  /** `x > 5` with x = 7: the written SETCC yields x's value 7, not 1. */
  lemma SetCCYieldsComparand(env: nat -> int)
    requires env(0) == 7
    ensures SelectReading(LowerSetCCAsWritten(Opaque(0), Const(5), SETGT), env) == Some(7)
    ensures SelectReading(LowerSetCC(Opaque(0), Const(5), SETGT), env) == Some(1)
  {
    var n := NormalizeCmp(Opaque(0), Const(5), SETGT, I32);
    assert n.lhs == Opaque(0) && n.rhs == Const(6) && n.tcc == COND_GE by {
      NormalizeCmpFolds(Opaque(0), Const(5), SETGT, I32);
    }
    assert SValue(Opaque(0), env) == 7;
    assert CmpReading(COND_GE, 7, 6);
  }

  /**
   * `5 >= x` unsigned: the written EmitCMP leaves the condition operand
   * unset, and the branch and the select built on it carry no condition.
   */
  lemma UnsignedFoldLeavesConditionUnset(chain: Operand, dest: Operand, t: Operand, f: Operand)
    ensures EmitCmpAsWritten(Const(5), Opaque(0), SETUGE, I32).tricoreCC == None
    ensures EmitCmpAsWritten(Opaque(0), Const(5), SETULE, I32).tricoreCC == None
    ensures LowerBrCC(chain, SETUGE, Const(5), Opaque(0), dest, I32).cc == None
    ensures LowerSelectCC(Const(5), Opaque(0), t, f, SETUGE, I32).cc == None
    ensures EmitCmp(Const(5), Opaque(0), SETUGE, I32).tricoreCC == Some(COND_NE)
    ensures LowerBrCCCorrected(chain, SETUGE, Const(5), Opaque(0), dest, I32).cc == Some(COND_NE)
  {
  }

  /** LowerGlobalAddress: the target global address with its offset, wrapped. */
  function LowerGlobalAddressNode(global: nat, offset: int): (n: Node)
    ensures n.GlobalWrapper? && n.global == global && n.offset == offset
  {
    GlobalWrapper(global, offset)
  }
}
