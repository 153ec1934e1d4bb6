/**
 * The disassembler: the operand decoders the generated decoder tables call
 * for immediate fields, and the instruction entry point.
 *
 * An MCInst is its list of operands; an immediate operand holds an int64_t.
 * The decoders are templates over the field width; the width is an ordinary
 * parameter here, and any width other than 8, 16, 32 or 64 fails.
 */
module Disassembler {
  import W = Wrappers
  import opened Bits

  /** MCDisassembler::DecodeStatus */
  datatype DecodeStatus = Fail | SoftFail | Success

  /** An instruction under construction: the immediates appended so far. */
  class McInst {
    var operands: seq<int>

    constructor()
      ensures operands == []
    {
      operands := [];
    }

    /** MCInst::addOperand with an immediate. */
    method AddImm(imm: int)
      modifies this
      ensures operands == old(operands) + [imm]
    {
      operands := operands + [imm];
    }
  }

  predicate IsWidth(width: int)
  {
    width == 8 || width == 16 || width == 32 || width == 64
  }

  /**
   * The immediate decodeSImmOperand appends: the field's low `width` bits
   * read as two's complement. None for an unsupported width.
   */
  function SignedImmediate(width: int, imm: int): (r: W.Option<int>)
    ensures r.Some? <==> IsWidth(width)
    ensures r.Some? ==> InSigned(width, r.value) && (r.value - imm) % Modulus(width) == 0
  {
    if IsWidth(width) then W.Some(Signed(width, imm)) else W.None
  }

  /**
   * The immediate decodeImmOperand appends: the field's low `width` bits as
   * an unsigned number. A 64-bit field goes into the int64_t operand as its
   * bit pattern. None for an unsupported width.
   */
  function UnsignedImmediate(width: int, imm: int): (r: W.Option<int>)
    requires IsUint64(imm)
    ensures r.Some? <==> IsWidth(width)
    ensures r.Some? && width != 64 ==> r.value == imm % Modulus(width)
    ensures r.Some? && width == 64 ==> IsInt64(r.value) && Unsigned(64, r.value) == imm
  {
    if width == 8 || width == 16 || width == 32 then W.Some(Unsigned(width, imm))
    else if width == 64 then W.Some(Signed(64, imm))
    else W.None
  }

  /** decodeSImmOperand<width>: appends one immediate and succeeds, or fails and appends nothing. */
  method DecodeSImmOperand(inst: McInst, width: int, imm: int) returns (status: DecodeStatus)
    requires IsUint64(imm)
    modifies inst
    ensures var d := SignedImmediate(width, imm);
            if d.Some? then status == Success && inst.operands == old(inst.operands) + [d.value]
            else status == Fail && inst.operands == old(inst.operands)
  {
    if width == 8 {
      inst.AddImm(Signed(8, imm));
    } else if width == 16 {
      inst.AddImm(Signed(16, imm));
    } else if width == 32 {
      inst.AddImm(Signed(32, imm));
    } else if width == 64 {
      inst.AddImm(Signed(64, imm));
    } else {
      return Fail;
    }
    return Success;
  }

  /** decodeImmOperand<width>: appends one immediate and succeeds, or fails and appends nothing. */
  method DecodeImmOperand(inst: McInst, width: int, imm: int) returns (status: DecodeStatus)
    requires IsUint64(imm)
    modifies inst
    ensures var d := UnsignedImmediate(width, imm);
            if d.Some? then status == Success && inst.operands == old(inst.operands) + [d.value]
            else status == Fail && inst.operands == old(inst.operands)
  {
    if width == 8 {
      inst.AddImm(Unsigned(8, imm));
    } else if width == 16 {
      inst.AddImm(Unsigned(16, imm));
    } else if width == 32 {
      inst.AddImm(Unsigned(32, imm));
    } else if width == 64 {
      inst.AddImm(Signed(64, imm));
    } else {
      return Fail;
    }
    return Success;
  }

  /**
   * Below 64 bits the two decoders read the same field: the signed
   * immediate is the unsigned one, less 2^width when the top bit is set.
   * At 64 bits both append the same operand.
   */
  lemma SignedUnsignedAgree(width: int, imm: int)
    requires IsUint64(imm) && IsWidth(width)
    ensures var s := SignedImmediate(width, imm).value;
            var u := UnsignedImmediate(width, imm).value;
            (width != 64 ==> (s == u || s == u - Modulus(width)) && (s - u) % Modulus(width) == 0 &&
                             (s < 0 <==> u >= Half(width))) &&
            (width == 64 ==> s == u)
  {
  }

  /**
   * LLVM's generated `Check`: a Success leaves the status alone, anything
   * else overwrites it; the answer says whether decoding may go on.
   */
  function Check(out: DecodeStatus, input: DecodeStatus): (r: (bool, DecodeStatus))
    ensures r.0 <==> input != Fail
    ensures r.1 == (if input == Success then out else input)
  {
    match input
    case Success => (true, out)
    case SoftFail => (true, input)
    case Fail => (false, input)
  }

  /**
   * getInstruction: no instruction is decoded; every byte sequence at every
   * address is rejected and the instruction is left as it was.
   */
  method GetInstruction(inst: McInst, bytes: seq<bv8>, address: nat) returns (status: DecodeStatus)
    ensures status == Fail
  {
    status := Fail;
    var checked := Check(status, SoftFail);
    status := checked.1;
    status := if status == Success then status else Fail;
  }
}
