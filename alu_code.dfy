/**
 * ALU codes (LPAC): the operation bits of an ALU code and the conversions
 * into the code, none of which knows any operator yet.
 */
module AluCode {

  /** The only code defined: an unknown or unsupported operator. */
  const Unknown: bv32 := 0xFF

  /** getAluOp: the low six bits of the code, as an unsigned. */
  function GetAluOp(aluOp: bv32): (op: bv32)
    ensures op < 64
    ensures op == aluOp % 64
  {
    aluOp & 0x3F
  }

  /** Masking again changes nothing, and a code that already fits six bits is its own operation. */
  lemma GetAluOpIdempotent(aluOp: bv32)
    ensures GetAluOp(GetAluOp(aluOp)) == GetAluOp(aluOp)
    ensures aluOp < 64 ==> GetAluOp(aluOp) == aluOp
  {
  }

  /** The operation bits of Unknown are not Unknown: it is not a six-bit operation. */
  lemma UnknownIsNotAnOperation(aluOp: bv32)
    ensures GetAluOp(aluOp) != Unknown
  {
  }

  /** stringToTriCoreAluCode: no spelling is recognised. */
  function StringToAluCode(s: string): (code: bv32)
    ensures code == Unknown
  {
    Unknown
  }

  /** isdToTriCoreAluCode: no selection-DAG node type has a code. Node types are opaque numbers. */
  function IsdToAluCode(nodeType: nat): (code: bv32)
    ensures code == Unknown
  {
    Unknown
  }
}
