/**
 * Physical registers of the TriCore target.
 *
 * The register enumeration is generated from the target description, which
 * is not part of this model. Registers are integers here, numbered the way
 * the generator numbers them: names sorted with their numeric suffixes
 * compared as numbers, starting at 1 (0 is "no register"). Only even
 * extended registers exist (E0, E2, ..., E14), so E4 and E6 are adjacent ids.
 */
module Registers {

  type Reg = nat

  const NoRegister: Reg := 0

  /** A0..A15 */
  function A(n: nat): Reg requires n < 16 { 1 + n }
  /** D0..D15 */
  function D(n: nat): Reg requires n < 16 { 17 + n }
  /** E0, E2, ..., E14: the 64-bit pair formed by D(n) and D(n+1). */
  function E(n: nat): Reg requires n < 16 && n % 2 == 0 { 33 + n / 2 }

  const FCX: Reg := 41
  const PC: Reg := 42
  const PCXI: Reg := 43
  const PSW: Reg := 44
  const NumRegs: nat := 45

  /** The value the calling-convention hook returns when a class is exhausted (UNKNOWN_REG). */
  const UnknownReg: nat := 5555

  predicate IsAddrReg(r: Reg) { 1 <= r <= 16 }
  predicate IsDataReg(r: Reg) { 17 <= r <= 32 }
  predicate IsExtReg(r: Reg) { 33 <= r <= 40 }

  /** The three argument-register classes of the calling-convention hook. */
  datatype RegClass = AddrClass | DataClass | ExtClass

  /** First id of the contiguous argument range of a class: A4, D4, E4. */
  function FirstArgReg(c: RegClass): Reg
  {
    match c
    case AddrClass => A(4)
    case DataClass => D(4)
    case ExtClass => E(4)
  }

  /** Last id of the contiguous argument range of a class: A7, D7, E6. */
  function LastArgReg(c: RegClass): (r: Reg)
    ensures FirstArgReg(c) <= r < UnknownReg
  {
    match c
    case AddrClass => A(7)
    case DataClass => D(7)
    case ExtClass => E(6)
  }

  /** Number of registers in the argument range of a class. */
  function ArgRegCount(c: RegClass): (n: nat)
    ensures n == LastArgReg(c) - FirstArgReg(c) + 1
    ensures n == (if c == ExtClass then 2 else 4)
  {
    LastArgReg(c) - FirstArgReg(c) + 1
  }

  predicate InArgRange(c: RegClass, r: int)
  {
    FirstArgReg(c) <= r <= LastArgReg(c)
  }

  /** The argument ranges of distinct classes do not overlap. */
  lemma ArgRangesDisjoint(c: RegClass, c': RegClass, r: int)
    requires InArgRange(c, r) && InArgRange(c', r)
    ensures c == c'
  {
  }

  /** The even (low) sub-register of an extended register (subreg_even). */
  function EvenSub(e: Reg): (d: Reg)
    requires IsExtReg(e)
    ensures IsDataReg(d) && (d - 17) % 2 == 0
  {
    17 + 2 * (e - 33)
  }

  /** The odd (high) sub-register of an extended register (subreg_odd). */
  function OddSub(e: Reg): (d: Reg)
    requires IsExtReg(e)
    ensures IsDataReg(d) && d == EvenSub(e) + 1
  {
    18 + 2 * (e - 33)
  }

  /** The extended register a pair of data registers belongs to. */
  function PairOf(d: Reg): (e: Reg)
    requires IsDataReg(d)
    ensures IsExtReg(e)
  {
    33 + (d - 17) / 2
  }

  /**
   * splitRegs is a bijection between extended registers and even/odd data
   * pairs: both halves belong to the register they were split from, and
   * distinct extended registers have distinct halves.
   */
  lemma SplitRegsRoundTrip(e: Reg, e': Reg)
    requires IsExtReg(e) && IsExtReg(e')
    ensures PairOf(EvenSub(e)) == e && PairOf(OddSub(e)) == e
    ensures EvenSub(e) != OddSub(e)
    ensures e != e' ==> {EvenSub(e), OddSub(e)} !! {EvenSub(e'), OddSub(e')}
  {
  }

  lemma SplitRegsOfE4()
    ensures EvenSub(E(4)) == D(4) && OddSub(E(4)) == D(5)
    ensures EvenSub(E(6)) == D(6) && OddSub(E(6)) == D(7)
  {
  }
}
