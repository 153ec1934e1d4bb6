/**
 * Fixed-width integer helpers. Dafny integers are unbounded; the C++ sources
 * work on int8_t ... uint64_t, so every truncating cast and every wrap-around
 * is written out with these functions.
 *
 * For a non-negative x, `x & (2^k - 1)` is `x % 2^k` and `x >> k` is
 * `x / 2^k`; for a negative int64 the arithmetic shift `x >> k` is the floor
 * division that Dafny's `/` performs.
 */
module Bits {

  const TWO_8: int := 0x100
  const TWO_16: int := 0x1_0000
  const TWO_32: int := 0x1_0000_0000
  const TWO_64: int := 0x1_0000_0000_0000_0000

  /** The widths the sources cast to. */
  type Width = w: nat | w == 8 || w == 16 || w == 32 || w == 64 witness 8

  function Modulus(w: Width): (m: int)
    ensures m == (if w == 8 then TWO_8 else if w == 16 then TWO_16 else if w == 32 then TWO_32 else TWO_64)
  {
    if w == 8 then TWO_8 else if w == 16 then TWO_16 else if w == 32 then TWO_32 else TWO_64
  }

  function Half(w: Width): (h: int)
    ensures 2 * h == Modulus(w)
  {
    Modulus(w) / 2
  }

  predicate InSigned(w: Width, x: int) { -Half(w) <= x < Half(w) }
  predicate InUnsigned(w: Width, x: int) { 0 <= x < Modulus(w) }

  predicate IsInt32(x: int) { InSigned(32, x) }
  predicate IsInt64(x: int) { InSigned(64, x) }
  predicate IsUint32(x: int) { InUnsigned(32, x) }
  predicate IsUint64(x: int) { InUnsigned(64, x) }

  /** `static_cast<uintW_t>(x)`: x reduced modulo 2^w. */
  function Unsigned(w: Width, x: int): (r: int)
    ensures InUnsigned(w, r)
    ensures InUnsigned(w, x) ==> r == x
  {
    if w == 8 then x % TWO_8
    else if w == 16 then x % TWO_16
    else if w == 32 then x % TWO_32
    else x % TWO_64
  }

  /** `static_cast<intW_t>(x)`: the low w bits of x read as two's complement. */
  function Signed(w: Width, x: int): (r: int)
    ensures InSigned(w, r)
    ensures InSigned(w, x) ==> r == x
  {
    var u := Unsigned(w, x);
    if u < Half(w) then u else u - Modulus(w)
  }

  function Int32(x: int): (r: int)
    ensures IsInt32(r)
    ensures IsInt32(x) ==> r == x
  {
    Signed(32, x)
  }

  function Uint32(x: int): (r: int)
    ensures IsUint32(r)
    ensures IsUint32(x) ==> r == x
  {
    Unsigned(32, x)
  }

  /** `(int32_t)(v & 0xffffffff)`: the low 32-bit word of a 64-bit immediate. */
  function LowWord(v: int): (lo: int)
    ensures IsInt32(lo)
    ensures Unsigned(32, lo) == v % TWO_32
  {
    Signed(32, v % TWO_32)
  }

  /**
   * `(int32_t)(v >> 32)`: the high 32-bit word of a 64-bit immediate (an
   * extra `& 0xffffffff` before the cast does not change it).
   */
  function HighWord(v: int): (hi: int)
    ensures IsInt32(hi)
  {
    Signed(32, v / TWO_32)
  }

  /** The two words of a 64-bit immediate give it back. */
  lemma WordsRecombine(v: int)
    requires IsInt64(v)
    ensures HighWord(v) * TWO_32 + Unsigned(32, LowWord(v)) == v
  {
    assert HighWord(v) == v / TWO_32;
  }
}
