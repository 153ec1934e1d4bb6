/**
 * The assembler backend: how a resolved fixup value is cut into the bit
 * fields of an instruction and OR-ed into the fragment's bytes, the table
 * describing the three target fixup kinds, and the two trivial hooks
 * (no-op padding and relaxation).
 *
 * Fixup kinds are numbers as in LLVM: the generic kinds lie below
 * FirstTargetFixupKind and the target kinds follow it in declaration order.
 * Values are bit-vectors of the C++ widths: the fixup value a uint64_t
 * (bv64), the adjusted value an unsigned (bv32), fragment bytes bv8.
 */
module AsmBackend {

  import opened Wrappers
  import opened Bits

  /** LLVM's first target-specific fixup kind (MCFixup.h is not part of this model). */
  const FirstTargetFixupKind: nat := 128

  const FixupLegMovHi16Pcrel: nat := FirstTargetFixupKind
  const FixupLegMovLo16Pcrel: nat := FirstTargetFixupKind + 1
  const FixupCall: nat := FirstTargetFixupKind + 2
  const NumTargetFixupKinds: nat := 3

  /** The kinds adjustFixupValue handles; any other kind reaches llvm_unreachable. */
  predicate IsTargetFixup(kind: nat)
  {
    kind == FixupLegMovHi16Pcrel || kind == FixupLegMovLo16Pcrel || kind == FixupCall
  }

  /**
   * The 16-bit immediate of a MOV-style instruction: bits 12-15 of the value
   * go to instruction bits 16-19 and bits 0-11 stay where they are.
   */
  function MovImmField(v: bv64): (r: bv64)
    ensures r < 0x10_0000 && r & 0xF000 == 0
  {
    var hi4 := (v & 0xF000) >> 12;
    var lo12 := v & 0x0FFF;
    (hi4 << 16) | lo12
  }

  /** Reading the immediate back out of instruction bits 16-19 and 0-11. */
  function MovImmOf(field: bv64): (v: bv64)
    ensures v <= 0xFFFF
  {
    (((field >> 16) & 0xF) << 12) | (field & 0x0FFF)
  }

  /** The two bit fields give back the low 16 bits of the value. */
  lemma MovImmFieldRoundTrip(v: bv64)
    ensures MovImmOf(MovImmField(v)) == v & 0xFFFF
  {
  }

  /**
   * adjustFixupValue: the fixup value cut into the instruction's fields, as
   * the 32-bit unsigned it returns; None for a kind that reaches
   * llvm_unreachable. A hi16 fixup packs the upper half of the value the way
   * a lo16 fixup packs the lower half.
   */
  function AdjustFixupValue(kind: nat, value: bv64): (r: Option<bv32>)
    ensures r.Some? <==> IsTargetFixup(kind)
    ensures kind == FixupCall ==> r.Some? && r.value as bv64 == value & 0xFF_FFFF
    ensures kind == FixupLegMovLo16Pcrel ==> r.Some? && r.value as bv64 == MovImmField(value)
    ensures kind == FixupLegMovHi16Pcrel ==> r.Some? && r.value as bv64 == MovImmField(value >> 16)
  {
    if kind == FixupCall then Some((value & 0xFF_FFFF) as bv32)
    else if kind == FixupLegMovHi16Pcrel then Some(MovImmField(value >> 16) as bv32)
    else if kind == FixupLegMovLo16Pcrel then Some(MovImmField(value) as bv32)
    else None
  }

  /** A call fixup keeps the low 24 bits of the value and clears the rest. */
  lemma CallFixupIs24Bits(value: bv64)
    ensures var r := AdjustFixupValue(FixupCall, value).value;
            r < 0x100_0000 && r as bv64 == value & 0xFF_FFFF
  {
  }

  /**
   * The fields a hi16 fixup and a lo16 fixup of one value write (see
   * AdjustFixupValue), read back, give the value's low 32 bits.
   */
  lemma HiLoFixupsRecombine(value: bv64)
    ensures (MovImmOf(MovImmField(value >> 16)) << 16) | MovImmOf(MovImmField(value)) == value & 0xFFFF_FFFF
  {
    MovImmFieldRoundTrip(value);
    MovImmFieldRoundTrip(value >> 16);
    assert (((value >> 16) & 0xFFFF) << 16) | (value & 0xFFFF) == value & 0xFFFF_FFFF;
  }

  /** `uint8_t((Value >> (i * 8)) & 0xff)` */
  function FixupByte(v: bv32, i: nat): bv8
    requires i < 4
  {
    ((v >> (i * 8)) & 0xFF) as bv8
  }

  /** The fragment after the four bytes at `offset` are OR-ed with the value's bytes, least significant first. */
  function Patched(data: seq<bv8>, offset: nat, v: bv32): (r: seq<bv8>)
    requires offset + 4 <= |data|
    ensures |r| == |data|
  {
    PatchedUpTo(data, offset, v, 4)
  }

  /** The fragment after the first n of the four bytes are patched. */
  function PatchedUpTo(data: seq<bv8>, offset: nat, v: bv32, n: nat): (r: seq<bv8>)
    requires offset + 4 <= |data| && n <= 4
    ensures |r| == |data|
  {
    seq(|data|, j requires 0 <= j < |data| => if offset <= j < offset + n then data[j] | FixupByte(v, j - offset) else data[j])
  }

  /** Patching byte n of a fragment patched up to n gives the fragment patched up to n + 1. */
  lemma PatchedUpToStep(data: seq<bv8>, offset: nat, v: bv32, n: nat)
    requires offset + 4 <= |data| && n < 4
    ensures var p := PatchedUpTo(data, offset, v, n);
            p[offset + n := p[offset + n] | FixupByte(v, n)] == PatchedUpTo(data, offset, v, n + 1)
  {
  }

  lemma OrKeepsBits(a: bv8, b: bv8)
    ensures (a | b) & a == a && (a | b) | b == a | b && 0 | b == b
  {
  }

  /** Patching touches only the four bytes at `offset` and never clears a bit. */
  lemma PatchedKeepsBits(data: seq<bv8>, offset: nat, v: bv32)
    requires offset + 4 <= |data|
    ensures var r := Patched(data, offset, v);
            (forall j :: 0 <= j < |data| ==> r[j] & data[j] == data[j]) &&
            (forall j :: 0 <= j < |data| && !(offset <= j < offset + 4) ==> r[j] == data[j])
  {
    var r := Patched(data, offset, v);
    forall j | 0 <= j < |data|
      ensures r[j] & data[j] == data[j]
    {
      if offset <= j < offset + 4 {
        OrKeepsBits(data[j], FixupByte(v, j - offset));
      }
    }
  }

  /** Patching twice with the same value is patching once. */
  lemma PatchedIdempotent(data: seq<bv8>, offset: nat, v: bv32)
    requires offset + 4 <= |data|
    ensures Patched(Patched(data, offset, v), offset, v) == Patched(data, offset, v)
  {
    var r := Patched(data, offset, v);
    var rr := Patched(r, offset, v);
    forall j | 0 <= j < |data|
      ensures rr[j] == r[j]
    {
      if offset <= j < offset + 4 {
        OrKeepsBits(data[j], FixupByte(v, j - offset));
      }
    }
  }

  /** The little-endian reading of four bytes. */
  function LittleEndian(b0: bv8, b1: bv8, b2: bv8, b3: bv8): bv32
  {
    (b0 as bv32) | ((b1 as bv32) << 8) | ((b2 as bv32) << 16) | ((b3 as bv32) << 24)
  }

  lemma FixupByteWidened(v: bv32, i: nat)
    requires i < 4
    ensures FixupByte(v, i) as bv32 == (v >> (i * 8)) & 0xFF
  {
  }

  /** A 32-bit value is its four bytes put back in little-endian order. */
  lemma BytesRecombine(v: bv32)
    ensures LittleEndian(FixupByte(v, 0), FixupByte(v, 1), FixupByte(v, 2), FixupByte(v, 3)) == v
  {
    FixupByteWidened(v, 0);
    FixupByteWidened(v, 1);
    FixupByteWidened(v, 2);
    FixupByteWidened(v, 3);
    assert (v & 0xFF) | (((v >> 8) & 0xFF) << 8) | (((v >> 16) & 0xFF) << 16) | (((v >> 24) & 0xFF) << 24) == v;
  }

  /** Over four zero bytes the patch writes the value itself, least significant byte first. */
  lemma PatchedIntoZeros(data: seq<bv8>, offset: nat, v: bv32)
    requires offset + 4 <= |data|
    requires forall j :: offset <= j < offset + 4 ==> data[j] == 0
    ensures var r := Patched(data, offset, v);
            LittleEndian(r[offset], r[offset + 1], r[offset + 2], r[offset + 3]) == v
  {
    var r := Patched(data, offset, v);
    forall i | 0 <= i < 4
      ensures r[offset + i] == FixupByte(v, i)
    {
      OrKeepsBits(0, FixupByte(v, i));
    }
    BytesRecombine(v);
  }

  /** The fixup application: the adjusted value's four bytes OR-ed into the fragment at the fixup's offset. */
  method ApplyFixup(data: array<bv8>, kind: nat, offset: nat, value: bv64)
    requires IsTargetFixup(kind)
    requires AdjustFixupValue(kind, value).value != 0 ==> offset + 4 <= data.Length
    modifies data
    ensures var v := AdjustFixupValue(kind, value).value;
            if v == 0 then data[..] == old(data[..]) else data[..] == Patched(old(data[..]), offset, v)
  {
    var v := AdjustFixupValue(kind, value).value;
    if v == 0 {
      return;
    }
    for i := 0 to 4
      invariant data[..] == PatchedUpTo(old(data[..]), offset, v, i)
    {
      PatchedUpToStep(old(data[..]), offset, v, i);
      data[offset + i] := data[offset + i] | FixupByte(v, i);
    }
  }

  /** One row of the fixup-kind table: name, bit offset, bit size and whether the fixup is PC-relative. */
  datatype FixupKindInfo = FixupKindInfo(name: string, bitOffset: nat, bitSize: nat, isPcRel: bool)

  /** A generic kind is answered by the target-independent table, which is not part of this model. */
  datatype KindInfoLookup = GenericKindInfo(kind: nat) | TargetKindInfo(info: FixupKindInfo) | InvalidKind

  const FixupInfos: seq<FixupKindInfo> := [
    FixupKindInfo("fixup_leg_mov_hi16_pcrel", 0, 32, true),
    FixupKindInfo("fixup_leg_mov_lo16_pcrel", 0, 32, true),
    FixupKindInfo("fixup_call", 0, 24, false)
  ]

  /** getFixupKindInfo; InvalidKind stands for the failed "Invalid kind!" assertion. */
  function GetFixupKindInfo(kind: nat): (r: KindInfoLookup)
    ensures kind < FirstTargetFixupKind <==> r.GenericKindInfo?
    ensures r.InvalidKind? <==> kind >= FirstTargetFixupKind + NumTargetFixupKinds
    ensures r.TargetKindInfo? ==> r.info == FixupInfos[kind - FirstTargetFixupKind]
  {
    if kind < FirstTargetFixupKind then GenericKindInfo(kind)
    else if kind - FirstTargetFixupKind < NumTargetFixupKinds then TargetKindInfo(FixupInfos[kind - FirstTargetFixupKind])
    else InvalidKind
  }

  /**
   * The table agrees with the kinds adjustFixupValue handles: every kind it
   * handles has a row named after it, the mov fixups are 32-bit and
   * PC-relative, the call fixup is 24-bit and absolute, and the call fixup's
   * value fits its field.
   */
  lemma FixupInfoMatchesKinds(kind: nat)
    ensures IsTargetFixup(kind) <==> GetFixupKindInfo(kind).TargetKindInfo?
    ensures kind == FixupLegMovHi16Pcrel ==> GetFixupKindInfo(kind) == TargetKindInfo(FixupKindInfo("fixup_leg_mov_hi16_pcrel", 0, 32, true))
    ensures kind == FixupLegMovLo16Pcrel ==> GetFixupKindInfo(kind) == TargetKindInfo(FixupKindInfo("fixup_leg_mov_lo16_pcrel", 0, 32, true))
    ensures kind == FixupCall ==> GetFixupKindInfo(kind) == TargetKindInfo(FixupKindInfo("fixup_call", 0, 24, false))
  {
  }

  /** writeNopData: only an empty padding can be written; there is no nop sequence. */
  function WriteNopData(count: nat): (ok: bool)
    ensures ok <==> count == 0
  {
    count == 0
  }

  /** fixupNeedsRelaxation: no instruction is relaxed, whatever the fixup and value. */
  function FixupNeedsRelaxation(kind: nat, value: bv64): (relax: bool)
    ensures !relax
  {
    false
  }
}
