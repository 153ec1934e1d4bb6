/**
 * The linker's TriCore target: how relocation types are classified, the
 * (empty) relocation routine, the trap instruction used for padding, and
 * the single target object the linker asks for.
 *
 * The ELF relocation numbers are not part of this model: the five PCP
 * types the target names are constructors and every other type is
 * OtherRelType. Symbols are opaque ids and a location is a byte offset.
 */
module LldTarget {

  datatype RelType =
    | RelPcpHi | RelPcpLo | RelPcpPage | RelPcpOff | RelPcpText
    | OtherRelType(id: nat)

  /** The two relocation expressions the target answers with. */
  datatype RelExpr = RAbs | RPc

  predicate IsPcpRelocation(t: RelType)
  {
    t.RelPcpHi? || t.RelPcpLo? || t.RelPcpPage? || t.RelPcpOff? || t.RelPcpText?
  }

  /** getRelExpr: the PCP types are PC-relative, everything else absolute. */
  function GetRelExpr(t: RelType, symbol: nat, loc: nat): (e: RelExpr)
    ensures e == RPc <==> IsPcpRelocation(t)
    ensures e == RAbs <==> !IsPcpRelocation(t)
  {
    match t
    case RelPcpHi => RPc
    case RelPcpLo => RPc
    case RelPcpPage => RPc
    case RelPcpOff => RPc
    case RelPcpText => RPc
    case OtherRelType(_) => RAbs
  }

  /** The classification depends on the type alone, not on the symbol or the location. */
  lemma RelExprIgnoresSymbolAndLocation(t: RelType, s1: nat, l1: nat, s2: nat, l2: nat)
    ensures GetRelExpr(t, s1, l1) == GetRelExpr(t, s2, l2)
  {
  }

  /** The target's TargetInfo; only the field its constructor sets is modelled. */
  class TriCoreTarget {
    var trapInstr: seq<bv8>

    /** The trap bytes fill gaps between sections: four 0x43 bytes. */
    constructor()
      ensures trapInstr == [0x43, 0x43, 0x43, 0x43]
    {
      trapInstr := [0x43, 0x43, 0x43, 0x43];
    }

    /** relocate: applies nothing; the output bytes stay as they were. */
    method Relocate(loc: array<bv8>, rel: RelType, val: bv64)
      ensures loc[..] == old(loc[..])
    {
    }
  }

  /**
   * getTriCoreTargetInfo's function-local static: absent until the first
   * call constructs it, then the same object for every call.
   */
  class TargetInfoSlot {
    var target: TriCoreTarget?

    constructor()
      ensures target == null
    {
      target := null;
    }

    method GetTriCoreTargetInfo() returns (t: TriCoreTarget)
      modifies this
      ensures old(target) != null ==> t == old(target)
      ensures old(target) == null ==> fresh(t) && t.trapInstr == [0x43, 0x43, 0x43, 0x43]
      ensures target == t
    {
      if target == null {
        target := new TriCoreTarget();
      }
      t := target;
    }
  }

  /** Two calls give the same object, whether or not it existed before. */
  method GetTwice(slot: TargetInfoSlot) returns (first: TriCoreTarget, second: TriCoreTarget)
    modifies slot
    ensures first == second && slot.target == first
  {
    first := slot.GetTriCoreTargetInfo();
    second := slot.GetTriCoreTargetInfo();
  }
}
