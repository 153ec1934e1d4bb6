/**
 * The custom inserter for the Select8 pseudo (EmitInstrWithCustomInserter):
 * a select in the middle of a block becomes a diamond in the control-flow
 * graph. The block branches on the condition either straight to a new join
 * block or through a new empty fall-through block, and the join block starts
 * with a PHI that picks the true value coming from the old block and the
 * false value coming from the fall-through block.
 *
 * A machine function is its block layout, the instructions of each block and
 * the successors of each block; blocks are numbered and a new block gets the
 * next unused number. Only the operands the inserter reads or writes are
 * modelled: registers, block references and immediates.
 */
module SelectDiamond {

  import opened Wrappers

  type BlockId = nat

  datatype Opc = Select8 | JNZsbr | PHI | OtherOp(id: nat)

  datatype Operand = Reg(reg: nat) | Mbb(block: BlockId) | Imm(value: int)

  datatype Instr = Instr(opc: Opc, ops: seq<Operand>)

  /** A PHI's incoming block `from` now reaches it through `to`. */
  function RetargetPhi(mi: Instr, from: BlockId, to: BlockId): (r: Instr)
    ensures r.opc == mi.opc && |r.ops| == |mi.ops|
    ensures mi.opc != PHI ==> r == mi
    ensures mi.opc == PHI ==> forall j :: 0 <= j < |r.ops| ==>
              r.ops[j] == (if mi.ops[j] == Mbb(from) then Mbb(to) else mi.ops[j])
  {
    if mi.opc != PHI then mi
    else Instr(PHI, seq(|mi.ops|, j requires 0 <= j < |mi.ops| => if mi.ops[j] == Mbb(from) then Mbb(to) else mi.ops[j]))
  }

  /**
   * The PHI update of transferSuccessorsAndUpdatePHIs in one successor
   * block: every PHI that named `from` as an incoming block names `to`
   * instead; every other instruction is left alone.
   */
  function UpdatePhis(code: seq<Instr>, from: BlockId, to: BlockId): (r: seq<Instr>)
    ensures |r| == |code|
  {
    if code == [] then []
    else UpdatePhis(code[..|code| - 1], from, to) + [RetargetPhi(code[|code| - 1], from, to)]
  }

  /** The update works instruction by instruction. */
  lemma {:induction false} UpdatePhisAt(code: seq<Instr>, from: BlockId, to: BlockId, i: nat)
    requires i < |code|
    ensures UpdatePhis(code, from, to)[i] == RetargetPhi(code[i], from, to)
    decreases |code|
  {
    if i < |code| - 1 {
      UpdatePhisAt(code[..|code| - 1], from, to, i);
    }
  }

  /** After the update no PHI names `from` any more, and every other instruction is unchanged. */
  lemma UpdatePhisRetargets(code: seq<Instr>, from: BlockId, to: BlockId)
    requires from != to
    ensures var r := UpdatePhis(code, from, to);
            forall i :: 0 <= i < |code| ==>
              (code[i].opc != PHI ==> r[i] == code[i]) &&
              (code[i].opc == PHI ==>
                 |r[i].ops| == |code[i].ops| && Mbb(from) !in r[i].ops &&
                 (forall j :: 0 <= j < |code[i].ops| && code[i].ops[j] == Mbb(from) ==> r[i].ops[j] == Mbb(to)))
  {
    var r := UpdatePhis(code, from, to);
    forall i | 0 <= i < |code|
      ensures r[i] == RetargetPhi(code[i], from, to)
    {
      UpdatePhisAt(code, from, to, i);
    }
    forall i | 0 <= i < |code| && code[i].opc == PHI
      ensures Mbb(from) !in r[i].ops
    {
      var ri := RetargetPhi(code[i], from, to);
      assert r[i] == ri;
      assert forall j :: 0 <= j < |ri.ops| ==> ri.ops[j] != Mbb(from);
    }
  }

  /** The update in every block of `moved`. */
  function PhisUpdated(code: seq<seq<Instr>>, moved: set<BlockId>, from: BlockId, to: BlockId): (r: seq<seq<Instr>>)
    ensures |r| == |code|
  {
    seq(|code|, b requires 0 <= b < |code| => if b in moved then UpdatePhis(code[b], from, to) else code[b])
  }

  /** The shape of a Select8: destination, true value, false value, and the condition register at operand 4. */
  predicate IsSelect(mi: Instr)
  {
    mi.opc == Select8 && |mi.ops| >= 5 &&
    mi.ops[0].Reg? && mi.ops[1].Reg? && mi.ops[2].Reg? && mi.ops[4].Reg?
  }

  /** The PHI at the head of the join block: the false value from the fall-through block, the true value from the old block. */
  function JoinPhi(select: Instr, thisBlock: BlockId, fallThrough: BlockId): Instr
    requires IsSelect(select)
  {
    Instr(PHI, [select.ops[0], select.ops[2], Mbb(fallThrough), select.ops[1], Mbb(thisBlock)])
  }

  /** The branch that ends the old block: jump to the join block when the condition register is not zero. */
  function BranchToJoin(select: Instr, join: BlockId): Instr
    requires IsSelect(select)
  {
    Instr(JNZsbr, [Mbb(join), select.ops[4]])
  }

  /**
   * The value a PHI takes when control arrives from `pred`: its operands
   * after the destination are (value, block) pairs, and the first pair
   * naming `pred` gives the value.
   */
  function IncomingValue(pairs: seq<Operand>, pred: BlockId): (v: Option<Operand>)
    ensures v.Some? ==> Mbb(pred) in pairs
    decreases |pairs|
  {
    if |pairs| < 2 then None
    else if pairs[1] == Mbb(pred) then Some(pairs[0])
    else IncomingValue(pairs[2..], pred)
  }

  function Incoming(phi: Instr, pred: BlockId): (v: Option<Operand>)
    requires phi.opc == PHI && |phi.ops| >= 1
    ensures v.Some? ==> Mbb(pred) in phi.ops
  {
    IncomingValue(phi.ops[1..], pred)
  }

  /** The PHI values are registers, never block references. */
  predicate RegisterValues(pairs: seq<Operand>)
  {
    forall j :: 0 <= j < |pairs| && j % 2 == 0 ==> !pairs[j].Mbb?
  }

  /** A pairwise retarget of `from` to a block the pairs did not name moves the incoming value along. */
  lemma {:induction false} RetargetedIncoming(pairs: seq<Operand>, r: seq<Operand>, from: BlockId, to: BlockId)
    requires |r| == |pairs| && from != to && Mbb(to) !in pairs && RegisterValues(pairs)
    requires forall j :: 0 <= j < |pairs| ==> r[j] == (if pairs[j] == Mbb(from) then Mbb(to) else pairs[j])
    ensures IncomingValue(r, to) == IncomingValue(pairs, from)
    decreases |pairs|
  {
    if |pairs| >= 2 && pairs[1] != Mbb(from) {
      assert r[1] != Mbb(to);
      assert RegisterValues(pairs[2..]) by {
        forall j | 0 <= j < |pairs[2..]| && j % 2 == 0
          ensures !pairs[2..][j].Mbb?
        {
          assert (j + 2) % 2 == 0;
        }
      }
      RetargetedIncoming(pairs[2..], r[2..], from, to);
    } else if |pairs| >= 2 {
      assert 0 % 2 == 0;
    }
  }

  /**
   * After the PHI update a PHI takes, when control arrives from the new
   * block, the value it used to take from the old one.
   */
  lemma RetargetPhiIncoming(phi: Instr, from: BlockId, to: BlockId)
    requires phi.opc == PHI && |phi.ops| >= 1 && from != to
    requires Mbb(to) !in phi.ops && RegisterValues(phi.ops[1..])
    ensures Incoming(RetargetPhi(phi, from, to), to) == Incoming(phi, from)
    ensures Incoming(RetargetPhi(phi, from, to), from) == None
  {
    var r := RetargetPhi(phi, from, to);
    RetargetedIncoming(phi.ops[1..], r.ops[1..], from, to);
    assert forall j :: 0 <= j < |r.ops| ==> r.ops[j] != Mbb(from);
  }

  /**
   * The PHI of the join block takes the select's true value when control
   * comes from the old block (the branch was taken) and its false value when
   * it comes from the fall-through block.
   */
  lemma JoinPhiIncoming(select: Instr, thisBlock: BlockId, fallThrough: BlockId)
    requires IsSelect(select) && thisBlock != fallThrough
    ensures Incoming(JoinPhi(select, thisBlock, fallThrough), thisBlock) == Some(select.ops[1])
    ensures Incoming(JoinPhi(select, thisBlock, fallThrough), fallThrough) == Some(select.ops[2])
    ensures forall b :: b != thisBlock && b != fallThrough ==> Incoming(JoinPhi(select, thisBlock, fallThrough), b) == None
  {
    var pairs := JoinPhi(select, thisBlock, fallThrough).ops[1..];
    assert pairs == [select.ops[2], Mbb(fallThrough), select.ops[1], Mbb(thisBlock)];
    assert pairs[2..] == [select.ops[1], Mbb(thisBlock)];
    assert pairs[2..][2..] == [];
    assert IncomingValue(pairs, thisBlock) == IncomingValue(pairs[2..], thisBlock);
    forall b | b != thisBlock && b != fallThrough
      ensures IncomingValue(pairs, b) == None
    {
      assert IncomingValue(pairs, b) == IncomingValue(pairs[2..], b) == IncomingValue(pairs[2..][2..], b);
    }
  }

  /**
   * A machine function: the instructions and the successors of every block,
   * indexed by block number, and the order the blocks are laid out in. A
   * new block gets the next number.
   */
  class MachineFunction {
    var layout: seq<BlockId>
    var code: seq<seq<Instr>>
    var succs: seq<set<BlockId>>

    /** Every laid-out block and every successor exists. */
    predicate Valid()
      reads this
    {
      |succs| == |code| &&
      (forall i :: 0 <= i < |layout| ==> layout[i] < |code|) &&
      (forall b :: 0 <= b < |succs| ==> forall s :: s in succs[b] ==> s < |code|)
    }

    constructor ()
      ensures Valid() && layout == [] && code == [] && succs == []
    {
      layout, code, succs := [], [], [];
    }

    /** CreateMachineBasicBlock twice, and both inserted after the block laid out at `pos`, in order. */
    method CreateBlocksAfter(pos: nat) returns (copy0: BlockId, copy1: BlockId)
      requires Valid() && pos < |layout|
      modifies this
      ensures Valid()
      ensures copy0 == |old(code)| && copy1 == copy0 + 1
      ensures layout == old(layout[..pos + 1]) + [copy0, copy1] + old(layout[pos + 1..])
      ensures code == old(code) + [[], []] && succs == old(succs) + [{}, {}]
    {
      copy0 := |code|;
      copy1 := |code| + 1;
      code := code + [[], []];
      succs := succs + [{}, {}];
      layout := layout[..pos + 1] + [copy0, copy1] + layout[pos + 1..];
    }

    /** `to->splice(to->begin(), from, next(at), from->end())` into an empty block. */
    method SpliceTail(from: BlockId, at: nat, to: BlockId)
      requires Valid() && from < |code| && to < |code| && from != to && at < |code[from]|
      modifies this
      ensures Valid() && layout == old(layout) && succs == old(succs)
      ensures code == old(code)[to := old(code[to]) + old(code[from][at + 1..])][from := old(code[from][..at + 1])]
    {
      code := code[to := code[to] + code[from][at + 1..]][from := code[from][..at + 1]];
    }

    /** `to->transferSuccessorsAndUpdatePHIs(from)` */
    method TransferSuccessors(from: BlockId, to: BlockId)
      requires Valid() && from < |code| && to < |code| && from != to
      modifies this
      ensures Valid() && layout == old(layout)
      ensures succs == old(succs)[to := old(succs[to]) + old(succs[from])][from := {}]
      ensures code == PhisUpdated(old(code), old(succs[from]), from, to)
    {
      var moved := succs[from];
      code := PhisUpdated(code, moved, from, to);
      succs := succs[to := succs[to] + moved][from := {}];
    }

    /** `from->addSuccessor(to)` */
    method AddSuccessor(from: BlockId, to: BlockId)
      requires Valid() && from < |code| && to < |code|
      modifies this
      ensures Valid() && layout == old(layout) && code == old(code)
      ensures succs == old(succs)[from := old(succs[from]) + {to}]
    {
      succs := succs[from := succs[from] + {to}];
    }

    /** `BuildMI(b, ...)`: the new instruction goes at the end of the block. */
    method Append(b: BlockId, mi: Instr)
      requires Valid() && b < |code|
      modifies this
      ensures Valid() && layout == old(layout) && succs == old(succs)
      ensures code == old(code)[b := old(code[b]) + [mi]]
    {
      code := code[b := code[b] + [mi]];
    }

    /** `BuildMI(*b, b->begin(), ...)`: the new instruction goes at the start of the block. */
    method Prepend(b: BlockId, mi: Instr)
      requires Valid() && b < |code|
      modifies this
      ensures Valid() && layout == old(layout) && succs == old(succs)
      ensures code == old(code)[b := [mi] + old(code[b])]
    {
      code := code[b := [mi] + code[b]];
    }

    /** eraseFromParent */
    method EraseAt(b: BlockId, i: nat)
      requires Valid() && b < |code| && i < |code[b]|
      modifies this
      ensures Valid() && layout == old(layout) && succs == old(succs)
      ensures code == old(code)[b := old(code[b][..i]) + old(code[b][i + 1..])]
    {
      code := code[b := code[b][..i] + code[b][i + 1..]];
    }

    /**
     * The first half of the inserter: two new blocks after the block laid out
     * at `pos`, the instructions after the one at `at` moved to the second
     * of them, and the successors moved along with the PHI update.
     */
    method SplitAfter(pos: nat, at: nat) returns (copy0: BlockId, join: BlockId)
      requires Valid() && pos < |layout| && at < |code[layout[pos]]|
      modifies this
      ensures Valid()
      ensures copy0 == |old(code)| && join == copy0 + 1 && |code| == join + 1
      ensures layout == old(layout[..pos + 1]) + [copy0, join] + old(layout[pos + 1..])
      ensures var bb := old(layout[pos]);
              code[bb] == (if bb in old(succs[bb]) then UpdatePhis(old(code[bb][..at + 1]), bb, join) else old(code[bb][..at + 1])) &&
              code[copy0] == [] && code[join] == old(code[bb][at + 1..]) &&
              succs[bb] == {} && succs[copy0] == {} && succs[join] == old(succs[bb])
      ensures forall b :: 0 <= b < |old(code)| && b != old(layout[pos]) ==>
                succs[b] == old(succs[b]) &&
                code[b] == (if b in old(succs[layout[pos]]) then UpdatePhis(old(code[b]), old(layout[pos]), join) else old(code[b]))
    {
      var bb := layout[pos];
      ghost var oldSuccs := succs[bb];
      copy0, join := CreateBlocksAfter(pos);
      assert join !in oldSuccs && copy0 !in oldSuccs && bb != join && bb != copy0;
      SpliceTail(bb, at, join);
      TransferSuccessors(bb, join);
    }

    /**
     * The second half of the inserter, for the select at index `at` of block
     * `bb`: `bb` branches to `join` when the condition holds and falls
     * through to `copy0`, which falls through to `join`; `join` starts with
     * the PHI; the select is erased.
     */
    method WireDiamond(bb: BlockId, at: nat, copy0: BlockId, join: BlockId)
      requires Valid() && bb < |code| && copy0 < |code| && join < |code|
      requires bb != copy0 && bb != join && copy0 != join
      requires at < |code[bb]| && IsSelect(code[bb][at])
      modifies this
      ensures Valid() && layout == old(layout)
      ensures code == old(code)[bb := old(code[bb][..at]) + old(code[bb][at + 1..]) + [BranchToJoin(old(code[bb][at]), join)]]
                               [join := [JoinPhi(old(code[bb][at]), bb, copy0)] + old(code[join])]
      ensures succs == old(succs)[bb := old(succs[bb]) + {copy0, join}][copy0 := old(succs[copy0]) + {join}]
    {
      var mi := code[bb][at];
      ghost var before, out := code[bb], succs[bb];
      AddSuccessor(bb, copy0);
      AddSuccessor(bb, join);
      assert succs[bb] == out + {copy0, join};
      Append(bb, BranchToJoin(mi, join));
      AddSuccessor(copy0, join);
      Prepend(join, JoinPhi(mi, bb, copy0));
      EraseAt(bb, at);
      assert code[bb] == before[..at] + before[at + 1..] + [BranchToJoin(mi, join)] by {
        assert (before + [BranchToJoin(mi, join)])[..at] == before[..at];
        assert (before + [BranchToJoin(mi, join)])[at + 1..] == before[at + 1..] + [BranchToJoin(mi, join)];
      }
    }

    /**
     * EmitInstrWithCustomInserter for the Select8 at index `at` of the
     * block laid out at `pos`: two new blocks right after it, the
     * instructions after the select moved to the join block together with
     * the old block's successors, a branch to the join block and the
     * fall-through edge, the PHI, and the select erased. Answers the join
     * block.
     */
    method InsertSelectDiamond(pos: nat, at: nat) returns (join: BlockId)
      requires Valid() && pos < |layout|
      requires at < |code[layout[pos]]| && IsSelect(code[layout[pos]][at])
      modifies this
      ensures Valid()
      ensures join == |old(code)| + 1 && |code| == join + 1
      ensures layout == old(layout[..pos + 1]) + [join - 1, join] + old(layout[pos + 1..])
      ensures code[old(layout[pos])] ==
                (if old(layout[pos]) in old(succs[layout[pos]])
                 then UpdatePhis(old(code[layout[pos]][..at]), old(layout[pos]), join)
                 else old(code[layout[pos]][..at])) + [BranchToJoin(old(code[layout[pos]][at]), join)]
      ensures code[join - 1] == []
      ensures code[join] == [JoinPhi(old(code[layout[pos]][at]), old(layout[pos]), join - 1)] + old(code[layout[pos]][at + 1..])
      ensures succs[old(layout[pos])] == {join - 1, join} && succs[join - 1] == {join} && succs[join] == old(succs[layout[pos]])
      ensures forall b :: 0 <= b < |old(code)| && b != old(layout[pos]) ==>
                succs[b] == old(succs[b]) &&
                code[b] == (if b in old(succs[layout[pos]]) then UpdatePhis(old(code[b]), old(layout[pos]), join) else old(code[b]))
    {
      var bb := layout[pos];
      assert bb < |code|;
      ghost var layout0, code0 := layout, code;
      var mi := code[bb][at];
      ghost var head := code[bb][..at];
      ghost var split := if bb in succs[bb] then UpdatePhis(head + [mi], bb, |code| + 1) else head + [mi];
      assert code[bb][..at + 1] == head + [mi];
      var copy0;
      copy0, join := SplitAfter(pos, at);
      assert code[bb] == split && |split| == at + 1 && split[at] == mi by {
        if bb in old(succs[bb]) {
          UpdatePhisAt(head + [mi], bb, join, at);
        }
      }
      ghost var mid, midCode := succs, code;
      assert midCode[join] == code0[bb][at + 1..] && midCode[copy0] == [];
      ghost var laidOut := layout0[..pos + 1] + [copy0, join] + layout0[pos + 1..];
      assert layout == laidOut;
      WireDiamond(bb, at, copy0, join);
      assert layout == laidOut;
      assert succs[bb] == {copy0, join} by {
        assert succs[bb] == mid[bb] + {copy0, join} && mid[bb] == {};
      }
      assert succs[copy0] == {join} && succs[join] == mid[join];
      assert code[join] == [JoinPhi(mi, bb, copy0)] + midCode[join] && code[copy0] == [];
      assert split[..at] == (if old(bb in succs[bb]) then UpdatePhis(head, bb, join) else head) by {
        assert (head + [mi])[..|head|] == head;
      }
    }
  }
}
