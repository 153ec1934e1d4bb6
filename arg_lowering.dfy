/**
 * Argument and return-value lowering (TriCoreISelLowering.cpp):
 * LowerFormalArguments, LowerCall, LowerCallResult and LowerReturn, as far
 * as they decide where each value lives. The locations the generated
 * calling convention (CC_TriCore / RetCC_TriCore) proposes are inputs; the
 * SelectionDAG nodes built around them are left out.
 */
module ArgLowering {
  import opened Wrappers
  import opened Bits
  import opened Registers
  import opened CallConvHook

  /** The IR type of a formal parameter, as far as the hook looks at it. */
  datatype ParamType = PointerParam | ScalarParam(bits: nat)

  /**
   * A location proposed by the calling convention (CCValAssign). A stack
   * location records whether its value type is i64, which is the case for
   * a 64-bit parameter and for each part of a wider one the convention splits.
   */
  datatype Loc = RegLoc(reg: Reg) | MemLoc(offset: nat, wide: bool)

  /** How a formal parameter is materialised in the function body. */
  datatype ArgValue =
    | FromReg(phys: Reg, vclass: RegClass)   // CopyFromReg of a fresh virtual register of that class
    | FromStack(size: nat, offset: nat)      // load from a fixed stack object

  datatype LowerError = VarArgNotSupported | ReturnNotInRegister | ReadPastEndOfLog | ArgumentPastLastParameter

  /** Pointer -> address registers, 64-bit scalar -> extended registers, else data registers. */
  function ClassOf(p: ParamType): RegClass
  {
    match p
    case PointerParam => AddrClass
    case ScalarParam(bits) => if bits == 64 then ExtClass else DataClass
  }

  /** Size of the fixed stack object for a stack location: 8 bytes when its value type is i64, else 4. */
  function StackSize(loc: Loc): (n: nat)
    requires loc.MemLoc?
    ensures n == 8 || n == 4
    ensures n == 8 <==> loc.wide
  {
    if loc.wide then 8 else 4
  }

  // ---------------------------------------------------------------------
  // Formal arguments: reference definition
  // ---------------------------------------------------------------------

  /**
   * Where one parameter goes given the log so far: the hook's register of
   * the parameter's class when there is one, otherwise the location the
   * calling convention proposed (a register, or a stack slot).
   */
  function Placement(name: string, p: ParamType, loc: Loc, log: seq<RegInfo>): ArgValue
  {
    var cand := NextArgReg(log, name, ClassOf(p));
    if cand != UnknownReg then FromReg(cand, ClassOf(p))
    else match loc
      case RegLoc(r) => FromReg(r, ClassOf(p))
      case MemLoc(off, _) => FromStack(StackSize(loc), off)
  }

  /** A register-placed parameter logs one entry; a stack-placed one none. */
  function LogEntryOf(name: string, p: ParamType, v: ArgValue): seq<RegInfo>
  {
    match v
    case FromReg(r, _) => [RegInfo(name, r, p == PointerParam)]
    case FromStack(_, _) => []
  }

  /** The values bound to the parameters lowered so far, and the log they left. */
  datatype FormalState = FormalState(vals: seq<ArgValue>, log: seq<RegInfo>)

  /**
   * What LowerFormalArguments has produced after the first k locations.
   * Location i is classified by IR parameter i, the one at the hook's
   * argument cursor, which advances once per location: a parameter the
   * calling convention splits over several locations shifts the classes of
   * the locations after it.
   */
  function FormalArgs(name: string, ps: seq<ParamType>, locs: seq<Loc>, k: nat): (st: FormalState)
    requires k <= |ps| && k <= |locs|
    ensures |st.vals| == k && |st.log| <= k
  {
    if k == 0 then FormalState([], [])
    else
      var st := FormalArgs(name, ps, locs, k - 1);
      var v := Placement(name, ps[k - 1], locs[k - 1], st.log);
      FormalState(st.vals + [v], st.log + LogEntryOf(name, ps[k - 1], v))
  }

  // ---------------------------------------------------------------------
  // Formal arguments: what the reference definition guarantees
  // ---------------------------------------------------------------------

  /** Number of parameters of class c among the first k. */
  function ClassCount(ps: seq<ParamType>, k: nat, c: RegClass): (n: nat)
    requires k <= |ps|
    ensures n <= k
  {
    if k == 0 then 0
    else ClassCount(ps, k - 1, c) + (if ClassOf(ps[k - 1]) == c then 1 else 0)
  }

  /** Each of the first k parameters found a free register of its class in the hook's range. */
  predicate AllHooked(ps: seq<ParamType>, k: nat)
    requires k <= |ps|
  {
    k == 0 ||
    (AllHooked(ps, k - 1) && ClassCount(ps, k - 1, ClassOf(ps[k - 1])) < ArgRegCount(ClassOf(ps[k - 1])))
  }

  /** The entry the hook logs for parameter k when all before it came from the hook. */
  function HookEntry(name: string, ps: seq<ParamType>, k: nat): RegInfo
    requires k < |ps|
  {
    var c := ClassOf(ps[k]);
    RegInfo(name, FirstArgReg(c) + ClassCount(ps, k, c), ps[k] == PointerParam)
  }

  /** The log the first k parameters leave when all of them came from the hook. */
  function CanonicalLog(name: string, ps: seq<ParamType>, k: nat): (log: seq<RegInfo>)
    requires k <= |ps|
    ensures |log| == k
  {
    if k == 0 then [] else CanonicalLog(name, ps, k - 1) + [HookEntry(name, ps, k - 1)]
  }

  lemma InRangeIffSameClass(c: RegClass, c': RegClass, r: int)
    requires InArgRange(c', r)
    ensures InArgRange(c, r) <==> c == c'
  {
    if InArgRange(c, r) {
      ArgRangesDisjoint(c, c', r);
    }
  }

  /** Appending an entry of class c' extends the class-c register list iff c' == c. */
  lemma AppendClassEntry(log: seq<RegInfo>, e: RegInfo, name: string, c: RegClass, c': RegClass)
    requires e.fName == name && InArgRange(c', e.reg)
    ensures RegsInRange(log + [e], name, FirstArgReg(c), LastArgReg(c))
            == RegsInRange(log, name, FirstArgReg(c), LastArgReg(c)) + (if c' == c then [e.reg] else [])
  {
    AppendEntry(log, e, name, FirstArgReg(c), LastArgReg(c));
    InRangeIffSameClass(c, c', e.reg);
  }

  lemma {:induction false} AllHookedPrefix(ps: seq<ParamType>, k: nat, j: nat)
    requires k <= |ps| && AllHooked(ps, k) && j <= k
    ensures AllHooked(ps, j)
  {
    if j < k {
      AllHookedPrefix(ps, k - 1, j);
    }
  }

  /** In a canonical log the registers of class c are exactly the first ClassCount ids of its range, in order. */
  lemma {:induction false} CanonicalRegsInRange(name: string, ps: seq<ParamType>, k: nat, c: RegClass)
    requires k <= |ps| && AllHooked(ps, k)
    ensures var regs := RegsInRange(CanonicalLog(name, ps, k), name, FirstArgReg(c), LastArgReg(c));
            |regs| == ClassCount(ps, k, c) && forall j :: 0 <= j < |regs| ==> regs[j] == FirstArgReg(c) + j
  {
    if k > 0 {
      CanonicalRegsInRange(name, ps, k - 1, c);
      AppendClassEntry(CanonicalLog(name, ps, k - 1), HookEntry(name, ps, k - 1), name, c, ClassOf(ps[k - 1]));
    }
  }

  /**
   * When every parameter so far came from the hook, the hook hands out the
   * next id of the class's range, or the sentinel once the range is used up.
   */
  lemma CanonicalNextReg(name: string, ps: seq<ParamType>, k: nat, c: RegClass)
    requires k <= |ps| && AllHooked(ps, k)
    ensures ClassCount(ps, k, c) <= ArgRegCount(c)
    ensures NextArgReg(CanonicalLog(name, ps, k), name, c)
            == if ClassCount(ps, k, c) < ArgRegCount(c) then FirstArgReg(c) + ClassCount(ps, k, c) else UnknownReg
  {
    CanonicalRegsInRange(name, ps, k, c);
    NextRegAfterPrefix(CanonicalLog(name, ps, k), name, FirstArgReg(c), LastArgReg(c));
  }

  /** When the logged registers of a range are its first ids in order, the next one follows them. */
  lemma NextRegAfterPrefix(log: seq<RegInfo>, name: string, lo: int, hi: int)
    requires lo <= hi < UnknownReg
    requires var regs := RegsInRange(log, name, lo, hi);
             forall j :: 0 <= j < |regs| ==> regs[j] == lo + j
    ensures |RegsInRange(log, name, lo, hi)| <= hi - lo + 1
    ensures NextReg(log, name, lo, hi)
            == if |RegsInRange(log, name, lo, hi)| < hi - lo + 1 then lo + |RegsInRange(log, name, lo, hi)| else UnknownReg
  {
    var regs := RegsInRange(log, name, lo, hi);
    if |regs| > 0 {
      assert regs[|regs| - 1] == lo + |regs| - 1 <= hi;
    }
  }

  /** With a canonical log and a free register of its class, parameter k takes the hook's register. */
  lemma PlacementWhenHooked(name: string, ps: seq<ParamType>, k: nat, loc: Loc)
    requires k < |ps| && AllHooked(ps, k + 1)
    ensures Placement(name, ps[k], loc, CanonicalLog(name, ps, k)) == FromReg(HookEntry(name, ps, k).reg, ClassOf(ps[k]))
    ensures LogEntryOf(name, ps[k], Placement(name, ps[k], loc, CanonicalLog(name, ps, k))) == [HookEntry(name, ps, k)]
  {
    CanonicalNextReg(name, ps, k, ClassOf(ps[k]));
  }

  /** While every parameter came from the hook, the log is the canonical one. */
  lemma {:induction false} HookedLogIsCanonical(name: string, ps: seq<ParamType>, locs: seq<Loc>, k: nat)
    requires k <= |ps| && k <= |locs| && AllHooked(ps, k)
    ensures FormalArgs(name, ps, locs, k).log == CanonicalLog(name, ps, k)
  {
    if k > 0 {
      HookedLogIsCanonical(name, ps, locs, k - 1);
      PlacementWhenHooked(name, ps, k - 1, locs[k - 1]);
    }
  }

  /** The value of parameter i depends only on the log the parameters before it left. */
  lemma {:induction false} FormalArgValueAt(name: string, ps: seq<ParamType>, locs: seq<Loc>, k: nat, i: nat)
    requires i < k <= |ps| && k <= |locs|
    ensures FormalArgs(name, ps, locs, k).vals[i]
            == Placement(name, ps[i], locs[i], FormalArgs(name, ps, locs, i).log)
  {
    FormalArgsKeepsValue(name, ps, locs, k, i);
  }

  /** Lowering more parameters does not change the value bound to an earlier one. */
  lemma {:induction false} FormalArgsKeepsValue(name: string, ps: seq<ParamType>, locs: seq<Loc>, k: nat, i: nat)
    requires i < k <= |ps| && k <= |locs|
    ensures FormalArgs(name, ps, locs, k).vals[i] == FormalArgs(name, ps, locs, i + 1).vals[i]
  {
    if i < k - 1 {
      FormalArgsSnoc(name, ps, locs, k);
      FormalArgsKeepsValue(name, ps, locs, k - 1, i);
    }
  }

  /**
   * The (j+1)-th pointer / 64-bit / other parameter lands in the (j+1)-th
   * register of A4..A7 / E4..E6 / D4..D7, as long as every parameter up to
   * and including it found a register of its class.
   */
  lemma FormalArgInHookRegister(name: string, ps: seq<ParamType>, locs: seq<Loc>, k: nat, i: nat)
    requires i < k <= |ps| && k <= |locs| && AllHooked(ps, i + 1)
    ensures var c := ClassOf(ps[i]);
            FormalArgs(name, ps, locs, k).vals[i] == FromReg(FirstArgReg(c) + ClassCount(ps, i, c), c)
  {
    FormalArgValueAt(name, ps, locs, k, i);
    HookedLogIsCanonical(name, ps, locs, i);
    PlacementWhenHooked(name, ps, i, locs[i]);
  }

  /** A stack-placed location gets the proposed slot and an 8-byte object if its value type is i64, else 4 bytes. */
  lemma FormalArgOnStack(name: string, ps: seq<ParamType>, locs: seq<Loc>, k: nat, i: nat)
    requires i < k <= |ps| && k <= |locs|
    requires FormalArgs(name, ps, locs, k).vals[i].FromStack?
    ensures locs[i].MemLoc?
    ensures FormalArgs(name, ps, locs, k).vals[i]
            == FromStack(if locs[i].wide then 8 else 4, locs[i].offset)
  {
    FormalArgValueAt(name, ps, locs, k, i);
  }

  /** When every parameter got a register, each logged one entry, flagged as a pointer iff it is one. */
  lemma {:induction false} FormalArgsLogEntries(name: string, ps: seq<ParamType>, locs: seq<Loc>, k: nat)
    requires k <= |ps| && k <= |locs|
    requires forall j :: 0 <= j < k ==> FormalArgs(name, ps, locs, k).vals[j].FromReg?
    ensures |FormalArgs(name, ps, locs, k).log| == k
    ensures forall j :: 0 <= j < k ==>
              FormalArgs(name, ps, locs, k).log[j]
              == RegInfo(name, FormalArgs(name, ps, locs, k).vals[j].phys, ps[j] == PointerParam)
  {
    if k > 0 {
      var prev := FormalArgs(name, ps, locs, k - 1);
      var st := FormalArgs(name, ps, locs, k);
      FormalArgsSnoc(name, ps, locs, k);
      var v := st.vals[k - 1];
      assert st.vals == prev.vals + [v];
      forall j | 0 <= j < k - 1
        ensures prev.vals[j].FromReg?
      {
        assert st.vals[j] == prev.vals[j];
      }
      FormalArgsLogEntries(name, ps, locs, k - 1);
      var e := RegInfo(name, v.phys, ps[k - 1] == PointerParam);
      assert st.log == prev.log + [e];
      forall j | 0 <= j < k
        ensures st.log[j] == RegInfo(name, st.vals[j].phys, ps[j] == PointerParam)
      {
        if j < k - 1 {
          assert st.log[j] == prev.log[j];
          assert st.vals[j] == prev.vals[j];
        }
      }
    }
  }

  /** One more parameter appends one value and its log entries. */
  lemma FormalArgsSnoc(name: string, ps: seq<ParamType>, locs: seq<Loc>, k: nat)
    requires 0 < k <= |ps| && k <= |locs|
    ensures var prev := FormalArgs(name, ps, locs, k - 1);
            var st := FormalArgs(name, ps, locs, k);
            st.vals == prev.vals + [st.vals[k - 1]] &&
            st.log == prev.log + LogEntryOf(name, ps[k - 1], st.vals[k - 1])
  {
  }

  lemma {:induction false} CountAllData(ps: seq<ParamType>, k: nat)
    requires k <= |ps|
    requires forall j :: 0 <= j < k ==> ps[j] == ScalarParam(32)
    ensures ClassCount(ps, k, DataClass) == k
    ensures k <= 4 ==> AllHooked(ps, k)
  {
    if k > 0 {
      CountAllData(ps, k - 1);
    }
  }

  /** Five int parameters: the first four take D4..D7, the fifth the proposed location. */
  lemma FifthDataParamFallsBack(ps: seq<ParamType>, locs: seq<Loc>)
    requires |ps| == |locs| == 5
    requires forall j :: 0 <= j < 5 ==> ps[j] == ScalarParam(32)
    ensures forall j :: 0 <= j < 4 ==> FormalArgs("g", ps, locs, 5).vals[j] == FromReg(D(4 + j), DataClass)
    ensures FormalArgs("g", ps, locs, 5).vals[4]
            == match locs[4] case RegLoc(r) => FromReg(r, DataClass) case MemLoc(off, wide) => FromStack(if wide then 8 else 4, off)
  {
    forall j | 0 <= j < 4
      ensures FormalArgs("g", ps, locs, 5).vals[j] == FromReg(D(4 + j), DataClass)
    {
      CountAllData(ps, j);
      CountAllData(ps, j + 1);
      FormalArgInHookRegister("g", ps, locs, 5, j);
    }
    CountAllData(ps, 4);
    FormalArgValueAt("g", ps, locs, 5, 4);
    HookedLogIsCanonical("g", ps, locs, 4);
    CanonicalNextReg("g", ps, 4, DataClass);
  }

  /**
   * g(int, int, int, int, __int128): with D4..D7 taken, the first i64 part
   * of the i128 keeps its stack location, and the object is 8 bytes because
   * the location's value type is i64, whatever the parameter's own width.
   */
  lemma SplitPartOnStackTakesEightBytes(locs: seq<Loc>)
    requires |locs| == 5 && locs[4].MemLoc? && locs[4].wide
    ensures FormalArgs("g", [ScalarParam(32), ScalarParam(32), ScalarParam(32), ScalarParam(32), ScalarParam(128)], locs, 5).vals[4]
            == FromStack(8, locs[4].offset)
  {
    var ps := [ScalarParam(32), ScalarParam(32), ScalarParam(32), ScalarParam(32), ScalarParam(128)];
    CountAllData(ps, 4);
    FormalArgValueAt("g", ps, locs, 5, 4);
    HookedLogIsCanonical("g", ps, locs, 4);
    CanonicalNextReg("g", ps, 4, DataClass);
  }

  /** The parameter types of f(int *p, long long x, int y). */
  function PtrLongInt(): (ps: seq<ParamType>)
    ensures ps == [PointerParam, ScalarParam(64), ScalarParam(32)]
  {
    [PointerParam, ScalarParam(64), ScalarParam(32)]
  }

  lemma PtrLongIntHooked()
    ensures var ps := PtrLongInt();
            AllHooked(ps, 3) &&
            ClassCount(ps, 0, AddrClass) == 0 && ClassCount(ps, 1, ExtClass) == 0 && ClassCount(ps, 2, DataClass) == 0
  {
    var ps := PtrLongInt();
    assert ClassCount(ps, 1, ExtClass) == 0 && ClassCount(ps, 2, DataClass) == 0;
    assert AllHooked(ps, 1) && AllHooked(ps, 2);
  }

  /**
   * f(int *p, long long x, int y): p takes A4, x takes E4 and y takes D4.
   * The data scan looks at D4..D7 only and does not see the logged E4, so y
   * is given the even half of x's register pair.
   */
  lemma DataParamOverlapsExtPair(locs: seq<Loc>)
    requires |locs| == 3
    ensures FormalArgs("f", PtrLongInt(), locs, 3).vals
            == [FromReg(A(4), AddrClass), FromReg(E(4), ExtClass), FromReg(D(4), DataClass)]
    ensures EvenSub(E(4)) == D(4)
  {
    var vals := FormalArgs("f", PtrLongInt(), locs, 3).vals;
    PtrLongIntAt(locs, 0);
    PtrLongIntAt(locs, 1);
    PtrLongIntAt(locs, 2);
    assert vals == [vals[0], vals[1], vals[2]];
  }

  lemma PtrLongIntAt(locs: seq<Loc>, i: nat)
    requires |locs| == 3 && i < 3
    ensures FormalArgs("f", PtrLongInt(), locs, 3).vals[i]
            == [FromReg(A(4), AddrClass), FromReg(E(4), ExtClass), FromReg(D(4), DataClass)][i]
  {
    PtrLongIntHooked();
    FormalArgInHookRegister("f", PtrLongInt(), locs, 3, i);
  }

  // ---------------------------------------------------------------------
  // LowerFormalArguments
  // ---------------------------------------------------------------------

  /**
   * One iteration of LowerFormalArguments' loop: classify parameter p, take
   * the hook's next register of its class when there is one, otherwise the
   * proposed location; a register-placed parameter is logged and counted.
   */
  method LowerFormalArgument(hook: ConventionHook, funName: string, p: ParamType, proposed: Loc)
    returns (v: ArgValue)
    requires hook.Valid()
    modifies hook`regRecord, hook`curPos
    ensures hook.Valid()
    ensures v == Placement(funName, p, proposed, old(hook.regRecord))
    ensures hook.regRecord == old(hook.regRecord) + LogEntryOf(funName, p, v)
    ensures hook.curPos == if v.FromReg? then Uint32(old(hook.curPos) + 1) else old(hook.curPos)
  {
    var c := ClassOf(p);
    var loc := proposed;
    var cand := hook.GetNextRegs(funName, c);
    if cand != UnknownReg {
      loc := RegLoc(cand);
    }
    if loc.RegLoc? {
      hook.SaveRegRecord(funName, loc.reg, p == PointerParam);
      hook.Bump();
      v := FromReg(loc.reg, c);
    } else {
      v := FromStack(StackSize(loc), loc.offset);
    }
  }

  /** The loop body at location i: lower it against parameter i, then advance the argument cursor. */
  method LowerFormalAt(hook: ConventionHook, funName: string, params: seq<ParamType>, locs: seq<Loc>, i: nat,
                       ghost vals: seq<ArgValue>)
    returns (v: ArgValue)
    requires i < |params| && i < |locs| && IsUint32(|locs|)
    requires hook.Valid() && hook.curArg == i
    requires FormalState(vals, hook.regRecord) == FormalArgs(funName, params, locs, i)
    modifies hook`regRecord, hook`curPos, hook`curArg
    ensures hook.Valid() && hook.curArg == i + 1
    ensures FormalState(vals + [v], hook.regRecord) == FormalArgs(funName, params, locs, i + 1)
  {
    v := LowerFormalArgument(hook, funName, params[hook.curArg], locs[i]);
    FormalArgsSnoc(funName, params, locs, i + 1);
    hook.IncrArgPos();
  }

  /**
   * LowerFormalArguments: resets the hook, then walks the locations the
   * calling convention assigned, classifying each by the IR parameter at
   * the hook's argument cursor. With more locations than IR parameters the
   * cursor passes the last parameter, which the source dereferences
   * regardless; the model stops there with ArgumentPastLastParameter.
   * Variadic functions are asserted away by the source and are not an
   * input here.
   */
  method LowerFormalArguments(hook: ConventionHook, funName: string, params: seq<ParamType>, locs: seq<Loc>)
    returns (r: Result<seq<ArgValue>, LowerError>)
    requires IsUint32(|locs|)
    modifies hook
    ensures hook.Valid()
    ensures |locs| <= |params| ==>
              r == Success(FormalArgs(funName, params, locs, |locs|).vals) &&
              hook.regRecord == FormalArgs(funName, params, locs, |locs|).log &&
              hook.curPos == 0 && hook.curArg == |locs|
    ensures |locs| > |params| ==>
              r == Failure(ArgumentPastLastParameter) &&
              hook.regRecord == FormalArgs(funName, params, locs, |params|).log
  {
    hook.Init();
    var inVals := [];
    var i := 0;
    while i < |locs| && hook.curArg < |params|
      invariant 0 <= i <= |locs| && i <= |params|
      invariant hook.Valid() && hook.curArg == i
      invariant FormalState(inVals, hook.regRecord) == FormalArgs(funName, params, locs, i)
    {
      var v := LowerFormalAt(hook, funName, params, locs, i, inVals);
      inVals := inVals + [v];
      i := i + 1;
    }
    if i < |locs| {
      return Failure(ArgumentPastLastParameter);
    }
    hook.SetCurPos(0);
    r := Success(inVals);
  }

  /**
   * A parameter split over two locations: the second half is classified by
   * the pointer parameter after it and takes A4, and the pointer's own
   * location is past the last parameter.
   */
  lemma SplitParameterShiftsClasses(locs: seq<Loc>)
    requires |locs| == 3
    ensures var ps := [ScalarParam(128), PointerParam];
            FormalArgs("s", ps, locs, 2).vals == [FromReg(D(4), DataClass), FromReg(A(4), AddrClass)]
  {
    var ps := [ScalarParam(128), PointerParam];
    assert ClassCount(ps, 0, DataClass) == 0 && ClassCount(ps, 1, AddrClass) == 0;
    assert AllHooked(ps, 2);
    FormalArgInHookRegister("s", ps, locs, 2, 0);
    FormalArgInHookRegister("s", ps, locs, 2, 1);
  }

  // ---------------------------------------------------------------------
  // LowerCall
  // ---------------------------------------------------------------------

  /** A CopyToReg of argument `arg` into `reg` before the call. */
  datatype RegCopy = RegCopy(reg: Reg, arg: nat)
  /** A store of argument `arg` to A10 + offset before the call. */
  datatype StackStore = StackStore(offset: nat, arg: nat)

  function RegCopies(locs: seq<Loc>): seq<RegCopy>
  {
    if |locs| == 0 then []
    else
      var n := |locs| - 1;
      RegCopies(locs[..n]) + (match locs[n] case RegLoc(r) => [RegCopy(r, n)] case MemLoc(_, _) => [])
  }

  function StackStores(locs: seq<Loc>): seq<StackStore>
  {
    if |locs| == 0 then []
    else
      var n := |locs| - 1;
      StackStores(locs[..n]) + (match locs[n] case MemLoc(off, _) => [StackStore(off, n)] case RegLoc(_) => [])
  }

  /**
   * Every argument is passed exactly once: the register copies and the
   * stack stores together account for each argument, in order, each with
   * its location.
   */
  lemma {:induction false} CopiesAndStoresPartition(locs: seq<Loc>)
    ensures |RegCopies(locs)| + |StackStores(locs)| == |locs|
    ensures forall k :: 0 <= k < |RegCopies(locs)| ==>
              RegCopies(locs)[k].arg < |locs| && locs[RegCopies(locs)[k].arg] == RegLoc(RegCopies(locs)[k].reg)
    ensures forall k :: 0 <= k < |StackStores(locs)| ==>
              StackStores(locs)[k].arg < |locs| && locs[StackStores(locs)[k].arg].MemLoc? && locs[StackStores(locs)[k].arg].offset == StackStores(locs)[k].offset
    ensures forall k, k' :: 0 <= k < k' < |RegCopies(locs)| ==> RegCopies(locs)[k].arg < RegCopies(locs)[k'].arg
    ensures forall k, k' :: 0 <= k < k' < |StackStores(locs)| ==> StackStores(locs)[k].arg < StackStores(locs)[k'].arg
  {
    if |locs| > 0 {
      var n := |locs| - 1;
      CopiesAndStoresPartition(locs[..n]);
    }
  }

  /**
   * The locations of a call's arguments once the recorded registers are
   * reused: argument i below the number of entries logged for the callee
   * goes to the register of log entry first + i.
   */
  function ReusedLocs(log: seq<RegInfo>, callee: string, argLocs: seq<Loc>): (ls: seq<Loc>)
    ensures |ls| == |argLocs|
  {
    seq(|argLocs|, k requires 0 <= k < |argLocs| => ReusedLoc(log, callee, argLocs[k], k))
  }

  /** The location of argument i: the recorded register, or the proposed location. */
  function ReusedLoc(log: seq<RegInfo>, callee: string, proposed: Loc, i: nat): Loc
  {
    if i < CountOf(log, callee) then
      FirstPlusCountWithinLog(log, callee);
      CountZeroIffNotFound(log, callee);
      RegLoc(log[FirstIndex(log, callee) + i].reg)
    else proposed
  }

  lemma ReusedLocFromLog(log: seq<RegInfo>, callee: string, proposed: Loc, i: nat)
    requires i < CountOf(log, callee)
    ensures 0 <= FirstIndex(log, callee) && FirstIndex(log, callee) + i < |log|
    ensures ReusedLoc(log, callee, proposed, i) == RegLoc(log[FirstIndex(log, callee) + i].reg)
  {
    CountZeroIffNotFound(log, callee);
    assert FirstIndex(log, callee) != -1;
    FirstPlusCountWithinLog(log, callee);
  }

  /** One iteration of LowerCall's argument loop, on the ghost list of chosen locations. */
  lemma PlacedStep(log: seq<RegInfo>, callee: string, argLocs: seq<Loc>, placed: seq<Loc>, i: nat, loc: Loc)
    requires i < |argLocs| && placed == ReusedLocs(log, callee, argLocs)[..i]
    requires loc == ReusedLoc(log, callee, argLocs[i], i)
    ensures placed + [loc] == ReusedLocs(log, callee, argLocs)[..i + 1]
    ensures RegCopies(placed + [loc]) == RegCopies(placed) + (match loc case RegLoc(r) => [RegCopy(r, i)] case MemLoc(_, _) => [])
    ensures StackStores(placed + [loc]) == StackStores(placed) + (match loc case MemLoc(off, _) => [StackStore(off, i)] case RegLoc(_) => [])
  {
    PlacementSnoc(placed, loc);
  }

  lemma PlacementSnoc(ls: seq<Loc>, l: Loc)
    ensures RegCopies(ls + [l]) == RegCopies(ls) + (match l case RegLoc(r) => [RegCopy(r, |ls|)] case MemLoc(_, _) => [])
    ensures StackStores(ls + [l]) == StackStores(ls) + (match l case MemLoc(off, _) => [StackStore(off, |ls|)] case RegLoc(_) => [])
  {
    assert (ls + [l])[..|ls|] == ls;
  }

  lemma ReusedLocsAt(log: seq<RegInfo>, callee: string, argLocs: seq<Loc>, k: nat)
    requires k < |argLocs|
    ensures k < CountOf(log, callee) ==>
              0 <= FirstIndex(log, callee) && FirstIndex(log, callee) + k < |log| &&
              ReusedLocs(log, callee, argLocs)[k] == RegLoc(log[FirstIndex(log, callee) + k].reg)
    ensures k >= CountOf(log, callee) ==> ReusedLocs(log, callee, argLocs)[k] == argLocs[k]
  {
    if k < CountOf(log, callee) {
      ReusedLocFromLog(log, callee, argLocs[k], k);
    }
  }

  /**
   * The log holds only the entries of the function being lowered (the hook
   * is reset before its parameters and again at each call), so a call can
   * find entries only for that function itself: on its first call to
   * itself, when every parameter was given a register, each leading
   * argument goes to the register the parameter of the same position was
   * given.
   */
  lemma CallReusesDefinitionRegisters(callee: string, ps: seq<ParamType>, locs: seq<Loc>,
                                      argLocs: seq<Loc>, k: nat)
    requires |ps| == |locs| && k < |ps| && k < |argLocs|
    requires forall j :: 0 <= j < |ps| ==> FormalArgs(callee, ps, locs, |ps|).vals[j].FromReg?
    ensures var st := FormalArgs(callee, ps, locs, |ps|);
            ReusedLocs(st.log, callee, argLocs)[k] == RegLoc(st.vals[k].phys)
  {
    var log := FormalArgs(callee, ps, locs, |ps|).log;
    FormalArgsLogEntries(callee, ps, locs, |ps|);
    assert log[0].fName == callee;
    assert FirstIndex(log, callee) == 0;
    AllOneName(log, callee);
    ReusedLocsAt(log, callee, argLocs, k);
  }

  /** Every entry a function's parameters log carries that function's name. */
  lemma {:induction false} FormalArgsLogNamed(name: string, ps: seq<ParamType>, locs: seq<Loc>, k: nat)
    requires k <= |ps| && k <= |locs|
    ensures forall e :: e in FormalArgs(name, ps, locs, k).log ==> e.fName == name
  {
    if k > 0 {
      FormalArgsLogNamed(name, ps, locs, k - 1);
      FormalArgsSnoc(name, ps, locs, k);
      var st := FormalArgs(name, ps, locs, k);
      var added := LogEntryOf(name, ps[k - 1], st.vals[k - 1]);
      assert forall j :: 0 <= j < |added| ==> added[j].fName == name;
    }
  }

  /**
   * A call from the function just lowered to any other function finds no
   * entries: every argument keeps the location the calling convention
   * proposed, whatever registers the callee's own definition was given.
   */
  lemma CallToOtherFunctionKeepsProposal(caller: string, ps: seq<ParamType>, locs: seq<Loc>, k: nat,
                                         callee: string, argLocs: seq<Loc>)
    requires k <= |ps| && k <= |locs| && callee != caller
    ensures ReusedLocs(FormalArgs(caller, ps, locs, k).log, callee, argLocs) == argLocs
  {
    var log := FormalArgs(caller, ps, locs, k).log;
    FormalArgsLogNamed(caller, ps, locs, k);
    forall j | 0 <= j < |log|
      ensures log[j].fName != callee
    {
      assert log[j] in log;
    }
    CountZeroIffNotFound(log, callee);
    forall i | 0 <= i < |argLocs|
      ensures ReusedLocs(log, callee, argLocs)[i] == argLocs[i]
    {
      ReusedLocsAt(log, callee, argLocs, i);
    }
  }

  /**
   * The reuse is positional over the log, and a stack-placed parameter logs
   * nothing: for f(int, int, int, int, int, int *) with the fifth int on
   * the stack, the pointer is logged fifth, so a self-call passes the fifth
   * argument, an int, in A4.
   */
  lemma StackParameterMisalignsReuse(locs: seq<Loc>, argLocs: seq<Loc>)
    requires |locs| == 6 && |argLocs| == 6 && locs[4].MemLoc?
    ensures var st := FormalArgs("f", FiveIntsAndPointer(), locs, 6);
            st.vals[4] == FromStack(StackSize(locs[4]), locs[4].offset) &&
            st.vals[5] == FromReg(A(4), AddrClass) &&
            ReusedLocs(st.log, "f", argLocs)[4] == RegLoc(A(4))
  {
    var st := FormalArgs("f", FiveIntsAndPointer(), locs, 6);
    FiveIntsAndPointerDefinition(locs);
    FormalArgsLogNamed("f", FiveIntsAndPointer(), locs, 6);
    forall j | 0 <= j < |st.log|
      ensures st.log[j].fName == "f"
    {
      assert st.log[j] in st.log;
    }
    AllOneName(st.log, "f");
    assert st.log[0].fName == "f";
    ReusedLocsAt(st.log, "f", argLocs, 4);
  }

  /** The parameter types of f(int, int, int, int, int, int *). */
  function FiveIntsAndPointer(): (ps: seq<ParamType>)
    ensures |ps| == 6 && ps[5] == PointerParam
    ensures forall j :: 0 <= j < 5 ==> ps[j] == ScalarParam(32)
  {
    [ScalarParam(32), ScalarParam(32), ScalarParam(32), ScalarParam(32), ScalarParam(32), PointerParam]
  }

  /** Lowering f's definition: D4..D7, the stack, then A4 logged fifth. */
  lemma FiveIntsAndPointerDefinition(locs: seq<Loc>)
    requires |locs| == 6 && locs[4].MemLoc?
    ensures var st := FormalArgs("f", FiveIntsAndPointer(), locs, 6);
            |st.log| == 5 && st.log[4].reg == A(4) &&
            st.vals[4] == FromStack(StackSize(locs[4]), locs[4].offset) && st.vals[5] == FromReg(A(4), AddrClass)
  {
    var ps := FiveIntsAndPointer();
    FifthIntOnStack(locs);
    PointerAfterStackInt(locs);
    FormalArgsKeepsValue("f", ps, locs, 6, 4);
  }

  /** The fifth int finds no data register free and takes its stack slot, logging nothing. */
  lemma FifthIntOnStack(locs: seq<Loc>)
    requires |locs| == 6 && locs[4].MemLoc?
    ensures var ps := FiveIntsAndPointer();
            var st := FormalArgs("f", ps, locs, 5);
            st.log == FormalArgs("f", ps, locs, 4).log && st.vals[4] == FromStack(StackSize(locs[4]), locs[4].offset)
  {
    var ps := FiveIntsAndPointer();
    FourIntsTaken(locs);
    FormalArgsSnoc("f", ps, locs, 5);
    assert Placement("f", ps[4], locs[4], FormalArgs("f", ps, locs, 4).log) == FromStack(StackSize(locs[4]), locs[4].offset);
  }

  /** The pointer then takes A4, logged as the fifth entry. */
  lemma PointerAfterStackInt(locs: seq<Loc>)
    requires |locs| == 6 && locs[4].MemLoc?
    ensures var st := FormalArgs("f", FiveIntsAndPointer(), locs, 6);
            |st.log| == 5 && st.log[4].reg == A(4) && st.vals[5] == FromReg(A(4), AddrClass)
  {
    var ps := FiveIntsAndPointer();
    FourIntsTaken(locs);
    FifthIntOnStack(locs);
    FormalArgsSnoc("f", ps, locs, 6);
    var log5 := FormalArgs("f", ps, locs, 5).log;
    assert Placement("f", ps[5], locs[5], log5) == FromReg(A(4), AddrClass);
  }

  /** After f's four leading ints the data range is used up and A4 is still free. */
  lemma FourIntsTaken(locs: seq<Loc>)
    requires |locs| == 6
    ensures var log4 := FormalArgs("f", FiveIntsAndPointer(), locs, 4).log;
            |log4| == 4 && NextArgReg(log4, "f", DataClass) == UnknownReg && NextArgReg(log4, "f", AddrClass) == A(4)
  {
    var ps := FiveIntsAndPointer();
    CountAllData(ps, 4);
    HookedLogIsCanonical("f", ps, locs, 4);
    CanonicalNextReg("f", ps, 4, DataClass);
    CanonicalNextReg("f", ps, 4, AddrClass);
    assert ClassCount(ps, 4, AddrClass) == 0 by {
      assert ClassCount(ps, 1, AddrClass) == 0;
      assert ClassCount(ps, 2, AddrClass) == 0;
      assert ClassCount(ps, 3, AddrClass) == 0;
    }
  }

  lemma {:induction false} AllOneName(log: seq<RegInfo>, name: string)
    requires forall j :: 0 <= j < |log| ==> log[j].fName == name
    ensures CountOf(log, name) == |log|
  {
    if |log| > 0 {
      AllOneName(log[..|log| - 1], name);
    }
  }

  /**
   * One iteration of LowerCall's argument loop: argument i below the
   * callee's entry count is moved to the register logged at the argument
   * cursor; a register argument advances the cursor.
   */
  method LowerCallArg(hook: ConventionHook, callee: string, proposed: Loc, i: nat, argNum: nat, ghost log: seq<RegInfo>)
    returns (loc: Loc)
    requires hook.Valid() && hook.regRecord == log && IsUint32(|log|) && argNum == CountOf(log, callee)
    requires i < argNum ==> hook.curArg == FirstIndex(log, callee) + i
    modifies hook`curArg
    ensures hook.Valid()
    ensures loc == ReusedLoc(log, callee, proposed, i)
    ensures i < argNum ==> hook.curArg == FirstIndex(log, callee) + i + 1
    ensures loc.MemLoc? ==> hook.curArg == old(hook.curArg)
  {
    loc := proposed;
    if i < argNum {
      ReusedLocFromLog(log, callee, proposed, i);
      loc := RegLoc(hook.GetRegRecordRegister(hook.curArg));
    }
    if loc.RegLoc? {
      hook.IncrArgPos();
    }
  }

  /**
   * LowerCall's argument placement with the recorded registers read before
   * the log is reset (see the as-written variant below for the source's
   * order). Only direct, non-variadic calls are lowered; both are asserted
   * by the source.
   */
  method LowerCallArgs(hook: ConventionHook, callee: string, argLocs: seq<Loc>)
    returns (regsToPass: seq<RegCopy>, stores: seq<StackStore>)
    requires hook.Valid() && IsUint32(|hook.regRecord|)
    modifies hook
    ensures regsToPass == RegCopies(ReusedLocs(old(hook.regRecord), callee, argLocs))
    ensures stores == StackStores(ReusedLocs(old(hook.regRecord), callee, argLocs))
    ensures hook.Valid() && hook.regRecord == [] && hook.curPos == 0 && hook.curArg == 0
  {
    ghost var log := hook.regRecord;
    var originalArgPos := hook.FindInRegRecord(callee);
    var argNum := hook.GetNumOfArgs(callee);
    if argNum > 0 {
      ReusedLocFromLog(log, callee, MemLoc(0, false), 0);
    }
    hook.SetArgPos(Uint32(originalArgPos));
    regsToPass, stores := [], [];
    ghost var placed: seq<Loc> := [];
    var i := 0;
    while i < |argLocs|
      invariant 0 <= i <= |argLocs| && |placed| == i
      invariant hook.regRecord == log && hook.Valid()
      invariant originalArgPos == FirstIndex(log, callee) && argNum == CountOf(log, callee)
      invariant i < argNum ==> hook.curArg == originalArgPos + i
      invariant placed == ReusedLocs(log, callee, argLocs)[..i]
      invariant regsToPass == RegCopies(placed) && stores == StackStores(placed)
    {
      var loc := LowerCallArg(hook, callee, argLocs[i], i, argNum, log);
      PlacedStep(log, callee, argLocs, placed, i, loc);
      placed := placed + [loc];
      if loc.RegLoc? {
        regsToPass := regsToPass + [RegCopy(loc.reg, i)];
      } else {
        stores := stores + [StackStore(loc.offset, i)];
      }
      i := i + 1;
    }
    assert placed == ReusedLocs(log, callee, argLocs);
    hook.Init();
  }

  /**
   * What the source's order does: the log is reset before the loop reads
   * regRecord[curArg], so the reuse branch reads past the end of an empty
   * log whenever the callee had entries and the call has an argument. In
   * C++ that read is undefined; clear() keeps the vector's storage, so a
   * release build most likely reads the stale entry. ReadPastEndOfLog
   * stands for that undefined read.
   */
  function CallOutcomeAsWritten(log: seq<RegInfo>, callee: string, argLocs: seq<Loc>)
    : (r: Result<(seq<RegCopy>, seq<StackStore>), LowerError>)
    ensures r.Success? <==> CountOf(log, callee) == 0 || |argLocs| == 0
  {
    if CountOf(log, callee) > 0 && |argLocs| > 0 then Failure(ReadPastEndOfLog)
    else Success((RegCopies(argLocs), StackStores(argLocs)))
  }

  method LowerCallArgsAsWritten(hook: ConventionHook, callee: string, argLocs: seq<Loc>)
    returns (r: Result<(seq<RegCopy>, seq<StackStore>), LowerError>)
    requires hook.Valid()
    modifies hook
    ensures r == CallOutcomeAsWritten(old(hook.regRecord), callee, argLocs)
    ensures hook.Valid() && hook.regRecord == [] && hook.curPos == 0
  {
    var originalArgPos := hook.FindInRegRecord(callee);
    var argNum := hook.GetNumOfArgs(callee);
    hook.Init();
    hook.SetArgPos(Uint32(originalArgPos));
    var regsToPass: seq<RegCopy>, stores: seq<StackStore> := [], [];
    var i := 0;
    while i < |argLocs|
      invariant 0 <= i <= |argLocs|
      invariant hook.regRecord == [] && hook.Valid() && hook.curPos == 0
      invariant i > 0 ==> argNum == 0
      invariant regsToPass == RegCopies(argLocs[..i]) && stores == StackStores(argLocs[..i])
    {
      assert argLocs[..i + 1][..i] == argLocs[..i];
      var loc := argLocs[i];
      if i < argNum {
        // regRecord[curArg] on the log Init() has just emptied.
        if hook.curArg >= |hook.regRecord| {
          return Failure(ReadPastEndOfLog);
        }
      }
      if loc.RegLoc? {
        regsToPass := regsToPass + [RegCopy(loc.reg, i)];
        hook.IncrArgPos();
      } else {
        stores := stores + [StackStore(loc.offset, i)];
      }
      i := i + 1;
    }
    assert argLocs[..i] == argLocs;
    return Success((regsToPass, stores));
  }

  /**
   * The first call a recursive function int f(int n) makes to itself: its
   * own parameter is logged, so the as-written order reads the emptied log,
   * while the corrected order passes n's register D4.
   */
  lemma RecursiveCallReadsEmptiedLog(argLocs: seq<Loc>)
    requires |argLocs| == 1
    ensures var log := [RegInfo("f", D(4), false)];
            CallOutcomeAsWritten(log, "f", argLocs) == Failure(ReadPastEndOfLog)
            && ReusedLocs(log, "f", argLocs) == [RegLoc(D(4))]
  {
    var log := [RegInfo("f", D(4), false)];
    assert log[..0] == [];
    ReusedLocsAt(log, "f", argLocs, 0);
  }

  // ---------------------------------------------------------------------
  // Return values
  // ---------------------------------------------------------------------

  /**
   * The registers return values travel in: every location forced to A2 when
   * the value is a pointer, otherwise the proposed location, which must be
   * a register.
   */
  function ReturnRegs(isPointer: bool, locs: seq<Loc>): (r: Result<seq<Reg>, LowerError>)
    ensures r.Success? ==> |r.value| == |locs|
    ensures r.Success? ==> forall k :: 0 <= k < |locs| ==>
              if isPointer then r.value[k] == A(2) else locs[k] == RegLoc(r.value[k])
    ensures r.Failure? ==> r.error == ReturnNotInRegister
    ensures r.Failure? <==> !isPointer && exists k :: 0 <= k < |locs| && locs[k].MemLoc?
  {
    if |locs| == 0 then Success([])
    else
      var n := |locs| - 1;
      match ReturnRegs(isPointer, locs[..n])
      case Failure(e) => Failure(e)
      case Success(regs) =>
        if isPointer then Success(regs + [A(2)])
        else if locs[n].RegLoc? then Success(regs + [locs[n].reg])
        else Failure(ReturnNotInRegister)
  }

  /**
   * The loop LowerReturn and LowerCallResult share: each location of
   * RVLocs, forced to A2 when `forceA2`, becomes the register copied to or
   * from.
   */
  method CopyReturnRegs(forceA2: bool, rvLocs: seq<Loc>) returns (r: Result<seq<Reg>, LowerError>)
    ensures r == ReturnRegs(forceA2, rvLocs)
  {
    var regs: seq<Reg> := [];
    var i := 0;
    while i < |rvLocs|
      invariant 0 <= i <= |rvLocs|
      invariant ReturnRegs(forceA2, rvLocs[..i]) == Success(regs)
    {
      assert rvLocs[..i + 1][..i] == rvLocs[..i];
      var va := rvLocs[i];
      if forceA2 {
        va := RegLoc(A(2));
      }
      if !va.RegLoc? {
        assert ReturnRegs(forceA2, rvLocs[..i + 1]).Failure?;
        r := Failure(ReturnNotInRegister);
        FailureExtends(forceA2, rvLocs, i + 1);
        assert rvLocs[..|rvLocs|] == rvLocs;
        return;
      }
      regs := regs + [va.reg];
      i := i + 1;
    }
    assert rvLocs[..i] == rvLocs;
    r := Success(regs);
  }

  lemma {:induction false} FailureExtends(isPointer: bool, locs: seq<Loc>, k: nat)
    requires k <= |locs| && ReturnRegs(isPointer, locs[..k]).Failure?
    ensures ReturnRegs(isPointer, locs).Failure?
  {
    assert locs[..k][..k] == locs[..k];
    var j :| 0 <= j < k && locs[..k][j].MemLoc?;
    assert locs[j].MemLoc?;
  }

  /** LowerReturn: variadic functions are a fatal error; otherwise the return registers. */
  method LowerReturn(isVarArg: bool, returnsPointer: bool, rvLocs: seq<Loc>)
    returns (r: Result<seq<Reg>, LowerError>)
    ensures isVarArg ==> r == Failure(VarArgNotSupported)
    ensures !isVarArg ==> r == ReturnRegs(returnsPointer, rvLocs)
  {
    if isVarArg {
      return Failure(VarArgNotSupported);
    }
    r := CopyReturnRegs(returnsPointer, rvLocs);
  }

  /** LowerCallResult as written: the A2 override tests the enclosing function's return type. */
  method LowerCallResultAsWritten(callerReturnsPointer: bool, calleeReturnsPointer: bool, rvLocs: seq<Loc>)
    returns (r: Result<seq<Reg>, LowerError>)
    ensures r == ReturnRegs(callerReturnsPointer, rvLocs)
  {
    r := CopyReturnRegs(callerReturnsPointer, rvLocs);
  }

  /** LowerCallResult testing the callee's return type, the register LowerReturn wrote. */
  method LowerCallResult(callerReturnsPointer: bool, calleeReturnsPointer: bool, rvLocs: seq<Loc>)
    returns (r: Result<seq<Reg>, LowerError>)
    ensures r == ReturnRegs(calleeReturnsPointer, rvLocs)
  {
    r := CopyReturnRegs(calleeReturnsPointer, rvLocs);
  }

  /**
   * With the callee's return type, a call site reads each result from the
   * register the callee's LowerReturn placed it in; with the caller's it does
   * so only when caller and callee agree on returning a pointer. This holds
   * whenever the convention proposes registers other than A2, such as D2 or
   * E2.
   */
  lemma CallResultMatchesReturn(callerReturnsPointer: bool, calleeReturnsPointer: bool, rvLocs: seq<Loc>)
    requires forall k :: 0 <= k < |rvLocs| ==> rvLocs[k].RegLoc? && rvLocs[k].reg != A(2)
    requires |rvLocs| > 0
    ensures ReturnRegs(calleeReturnsPointer, rvLocs).Success?
    ensures ReturnRegs(callerReturnsPointer, rvLocs) == ReturnRegs(calleeReturnsPointer, rvLocs)
            <==> callerReturnsPointer == calleeReturnsPointer
  {
    if callerReturnsPointer != calleeReturnsPointer {
      var a := ReturnRegs(callerReturnsPointer, rvLocs);
      var b := ReturnRegs(calleeReturnsPointer, rvLocs);
      assert a.value[0] != b.value[0];
    }
  }

  /** int *h() calling int g(): g returns in D2, the as-written call site reads A2. */
  lemma PointerCallerReadsWrongRegister()
    ensures ReturnRegs(false, [RegLoc(D(2))]).Success? && ReturnRegs(false, [RegLoc(D(2))]).value == [D(2)]
    ensures ReturnRegs(true, [RegLoc(D(2))]).Success? && ReturnRegs(true, [RegLoc(D(2))]).value == [A(2)]
  {
    var locs := [RegLoc(D(2))];
    assert locs[..0] == [];
    assert ReturnRegs(false, locs[..0]) == Success([]);
    assert ReturnRegs(true, locs[..0]) == Success([]);
  }
}
