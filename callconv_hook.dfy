/**
 * The calling-convention hook (TriCoreCallingConvHook): a process-wide log
 * of which physical register each formal parameter of each function was
 * given, plus a traversal cursor (curPos) and an argument cursor (curArg).
 * The global instance of the source becomes an explicit ConventionHook
 * object passed to the lowering routines.
 */
module CallConvHook {
  import opened Bits
  import opened Registers

  /** One log entry: function name, register, and whether the parameter is a pointer. */
  datatype RegInfo = RegInfo(fName: string, reg: Reg, isPointer: bool)

  // ---------------------------------------------------------------------
  // Specification functions over the log
  // ---------------------------------------------------------------------

  /** Index of the first entry logged for `name`, or -1 (findInRegRecord). */
  function FirstIndex(log: seq<RegInfo>, name: string): (r: int)
    ensures -1 <= r < |log|
    ensures r >= 0 ==> log[r].fName == name && forall j :: 0 <= j < r ==> log[j].fName != name
    ensures r == -1 <==> forall j :: 0 <= j < |log| ==> log[j].fName != name
  {
    if |log| == 0 then -1
    else if log[0].fName == name then 0
    else
      var k := FirstIndex(log[1..], name);
      if k < 0 then -1 else k + 1
  }

  /** Index of the last entry logged for `name`, or -1 (findInRegLastRecord). */
  function LastIndex(log: seq<RegInfo>, name: string): (r: int)
    ensures -1 <= r < |log|
    ensures r >= 0 ==> log[r].fName == name && forall j :: r < j < |log| ==> log[j].fName != name
    ensures r == -1 <==> forall j :: 0 <= j < |log| ==> log[j].fName != name
  {
    if |log| == 0 then -1
    else if log[|log| - 1].fName == name then |log| - 1
    else LastIndex(log[..|log| - 1], name)
  }

  /** Number of entries logged for `name` (getNumOfArgs). */
  function CountOf(log: seq<RegInfo>, name: string): (n: nat)
    ensures n <= |log|
  {
    if |log| == 0 then 0
    else CountOf(log[..|log| - 1], name) + (if log[|log| - 1].fName == name then 1 else 0)
  }

  /**
   * The registers logged for `name` that lie in [lo, hi], in log order: the
   * `regList` the three next-register scans build.
   */
  function RegsInRange(log: seq<RegInfo>, name: string, lo: int, hi: int): (regs: seq<Reg>)
    ensures |regs| <= |log|
    ensures forall k :: 0 <= k < |regs| ==> lo <= regs[k] <= hi
  {
    RegsUpTo(log, |log|, name, lo, hi)
  }

  /** RegsInRange of the first n entries of the log. */
  function RegsUpTo(log: seq<RegInfo>, n: nat, name: string, lo: int, hi: int): (regs: seq<Reg>)
    requires n <= |log|
    ensures |regs| <= n
    ensures forall k :: 0 <= k < |regs| ==> lo <= regs[k] <= hi
  {
    if n == 0 then []
    else
      var e := log[n - 1];
      RegsUpTo(log, n - 1, name, lo, hi) + (if e.fName == name && lo <= e.reg <= hi then [e.reg] else [])
  }

  /**
   * The register the hook hands out next for `name` in the range [lo, hi]:
   * lo when nothing of the range is logged for `name`, the sentinel when
   * the last such entry is hi, and that entry plus one otherwise.
   */
  function NextReg(log: seq<RegInfo>, name: string, lo: int, hi: int): (r: int)
    requires lo <= hi < UnknownReg
    ensures r == UnknownReg || lo <= r <= hi
    ensures RegsInRange(log, name, lo, hi) == [] ==> r == lo
    ensures RegsInRange(log, name, lo, hi) != [] ==>
              var last := RegsInRange(log, name, lo, hi)[|RegsInRange(log, name, lo, hi)| - 1];
              (last == hi ==> r == UnknownReg) && (last != hi ==> r == last + 1)
  {
    var regs := RegsInRange(log, name, lo, hi);
    if |regs| == 0 then lo
    else if regs[|regs| - 1] == hi then UnknownReg
    else regs[|regs| - 1] + 1
  }

  /** NextReg specialised to an argument-register class. */
  function NextArgReg(log: seq<RegInfo>, name: string, c: RegClass): (r: int)
    ensures r == UnknownReg || InArgRange(c, r)
  {
    NextReg(log, name, FirstArgReg(c), LastArgReg(c))
  }

  // ---------------------------------------------------------------------
  // Lemmas about the log queries
  // ---------------------------------------------------------------------

  /** getNumOfArgs is zero exactly when both finders report -1. */
  lemma {:induction false} CountZeroIffNotFound(log: seq<RegInfo>, name: string)
    ensures CountOf(log, name) == 0 <==> FirstIndex(log, name) == -1
    ensures CountOf(log, name) == 0 <==> LastIndex(log, name) == -1
  {
    if |log| > 0 {
      var init := log[..|log| - 1];
      CountZeroIffNotFound(init, name);
      if log[|log| - 1].fName != name {
        assert (forall j :: 0 <= j < |init| ==> init[j].fName != name)
            <==> (forall j :: 0 <= j < |log| ==> log[j].fName != name) by {
          forall j | 0 <= j < |init| ensures init[j] == log[j] { }
        }
      }
    }
  }

  /** A function's entries never run past the end of the log: first + count <= |log|. */
  lemma {:induction false} FirstPlusCountWithinLog(log: seq<RegInfo>, name: string)
    requires CountOf(log, name) > 0
    ensures FirstIndex(log, name) + CountOf(log, name) <= |log|
  {
    var init := log[..|log| - 1];
    var last := log[|log| - 1];
    if CountOf(init, name) == 0 {
      CountZeroIffNotFound(init, name);
      assert last.fName == name;
    } else {
      FirstPlusCountWithinLog(init, name);
      CountZeroIffNotFound(init, name);
      var f := FirstIndex(init, name);
      assert init[f] == log[f];
      assert forall j :: 0 <= j < f ==> init[j] == log[j];
      assert FirstIndex(log, name) == f;
    }
  }

  /** Appending an entry extends the queries in the obvious way. */
  lemma AppendEntry(log: seq<RegInfo>, e: RegInfo, name: string, lo: int, hi: int)
    ensures CountOf(log + [e], name) == CountOf(log, name) + (if e.fName == name then 1 else 0)
    ensures RegsInRange(log + [e], name, lo, hi)
            == RegsInRange(log, name, lo, hi) + (if e.fName == name && lo <= e.reg <= hi then [e.reg] else [])
  {
    assert (log + [e])[..|log|] == log;
    RegsUpToExtend(log, [e], |log|, name, lo, hi);
  }

  /** The registers of a prefix do not depend on what follows it. */
  lemma {:induction false} RegsUpToExtend(log: seq<RegInfo>, more: seq<RegInfo>, n: nat, name: string, lo: int, hi: int)
    requires n <= |log|
    ensures RegsUpTo(log + more, n, name, lo, hi) == RegsUpTo(log, n, name, lo, hi)
  {
    if n > 0 {
      RegsUpToExtend(log, more, n - 1, name, lo, hi);
    }
  }

  /** The first entry of the log for a name found at index f starts the count at f. */
  lemma {:induction false} CountFromFirst(log: seq<RegInfo>, name: string)
    ensures FirstIndex(log, name) >= 0 ==> CountOf(log[..FirstIndex(log, name) + 1], name) == 1
  {
    var f := FirstIndex(log, name);
    if f >= 0 {
      var pre := log[..f + 1];
      assert pre[..f] == log[..f];
      NoneBeforeFirst(log[..f], name);
    }
  }

  lemma {:induction false} NoneBeforeFirst(pre: seq<RegInfo>, name: string)
    requires forall j :: 0 <= j < |pre| ==> pre[j].fName != name
    ensures CountOf(pre, name) == 0
  {
    if |pre| > 0 {
      NoneBeforeFirst(pre[..|pre| - 1], name);
    }
  }

  // ---------------------------------------------------------------------
  // The hook object
  // ---------------------------------------------------------------------

  class ConventionHook {
    /** uint32_t curPos: counts the register-placed parameters of the current function. */
    var curPos: nat
    /** uint32_t curArg: index of the parameter or argument being lowered. */
    var curArg: nat
    /** std::vector<regInfo> regRecord */
    var regRecord: seq<RegInfo>

    ghost predicate Valid()
      reads this
    {
      IsUint32(curPos) && IsUint32(curArg)
    }

    constructor ()
      ensures Valid() && curPos == 0 && curArg == 0 && regRecord == []
    {
      curPos, curArg, regRecord := 0, 0, [];
    }

    /** init(): both cursors to zero and the whole log emptied. */
    method Init()
      modifies this
      ensures Valid() && curPos == 0 && curArg == 0 && regRecord == []
    {
      curPos, curArg := 0, 0;
      regRecord := [];
    }

    method SetCurPos(pos: nat)
      requires IsUint32(pos)
      modifies this`curPos
      ensures curPos == pos
    {
      curPos := pos;
    }

    /** setArgPos(uint32_t): the argument is converted to uint32_t by the caller. */
    method SetArgPos(arg: nat)
      requires IsUint32(arg)
      modifies this`curArg
      ensures curArg == arg
    {
      curArg := arg;
    }

    /** incrArgPos(): uint32_t increment, wrapping at 2^32. */
    method IncrArgPos()
      requires Valid()
      modifies this`curArg
      ensures Valid() && curArg == Uint32(old(curArg) + 1)
    {
      curArg := Uint32(curArg + 1);
    }

    /** operator++(int): advances curPos (the returned copy is never used). */
    method Bump()
      requires Valid()
      modifies this`curPos
      ensures Valid() && curPos == Uint32(old(curPos) + 1)
    {
      curPos := Uint32(curPos + 1);
    }

    method FindInRegRecord(name: string) returns (index: int)
      ensures index == FirstIndex(regRecord, name)
    {
      index := 0;
      while index < |regRecord|
        invariant 0 <= index <= |regRecord|
        invariant forall j :: 0 <= j < index ==> regRecord[j].fName != name
      {
        if regRecord[index].fName == name {
          return;
        }
        index := index + 1;
      }
      index := -1;
    }

    method FindInRegLastRecord(name: string) returns (index: int)
      ensures index == LastIndex(regRecord, name)
    {
      var i := |regRecord| - 1;
      while i >= 0
        invariant -1 <= i < |regRecord|
        invariant forall j :: i < j < |regRecord| ==> regRecord[j].fName != name
      {
        if regRecord[i].fName == name {
          return i;
        }
        i := i - 1;
      }
      return -1;
    }

    /** The scan shared by getNextAddrRegs, getNextDataRegs and getNextExtRegs. */
    method NextInRange(name: string, lo: int, hi: int) returns (r: int)
      requires lo <= hi < UnknownReg
      ensures r == NextReg(regRecord, name, lo, hi)
    {
      var regList: seq<Reg> := [];
      var i := 0;
      while i < |regRecord|
        invariant 0 <= i <= |regRecord|
        invariant regList == RegsUpTo(regRecord, i, name, lo, hi)
      {
        var rec := regRecord[i];
        if rec.fName == name && lo <= rec.reg <= hi {
          regList := regList + [rec.reg];
        }
        i := i + 1;
      }
      if |regList| == 0 {
        return lo;
      }
      var lastReg := regList[|regList| - 1];
      if lastReg == hi {
        return UnknownReg;
      }
      return lastReg + 1;
    }

    method GetNextAddrRegs(name: string) returns (r: int)
      ensures r == NextArgReg(regRecord, name, AddrClass)
    {
      r := NextInRange(name, A(4), A(7));
    }

    method GetNextDataRegs(name: string) returns (r: int)
      ensures r == NextArgReg(regRecord, name, DataClass)
    {
      r := NextInRange(name, D(4), D(7));
    }

    method GetNextExtRegs(name: string) returns (r: int)
      ensures r == NextArgReg(regRecord, name, ExtClass)
    {
      r := NextInRange(name, E(4), E(6));
    }

    /** The next-register scan of a class, as LowerFormalArguments dispatches it. */
    method GetNextRegs(name: string, c: RegClass) returns (r: int)
      ensures r == NextArgReg(regRecord, name, c)
    {
      match c
      case AddrClass => r := GetNextAddrRegs(name);
      case DataClass => r := GetNextDataRegs(name);
      case ExtClass => r := GetNextExtRegs(name);
    }

    function GetRegRecordRegister(pos: nat): Reg
      reads this
      requires pos < |regRecord|
    {
      regRecord[pos].reg
    }

    function GetRegRecordIsPointer(pos: nat): bool
      reads this
      requires pos < |regRecord|
    {
      regRecord[pos].isPointer
    }

    function GetFunctionName(pos: nat): string
      reads this
      requires pos < |regRecord|
    {
      regRecord[pos].fName
    }

    method GetNumOfArgs(name: string) returns (count: nat)
      ensures count == CountOf(regRecord, name)
    {
      count := 0;
      var i := 0;
      while i < |regRecord|
        invariant 0 <= i <= |regRecord|
        invariant count == CountOf(regRecord[..i], name)
      {
        assert regRecord[..i + 1][..i] == regRecord[..i];
        if regRecord[i].fName == name {
          count := count + 1;
        }
        i := i + 1;
      }
      assert regRecord[..i] == regRecord;
    }

    /** saveRegRecord: appends exactly one entry; the cursors are untouched. */
    method SaveRegRecord(name: string, reg: Reg, isPointer: bool)
      modifies this`regRecord
      ensures regRecord == old(regRecord) + [RegInfo(name, reg, isPointer)]
    {
      regRecord := regRecord + [RegInfo(name, reg, isPointer)];
    }
  }
}
