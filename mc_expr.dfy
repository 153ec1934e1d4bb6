/**
 * The target's MC expression: a `hi(...)` or `lo(...)` wrapper (or a
 * transparent one) around another MC expression, with its printing and its
 * evaluation to a relocatable value.
 *
 * Expressions that are not the target's own are leaves here: each carries
 * the text it prints as and the value its own evaluation yields, if any.
 */
module McExpr {
  import opened Wrappers

  /** TriCoreMCExpr::VariantKind, in declaration order. */
  datatype VariantKind = KindNone | AbsHi | AbsLo

  /** The enumerator's value, which is what an MCValue records as its reference kind. */
  function KindNumber(k: VariantKind): (n: nat)
    ensures n < 3
  {
    match k
    case KindNone => 0
    case AbsHi => 1
    case AbsLo => 2
  }

  /** MCValue: two symbols, a constant and a reference kind. Symbols are opaque ids. */
  datatype McValue = McValue(symA: Option<nat>, symB: Option<nat>, constant: int, refKind: nat)

  datatype Expr =
    | Leaf(text: string, value: Option<McValue>)
    | Target(kind: VariantKind, sub: Expr)

  /** TriCoreMCExpr::create, with getKind and getSubExpr reading it back. */
  function Create(kind: VariantKind, sub: Expr): (e: Expr)
    ensures e.Target?
  {
    Target(kind, sub)
  }

  function GetKind(e: Expr): VariantKind
    requires e.Target?
  {
    e.kind
  }

  function GetSubExpr(e: Expr): Expr
    requires e.Target?
  {
    e.sub
  }

  /** What create stores, getKind and getSubExpr give back. */
  lemma CreateRoundTrip(kind: VariantKind, sub: Expr)
    ensures GetKind(Create(kind, sub)) == kind && GetSubExpr(Create(kind, sub)) == sub
  {
  }

  /** printImpl (and MCExpr::print for leaves). */
  function Print(e: Expr): (s: string)
    decreases e
  {
    match e
    case Leaf(text, _) => text
    case Target(kind, sub) =>
      if kind == KindNone then Print(sub)
      else (if kind == AbsHi then "hi" else "lo") + "(" + Print(sub) + ")"
  }

  /** Reading a `hi(...)`/`lo(...)` wrapper back off printed text. */
  function Unwrap(s: string): (r: Option<(VariantKind, string)>)
    ensures r.Some? ==> r.value.0 != KindNone && |r.value.1| + 4 == |s| && r.value.1 == s[3..|s| - 1]
  {
    if |s| >= 4 && s[2] == '(' && s[|s| - 1] == ')' && (s[..2] == "hi" || s[..2] == "lo") then
      Some((if s[..2] == "hi" then AbsHi else AbsLo, s[3..|s| - 1]))
    else None
  }

  /**
   * The printed form of a hi or lo expression names its kind and holds the
   * subexpression's printed form: both come back off the text. A
   * KindNone expression prints as its subexpression.
   */
  lemma PrintUnwraps(kind: VariantKind, sub: Expr)
    ensures kind != KindNone ==> Unwrap(Print(Create(kind, sub))) == Some((kind, Print(sub)))
    ensures kind == KindNone ==> Print(Create(kind, sub)) == Print(sub)
  {
    if kind != KindNone {
      var s := Print(Create(kind, sub));
      assert s[..2] == (if kind == AbsHi then "hi" else "lo");
    }
  }

  /** A hi and a lo of the same expression never print alike. */
  lemma HiLoPrintDiffer(sub: Expr)
    ensures Print(Create(AbsHi, sub)) != Print(Create(AbsLo, sub))
  {
    assert Print(Create(AbsHi, sub))[0] == 'h';
    assert Print(Create(AbsLo, sub))[0] == 'l';
  }

  /**
   * evaluateAsRelocatableImpl: the subexpression's value, re-labelled with
   * this expression's kind; None when the subexpression does not evaluate.
   */
  function Evaluate(e: Expr): (r: Option<McValue>)
    decreases e
  {
    match e
    case Leaf(_, value) => value
    case Target(kind, sub) =>
      match Evaluate(sub)
      case None => None
      case Some(v) => Some(McValue(v.symA, v.symB, v.constant, KindNumber(kind)))
  }

  /** The leaf at the bottom of a chain of target wrappers. */
  function Innermost(e: Expr): (leaf: Expr)
    ensures leaf.Leaf?
    decreases e
  {
    match e
    case Leaf(_, _) => e
    case Target(_, sub) => Innermost(sub)
  }

  /**
   * One evaluation step: it fails exactly when the subexpression fails, and
   * otherwise keeps both symbols and the constant and takes this
   * expression's kind.
   */
  lemma EvaluateStep(kind: VariantKind, sub: Expr)
    ensures Evaluate(Create(kind, sub)).None? <==> Evaluate(sub).None?
    ensures Evaluate(sub).Some? ==>
              var v := Evaluate(sub).value;
              var r := Evaluate(Create(kind, sub)).value;
              r.symA == v.symA && r.symB == v.symB && r.constant == v.constant && r.refKind == KindNumber(kind)
  {
  }

  /**
   * Through any nesting of target expressions, evaluation succeeds exactly
   * when the innermost leaf does, carries that leaf's symbols and constant,
   * and ends with the outermost expression's kind.
   */
  lemma {:induction false} EvaluateThroughWrappers(e: Expr)
    ensures Evaluate(e).Some? <==> Innermost(e).value.Some?
    ensures Evaluate(e).Some? ==>
              var v := Innermost(e).value.value;
              var r := Evaluate(e).value;
              r.symA == v.symA && r.symB == v.symB && r.constant == v.constant &&
              (e.Target? ==> r.refKind == KindNumber(e.kind))
    decreases e
  {
    match e
    case Leaf(_, _) =>
    case Target(_, sub) =>
      EvaluateThroughWrappers(sub);
  }
}
