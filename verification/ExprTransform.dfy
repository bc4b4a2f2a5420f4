/** Normalisation of expressions and insertion of comparisons
    (scripts/config/expr.c, lines 399-426, 688-985). */
module ExprTransform {
  import opened Exprs
  import opened ExprDups

  function Dual(op: Op): Op { if op == AndOp then OrOp else AndOp }

  function Negate(rel: Rel): Rel {
    match rel
    case Equal => Unequal
    case Unequal => Equal
    case Leq => Gth
    case Geq => Lth
    case Lth => Geq
    case Gth => Leq
  }

  // ----- expr_transform -----

  /** What a rewriting step cannot raise: negation doubles. */
  function Weight(e: Expr): (w: nat)
    ensures w >= 1
  {
    match e
    case Sym(_) => 1
    case Cmp(_, _, _) => 2
    case Not(x) => 2 * Weight(x)
    case Bin(_, l, r) => 1 + Weight(l) + Weight(r)
  }

  /** A bool symbol tested against y, m or n. */
  function TransformTest(rel: Rel, a: Symbol, b: Symbol): Expr {
    if a.Ty() != Boolean || !IsEqTest(Cmp(rel, a, b)) then Cmp(rel, a, b)
    else if b == SYM_MOD then Sym(if rel == Equal then SYM_NO else SYM_YES)
    else if b == SYM_NO then (if rel == Equal then Not(Sym(a)) else Sym(a))
    else if b == SYM_YES then (if rel == Equal then Sym(a) else Not(Sym(a)))
    else Cmp(rel, a, b)
  }

  /** !(l op r), pushed inwards by one level. */
  function DeMorgan(op: Op, l: Expr, r: Expr): (x: Expr)
    ensures Weight(x) < Weight(Not(Bin(op, l, r)))
  {
    assert Weight(Not(Bin(op, l, r))) == 2 * Weight(Bin(op, l, r));
    Bin(Dual(op), Not(l), Not(r))
  }

  function Transform(e: Expr): (r: Expr)
    ensures Weight(r) <= Weight(e)
    decreases Weight(e)
  {
    match e
    case Sym(_) => e
    case Cmp(rel, a, b) => TransformTest(rel, a, b)
    case Bin(op, l, r) => Bin(op, Transform(l), Transform(r))
    case Not(x) =>
      var y := Transform(x);
      match y
      case Not(z) => Transform(z)
      case Cmp(rel, a, b) => Cmp(Negate(rel), a, b)
      case Bin(op, l, r) => Transform(DeMorgan(op, l, r))
      case Sym(s) =>
        if s == SYM_YES then Sym(SYM_NO)
        else if s == SYM_MOD then Sym(SYM_MOD)
        else if s == SYM_NO then Sym(SYM_YES)
        else Not(y)
  }

  lemma TransformTestValue(rel: Rel, a: Symbol, b: Symbol, v: Valuation)
    requires Wf(v)
    ensures Eval(TransformTest(rel, a, b), v) == Eval(Cmp(rel, a, b), v)
  {
    if a.Ty() == Boolean && Ymn(b) { YmnCompare(a, b, v); }
  }

  lemma NegateValue(rel: Rel, a: Symbol, b: Symbol, v: Valuation)
    ensures Eval(Cmp(Negate(rel), a, b), v) == Flip(Eval(Cmp(rel, a, b), v))
  {
  }

  lemma {:induction false} TransformValue(e: Expr, v: Valuation)
    requires Wf(v)
    ensures Eval(Transform(e), v) == Eval(e, v)
    decreases Weight(e)
  {
    match e
    case Sym(_) =>
    case Cmp(rel, a, b) => TransformTestValue(rel, a, b, v);
    case Bin(op, l, r) =>
      TransformValue(l, v);
      TransformValue(r, v);
    case Not(x) =>
      TransformValue(x, v);
      var y := Transform(x);
      match y
      case Not(z) => TransformValue(z, v);
      case Cmp(rel, a, b) => NegateValue(rel, a, b, v);
      case Bin(op, l, r) => TransformValue(DeMorgan(op, l, r), v);
      case Sym(_) =>
  }

  lemma {:induction false} TransformNormal(e: Expr)
    ensures Normal(Transform(e))
    decreases Weight(e)
  {
    match e
    case Sym(_) =>
    case Cmp(_, _, _) =>
    case Bin(_, l, r) =>
      TransformNormal(l);
      TransformNormal(r);
    case Not(x) =>
      TransformNormal(x);
      var y := Transform(x);
      match y
      case Not(z) => TransformNormal(z);
      case Cmp(_, _, _) =>
      case Bin(op, l, r) => TransformNormal(DeMorgan(op, l, r));
      case Sym(_) =>
  }

  lemma {:induction false} NormalIsFixed(e: Expr)
    requires Normal(e)
    ensures Transform(e) == e
  {
    match e
    case Sym(_) =>
    case Cmp(_, _, _) =>
    case Bin(_, l, r) =>
      NormalIsFixed(l);
      NormalIsFixed(r);
    case Not(x) =>
  }

  lemma TransformIdempotent(e: Expr)
    ensures Transform(Transform(e)) == Transform(e)
  {
    TransformNormal(e);
    NormalIsFixed(Transform(e));
  }

  lemma {:induction false} TransformTestsWithin(e: Expr, cs: set<string>)
    requires TestsWithin(e, cs)
    ensures TestsWithin(Transform(e), cs)
    decreases Weight(e)
  {
    match e
    case Sym(_) =>
    case Cmp(_, _, _) =>
    case Bin(_, l, r) =>
      TransformTestsWithin(l, cs);
      TransformTestsWithin(r, cs);
    case Not(x) =>
      TransformTestsWithin(x, cs);
      var y := Transform(x);
      match y
      case Not(z) => TransformTestsWithin(z, cs);
      case Cmp(_, _, _) =>
      case Bin(op, l, r) => TransformTestsWithin(DeMorgan(op, l, r), cs);
      case Sym(_) =>
  }

  // ----- expr_trans_bool -----

  function TransBool(e: Expr): Expr {
    match e
    case Bin(op, l, r) => Bin(op, TransBool(l), TransBool(r))
    case Not(x) => Not(TransBool(x))
    case Cmp(rel, a, b) =>
      if rel == Unequal && a.Ty() == Tristate && b == SYM_NO then Sym(a) else e
    case Sym(_) => e
  }

  /** The test that expr_trans_bool replaces. */
  predicate DroppedTest(e: Expr) { e.Cmp? && e.rel == Unequal && e.a.Ty() == Tristate && e.b == SYM_NO }

  /** No such test stands under an odd number of negations, counted from `odd` outside `e`. */
  predicate TestsEven(e: Expr, odd: bool) {
    match e
    case Sym(_) => true
    case Cmp(_, _, _) => odd ==> !DroppedTest(e)
    case Not(x) => TestsEven(x, !odd)
    case Bin(_, l, r) => TestsEven(l, odd) && TestsEven(r, odd)
  }

  lemma {:induction false} NormalTestsEven(e: Expr)
    requires Normal(e)
    ensures TestsEven(e, false)
  {
    if e.Bin? {
      NormalTestsEven(e.l);
      NormalTestsEven(e.r);
    }
  }

  /** Below an even number of negations the result is n in the same valuations, below an odd
      number it is y in the same ones. */
  lemma {:induction false} TransBoolAgrees(e: Expr, odd: bool, v: Valuation)
    requires Wf(v) && TestsEven(e, odd)
    ensures var end := if odd then YES else NO;
            Eval(TransBool(e), v) == end <==> Eval(e, v) == end
  {
    match e
    case Sym(_) =>
    case Not(x) => TransBoolAgrees(x, !odd, v);
    case Cmp(_, a, b) =>
      if DroppedTest(e) { YmnCompare(a, b, v); }
    case Bin(_, l, r) =>
      TransBoolAgrees(l, odd, v);
      TransBoolAgrees(r, odd, v);
  }

  /** Then the result is n in exactly the same valuations. */
  lemma TransBoolZero(e: Expr, v: Valuation)
    requires Wf(v) && TestsEven(e, false)
    ensures Eval(TransBool(e), v) == NO <==> Eval(e, v) == NO
  {
    TransBoolAgrees(e, false, v);
  }

  /** Under an odd number it is not: at m, !(A!=n) is n but !A is m. */
  lemma TransBoolOddTest(a: Symbol)
    requires a.Ty() == Tristate
    ensures var e := Not(Cmp(Unequal, a, SYM_NO));
            && !TestsEven(e, false) && Wf(AllAt(MOD))
            && Eval(e, AllAt(MOD)) == NO && Eval(TransBool(e), AllAt(MOD)) == MOD
  {
    var v := AllAt(MOD);
    AllAtWf(MOD);
    assert v.tri(a) == MOD;
    YmnCompare(a, SYM_NO, v);
  }

  // ----- expr_trans_compare -----

  /** `e` compared (= when `eq`, != otherwise) with y or n. */
  function TransCompare(e: Expr, eq: bool, s: Symbol): Expr
    requires YesOrNo(s)
  {
    match e
    case Bin(op, l, r) =>
      var x := Bin(if s == SYM_YES then op else Dual(op), TransCompare(l, true, s), TransCompare(r, true, s));
      if eq then x else Not(x)
    case Not(x) => TransCompare(x, !eq, s)
    case Cmp(_, _, _) => if eq == (s == SYM_YES) then e else Not(e)
    case Sym(t) => Cmp(if eq then Equal else Unequal, t, s)
  }

  function TransCompareOrNull(e: ExprOrNull, eq: bool, s: Symbol): Expr
    requires YesOrNo(s)
  {
    match e
    case None => if eq then Sym(s) else Not(Sym(s))
    case Some(x) => TransCompare(x, eq, s)
  }

  /** The two-valued reading of `e`: a symbol leaf counts as y when it differs from n
      (m raised to y), or only when it is y (m lowered to n). */
  function Rounded(e: Expr, v: Valuation, up: bool): Tri {
    match e
    case Sym(s) =>
      if up then (if CompareSyms(s, SYM_NO, v) != 0 then YES else NO)
      else (if CompareSyms(s, SYM_YES, v) == 0 then YES else NO)
    case Not(x) => Flip(Rounded(x, v, up))
    case Bin(op, l, r) => Join(op, Rounded(l, v, up), Rounded(r, v, up))
    case Cmp(_, _, _) => Eval(e, v)
  }

  function RoundedUp(e: ExprOrNull, v: Valuation): Tri {
    match e
    case None => YES
    case Some(x) => Rounded(x, v, true)
  }

  lemma RoundedSymbol(s: Symbol, v: Valuation)
    requires Wf(v) && (s.BoolLike() || Ymn(s))
    ensures Rounded(Sym(s), v, true) == (if v.tri(s) == NO then NO else YES)
  {
    if s.BoolLike() {
      YmnCompare(s, SYM_NO, v);
    } else {
      YmnTriEquals(v.tri(s), NO);
      assert ParseString(s.name, Unknown) == PString by {
        assert SkipSpace(s.name) == s.name;
        assert DigitVal(s.name[0]) >= 10;
      }
      StrCmpZero(s.name, "n");
    }
  }

  lemma {:induction false} TransCompareValue(e: Expr, eq: bool, s: Symbol, v: Valuation)
    requires Wf(v) && YesOrNo(s)
    ensures var x := Rounded(e, v, s == SYM_NO);
            Eval(TransCompare(e, eq, s), v) == if eq == (s == SYM_YES) then x else Flip(x)
  {
    match e
    case Sym(_) =>
    case Cmp(_, _, _) =>
    case Not(x) => TransCompareValue(x, !eq, s, v);
    case Bin(op, l, r) =>
      TransCompareValue(l, true, s, v);
      TransCompareValue(r, true, s, v);
  }

  lemma {:induction false} TransCompareTestsWithin(e: Expr, eq: bool, s: Symbol, cs: set<string>)
    requires YesOrNo(s) && TestsWithin(e, cs) && "y" in cs && "n" in cs
    ensures TestsWithin(TransCompare(e, eq, s), cs)
  {
    match e
    case Sym(_) =>
    case Cmp(_, _, _) =>
    case Not(x) => TransCompareTestsWithin(x, !eq, s, cs);
    case Bin(_, l, r) =>
      TransCompareTestsWithin(l, true, s, cs);
      TransCompareTestsWithin(r, true, s, cs);
  }

  // ----- expr_contains_symbol, expr_depends_symbol -----

  predicate ContainsSymbol(e: Expr, s: Symbol) {
    match e
    case Sym(t) => t == s
    case Not(x) => ContainsSymbol(x, s)
    case Bin(_, l, r) => ContainsSymbol(l, s) || ContainsSymbol(r, s)
    case Cmp(_, a, b) => a == s || b == s
  }

  predicate DependsSymbol(e: Expr, s: Symbol) {
    match e
    case Sym(t) => t == s
    case Bin(op, l, r) => op == AndOp && (DependsSymbol(l, s) || DependsSymbol(r, s))
    case Cmp(rel, a, b) =>
      a == s && ((rel == Equal && (b == SYM_YES || b == SYM_MOD)) || (rel == Unequal && b == SYM_NO))
    case Not(_) => false
  }

  /** An absolute dependency: at n, the symbol forces the expression to n. */
  lemma {:induction false} DependsSymbolForces(e: Expr, s: Symbol, v: Valuation)
    requires Wf(v) && s.BoolLike() && DependsSymbol(e, s) && v.tri(s) == NO
    ensures Eval(e, v) == NO && ContainsSymbol(e, s)
  {
    match e
    case Sym(_) =>
    case Cmp(_, _, b) => YmnCompare(s, b, v);
    case Bin(_, l, r) =>
      if DependsSymbol(l, s) {
        DependsSymbolForces(l, s, v);
      } else {
        DependsSymbolForces(r, s, v);
      }
  }
}
