/** How menu_finalize rewrites conditions: propagation from parent to child, and the
    test that decides automatic submenus (scripts/config/menu.c, lines 79-106, 285-481). */
module MenuConditions {
  import opened Exprs
  import opened ExprEquality
  import opened ExprDups
  import opened ExprKeys
  import opened ExprTransform

  // ----- null-aware constructors and passes -----

  function AllocAnd(a: ExprOrNull, b: ExprOrNull): ExprOrNull {
    match (a, b)
    case (None, _) => b
    case (_, None) => a
    case (Some(x), Some(y)) => Some(Bin(AndOp, x, y))
  }

  function AllocOr(a: ExprOrNull, b: ExprOrNull): ExprOrNull {
    match (a, b)
    case (None, _) => b
    case (_, None) => a
    case (Some(x), Some(y)) => Some(Bin(OrOp, x, y))
  }

  function DedupOrNull(e: ExprOrNull): ExprOrNull {
    if e.None? then e else Some(EliminateDups(e.value))
  }

  ghost predicate Clean(e: ExprOrNull, cs: set<string>, normal: bool) {
    e.Some? ==> Tidy(e.value, cs, normal)
  }

  // ----- rewrite_m -----

  /** 'm' becomes 'm' && MODULES. */
  function RewriteM(e: Expr, modules: Symbol): Expr {
    match e
    case Sym(s) => if s == SYM_MOD then Bin(AndOp, e, Sym(modules)) else e
    case Not(x) => Not(RewriteM(x, modules))
    case Bin(op, l, r) => Bin(op, RewriteM(l, modules), RewriteM(r, modules))
    case Cmp(_, _, _) => e
  }

  /** The valuation in which the literal m is bounded by MODULES. */
  function WithModules(v: Valuation, modules: Symbol): Valuation {
    v.(tri := (s: Symbol) => BoundedTri(v, modules, s))
  }

  function BoundedTri(v: Valuation, modules: Symbol, s: Symbol): Tri {
    if s == SYM_MOD then Min(MOD, v.tri(modules)) else v.tri(s)
  }

  lemma {:induction false} RewriteMValue(e: Expr, modules: Symbol, v: Valuation)
    requires Wf(v)
    ensures Eval(RewriteM(e, modules), v) == Eval(e, WithModules(v, modules))
    ensures v.tri(modules) != NO ==> Eval(RewriteM(e, modules), v) == Eval(e, v)
  {
    match e
    case Sym(_) =>
    case Cmp(_, _, _) =>
    case Not(x) => RewriteMValue(x, modules, v);
    case Bin(_, l, r) =>
      RewriteMValue(l, modules, v);
      RewriteMValue(r, modules, v);
  }

  lemma {:induction false} RewriteMTests(e: Expr, modules: Symbol, cs: set<string>)
    requires TestsWithin(e, cs)
    ensures TestsWithin(RewriteM(e, modules), cs)
  {
    match e
    case Sym(_) =>
    case Cmp(_, _, _) =>
    case Not(x) => RewriteMTests(x, modules, cs);
    case Bin(_, l, r) =>
      RewriteMTests(l, modules, cs);
      RewriteMTests(r, modules, cs);
  }

  // ----- propagation of a condition from parent to child -----

  function Normalise(e: ExprOrNull, modules: Symbol): ExprOrNull {
    match e
    case None => None
    case Some(x) => Some(Transform(RewriteM(x, modules)))
  }

  /** The stored condition of a child: `parent` is the condition it inherits. */
  function Propagate(parent: ExprOrNull, own: ExprOrNull, modules: Symbol): ExprOrNull {
    DedupOrNull(AllocAnd(parent, Normalise(own, modules)))
  }

  lemma NormaliseValue(e: ExprOrNull, modules: Symbol, v: Valuation, cs: set<string>)
    requires Wf(v) && Clean(e, cs, false)
    ensures EvalOrYes(Normalise(e, modules), v) == EvalOrYes(e, WithModules(v, modules))
    ensures Clean(Normalise(e, modules), cs, true)
  {
    if e.Some? {
      var x := RewriteM(e.value, modules);
      RewriteMValue(e.value, modules, v);
      RewriteMTests(e.value, modules, cs);
      TransformValue(x, v);
      TransformNormal(x);
      TransformTestsWithin(x, cs);
    }
  }

  /** A propagated condition means both conditions together, in every valuation, and
      is in normal form again. */
  lemma PropagateValue(parent: ExprOrNull, own: ExprOrNull, modules: Symbol, v: Valuation, cs: set<string>)
    requires Wf(v) && NoClash(cs) && Clean(parent, cs, true) && Clean(own, cs, false)
    ensures EvalOrYes(Propagate(parent, own, modules), v)
            == Min(EvalOrYes(parent, v), EvalOrYes(own, WithModules(v, modules)))
    ensures Clean(Propagate(parent, own, modules), cs, true)
  {
    NormaliseValue(own, modules, v, cs);
    var e := AllocAnd(parent, Normalise(own, modules));
    if e.Some? {
      EliminateDupsValue(e.value, v, cs);
      EliminateDupsTidy(e.value, cs, true);
    }
  }

  /** prop->visible.expr: propagated, and stripped of FOO!=n unless the owner is tristate. */
  function PropCondition(basedep: ExprOrNull, own: ExprOrNull, modules: Symbol, tristateOwner: bool): ExprOrNull {
    var dep := Propagate(basedep, own, modules);
    if tristateOwner || dep.None? then dep else Some(TransBool(dep.value))
  }

  lemma PropConditionValue(
      basedep: ExprOrNull, own: ExprOrNull, modules: Symbol, tristateOwner: bool,
      v: Valuation, cs: set<string>)
    requires Wf(v) && NoClash(cs) && Clean(basedep, cs, true) && Clean(own, cs, false)
    ensures var stored := EvalOrYes(PropCondition(basedep, own, modules, tristateOwner), v);
            var meant := Min(EvalOrYes(basedep, v), EvalOrYes(own, WithModules(v, modules)));
            if tristateOwner then stored == meant else stored == NO <==> meant == NO
  {
    PropagateValue(basedep, own, modules, v, cs);
    var dep := Propagate(basedep, own, modules);
    if dep.Some? {
      NormalTestsEven(dep.value);
      TransBoolZero(dep.value, v);
    }
  }

  /** No test against n is left that expr_trans_bool would drop. */
  predicate NoDroppedTest(e: Expr) {
    match e
    case Sym(_) => true
    case Cmp(_, _, _) => !DroppedTest(e)
    case Not(x) => NoDroppedTest(x)
    case Bin(_, l, r) => NoDroppedTest(l) && NoDroppedTest(r)
  }

  lemma {:induction false} TransBoolDrops(e: Expr)
    ensures NoDroppedTest(TransBool(e))
  {
    match e
    case Sym(_) =>
    case Cmp(_, _, _) =>
    case Not(x) => TransBoolDrops(x);
    case Bin(_, l, r) =>
      TransBoolDrops(l);
      TransBoolDrops(r);
  }

  /** What is stored is simplified: it has no duplicate or redundant operand, and for an owner
      that is no tristate no test FOO!=n. */
  lemma StoredSimplified(parent: ExprOrNull, own: ExprOrNull, modules: Symbol)
    ensures Propagate(parent, own, modules).Some? ==> NothingTold(Propagate(parent, own, modules).value)
    ensures var dep := PropCondition(parent, own, modules, false);
            dep.Some? ==> NoDroppedTest(dep.value)
  {
    var e := AllocAnd(parent, Normalise(own, modules));
    if e.Some? {
      NoPairLeft(e.value);
      TransBoolDrops(Propagate(parent, own, modules).value);
    }
  }

  /** The dep of a node below nested menus and ifs whose own deps are `owns`, outermost first. */
  function NestedDep(owns: seq<ExprOrNull>, modules: Symbol): ExprOrNull {
    if owns == [] then None
    else Propagate(NestedDep(owns[..|owns| - 1], modules), owns[|owns| - 1], modules)
  }

  function AllOf(owns: seq<ExprOrNull>, v: Valuation): Tri {
    if owns == [] then YES
    else Min(AllOf(owns[..|owns| - 1], v), EvalOrYes(owns[|owns| - 1], v))
  }

  /** However deep the nesting, the stored dep is the minimum of all enclosing conditions. */
  lemma {:induction false} NestedDepValue(owns: seq<ExprOrNull>, modules: Symbol, v: Valuation, cs: set<string>)
    requires Wf(v) && NoClash(cs) && forall i :: 0 <= i < |owns| ==> Clean(owns[i], cs, false)
    ensures EvalOrYes(NestedDep(owns, modules), v) == AllOf(owns, WithModules(v, modules))
    ensures Clean(NestedDep(owns, modules), cs, true)
  {
    if owns != [] {
      var outer := owns[..|owns| - 1];
      NestedDepValue(outer, modules, v, cs);
      PropagateValue(NestedDep(outer, modules), owns[|owns| - 1], modules, v, cs);
    }
  }

  // ----- the superset test of automatic submenus -----

  /** A condition rounded to two values, normalised and deduplicated. */
  function Flattened(cond: ExprOrNull): Expr {
    EliminateDups(Transform(TransCompareOrNull(cond, false, SYM_NO)))
  }

  predicate SupersetTest(item: ExprOrNull, owner: ExprOrNull) {
    IsYes(EliminateEq(Flattened(item), Flattened(owner)).1)
  }

  lemma FlattenedSimplified(cond: ExprOrNull)
    ensures NothingTold(Flattened(cond))
  {
    NoPairLeft(Transform(TransCompareOrNull(cond, false, SYM_NO)));
  }

  lemma FlattenedValue(cond: ExprOrNull, v: Valuation, cs: set<string>)
    requires Wf(v) && NoClash(cs) && Clean(cond, cs, false)
    ensures Eval(Flattened(cond), v) == RoundedUp(cond, v)
  {
    var x := TransCompareOrNull(cond, false, SYM_NO);
    if cond.Some? {
      TransCompareValue(cond.value, false, SYM_NO, v);
      TransCompareTestsWithin(cond.value, false, SYM_NO, cs);
    }
    TransformValue(x, v);
    TransformTestsWithin(x, cs);
    EliminateDupsValue(Transform(x), v, cs);
  }

  /** An accepted item is visible at most as far as the owning symbol's prompt, once m
      counts as y at every symbol. */
  lemma SupersetTestSound(item: ExprOrNull, owner: ExprOrNull, v: Valuation, cs: set<string>)
    requires Wf(v) && NoClash(cs) && Clean(item, cs, false) && Clean(owner, cs, false)
    requires SupersetTest(item, owner)
    ensures RoundedUp(item, v) <= RoundedUp(owner, v)
  {
    FlattenedValue(item, v, cs);
    FlattenedValue(owner, v, cs);
    EliminateEqReflectsOrder(Flattened(item), Flattened(owner), v);
  }

  /** The valuation in which every symbol at m counts as y. */
  function Raised(v: Valuation): Valuation {
    v.(tri := (s: Symbol) => RaisedTri(v, s))
  }

  function RaisedTri(v: Valuation, s: Symbol): Tri { if v.tri(s) == NO then NO else YES }

  /** Symbol leaves are bools, tristates, y, m or n. */
  predicate TriLeaves(e: Expr) {
    match e
    case Sym(s) => s.BoolLike() || Ymn(s)
    case Not(x) => TriLeaves(x)
    case Bin(_, l, r) => TriLeaves(l) && TriLeaves(r)
    case Cmp(_, _, _) => true
  }

  lemma {:induction false} RoundedIsRaised(e: Expr, v: Valuation)
    requires Wf(v) && TriLeaves(e)
    ensures Rounded(e, v, true) == Eval(e, Raised(v))
  {
    match e
    case Sym(s) => RoundedSymbol(s, v);
    case Cmp(_, _, _) =>
    case Not(x) => RoundedIsRaised(x, v);
    case Bin(_, l, r) =>
      RoundedIsRaised(l, v);
      RoundedIsRaised(r, v);
  }

  /** In terms of values: with every m raised to y, an accepted item is at most its owner. */
  lemma SupersetTestBounds(item: ExprOrNull, owner: ExprOrNull, v: Valuation, cs: set<string>)
    requires Wf(v) && NoClash(cs) && Clean(item, cs, false) && Clean(owner, cs, false)
    requires (item.Some? ==> TriLeaves(item.value)) && (owner.Some? ==> TriLeaves(owner.value))
    requires SupersetTest(item, owner)
    ensures EvalOrYes(item, Raised(v)) <= EvalOrYes(owner, Raised(v))
  {
    SupersetTestSound(item, owner, v, cs);
    if item.Some? { RoundedIsRaised(item.value, v); }
    if owner.Some? { RoundedIsRaised(owner.value, v); }
  }

  /** An operand common to both sides disappears from the second. */
  lemma CommonOperandGoes(x: Expr, r: Expr)
    requires !IsBin(r, AndOp) && r != Sym(SYM_NO)
    ensures EliminateEq(Bin(AndOp, x, r), r).1 == Sym(SYM_YES)
  {
    StaysOrGoes(AndOp, x, r);
    var y := ElimEqWalk(AndOp, x, r);
    if y.b == r {
      ExprEqReflexive(r);
    } else {
      InertBesideConst(AndOp, r, y.b);
    }
    assert ElimEqWalk(AndOp, Bin(AndOp, x, r), r).b == Sym(SYM_YES);
  }

  /** Whatever else the item's condition holds, an owner condition at its right end is found. */
  lemma SupersetTestAccepts(item: ExprOrNull, owner: ExprOrNull, x: Expr)
    requires Flattened(item) == Bin(AndOp, x, Flattened(owner))
    requires !IsBin(Flattened(owner), AndOp) && Flattened(owner) != Sym(SYM_NO)
    ensures SupersetTest(item, owner)
  {
    CommonOperandGoes(x, Flattened(owner));
  }

  // ----- exactly when the test accepts -----

  /** No bool is tested against m, which is the one test that becomes y or n. */
  predicate NoModTest(e: Expr) {
    match e
    case Sym(_) => true
    case Not(x) => NoModTest(x)
    case Bin(_, l, r) => NoModTest(l) && NoModTest(r)
    case Cmp(_, a, b) => !(IsEqTest(e) && a.Ty() == Boolean && b == SYM_MOD)
  }

  predicate NoYn(e: Expr) {
    match e
    case Sym(s) => !YesOrNo(s)
    case Not(x) => NoYn(x)
    case Bin(_, l, r) => NoYn(l) && NoYn(r)
    case Cmp(_, _, _) => NoModTest(e)
  }

  lemma {:induction false} TransCompareNoYn(e: Expr, eq: bool)
    requires NoModTest(e)
    ensures NoYn(TransCompare(e, eq, SYM_NO))
  {
    match e
    case Sym(_) =>
    case Cmp(_, _, _) =>
    case Not(x) => TransCompareNoYn(x, !eq);
    case Bin(_, l, r) =>
      TransCompareNoYn(l, true);
      TransCompareNoYn(r, true);
  }

  lemma {:induction false} TransformNoYn(e: Expr)
    requires NoYn(e)
    ensures NoYn(Transform(e))
    decreases Weight(e)
  {
    match e
    case Sym(_) =>
    case Cmp(_, _, _) =>
    case Bin(_, l, r) =>
      TransformNoYn(l);
      TransformNoYn(r);
    case Not(x) =>
      TransformNoYn(x);
      var y := Transform(x);
      match y
      case Not(z) => TransformNoYn(z);
      case Cmp(_, _, _) =>
      case Bin(op, l, r) => TransformNoYn(DeMorgan(op, l, r));
      case Sym(_) =>
  }

  lemma {:induction false} NoYnNoRedex(e: Expr)
    requires NoYn(e)
    ensures !HasRedex(e)
  {
    if e.Bin? {
      NoYnNoRedex(e.l);
      NoYnNoRedex(e.r);
    }
  }

  lemma {:induction false} NormalIsPlain(e: Expr)
    requires Normal(e) && !HasRedex(e)
    ensures Plain(e)
  {
    if e.Bin? {
      NormalIsPlain(e.l);
      NormalIsPlain(e.r);
    }
  }

  function Constants(e: Expr): set<string> {
    match e
    case Sym(_) => {}
    case Not(x) => Constants(x)
    case Bin(_, l, r) => Constants(l) + Constants(r)
    case Cmp(_, _, b) => if b.Const? then {b.name} else {}
  }

  lemma {:induction false} WithinConstants(e: Expr, cs: set<string>)
    requires Constants(e) <= cs
    ensures TestsWithin(e, cs)
  {
    match e
    case Sym(_) =>
    case Cmp(_, _, _) =>
    case Not(x) => WithinConstants(x, cs);
    case Bin(_, l, r) =>
      WithinConstants(l, cs);
      WithinConstants(r, cs);
  }

  predicate NoModTestOrNull(cond: ExprOrNull) { cond.Some? ==> NoModTest(cond.value) }

  lemma FlattenedPlain(cond: ExprOrNull)
    requires NoModTestOrNull(cond)
    ensures Plain(Flattened(cond))
  {
    var x := TransCompareOrNull(cond, false, SYM_NO);
    if cond.Some? {
      var y := Transform(x);
      TransCompareNoYn(cond.value, false);
      TransformNoYn(x);
      TransformNormal(x);
      NoYnNoRedex(y);
      var cs := Constants(y) + {"y", "m", "n"};
      WithinConstants(y, cs);
      EliminateDupsTidy(y, cs, true);
      NormalIsPlain(Flattened(cond));
    }
  }

  /** The test accepts iff the owner's condition is y, or the item's is an && that has all the
      && operands of the owner's, in whatever place and order. */
  lemma SupersetTestExact(item: ExprOrNull, owner: ExprOrNull)
    requires NoModTestOrNull(item) && NoModTestOrNull(owner)
    ensures var i, o := Flattened(item), Flattened(owner);
            SupersetTest(item, owner)
            <==> IsYes(o) || (IsBin(i, AndOp) && !IsConst(o) && Keys(AndOp, o) <= Keys(AndOp, i))
  {
    hide Flattened;
    FlattenedPlain(item);
    FlattenedPlain(owner);
    SecondIsYes(Flattened(item), Flattened(owner));
  }
}
