/** Common-operand elimination and expression equality
    (scripts/config/expr.c, lines 139-397). */
module ExprEquality {
  import opened Exprs
  import opened ExprPaths

  // ----- expr_eliminate_yn -----

  predicate IsConst(e: Expr) { e.Sym? && YesOrNo(e.s) }

  /** One node of expr_eliminate_yn, its operands already simplified. */
  function SimplifyBin(op: Op, l: Expr, r: Expr): Expr {
    var unit := Sym(UnitSym(op));
    if IsConst(l) then (if l == unit then r else l)
    else if IsConst(r) then (if r == unit then l else r)
    else Bin(op, l, r)
  }

  function EliminateYn(e: Expr): Expr {
    match e
    case Bin(op, l, r) => SimplifyBin(op, EliminateYn(l), EliminateYn(r))
    case _ => e
  }

  /** A && or || with a y or n operand, reached through && and || alone. */
  predicate HasRedex(e: Expr) {
    e.Bin? && (IsConst(e.l) || IsConst(e.r) || HasRedex(e.l) || HasRedex(e.r))
  }

  lemma {:induction false} EliminateYnValue(e: Expr, v: Valuation)
    requires Wf(v)
    ensures Eval(EliminateYn(e), v) == Eval(e, v)
  {
    if e.Bin? {
      EliminateYnValue(e.l, v);
      EliminateYnValue(e.r, v);
    }
  }

  /** Nothing is left to eliminate, and exactly the expressions that had something shrink. */
  lemma {:induction false} EliminateYnShrinks(e: Expr)
    ensures !HasRedex(EliminateYn(e))
    ensures Size(EliminateYn(e)) <= Size(e)
    ensures HasRedex(e) ==> Size(EliminateYn(e)) < Size(e)
    ensures !HasRedex(e) ==> EliminateYn(e) == e
  {
    if e.Bin? {
      EliminateYnShrinks(e.l);
      EliminateYnShrinks(e.r);
    }
  }

  // ----- __expr_eliminate_eq, expr_eliminate_eq, expr_eq -----

  /** Both operands after the walk, and how often trans_count was bumped. */
  datatype Elim = Elim(a: Expr, b: Expr, hits: nat)

  function ElimEqWalk(op: Op, a: Expr, b: Expr): (r: Elim)
    ensures Size(r.a) <= Size(a) && Size(r.b) <= Size(b)
    ensures IsBin(r.a, op) == IsBin(a, op) && IsBin(r.b, op) == IsBin(b, op)
    decreases Size(a) + Size(b), if IsBin(a, op) || IsBin(b, op) then 0 else 3
  {
    if IsBin(a, op) then
      var x := ElimEqWalk(op, a.l, b);
      var y := ElimEqWalk(op, a.r, x.b);
      Elim(Bin(op, x.a, y.a), y.b, x.hits + y.hits)
    else if IsBin(b, op) then
      var x := ElimEqWalk(op, a, b.l);
      var y := ElimEqWalk(op, x.a, b.r);
      Elim(y.a, Bin(op, x.b, y.b), x.hits + y.hits)
    else if a == b && IsConst(a) then Elim(a, b, 0)
    else if ExprEq(a, b) then Elim(Sym(UnitSym(op)), Sym(UnitSym(op)), 1)
    else Elim(a, b, 0)
  }

  /** The two walks of expr_eliminate_eq, before y and n are eliminated. */
  function ElimEqBoth(a: Expr, b: Expr): (r: Elim)
    ensures Size(r.a) <= Size(a) && Size(r.b) <= Size(b)
    decreases Size(a) + Size(b), 1
  {
    var x := if a.Bin? then ElimEqWalk(a.op, a, b) else Elim(a, b, 0);
    if x.b.Bin? && !IsBin(x.a, x.b.op) then
      var y := ElimEqWalk(x.b.op, x.a, x.b);
      Elim(y.a, y.b, x.hits + y.hits)
    else x
  }

  function EliminateEq(a: Expr, b: Expr): (Expr, Expr) {
    var x := ElimEqBoth(a, b);
    (EliminateYn(x.a), EliminateYn(x.b))
  }

  predicate ExprEq(a: Expr, b: Expr)
    decreases Size(a) + Size(b), 2
  {
    match (a, b)
    case (Cmp(_, _, _), Cmp(_, _, _)) => a == b
    case (Sym(_), Sym(_)) => a == b
    case (Not(x), Not(y)) => ExprEq(x, y)
    case (Bin(op1, _, _), Bin(op2, _, _)) =>
      op1 == op2 &&
      var x := ElimEqBoth(a, b);
      var (p, q) := (EliminateYn(x.a), EliminateYn(x.b));
      p.Sym? && q.Sym? && p.s == q.s
    case (_, _) => false
  }

  // ----- soundness -----

  /** What the walk removed from both sides has the same value `c` on each. */
  lemma {:induction false} ElimEqWalkValue(op: Op, a: Expr, b: Expr, v: Valuation) returns (c: Tri)
    requires Wf(v)
    ensures var r := ElimEqWalk(op, a, b);
            Eval(a, v) == Join(op, Eval(r.a, v), c) && Eval(b, v) == Join(op, Eval(r.b, v), c)
    decreases Size(a) + Size(b), if IsBin(a, op) || IsBin(b, op) then 0 else 3
  {
    if IsBin(a, op) {
      var x := ElimEqWalk(op, a.l, b);
      var c1 := ElimEqWalkValue(op, a.l, b, v);
      var c2 := ElimEqWalkValue(op, a.r, x.b, v);
      c := Join(op, c1, c2);
      var y := ElimEqWalk(op, a.r, x.b);
      JoinTwice(op, Eval(x.a, v), Eval(y.a, v), c1, c2);
      JoinAgain(op, Eval(y.b, v), c1, c2);
    } else if IsBin(b, op) {
      var x := ElimEqWalk(op, a, b.l);
      var c1 := ElimEqWalkValue(op, a, b.l, v);
      var c2 := ElimEqWalkValue(op, x.a, b.r, v);
      c := Join(op, c1, c2);
      var y := ElimEqWalk(op, x.a, b.r);
      JoinTwice(op, Eval(x.b, v), Eval(y.b, v), c1, c2);
      JoinAgain(op, Eval(y.a, v), c1, c2);
    } else if !(a == b && IsConst(a)) && ExprEq(a, b) {
      ExprEqSound(a, b, v);
      c := Eval(a, v);
      JoinUnit(op, c);
    } else {
      c := UnitTri(op);
      JoinUnit(op, Eval(a, v));
      JoinUnit(op, Eval(b, v));
    }
  }

  /** One monotone function takes the simplified values back to the original ones. */
  lemma ElimEqBothValue(a: Expr, b: Expr, v: Valuation)
    returns (op1: Op, c1: Tri, op2: Op, c2: Tri)
    requires Wf(v)
    ensures var r := ElimEqBoth(a, b);
            && Eval(a, v) == Join(op1, Join(op2, Eval(r.a, v), c2), c1)
            && Eval(b, v) == Join(op1, Join(op2, Eval(r.b, v), c2), c1)
    decreases Size(a) + Size(b), 1
  {
    op1, c1, op2, c2 := AndOp, YES, AndOp, YES;
    var x := if a.Bin? then ElimEqWalk(a.op, a, b) else Elim(a, b, 0);
    if a.Bin? {
      op1 := a.op;
      c1 := ElimEqWalkValue(a.op, a, b, v);
    }
    if x.b.Bin? && !IsBin(x.a, x.b.op) {
      op2 := x.b.op;
      c2 := ElimEqWalkValue(x.b.op, x.a, x.b, v);
    }
  }

  /** Expressions that expr_eq accepts agree in every valuation. */
  lemma {:induction false} ExprEqSound(a: Expr, b: Expr, v: Valuation)
    requires Wf(v) && ExprEq(a, b)
    ensures Eval(a, v) == Eval(b, v)
    decreases Size(a) + Size(b), 2
  {
    match a
    case Sym(_) =>
    case Cmp(_, _, _) =>
    case Not(x) => ExprEqSound(x, b.e, v);
    case Bin(_, _, _) =>
      var r := ElimEqBoth(a, b);
      var _, _, _, _ := ElimEqBothValue(a, b, v);
      EliminateYnValue(r.a, v);
      EliminateYnValue(r.b, v);
  }

  /** expr_eliminate_eq reflects the order of the two values. */
  lemma EliminateEqReflectsOrder(a: Expr, b: Expr, v: Valuation)
    requires Wf(v)
    requires Eval(EliminateEq(a, b).0, v) <= Eval(EliminateEq(a, b).1, v)
    ensures Eval(a, v) <= Eval(b, v)
  {
    var r := ElimEqBoth(a, b);
    var _, _, _, _ := ElimEqBothValue(a, b, v);
    EliminateYnValue(r.a, v);
    EliminateYnValue(r.b, v);
  }

  // ----- expr_eq recognises every expression as equal to itself -----

  /** Every operand of the `op` level is y or n. */
  predicate AllConst(op: Op, e: Expr) {
    if IsBin(e, op) then AllConst(op, e.l) && AllConst(op, e.r) else IsConst(e)
  }

  /** The level with each operand other than y and n replaced by the unit. */
  function Blank(op: Op, e: Expr): Expr {
    if IsBin(e, op) then Bin(op, Blank(op, e.l), Blank(op, e.r))
    else if IsConst(e) then e else Sym(UnitSym(op))
  }

  /** A constant operand matches nothing. */
  lemma {:induction false} ConstIsInert(op: Op, a: Expr, b: Expr)
    requires IsConst(a)
    ensures var r := ElimEqWalk(op, a, b); r.a == a && r.b == b
  {
    if IsBin(b, op) {
      ConstIsInert(op, a, b.l);
      ConstIsInert(op, a, b.r);
    }
  }

  /** An operand matches no constant one. */
  lemma {:induction false} InertBesideConst(op: Op, a: Expr, b: Expr)
    requires !IsBin(a, op) && AllConst(op, b)
    ensures var r := ElimEqWalk(op, a, b); r.a == a && r.b == b
  {
    if IsBin(b, op) {
      InertBesideConst(op, a, b.l);
      InertBesideConst(op, a, b.r);
    }
  }

  /** All operands to the left of the slot are constant. */
  predicate ConstBefore(op: Op, b: Expr, p: Path)
    requires OnSpine(op, b, p)
  {
    p == [] || (ConstBefore(op, Child(b, p[0]), p[1..]) && (p[0] ==> AllConst(op, b.l)))
  }

  lemma {:induction false} BlankIsConst(op: Op, e: Expr)
    ensures AllConst(op, Blank(op, e))
  {
    if IsBin(e, op) {
      BlankIsConst(op, e.l);
      BlankIsConst(op, e.r);
    }
  }

  /** An operand meets its own copy first. */
  lemma {:induction false} MatchesOwnSlot(op: Op, b: Expr, p: Path)
    requires IsLeaf(op, b, p) && ConstBefore(op, b, p)
    requires ExprEq(At(b, p), At(b, p))
    ensures var r := ElimEqWalk(op, At(b, p), b);
            r.a == Blank(op, At(b, p)) && r.b == Put(b, p, Blank(op, At(b, p)))
  {
    var a := At(b, p);
    if IsConst(a) {
      ConstIsInert(op, a, b);
      AtPut(b, p, a);
    } else if p != [] {
      MatchesOwnSlot(op, Child(b, p[0]), p[1..]);
      if p[0] {
        InertBesideConst(op, a, b.l);
      } else {
        ConstIsInert(op, Blank(op, a), b.r);
      }
    }
  }

  /** Moving the slot from a node to its children. */
  lemma {:induction false} ConstBeforeChild(op: Op, b: Expr, p: Path)
    requires OnSpine(op, b, p) && IsBin(At(b, p), op) && ConstBefore(op, b, p)
    ensures OnSpine(op, b, p + [false]) && ConstBefore(op, b, p + [false])
    ensures var x := Put(b, p + [false], Blank(op, At(b, p).l));
            && OnSpine(op, x, p + [true]) && ConstBefore(op, x, p + [true])
            && At(x, p + [true]) == At(b, p).r
            && (forall y :: Put(x, p + [true], y) == Put(b, p, Bin(op, Blank(op, At(b, p).l), y)))
  {
    if p == [] {
      BlankIsConst(op, b.l);
    } else {
      assert (p + [false])[1..] == p[1..] + [false] && (p + [true])[1..] == p[1..] + [true];
      ConstBeforeChild(op, Child(b, p[0]), p[1..]);
    }
  }

  lemma {:induction false} WalkBlanksItself(op: Op, b: Expr, p: Path)
    requires OnSpine(op, b, p) && ConstBefore(op, b, p)
    ensures var r := ElimEqWalk(op, At(b, p), b);
            r.a == Blank(op, At(b, p)) && r.b == Put(b, p, Blank(op, At(b, p)))
    decreases Size(At(b, p)), if IsBin(At(b, p), op) then 0 else 2
  {
    var a := At(b, p);
    if IsBin(a, op) {
      ConstBeforeChild(op, b, p);
      SpineBelow(op, b, p, [false]);
      WalkBlanksItself(op, b, p + [false]);
      var x := Put(b, p + [false], Blank(op, a.l));
      WalkBlanksItself(op, x, p + [true]);
    } else {
      ExprEqReflexive(a);
      MatchesOwnSlot(op, b, p);
    }
  }

  lemma {:induction false} ConstSimplifies(op: Op, e: Expr)
    requires AllConst(op, e)
    ensures IsConst(EliminateYn(e))
  {
    if IsBin(e, op) {
      ConstSimplifies(op, e.l);
      ConstSimplifies(op, e.r);
    }
  }

  /** expr_eq accepts every expression beside its copy. */
  lemma {:induction false} ExprEqReflexive(e: Expr)
    ensures ExprEq(e, e)
    decreases Size(e), 1
  {
    match e
    case Sym(_) =>
    case Cmp(_, _, _) =>
    case Not(x) => ExprEqReflexive(x);
    case Bin(op, l, r) =>
      WalkBlanksItself(op, e, []);
      BlankIsConst(op, e);
      ConstSimplifies(op, Blank(op, e));
  }
}
