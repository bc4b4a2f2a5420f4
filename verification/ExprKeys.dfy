/** Exactly when expr_eq accepts, and exactly when the superset test of menu_finalize does
    (scripts/config/expr.c, lines 150-303; scripts/config/menu.c, lines 435-470). */
module ExprKeys {
  import opened Exprs
  import opened ExprEquality

  /** An expression up to the order and grouping of the operands of each level. */
  datatype Key = KLeaf(e: Expr) | KNot(k: Key) | KLevel(op: Op, operands: multiset<Key>)

  function KeyOf(e: Expr): Key
    decreases Size(e), 1
  {
    match e
    case Sym(_) => KLeaf(e)
    case Cmp(_, _, _) => KLeaf(e)
    case Not(x) => KNot(KeyOf(x))
    case Bin(op, _, _) => KLevel(op, Keys(op, e))
  }

  /** The operands of the `op` level of `e`, other than y and n. */
  function Keys(op: Op, e: Expr): multiset<Key>
    decreases Size(e), if IsBin(e, op) then 0 else 2
  {
    if IsBin(e, op) then Keys(op, e.l) + Keys(op, e.r)
    else if IsConst(e) then multiset{}
    else multiset{KeyOf(e)}
  }

  /** No && or || has a y or n operand. */
  predicate Plain(e: Expr) {
    match e
    case Sym(_) => true
    case Cmp(_, _, _) => true
    case Not(x) => Plain(x)
    case Bin(_, l, r) => Plain(l) && Plain(r) && !IsConst(l) && !IsConst(r)
  }

  /** An `op` level of plain operands, some of which may have been replaced by the unit. */
  predicate Level(op: Op, e: Expr) {
    if IsBin(e, op) then Level(op, e.l) && Level(op, e.r)
    else e == Sym(UnitSym(op)) || (Plain(e) && !IsConst(e))
  }

  lemma {:induction false} PlainIsLevel(op: Op, e: Expr)
    requires Plain(e) && !IsConst(e)
    ensures Level(op, e)
  {
    if IsBin(e, op) {
      PlainIsLevel(op, e.l);
      PlainIsLevel(op, e.r);
    }
  }

  lemma {:induction false} PlainIsFixed(e: Expr)
    requires Plain(e)
    ensures EliminateYn(e) == e
  {
    if e.Bin? {
      PlainIsFixed(e.l);
      PlainIsFixed(e.r);
    }
  }

  /** A level simplifies to its unit iff nothing but units is left of it, and to another
      symbol only if that is its one operand. */
  lemma {:induction false} LevelSimplifies(op: Op, e: Expr)
    requires Level(op, e)
    ensures var p := EliminateYn(e);
            && (p == Sym(UnitSym(op)) <==> Keys(op, e) == multiset{})
            && (p != Sym(UnitSym(op)) ==> !IsConst(p))
            && (p.Sym? && p != Sym(UnitSym(op)) ==> Keys(op, e) == multiset{KLeaf(p)})
  {
    hide Plain;
    if IsBin(e, op) {
      LevelSimplifies(op, e.l);
      LevelSimplifies(op, e.r);
      hide KeyOf, Level;
    } else {
      if e != Sym(UnitSym(op)) { PlainIsFixed(e); }
    }
  }

  /** The walk cancels common operands one against one, until the two sides share none. */
  lemma {:induction false} WalkCancels(op: Op, a: Expr, b: Expr) returns (c: multiset<Key>)
    requires Level(op, a) && Level(op, b)
    ensures var r := ElimEqWalk(op, a, b);
            && Level(op, r.a) && Level(op, r.b)
            && Keys(op, a) == Keys(op, r.a) + c && Keys(op, b) == Keys(op, r.b) + c
            && Keys(op, r.a) !! Keys(op, r.b)
    decreases Size(a) + Size(b), if IsBin(a, op) || IsBin(b, op) then 0 else 3
  {
    hide ExprEq, KeyOf, Plain;
    if IsBin(a, op) {
      var x := ElimEqWalk(op, a.l, b);
      var y := ElimEqWalk(op, a.r, x.b);
      var c1 := WalkCancels(op, a.l, b);
      var c2 := WalkCancels(op, a.r, x.b);
      c := c1 + c2;
      BothCancel(Keys(op, x.a), Keys(op, x.b), c1, Keys(op, y.a), Keys(op, y.b), c2);
    } else if IsBin(b, op) {
      var x := ElimEqWalk(op, a, b.l);
      var y := ElimEqWalk(op, x.a, b.r);
      var c1 := WalkCancels(op, a, b.l);
      var c2 := WalkCancels(op, x.a, b.r);
      c := c1 + c2;
      BothCancel(Keys(op, x.b), Keys(op, x.a), c1, Keys(op, y.b), Keys(op, y.a), c2);
    } else {
      c := if ExprEq(a, b) then Keys(op, a) else multiset{};
      OperandsCancel(op, a, b);
    }
  }

  lemma BothCancel(x: multiset<Key>, b1: multiset<Key>, c1: multiset<Key>,
                   y: multiset<Key>, b2: multiset<Key>, c2: multiset<Key>)
    requires x !! b1 && y !! b2 && b1 == b2 + c2
    ensures (x + c1) + (y + c2) == (x + y) + (c1 + c2) && b1 + c1 == b2 + (c1 + c2) && (x + y) !! b2
  {
  }

  lemma OperandsCancel(op: Op, a: Expr, b: Expr)
    requires Level(op, a) && Level(op, b) && !IsBin(a, op) && !IsBin(b, op)
    ensures var r, c := ElimEqWalk(op, a, b), if ExprEq(a, b) then Keys(op, a) else multiset{};
            && Level(op, r.a) && Level(op, r.b)
            && Keys(op, a) == Keys(op, r.a) + c && Keys(op, b) == Keys(op, r.b) + c
            && Keys(op, r.a) !! Keys(op, r.b)
    decreases Size(a) + Size(b), 2, 1
  {
    if a != Sym(UnitSym(op)) && b != Sym(UnitSym(op)) {
      ExprEqExact(a, b);
      hide ExprEq, KeyOf;
    }
  }

  /** expr_eq accepts iff the levels have the same operands, each as often on both sides. */
  lemma {:induction false} ExprEqExact(a: Expr, b: Expr)
    requires Plain(a) && Plain(b)
    ensures ExprEq(a, b) <==> KeyOf(a) == KeyOf(b)
    decreases Size(a) + Size(b), 2, 0
  {
    if a.Not? && b.Not? {
      ExprEqExact(a.e, b.e);
    } else if a.Bin? && b.Bin? && a.op == b.op {
      PlainIsLevel(a.op, a);
      PlainIsLevel(a.op, b);
      var r := ElimEqWalk(a.op, a, b);
      var c := WalkCancels(a.op, a, b);
      LevelSimplifies(a.op, r.a);
      LevelSimplifies(a.op, r.b);
      assert ElimEqBoth(a, b) == r;
      SameIffEmpty(Keys(a.op, r.a), Keys(a.op, r.b), c);
    }
  }

  lemma SameIffEmpty(x: multiset<Key>, y: multiset<Key>, c: multiset<Key>)
    requires x !! y
    ensures x + c == y + c <==> x == multiset{} && y == multiset{}
  {
    if x + c == y + c {
      assert forall k :: (x + c)[k] == x[k] + c[k] && (y + c)[k] == y[k] + c[k];
    }
  }

  lemma ExprEqSymmetric(a: Expr, b: Expr)
    requires Plain(a) && Plain(b)
    ensures ExprEq(a, b) <==> ExprEq(b, a)
  {
    ExprEqExact(a, b);
    ExprEqExact(b, a);
  }

  lemma ExprEqTransitive(a: Expr, b: Expr, c: Expr)
    requires Plain(a) && Plain(b) && Plain(c) && ExprEq(a, b) && ExprEq(b, c)
    ensures ExprEq(a, c)
  {
    ExprEqExact(a, b);
    ExprEqExact(b, c);
    ExprEqExact(a, c);
  }

  // ----- the rule that expr_eq documents -----

  /** A key without multiplicities. By the documented rule two levels are equal when each
      operand of one equals some operand of the other: when they have the same shape. */
  datatype Shape = SLeaf(e: Expr) | SNot(s: Shape) | SLevel(op: Op, operands: set<Shape>)

  function ShapeOf(k: Key): Shape
    decreases k
  {
    match k
    case KLeaf(e) => SLeaf(e)
    case KNot(x) => SNot(ShapeOf(x))
    case KLevel(op, xs) => SLevel(op, set x | x in xs :: ShapeOf(x))
  }

  /** No level repeats an operand. */
  predicate NoRepeats(k: Key)
    decreases k
  {
    match k
    case KLeaf(_) => true
    case KNot(x) => NoRepeats(x)
    case KLevel(_, xs) => forall x :: x in xs ==> NoRepeats(x) && xs[x] == 1
  }

  lemma {:induction false} ShapeDetermines(j: Key, k: Key)
    requires NoRepeats(j) && NoRepeats(k) && ShapeOf(j) == ShapeOf(k)
    ensures j == k
    decreases j
  {
    match j
    case KLeaf(_) =>
    case KNot(x) => ShapeDetermines(x, k.k);
    case KLevel(_, xs) =>
      var ys := k.operands;
      forall x | x in xs ensures x in ys {
        assert ShapeOf(x) in ShapeOf(k).operands;
        var y :| y in ys && ShapeOf(y) == ShapeOf(x);
        ShapeDetermines(x, y);
      }
      forall y | y in ys ensures y in xs {
        assert ShapeOf(y) in ShapeOf(j).operands;
        var x :| x in xs && ShapeOf(x) == ShapeOf(y);
        ShapeDetermines(x, y);
      }
      OnceEach(xs, ys);
  }

  lemma OnceEach(xs: multiset<Key>, ys: multiset<Key>)
    requires forall x :: x in xs <==> x in ys
    requires (forall x :: x in xs ==> xs[x] == 1) && (forall y :: y in ys ==> ys[y] == 1)
    ensures xs == ys
  {
    forall x ensures xs[x] == ys[x] {
      if x in xs { assert x in ys; } else { assert x !in ys; }
    }
  }

  /** What expr_eq accepts always obeys the documented rule; it accepts everything that does
      when no level repeats an operand. */
  lemma ExprEqDocumented(a: Expr, b: Expr)
    requires Plain(a) && Plain(b)
    ensures ExprEq(a, b) ==> ShapeOf(KeyOf(a)) == ShapeOf(KeyOf(b))
    ensures NoRepeats(KeyOf(a)) && NoRepeats(KeyOf(b)) ==>
              (ExprEq(a, b) <==> ShapeOf(KeyOf(a)) == ShapeOf(KeyOf(b)))
  {
    ExprEqExact(a, b);
    hide ExprEq, KeyOf;
    if NoRepeats(KeyOf(a)) && NoRepeats(KeyOf(b)) && ShapeOf(KeyOf(a)) == ShapeOf(KeyOf(b)) {
      ShapeDetermines(KeyOf(a), KeyOf(b));
    }
  }

  /** A repeated operand counts: these two obey the rule, have the same value, and are not
      accepted. */
  lemma RepeatedOperandCounts(x: Symbol, y: Symbol, v: Valuation)
    requires x.Config? && y.Config?
    ensures var a := Bin(AndOp, Bin(AndOp, Sym(x), Sym(x)), Sym(y));
            var b := Bin(AndOp, Sym(x), Sym(y));
            Eval(a, v) == Eval(b, v) && ShapeOf(KeyOf(a)) == ShapeOf(KeyOf(b)) && !ExprEq(a, b)
  {
    var kx, ky := KLeaf(Sym(x)), KLeaf(Sym(y));
    var a, b := Bin(AndOp, Bin(AndOp, Sym(x), Sym(x)), Sym(y)), Bin(AndOp, Sym(x), Sym(y));
    RepeatedKeys(x, y);
    ExprEqExact(a, b);
    hide ExprEq, KeyOf;
    assert |multiset{kx, kx, ky}| == 3 && |multiset{kx, ky}| == 2;
    SameShape(AndOp, multiset{kx, kx, ky}, multiset{kx, ky});
  }

  lemma SameShape(op: Op, xs: multiset<Key>, ys: multiset<Key>)
    requires forall k :: k in xs <==> k in ys
    ensures ShapeOf(KLevel(op, xs)) == ShapeOf(KLevel(op, ys))
  {
    assert (set x | x in xs :: ShapeOf(x)) == (set y | y in ys :: ShapeOf(y));
  }

  lemma RepeatedKeys(x: Symbol, y: Symbol)
    requires x.Config? && y.Config?
    ensures var kx, ky := KLeaf(Sym(x)), KLeaf(Sym(y));
            && KeyOf(Bin(AndOp, Bin(AndOp, Sym(x), Sym(x)), Sym(y))) == KLevel(AndOp, multiset{kx, kx, ky})
            && KeyOf(Bin(AndOp, Sym(x), Sym(y))) == KLevel(AndOp, multiset{kx, ky})
  {
    hide Keys, KeyOf;
    SymbolKeys(x);
    SymbolKeys(y);
    LevelKeys(AndOp, Sym(x), Sym(x));
    LevelKeys(AndOp, Sym(x), Sym(y));
    LevelKeys(AndOp, Bin(AndOp, Sym(x), Sym(x)), Sym(y));
    Sums(KLeaf(Sym(x)), KLeaf(Sym(y)));
  }

  lemma Sums(kx: Key, ky: Key)
    ensures multiset{kx} + multiset{ky} == multiset{kx, ky}
    ensures multiset{kx} + multiset{kx} + multiset{ky} == multiset{kx, kx, ky}
  {
  }

  lemma SymbolKeys(x: Symbol)
    requires x.Config?
    ensures Keys(AndOp, Sym(x)) == multiset{KLeaf(Sym(x))}
  {
  }

  lemma LevelKeys(op: Op, l: Expr, r: Expr)
    ensures KeyOf(Bin(op, l, r)) == KLevel(op, Keys(op, Bin(op, l, r)))
    ensures Keys(op, Bin(op, l, r)) == Keys(op, l) + Keys(op, r)
  {
  }

  /** x || n, an operand that expr_eq tells from x until nothing else is left. */
  function WithNo(x: Symbol): Expr { Bin(OrOp, Sym(x), Sym(SYM_NO)) }

  /** No operand of the first list meets its equal in the second. */
  lemma NothingCancels(a: Expr, l: Expr, r: Expr)
    requires !IsBin(a, AndOp) && !IsBin(l, AndOp) && !IsBin(r, AndOp)
    requires !ExprEq(a, l) && !ExprEq(a, r)
    ensures ElimEqWalk(AndOp, a, Bin(AndOp, l, r)) == Elim(a, Bin(AndOp, l, r), 0)
  {
    hide ExprEq;
    assert ElimEqWalk(AndOp, a, l) == Elim(a, l, 0);
    assert ElimEqWalk(AndOp, a, r) == Elim(a, r, 0);
  }

  /** The second operand cancels. */
  lemma SecondCancels(a: Expr, l: Expr, r: Expr)
    requires !IsBin(a, AndOp) && !IsBin(l, AndOp) && !IsBin(r, AndOp) && !IsConst(a)
    requires !ExprEq(a, l) && ExprEq(a, r)
    ensures var u := Sym(SYM_YES); ElimEqWalk(AndOp, a, Bin(AndOp, l, r)) == Elim(u, Bin(AndOp, l, u), 1)
  {
    hide ExprEq;
    assert ElimEqWalk(AndOp, a, l) == Elim(a, l, 0);
    assert ElimEqWalk(AndOp, a, r) == Elim(Sym(SYM_YES), Sym(SYM_YES), 1);
  }

  lemma NoSimplifies(x: Symbol)
    requires x.Config?
    ensures var u := Sym(SYM_YES);
            && EliminateYn(Sym(x)) == Sym(x) && EliminateYn(WithNo(x)) == Sym(x)
            && EliminateYn(Bin(AndOp, WithNo(x), u)) == Sym(x) && EliminateYn(Bin(AndOp, Sym(x), u)) == Sym(x)
  {
    var u, n := Sym(SYM_YES), Sym(SYM_NO);
    assert EliminateYn(u) == u;
    assert EliminateYn(n) == n;
    assert EliminateYn(Sym(x)) == Sym(x);
    assert EliminateYn(WithNo(x)) == SimplifyBin(OrOp, Sym(x), n);
    assert EliminateYn(Bin(AndOp, WithNo(x), u)) == SimplifyBin(AndOp, Sym(x), u);
    assert EliminateYn(Bin(AndOp, Sym(x), u)) == SimplifyBin(AndOp, Sym(x), u);
  }

  /** With a y or n operand the keys no longer decide: expr_eq accepts (x || n) && z beside
      x && z, because it drops the n when only these two operands are left. */
  lemma ConstantsBlur(x: Symbol, z: Symbol)
    requires x.Config? && z.Config? && x != z
    ensures var a := Bin(AndOp, WithNo(x), Sym(z));
            var b := Bin(AndOp, Sym(x), Sym(z));
            ExprEq(a, b) && KeyOf(a) != KeyOf(b)
  {
    var u, ex, ez, o := Sym(SYM_YES), Sym(x), Sym(z), WithNo(x);
    var a, b := Bin(AndOp, o, ez), Bin(AndOp, ex, ez);
    assert !ExprEq(o, ex) && !ExprEq(o, ez) && !ExprEq(ez, ex) && ExprEq(ez, ez);
    NothingCancels(o, ex, ez);
    SecondCancels(ez, ex, ez);
    WalkUnfolds(o, ez, b);
    BothIsWalk(a, b);
    NoSimplifies(x);
    BlurredKeys(x, z);
    hide ElimEqWalk, Keys, KeyOf, EliminateYn;
  }

  lemma BothIsWalk(a: Expr, b: Expr)
    requires IsBin(a, AndOp) && IsBin(b, AndOp)
    ensures ElimEqBoth(a, b) == ElimEqWalk(AndOp, a, b)
  {
    hide ElimEqWalk, ExprEq;
  }

  lemma WalkUnfolds(l: Expr, r: Expr, b: Expr)
    ensures var x := ElimEqWalk(AndOp, l, b);
            var y := ElimEqWalk(AndOp, r, x.b);
            ElimEqWalk(AndOp, Bin(AndOp, l, r), b) == Elim(Bin(AndOp, x.a, y.a), y.b, x.hits + y.hits)
  {
    hide ExprEq;
  }

  /** Nor is acceptance transitive then: x && z and (x || n) && (z || n) are both accepted
      beside (x || n) && z, and not beside each other. */
  lemma NotTransitive(x: Symbol, z: Symbol)
    requires x.Config? && z.Config? && x != z
    ensures var a, b := Bin(AndOp, Sym(x), Sym(z)), Bin(AndOp, WithNo(x), Sym(z));
            var c := Bin(AndOp, WithNo(x), WithNo(z));
            ExprEq(b, a) && ExprEq(b, c) && !ExprEq(a, c)
  {
    ConstantsBlur(x, z);
    MiddleAccepted(x, z);
    EndsRefused(x, z);
  }

  lemma EndsRefused(x: Symbol, z: Symbol)
    requires x.Config? && z.Config? && x != z
    ensures !ExprEq(Bin(AndOp, Sym(x), Sym(z)), Bin(AndOp, WithNo(x), WithNo(z)))
  {
    var ex, ez, ox, oz := Sym(x), Sym(z), WithNo(x), WithNo(z);
    var a, c := Bin(AndOp, ex, ez), Bin(AndOp, ox, oz);
    assert !ExprEq(ex, ox) && !ExprEq(ex, oz) && !ExprEq(ez, ox) && !ExprEq(ez, oz);
    NothingCancels(ex, ox, oz);
    NothingCancels(ez, ox, oz);
    WalkUnfolds(ex, ez, c);
    BothIsWalk(a, c);
    NoSimplifies(x);
    NoSimplifies(z);
    assert EliminateYn(a) == SimplifyBin(AndOp, ex, ez);
    hide ElimEqWalk, EliminateYn;
  }

  lemma MiddleAccepted(x: Symbol, z: Symbol)
    requires x.Config? && z.Config? && x != z
    ensures ExprEq(Bin(AndOp, WithNo(x), Sym(z)), Bin(AndOp, WithNo(x), WithNo(z)))
  {
    var u, ez, ox, oz := Sym(SYM_YES), Sym(z), WithNo(x), WithNo(z);
    var b, c, c1 := Bin(AndOp, ox, ez), Bin(AndOp, ox, oz), Bin(AndOp, Sym(SYM_YES), oz);
    ExprEqReflexive(ox);
    FirstCancels(ox, oz);
    assert !ExprEq(ez, u) && !ExprEq(ez, oz);
    NothingCancels(ez, u, oz);
    WalkUnfolds(ox, ez, c);
    BothIsWalk(b, c);
    NoSimplifies(z);
    assert EliminateYn(u) == u;
    assert EliminateYn(Bin(AndOp, u, ez)) == SimplifyBin(AndOp, u, ez);
    assert EliminateYn(c1) == SimplifyBin(AndOp, u, ez);
    hide ElimEqWalk, EliminateYn;
  }

  /** The first operand cancels. */
  lemma FirstCancels(l: Expr, r: Expr)
    requires !IsBin(l, AndOp) && !IsBin(r, AndOp) && !IsConst(l) && ExprEq(l, l)
    ensures var u := Sym(SYM_YES); ElimEqWalk(AndOp, l, Bin(AndOp, l, r)) == Elim(u, Bin(AndOp, u, r), 1)
  {
    var u := Sym(SYM_YES);
    ConstIsInert(AndOp, u, r);
    assert ElimEqWalk(AndOp, u, r) == Elim(u, r, 0);
    hide ExprEq;
    assert ElimEqWalk(AndOp, l, l) == Elim(u, u, 1);
  }

  lemma BlurredKeys(x: Symbol, z: Symbol)
    requires x.Config? && z.Config?
    ensures KeyOf(Bin(AndOp, WithNo(x), Sym(z))) != KeyOf(Bin(AndOp, Sym(x), Sym(z)))
  {
    var o := WithNo(x);
    assert Keys(AndOp, o) == multiset{KeyOf(o)} && KeyOf(o).KLevel?;
    hide Keys, KeyOf;
    SymbolKeys(x);
    SymbolKeys(z);
    LevelKeys(AndOp, Sym(x), Sym(z));
    LevelKeys(AndOp, o, Sym(z));
    assert KeyOf(o) in Keys(AndOp, Bin(AndOp, o, Sym(z)));
    assert KeyOf(o) !in multiset{KLeaf(Sym(x))} + multiset{KLeaf(Sym(z))};
  }

  // ----- what is left of the second side -----

  lemma {:induction false} WalkKeepsLevel(op: Op, a: Expr, b: Expr)
    requires Level(op, b)
    ensures Level(op, ElimEqWalk(op, a, b).b)
    decreases Size(a) + Size(b)
  {
    hide ExprEq;
    if IsBin(a, op) {
      WalkKeepsLevel(op, a.l, b);
      WalkKeepsLevel(op, a.r, ElimEqWalk(op, a.l, b).b);
    } else if IsBin(b, op) {
      WalkKeepsLevel(op, a, b.l);
      WalkKeepsLevel(op, ElimEqWalk(op, a, b.l).a, b.r);
    }
  }

  lemma {:induction false} ConstStays(op: Op, a: Expr, b: Expr)
    requires IsConst(b)
    ensures ElimEqWalk(op, a, b).b == b
  {
    if IsBin(a, op) {
      ConstStays(op, a.l, b);
      ConstStays(op, a.r, b);
    }
  }

  /** An operand of another level stays or goes as a whole. */
  lemma {:induction false} StaysOrGoes(op: Op, a: Expr, b: Expr)
    requires !IsBin(b, op)
    ensures var x := ElimEqWalk(op, a, b).b; x == b || x == Sym(UnitSym(op))
  {
    if IsBin(a, op) {
      StaysOrGoes(op, a.l, b);
      StaysOrGoes(op, a.r, ElimEqWalk(op, a.l, b).b);
    }
  }

  /** One operand takes away at most one. */
  lemma {:induction false} OneTakesOne(op: Op, a: Expr, b: Expr)
    requires !IsBin(a, op) && Level(op, b)
    ensures var r := ElimEqWalk(op, a, b);
            && Level(op, r.b)
            && ((r.a == a && r.b == b) || (r.a == Sym(UnitSym(op)) && |Keys(op, r.b)| + 1 == |Keys(op, b)|))
  {
    hide KeyOf;
    if IsBin(b, op) {
      OneTakesOne(op, a, b.l);
      OneTakesOne(op, a, b.r);
      ConstIsInert(op, Sym(UnitSym(op)), b.r);
    }
  }

  lemma {:induction false} HasKeys(op: Op, e: Expr)
    requires Plain(e) && !IsConst(e)
    ensures |Keys(op, e)| >= if IsBin(e, op) then 2 else 1
  {
    if IsBin(e, op) {
      HasKeys(op, e.l);
      HasKeys(op, e.r);
    }
  }

  lemma Contained(x: multiset<Key>, y: multiset<Key>, c: multiset<Key>)
    requires x !! y
    ensures x == multiset{} <==> x + c <= y + c
  {
    if x + c <= y + c {
      forall k ensures x[k] == 0 { assert (x + c)[k] <= (y + c)[k]; }
    }
  }

  /** What survives when an && level meets the second side. */
  lemma AndMeets(a: Expr, b: Expr)
    requires Plain(a) && Plain(b) && IsBin(a, AndOp) && !IsConst(b)
    ensures IsYes(EliminateEq(a, b).1) <==> Keys(AndOp, b) <= Keys(AndOp, a)
  {
    hide Plain, KeyOf, ElimEqWalk, Keys;
    PlainIsLevel(AndOp, a);
    PlainIsLevel(AndOp, b);
    var x := ElimEqWalk(AndOp, a, b);
    var c := WalkCancels(AndOp, a, b);
    LevelSimplifies(AndOp, x.b);
    Contained(Keys(AndOp, x.b), Keys(AndOp, x.a), c);
    if x.b.Bin? && x.b.op == OrOp {
      StaysOrGoes(AndOp, a, b);
      OrNeverYes(x.a, b);
      HasKeys(AndOp, b);
    }
  }

  predicate IsYes(e: Expr) { e == Sym(SYM_YES) }

  lemma OrNeverYes(a: Expr, b: Expr)
    requires Plain(b) && IsBin(b, OrOp)
    ensures !IsYes(EliminateYn(ElimEqWalk(OrOp, a, b).b))
  {
    hide ElimEqWalk;
    PlainIsLevel(OrOp, b);
    WalkKeepsLevel(OrOp, a, b);
    LevelSimplifies(OrOp, ElimEqWalk(OrOp, a, b).b);
  }

  lemma AndOutlastsOne(a: Expr, b: Expr)
    requires !IsBin(a, AndOp) && Plain(b) && IsBin(b, AndOp)
    ensures !IsYes(EliminateYn(ElimEqWalk(AndOp, a, b).b))
  {
    hide ElimEqWalk, Keys;
    PlainIsLevel(AndOp, b);
    HasKeys(AndOp, b);
    OneTakesOne(AndOp, a, b);
    LevelSimplifies(AndOp, ElimEqWalk(AndOp, a, b).b);
  }

  /** A first side that is no && level leaves y only where y was. */
  lemma OtherMeets(a: Expr, b: Expr)
    requires Plain(b) && !IsBin(a, AndOp) && !IsConst(b)
    ensures !IsYes(EliminateEq(a, b).1)
  {
    PlainIsFixed(b);
    hide ElimEqWalk, Plain;
    if a.Bin? {
      var x := ElimEqWalk(OrOp, a, b);
      if IsBin(b, OrOp) {
        OrNeverYes(a, b);
      } else {
        StaysOrGoes(OrOp, a, b);
        if IsBin(b, AndOp) { AndOutlastsOne(x.a, b); }
      }
    } else if IsBin(b, AndOp) {
      AndOutlastsOne(a, b);
    } else if IsBin(b, OrOp) {
      OrNeverYes(a, b);
    }
  }

  /** expr_eliminate_eq leaves y on the second side iff that side was y, or the first is an &&
      level that has all its operands, each at least as often. */
  lemma SecondIsYes(a: Expr, b: Expr)
    requires Plain(a) && Plain(b)
    ensures IsYes(EliminateEq(a, b).1)
            <==> IsYes(b) || (IsBin(a, AndOp) && !IsConst(b) && Keys(AndOp, b) <= Keys(AndOp, a))
  {
    hide ElimEqWalk, Plain, Keys;
    if IsConst(b) {
      if a.Bin? { ConstStays(a.op, a, b); }
    } else if IsBin(a, AndOp) {
      AndMeets(a, b);
    } else {
      OtherMeets(a, b);
    }
  }
}
