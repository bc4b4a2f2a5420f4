/** Removal of duplicate and redundant operands
    (scripts/config/expr.c, lines 428-686). */
module ExprDups {
  import opened Exprs
  import opened ExprPaths
  import opened ExprEquality

  // ----- expr_join_or, expr_join_and -----

  /** `sym1`: the symbol an operand is about, if the operand is simple enough. */
  function FirstSubject(e: Expr): Option<Symbol> {
    match e
    case Sym(s) => Some(s)
    case Not(x) => if x.Sym? then Some(x.s) else if IsEqTest(x) then Some(x.a) else None
    case Cmp(_, a, _) => if IsEqTest(e) then Some(a) else None
    case Bin(_, _, _) => None
  }

  /** `sym2`: as above, but a negated comparison is not accepted. */
  function SecondSubject(e: Expr): Option<Symbol> {
    if e.Not? && !e.e.Sym? then None else FirstSubject(e)
  }

  /** Of y, m and n, the one that is neither of two distinct ones. */
  function Third(b: Symbol, c: Symbol): Option<Symbol> {
    if !Ymn(b) || !Ymn(c) || b == c then None
    else Some(if b != SYM_YES && c != SYM_YES then SYM_YES
              else if b != SYM_MOD && c != SYM_MOD then SYM_MOD
              else SYM_NO)
  }

  /** One operand is the symbol itself, the other tests it against `c`. */
  predicate SymBesideTest(e1: Expr, e2: Expr, s: Symbol, rel: Rel, c: Symbol) {
    var test := Cmp(rel, s, c);
    (e1 == Sym(s) && e2 == test) || (e2 == Sym(s) && e1 == test)
  }

  function JoinOr(e1: Expr, e2: Expr): Option<Expr> {
    if ExprEq(e1, e2) then Some(e1)
    else match (FirstSubject(e1), SecondSubject(e2))
    case (Some(s), Some(s2)) =>
      if s != s2 || !s.BoolLike() then None
      else if s.Ty() == Tristate then
        if e1.Cmp? && e2.Cmp? && e1.rel == Equal && e2.rel == Equal && Third(e1.b, e2.b).Some?
        then Some(Cmp(Unequal, s, Third(e1.b, e2.b).value)) else None
      else if (e1 == Not(Sym(s)) && e2 == Sym(s)) || (e2 == Not(Sym(s)) && e1 == Sym(s))
      then Some(Sym(SYM_YES)) else None
    case (_, _) => None
  }

  /** (a='b') && (a!='c') */
  function JoinTests(s: Symbol, b: Symbol, c: Symbol): Option<Expr> {
    if b.Const? && c.Const? then Some(if b != c then Cmp(Equal, s, b) else Sym(SYM_NO)) else None
  }

  function JoinAnd(e1: Expr, e2: Expr): Option<Expr> {
    if ExprEq(e1, e2) then Some(e1)
    else match (FirstSubject(e1), SecondSubject(e2))
    case (Some(s), Some(s2)) =>
      if s != s2 || !s.BoolLike() then None
      else if SymBesideTest(e1, e2, s, Equal, SYM_YES) then Some(Cmp(Equal, s, SYM_YES))
      else if SymBesideTest(e1, e2, s, Unequal, SYM_NO) then Some(Sym(s))
      else if SymBesideTest(e1, e2, s, Unequal, SYM_MOD) then Some(Cmp(Equal, s, SYM_YES))
      else if s.Ty() == Tristate && e1.Cmp? && e2.Cmp? then
        if e1.rel == Equal && e2.rel == Unequal then JoinTests(s, e1.b, e2.b)
        else if e1.rel == Unequal && e2.rel == Equal then JoinTests(s, e2.b, e1.b)
        else if e1.rel == Unequal && e2.rel == Unequal && Third(e1.b, e2.b).Some?
        then Some(Cmp(Equal, s, Third(e1.b, e2.b).value))
        else None
      else None
    case (_, _) => None
  }

  function JoinExprs(op: Op, e1: Expr, e2: Expr): Option<Expr> {
    if op == AndOp then JoinAnd(e1, e2) else JoinOr(e1, e2)
  }

  lemma JoinShape(op: Op, e1: Expr, e2: Expr)
    requires JoinExprs(op, e1, e2).Some? && !IsBin(e1, op)
    ensures var x := JoinExprs(op, e1, e2).value;
            !IsBin(x, op) && 1 + Size(x) <= Size(e1) + Size(e2)
  {
  }

  // ----- which constants a tristate may be compared with -----

  /** No value of a tristate equals two of these constants. Distinct constants can
      coincide because they are compared as numbers when they parse as numbers. */
  ghost predicate NoClash(cs: set<string>) {
    && "y" in cs && "m" in cs && "n" in cs
    && forall b, c, t: Tri :: b in cs && c in cs && TriEquals(t, b) && TriEquals(t, c) ==> b == c
  }

  /** Every constant that `e` tests a tristate against is one of `cs`. */
  predicate TestsWithin(e: Expr, cs: set<string>) {
    match e
    case Sym(_) => true
    case Not(x) => TestsWithin(x, cs)
    case Bin(_, l, r) => TestsWithin(l, cs) && TestsWithin(r, cs)
    case Cmp(_, a, b) => IsEqTest(e) && a.Ty() == Tristate && b.Const? ==> b.name in cs
  }

  // ----- each join has the value of the operands it replaces -----

  lemma ThirdValue(b: Symbol, c: Symbol, v: Valuation)
    requires Wf(v) && Third(b, c).Some?
    ensures var d := Third(b, c).value;
            && Ymn(b) && Ymn(c) && Ymn(d)
            && v.tri(b) != v.tri(c) && v.tri(b) != v.tri(d) && v.tri(c) != v.tri(d)
  {
  }

  lemma JoinOrValue(e1: Expr, e2: Expr, v: Valuation)
    requires Wf(v) && JoinOr(e1, e2).Some?
    ensures Eval(JoinOr(e1, e2).value, v) == Max(Eval(e1, v), Eval(e2, v))
  {
    if ExprEq(e1, e2) {
      ExprEqSound(e1, e2, v);
    } else {
      var s := FirstSubject(e1).value;
      if s.Ty() == Tristate {
        ThirdValue(e1.b, e2.b, v);
        YmnCompare(s, e1.b, v);
        YmnCompare(s, e2.b, v);
        YmnCompare(s, Third(e1.b, e2.b).value, v);
      }
    }
  }

  lemma JoinTestsValue(s: Symbol, b: Symbol, c: Symbol, v: Valuation, cs: set<string>)
    requires Wf(v) && s.Ty() == Tristate && JoinTests(s, b, c).Some?
    requires NoClash(cs) && b.name in cs && c.name in cs
    ensures Eval(JoinTests(s, b, c).value, v)
            == Min(Eval(Cmp(Equal, s, b), v), Eval(Cmp(Unequal, s, c), v))
  {
    ConstCompare(s, b, v);
    ConstCompare(s, c, v);
  }

  lemma SymAndTestValue(s: Symbol, v: Valuation)
    requires Wf(v) && s.BoolLike()
    ensures Min(v.tri(s), Eval(Cmp(Equal, s, SYM_YES), v)) == Eval(Cmp(Equal, s, SYM_YES), v)
    ensures Min(v.tri(s), Eval(Cmp(Unequal, s, SYM_NO), v)) == v.tri(s)
    ensures Min(v.tri(s), Eval(Cmp(Unequal, s, SYM_MOD), v)) == Eval(Cmp(Equal, s, SYM_YES), v)
  {
    YmnCompare(s, SYM_YES, v);
    YmnCompare(s, SYM_MOD, v);
    YmnCompare(s, SYM_NO, v);
  }

  lemma JoinSymTestValue(e1: Expr, e2: Expr, v: Valuation)
    requires Wf(v) && JoinAnd(e1, e2).Some? && !ExprEq(e1, e2) && !(e1.Cmp? && e2.Cmp?)
    ensures Eval(JoinAnd(e1, e2).value, v) == Min(Eval(e1, v), Eval(e2, v))
  {
    hide ExprEq, CompareStrings;
    SymAndTestValue(FirstSubject(e1).value, v);
  }

  lemma JoinAndValue(e1: Expr, e2: Expr, v: Valuation, cs: set<string>)
    requires Wf(v) && JoinAnd(e1, e2).Some?
    requires NoClash(cs) && TestsWithin(e1, cs) && TestsWithin(e2, cs)
    ensures Eval(JoinAnd(e1, e2).value, v) == Min(Eval(e1, v), Eval(e2, v))
  {
    if ExprEq(e1, e2) {
      ExprEqSound(e1, e2, v);
    } else if e1.Cmp? && e2.Cmp? {
      JoinTwoTestsValue(e1, e2, v, cs);
    } else {
      JoinSymTestValue(e1, e2, v);
    }
  }

  lemma JoinTwoTestsValue(e1: Expr, e2: Expr, v: Valuation, cs: set<string>)
    requires Wf(v) && JoinAnd(e1, e2).Some? && e1.Cmp? && e2.Cmp? && !ExprEq(e1, e2)
    requires NoClash(cs) && TestsWithin(e1, cs) && TestsWithin(e2, cs)
    ensures Eval(JoinAnd(e1, e2).value, v) == Min(Eval(e1, v), Eval(e2, v))
  {
    var s := e1.a;
    if e1.rel == Equal {
      JoinTestsValue(s, e1.b, e2.b, v, cs);
    } else if e2.rel == Equal {
      JoinTestsValue(s, e2.b, e1.b, v, cs);
    } else {
      ThirdValue(e1.b, e2.b, v);
      YmnCompare(s, e1.b, v);
      YmnCompare(s, e2.b, v);
      YmnCompare(s, Third(e1.b, e2.b).value, v);
    }
  }

  lemma JoinValue(op: Op, e1: Expr, e2: Expr, v: Valuation, cs: set<string>)
    requires Wf(v) && JoinExprs(op, e1, e2).Some?
    requires NoClash(cs) && TestsWithin(e1, cs) && TestsWithin(e2, cs)
    ensures Eval(JoinExprs(op, e1, e2).value, v) == Join(op, Eval(e1, v), Eval(e2, v))
  {
    if op == AndOp {
      JoinAndValue(e1, e2, v, cs);
    } else {
      JoinOrValue(e1, e2, v);
    }
  }

  /** Joins stay within the constants and within the normal form. */
  ghost predicate Tidy(e: Expr, cs: set<string>, normal: bool) {
    TestsWithin(e, cs) && (normal ==> Normal(e))
  }

  lemma JoinTidy(op: Op, e1: Expr, e2: Expr, cs: set<string>, normal: bool)
    requires JoinExprs(op, e1, e2).Some? && "y" in cs && "m" in cs && "n" in cs
    requires Tidy(e1, cs, normal) && Tidy(e2, cs, normal)
    ensures Tidy(JoinExprs(op, e1, e2).value, cs, normal)
  {
    if op == AndOp { } else { }
  }

  lemma {:induction false} TidyAt(t: Expr, p: Path, cs: set<string>, normal: bool)
    requires Valid(t, p) && Tidy(t, cs, normal)
    ensures Tidy(At(t, p), cs, normal)
  {
    if p != [] {
      TidyAt(Child(t, p[0]), p[1..], cs, normal);
    }
  }

  lemma {:induction false} TidyPut(t: Expr, p: Path, x: Expr, cs: set<string>, normal: bool)
    requires Valid(t, p) && Tidy(t, cs, normal) && Tidy(x, cs, normal)
    ensures Tidy(Put(t, p, x), cs, normal)
  {
    if p != [] {
      TidyPut(Child(t, p[0]), p[1..], x, cs, normal);
    }
  }

  lemma {:induction false} TidyYn(e: Expr, cs: set<string>, normal: bool)
    requires Tidy(e, cs, normal)
    ensures Tidy(EliminateYn(e), cs, normal)
  {
    if e.Bin? {
      TidyYn(e.l, cs, normal);
      TidyYn(e.r, cs, normal);
    }
  }

  // ----- exactly when joining two tests of a tristate is right -----

  /** A valuation that puts every tristate at `t`. */
  function AllAt(t: Tri): Valuation {
    Valuation(
      (s: Symbol) => if s == SYM_YES then YES else if s == SYM_MOD then MOD else if s == SYM_NO then NO
                     else if s.Ty() == Tristate then t else NO,
      (s: Symbol) => if s.Const? then s.name else if s.Ty() == Tristate then TriString(t) else "n")
  }

  lemma AllAtWf(t: Tri)
    ensures Wf(AllAt(t))
  {
  }

  /** In `v`, a='b' alone has the value of a='b' && a!='c'. */
  predicate JoinsAt(s: Symbol, b: string, c: string, v: Valuation) {
    var isB := Eval(Cmp(Equal, s, Const(b)), v);
    isB == Min(isB, Eval(Cmp(Unequal, s, Const(c)), v))
  }

  lemma JoinTestsAt(s: Symbol, b: string, c: string, v: Valuation)
    requires Wf(v) && s.Ty() == Tristate
    ensures JoinsAt(s, b, c, v) <==> !(TriEquals(v.tri(s), b) && TriEquals(v.tri(s), c))
  {
    ConstCompare(s, Const(b), v);
    ConstCompare(s, Const(c), v);
  }

  /** Joining a='b' with a!='c' keeps the value in every valuation iff no value of a
      tristate equals both constants. */
  lemma JoinTestsExact(s: Symbol, b: string, c: string)
    requires s.Ty() == Tristate && b != c
    ensures JoinAnd(Cmp(Equal, s, Const(b)), Cmp(Unequal, s, Const(c)))
            == Some(Cmp(Equal, s, Const(b)))
    ensures (forall v: Valuation :: Wf(v) ==> JoinsAt(s, b, c, v))
            <==> (forall t: Tri :: !(TriEquals(t, b) && TriEquals(t, c)))
  {
    assert JoinTests(s, Const(b), Const(c)) == Some(Cmp(Equal, s, Const(b)));
    forall v: Valuation | Wf(v)
      ensures JoinsAt(s, b, c, v) <==> !(TriEquals(v.tri(s), b) && TriEquals(v.tri(s), c))
    {
      JoinTestsAt(s, b, c, v);
    }
    forall t: Tri
      ensures JoinsAt(s, b, c, AllAt(t)) <==> !(TriEquals(t, b) && TriEquals(t, c))
      ensures Wf(AllAt(t))
    {
      AllAtWf(t);
      assert AllAt(t).tri(s) == t;
    }
  }

  /** "2" and "0x2" both equal y, so this family is not empty. */
  lemma ClashingConstants()
    ensures TriEquals(YES, "2") && TriEquals(YES, "0x2")
  {
    assert SkipSpace("2") == "2" && SkipSpace("0x2") == "0x2";
    assert "0x2"[2..] == "2";
    assert DigitVal('2') == 2;
    assert "2"[..|"2"| - 1] == [];
    assert DigitsVal("2", 10) == 2 && DigitsVal("2", 16) == 2;
    assert ParseNumber("2", 0) == Some((false, 2));
    assert ParseNumber("0x2", 0) == Some((false, 2));
  }

  /** y, m and n alone never clash. */
  lemma YmnNoClash()
    ensures NoClash({"y", "m", "n"})
  {
    hide TriEquals;
    forall t: Tri, u: Tri ensures TriEquals(t, TriString(u)) <==> t == u {
      YmnTriEquals(t, u);
    }
    assert TriString(YES) == "y" && TriString(MOD) == "m" && TriString(NO) == "n";
  }

  // ----- expr_eliminate_dups1 -----

  /** The tree after a walk, and how often trans_count was bumped. */
  datatype Pass = Pass(tree: Expr, hits: nat)

  /** Both slots hold operands of the level. */
  predicate Meet(op: Op, t: Expr, p: Path, q: Path)
    requires OnSpine(op, t, p) && OnSpine(op, t, q)
  {
    !IsBin(At(t, p), op) && !IsBin(At(t, q), op)
  }

  ghost function Below(op: Op, t: Expr, p: Path, q: Path): nat
    requires OnSpine(op, t, p) && OnSpine(op, t, q)
  {
    SpineSize(op, At(t, p)) + SpineSize(op, At(t, q))
  }

  /** The slots of a recursive call: down from the first slot, then from the second. */
  function Down(op: Op, t: Expr, p: Path, q: Path, right: bool): (r: (Path, Path))
    requires OnSpine(op, t, p) && OnSpine(op, t, q) && !Meet(op, t, p, q)
    ensures OnSpine(op, t, r.0) && OnSpine(op, t, r.1) && Below(op, t, r.0, r.1) < Below(op, t, p, q)
  {
    SpineBelow(op, t, p, []); SpineBelow(op, t, q, []);
    if IsBin(At(t, p), op) then SpineBelow(op, t, p, [right]); (p + [right], q)
    else SpineBelow(op, t, q, [right]); (p, q + [right])
  }

  lemma DownAfter(op: Op, t: Expr, t': Expr, p: Path, q: Path)
    requires OnSpine(op, t, p) && OnSpine(op, t, q) && SameSpine(op, t, t')
    ensures OnSpine(op, t', p) && OnSpine(op, t', q) && Below(op, t', p, q) == Below(op, t, p, q)
    ensures Meet(op, t, p, q) == Meet(op, t', p, q)
  {
    SameSpineAt(op, t, t', p);
    SameSpineAt(op, t, t', q);
  }

  /** Compares every operand below slot `p` with every operand below slot `q` of the
      same level of `t`. Both slots name places in one tree, which changes as the
      walk goes on. */
  function Dups1(op: Op, t: Expr, p: Path, q: Path): (r: Pass)
    requires OnSpine(op, t, p) && OnSpine(op, t, q)
    ensures SameSpine(op, t, r.tree) && Size(r.tree) <= Size(t)
    decreases Size(t), Below(op, t, p, q)
  {
    if !Meet(op, t, p, q) then
      var (p0, q0) := Down(op, t, p, q, false);
      var (p1, q1) := Down(op, t, p, q, true);
      var x := Dups1(op, t, p0, q0);
      DownAfter(op, t, x.tree, p1, q1);
      var y := Dups1(op, x.tree, p1, q1);
      SameSpineTrans(op, t, x.tree, y.tree);
      Pass(y.tree, x.hits + y.hits)
    else if p == q then
      SameSpineRefl(op, t);
      Pass(t, 0)
    else
      LeavesApart(op, t, p, q);
      var e := At(t, p);
      var inner := if e.Bin? then Dups1(e.op, e, [], []) else Pass(e, 0);
      var t1 := Put(t, p, inner.tree);
      PutLeaf(op, t, p, q, inner.tree);
      var j := JoinExprs(op, inner.tree, At(t, q));
      if j.Some? then
        JoinShape(op, inner.tree, At(t, q));
        PutLeaf(op, t1, p, q, Sym(UnitSym(op)));
        var t2 := Put(t1, p, Sym(UnitSym(op)));
        PutLeaf(op, t2, q, p, j.value);
        SameSpineTrans(op, t, t1, t2);
        SameSpineTrans(op, t, t2, Put(t2, q, j.value));
        Pass(Put(t2, q, j.value), inner.hits + 1)
      else Pass(t1, inner.hits)
  }

  /** Replacing one operand leaves the others, the level and the size accounted for. */
  lemma PutLeaf(op: Op, t: Expr, p: Path, q: Path, x: Expr)
    requires IsLeaf(op, t, p) && IsLeaf(op, t, q) && p != q && !IsBin(x, op)
    ensures var t' := Put(t, p, x);
            && SameSpine(op, t, t') && IsLeaf(op, t', p) && IsLeaf(op, t', q)
            && At(t', p) == x && At(t', q) == At(t, q)
            && Size(t') == Size(t) - Size(At(t, p)) + Size(x)
  {
    LeavesApart(op, t, p, q);
    SameSpinePut(op, t, p, x);
    SameSpineAt(op, t, Put(t, p, x), p);
    SameSpineAt(op, t, Put(t, p, x), q);
    AtPut(t, p, x);
    AtPutApart(t, p, q, x);
  }

  /** The last step of Dups1, where two operands meet. */
  lemma DupsLeafPair(op: Op, t: Expr, p: Path, q: Path)
    requires IsLeaf(op, t, p) && IsLeaf(op, t, q) && p != q
    ensures var e := At(t, p);
            var inner := if e.Bin? then Dups1(e.op, e, [], []) else Pass(e, 0);
            var t1 := Put(t, p, inner.tree);
            var j := JoinExprs(op, inner.tree, At(t, q));
            && !IsBin(inner.tree, op)
            && IsLeaf(op, t1, p) && IsLeaf(op, t1, q) && At(t1, p) == inner.tree && At(t1, q) == At(t, q)
            && (j.Some? ==>
                  && Valid(Put(t1, p, Sym(UnitSym(op))), q)
                  && Dups1(op, t, p, q)
                     == Pass(Put(Put(t1, p, Sym(UnitSym(op))), q, j.value), inner.hits + 1))
            && (j.None? ==> Dups1(op, t, p, q) == Pass(t1, inner.hits))
  {
    LeavesApart(op, t, p, q);
    var e := At(t, p);
    var inner := if e.Bin? then Dups1(e.op, e, [], []) else Pass(e, 0);
    PutLeaf(op, t, p, q, inner.tree);
    PutLeaf(op, Put(t, p, inner.tree), p, q, Sym(UnitSym(op)));
  }

  predicate HasYmn(cs: set<string>) { "y" in cs && "m" in cs && "n" in cs }

  /** One walk stays within the constants and within the normal form. */
  lemma {:induction false} Dups1Tidy(op: Op, t: Expr, p: Path, q: Path, cs: set<string>, normal: bool)
    requires OnSpine(op, t, p) && OnSpine(op, t, q) && HasYmn(cs) && Tidy(t, cs, normal)
    ensures Tidy(Dups1(op, t, p, q).tree, cs, normal)
    decreases Size(t), Below(op, t, p, q)
  {
    hide JoinExprs, Tidy;
    if !Meet(op, t, p, q) {
      var (p0, q0) := Down(op, t, p, q, false);
      var (p1, q1) := Down(op, t, p, q, true);
      Dups1Tidy(op, t, p0, q0, cs, normal);
      var x := Dups1(op, t, p0, q0).tree;
      DownAfter(op, t, x, p1, q1);
      Dups1Tidy(op, x, p1, q1, cs, normal);
    } else if p != q {
      LeavesApart(op, t, p, q);
      TidyAt(t, p, cs, normal);
      if At(t, p).Bin? {
        Dups1Tidy(At(t, p).op, At(t, p), [], [], cs, normal);
      }
      DupsPairTidy(op, t, p, q, cs, normal);
    }
  }

  lemma DupsPairTidy(op: Op, t: Expr, p: Path, q: Path, cs: set<string>, normal: bool)
    requires IsLeaf(op, t, p) && IsLeaf(op, t, q) && p != q && HasYmn(cs) && Tidy(t, cs, normal)
    requires var e := At(t, p); e.Bin? ==> Tidy(Dups1(e.op, e, [], []).tree, cs, normal)
    ensures Tidy(Dups1(op, t, p, q).tree, cs, normal)
  {
    LeavesApart(op, t, p, q);
    DupsLeafPair(op, t, p, q);
    TidyAt(t, p, cs, normal);
    TidyAt(t, q, cs, normal);
    var e := At(t, p);
    var x := if e.Bin? then Dups1(e.op, e, [], []).tree else e;
    var t1 := Put(t, p, x);
    TidyPut(t, p, x, cs, normal);
    var j := JoinExprs(op, x, At(t, q));
    if j.Some? {
      var unit := Sym(UnitSym(op));
      JoinTidy(op, x, At(t, q), cs, normal);
      TidyPut(t1, p, unit, cs, normal);
      TidyPut(Put(t1, p, unit), q, j.value, cs, normal);
    }
  }

  /** One walk keeps the value, although it compares a tree with itself while changing it. */
  lemma {:induction false} Dups1Value(op: Op, t: Expr, p: Path, q: Path, v: Valuation, cs: set<string>)
    requires OnSpine(op, t, p) && OnSpine(op, t, q)
    requires Wf(v) && NoClash(cs) && TestsWithin(t, cs)
    ensures Eval(Dups1(op, t, p, q).tree, v) == Eval(t, v)
    decreases Size(t), Below(op, t, p, q)
  {
    hide JoinExprs;
    if !Meet(op, t, p, q) {
      var (p0, q0) := Down(op, t, p, q, false);
      var (p1, q1) := Down(op, t, p, q, true);
      Dups1Value(op, t, p0, q0, v, cs);
      Dups1Tidy(op, t, p0, q0, cs, false);
      var x := Dups1(op, t, p0, q0).tree;
      DownAfter(op, t, x, p1, q1);
      Dups1Value(op, x, p1, q1, v, cs);
    } else if p != q {
      LeavesApart(op, t, p, q);
      TidyAt(t, p, cs, false);
      if At(t, p).Bin? {
        Dups1Value(At(t, p).op, At(t, p), [], [], v, cs);
        Dups1Tidy(At(t, p).op, At(t, p), [], [], cs, false);
      }
      DupsPairValue(op, t, p, q, v, cs);
    }
  }

  lemma DupsPairValue(op: Op, t: Expr, p: Path, q: Path, v: Valuation, cs: set<string>)
    requires IsLeaf(op, t, p) && IsLeaf(op, t, q) && p != q
    requires Wf(v) && NoClash(cs) && TestsWithin(t, cs)
    requires var e := At(t, p);
             e.Bin? ==> var x := Dups1(e.op, e, [], []).tree; Eval(x, v) == Eval(e, v) && TestsWithin(x, cs)
    ensures Eval(Dups1(op, t, p, q).tree, v) == Eval(t, v)
  {
    LeavesApart(op, t, p, q);
    DupsLeafPair(op, t, p, q);
    TidyAt(t, p, cs, false);
    TidyAt(t, q, cs, false);
    var e := At(t, p);
    var x := if e.Bin? then Dups1(e.op, e, [], []).tree else e;
    var t1 := Put(t, p, x);
    PutValue(t, p, x, v);
    var j := JoinExprs(op, x, At(t, q));
    if j.Some? {
      JoinValue(op, x, At(t, q), v, cs);
      JoinUnit(op, Eval(j.value, v));
      ReplaceTwo(op, t1, p, q, Sym(UnitSym(op)), j.value, v);
    }
  }

  // ----- a walk that changes something leaves an operand to eliminate -----

  lemma {:induction false} RedexBelow(t: Expr, p: Path)
    requires Valid(t, p)
    requires HasRedex(At(t, p)) || (p != [] && IsConst(At(t, p)))
    ensures HasRedex(t)
  {
    if p != [] {
      RedexBelow2(Child(t, p[0]), p[1..]);
    }
  }

  lemma {:induction false} RedexBelow2(t: Expr, p: Path)
    requires Valid(t, p) && (HasRedex(At(t, p)) || IsConst(At(t, p)))
    ensures HasRedex(t) || IsConst(t)
  {
    if p != [] {
      RedexBelow2(Child(t, p[0]), p[1..]);
    }
  }

  /** No two distinct operands below the slots join, nor do operands inside the first. */
  ghost predicate Checked(op: Op, t: Expr, p: Path, q: Path)
    requires OnSpine(op, t, p) && OnSpine(op, t, q)
    decreases Size(t), Below(op, t, p, q)
  {
    if !Meet(op, t, p, q) then
      var (p0, q0) := Down(op, t, p, q, false);
      var (p1, q1) := Down(op, t, p, q, true);
      Checked(op, t, p0, q0) && Checked(op, t, p1, q1)
    else if p == q then true
    else
      LeavesApart(op, t, p, q);
      var e := At(t, p);
      JoinExprs(op, e, At(t, q)).None? && (e.Bin? ==> Checked(e.op, e, [], []))
  }

  /** A walk either changes nothing, having found nothing to join, or leaves a y or n
      operand behind. */
  lemma {:induction false} Dups1Effect(op: Op, t: Expr, p: Path, q: Path)
    requires OnSpine(op, t, p) && OnSpine(op, t, q)
    ensures var r := Dups1(op, t, p, q);
            if r.hits == 0 then r.tree == t && Checked(op, t, p, q) else HasRedex(r.tree)
    decreases Size(t), Below(op, t, p, q)
  {
    hide JoinExprs;
    if !Meet(op, t, p, q) {
      var (p0, q0) := Down(op, t, p, q, false);
      var (p1, q1) := Down(op, t, p, q, true);
      Dups1Effect(op, t, p0, q0);
      var x := Dups1(op, t, p0, q0).tree;
      DownAfter(op, t, x, p1, q1);
      Dups1Effect(op, x, p1, q1);
    } else if p != q {
      LeavesApart(op, t, p, q);
      if At(t, p).Bin? {
        Dups1Effect(At(t, p).op, At(t, p), [], []);
      }
      DupsPairEffect(op, t, p, q);
    }
  }

  lemma DupsPairEffect(op: Op, t: Expr, p: Path, q: Path)
    requires IsLeaf(op, t, p) && IsLeaf(op, t, q) && p != q
    requires var e := At(t, p);
             e.Bin? ==> var x := Dups1(e.op, e, [], []);
                        if x.hits == 0 then x.tree == e && Checked(e.op, e, [], []) else HasRedex(x.tree)
    ensures var r := Dups1(op, t, p, q);
            if r.hits == 0 then r.tree == t && Checked(op, t, p, q) else HasRedex(r.tree)
  {
    LeavesApart(op, t, p, q);
    DupsLeafPair(op, t, p, q);
    var e := At(t, p);
    var x := if e.Bin? then Dups1(e.op, e, [], []) else Pass(e, 0);
    var t1 := Put(t, p, x.tree);
    var j := JoinExprs(op, x.tree, At(t, q));
    AtPut(t, p, x.tree);
    if j.Some? {
      var unit := Sym(UnitSym(op));
      PutLeaf(op, t1, p, q, unit);
      JoinShape(op, x.tree, At(t, q));
      PutLeaf(op, Put(t1, p, unit), q, p, j.value);
      RedexBelow(Put(Put(t1, p, unit), q, j.value), p);
    } else if x.hits > 0 {
      RedexBelow(t1, p);
    }
  }

  // ----- expr_eliminate_dups -----

  /** Passes of Dups1 and EliminateYn until a pass changes nothing. */
  function EliminateDups(e: Expr): Expr
    decreases Size(e)
  {
    if !e.Bin? then e
    else
      var r := Dups1(e.op, e, [], []);
      if r.hits == 0 then r.tree
      else
        Dups1Effect(e.op, e, [], []);
        EliminateYnShrinks(r.tree);
        EliminateDups(EliminateYn(r.tree))
  }

  lemma {:induction false} EliminateDupsTidy(e: Expr, cs: set<string>, normal: bool)
    requires HasYmn(cs) && Tidy(e, cs, normal)
    ensures Tidy(EliminateDups(e), cs, normal)
    ensures !HasRedex(e) ==> !HasRedex(EliminateDups(e))
    decreases Size(e)
  {
    hide Dups1;
    if e.Bin? {
      var r := Dups1(e.op, e, [], []);
      Dups1Tidy(e.op, e, [], [], cs, normal);
      Dups1Effect(e.op, e, [], []);
      if r.hits != 0 {
        EliminateYnShrinks(r.tree);
        TidyYn(r.tree, cs, normal);
        EliminateDupsTidy(EliminateYn(r.tree), cs, normal);
      }
    }
  }

  lemma {:induction false} EliminateDupsValue(e: Expr, v: Valuation, cs: set<string>)
    requires Wf(v) && NoClash(cs) && TestsWithin(e, cs)
    ensures Eval(EliminateDups(e), v) == Eval(e, v)
    decreases Size(e)
  {
    hide Dups1;
    if e.Bin? {
      var r := Dups1(e.op, e, [], []);
      Dups1Value(e.op, e, [], [], v, cs);
      Dups1Tidy(e.op, e, [], [], cs, false);
      if r.hits != 0 {
        Dups1Effect(e.op, e, [], []);
        EliminateYnShrinks(r.tree);
        EliminateYnValue(r.tree, v);
        TidyYn(r.tree, cs, false);
        EliminateDupsValue(EliminateYn(r.tree), v, cs);
      }
    }
  }

  // ----- exactly when expr_eliminate_dups keeps the value -----

  lemma DupsDown(op: Op, t: Expr, p: Path, q: Path)
    requires OnSpine(op, t, p) && OnSpine(op, t, q) && !Meet(op, t, p, q)
    ensures var (p0, q0) := Down(op, t, p, q, false);
            var (p1, q1) := Down(op, t, p, q, true);
            var x := Dups1(op, t, p0, q0);
            && OnSpine(op, x.tree, p1) && OnSpine(op, x.tree, q1)
            && var y := Dups1(op, x.tree, p1, q1);
            Dups1(op, t, p, q) == Pass(y.tree, x.hits + y.hits)
  {
    hide Down, Meet, JoinExprs;
    var (p0, q0) := Down(op, t, p, q, false);
    var (p1, q1) := Down(op, t, p, q, true);
    DownAfter(op, t, Dups1(op, t, p0, q0).tree, p1, q1);
  }

  /** A level of two operands: one walk compares the first with the second, puts the unit in
      place of the first, and then compares the joined operand with that unit. */
  lemma DupsOfTwo(op: Op, l: Expr, r: Expr, j: Expr)
    requires !l.Bin? && !r.Bin? && !j.Bin?
    requires JoinExprs(op, l, r) == Some(j) && JoinExprs(op, j, Sym(UnitSym(op))).None?
    ensures Dups1(op, Bin(op, l, r), [], []) == Pass(Bin(op, Sym(UnitSym(op)), j), 1)
  {
    hide JoinExprs, Dups1;
    var t, t2 := Bin(op, l, r), Bin(op, Sym(UnitSym(op)), j);
    FirstOfTwo(op, l, r);
    SecondOfTwo(op, Sym(UnitSym(op)), j);
    assert Put(Put(t, [false], Sym(UnitSym(op))), [true], j) == t2;
    EmptyPath();
    DupsDown(op, t, [], []);
  }

  lemma EmptyPath()
    ensures [] + [false] == [false] && [] + [true] == [true]
  {
  }

  lemma TwoSlots(op: Op, l: Expr, r: Expr)
    requires !l.Bin? && !r.Bin?
    ensures var t := Bin(op, l, r);
            && IsLeaf(op, t, [false]) && IsLeaf(op, t, [true]) && At(t, [false]) == l && At(t, [true]) == r
            && Put(t, [false], l) == t && Put(t, [true], r) == t
  {
    assert [false][1..] == [] && [true][1..] == [];
  }

  lemma FirstOfTwo(op: Op, l: Expr, r: Expr)
    requires !l.Bin? && !r.Bin?
    requires JoinExprs(op, l, r).Some?
    ensures var t := Bin(op, l, r);
            OnSpine(op, t, [false]) && OnSpine(op, t, [true]) && Valid(Put(t, [false], Sym(UnitSym(op))), [true])
    ensures var t := Bin(op, l, r);
            Dups1(op, t, [false], [])
            == Pass(Put(Put(t, [false], Sym(UnitSym(op))), [true], JoinExprs(op, l, r).value), 1)
  {
    hide JoinExprs, Dups1;
    var t := Bin(op, l, r);
    TwoSlots(op, l, r);
    EmptyPath();
    DupsDown(op, t, [false], []);
    DupsSame(op, t, [false]);
    DupsLeafPair(op, t, [false], [true]);
  }

  lemma SecondOfTwo(op: Op, l: Expr, r: Expr)
    requires !l.Bin? && !r.Bin?
    requires JoinExprs(op, r, l).None?
    ensures OnSpine(op, Bin(op, l, r), [true]) && Dups1(op, Bin(op, l, r), [true], []) == Pass(Bin(op, l, r), 0)
  {
    hide JoinExprs, Dups1;
    var t := Bin(op, l, r);
    TwoSlots(op, l, r);
    EmptyPath();
    DupsDown(op, t, [true], []);
    DupsSame(op, t, [true]);
    DupsLeafPair(op, t, [true], [false]);
  }

  lemma DupsSame(op: Op, t: Expr, p: Path)
    requires IsLeaf(op, t, p)
    ensures Dups1(op, t, p, p) == Pass(t, 0)
  {
    hide JoinExprs;
  }

  function Clashing(b: string, c: string): Expr {
    var s := Config("A", Tristate);
    Bin(AndOp, Cmp(Equal, s, Const(b)), Cmp(Unequal, s, Const(c)))
  }

  lemma ClashingDups(b: string, c: string)
    requires b != c
    ensures EliminateDups(Clashing(b, c)) == Clashing(b, c).l
  {
    hide Dups1;
    var e := Clashing(b, c);
    JoinTestsExact(Config("A", Tristate), b, c);
    DupsOfTwo(AndOp, e.l, e.r, e.l);
    assert EliminateYn(Bin(AndOp, Sym(SYM_YES), e.l)) == e.l;
  }

  lemma ClashChangesValue(b: string, c: string, t: Tri, cs: set<string>)
    requires b in cs && c in cs && b != c && TriEquals(t, b) && TriEquals(t, c)
    ensures TestsWithin(Clashing(b, c), cs)
    ensures Eval(EliminateDups(Clashing(b, c)), AllAt(t)) != Eval(Clashing(b, c), AllAt(t))
  {
    hide EliminateDups, TriEquals, CompareStrings;
    var s := Config("A", Tristate);
    ClashingDups(b, c);
    AllAtWf(t);
    JoinTestsAt(s, b, c, AllAt(t));
    assert AllAt(t).tri(s) == t;
  }

  /** A='2' && A!='0x2' is n at y, and A='2', to which it is reduced, is y. */
  lemma ClashingExample()
    ensures Wf(AllAt(YES))
    ensures EliminateDups(Clashing("2", "0x2")) == Cmp(Equal, Config("A", Tristate), Const("2"))
    ensures Eval(Clashing("2", "0x2"), AllAt(YES)) == NO
    ensures Eval(EliminateDups(Clashing("2", "0x2")), AllAt(YES)) == YES
  {
    hide EliminateDups, TriEquals, CompareStrings;
    ClashingConstants();
    ClashingDups("2", "0x2");
    ClashChangesValue("2", "0x2", YES, {"2", "0x2"});
    AllAtWf(YES);
  }

  /** With any two clashing constants some expression changes its value; without, none does. */
  lemma EliminateDupsExact(cs: set<string>)
    requires "y" in cs && "m" in cs && "n" in cs
    ensures NoClash(cs) <==>
            forall e: Expr, v: Valuation :: Wf(v) && TestsWithin(e, cs) ==> Eval(EliminateDups(e), v) == Eval(e, v)
  {
    hide EliminateDups;
    if NoClash(cs) {
      forall e: Expr, v: Valuation | Wf(v) && TestsWithin(e, cs) ensures Eval(EliminateDups(e), v) == Eval(e, v) {
        EliminateDupsValue(e, v, cs);
      }
    } else {
      var b, c, t: Tri :| b in cs && c in cs && TriEquals(t, b) && TriEquals(t, c) && b != c;
      ClashChangesValue(b, c, t, cs);
      AllAtWf(t);
    }
  }

  /** No two distinct operands of a level join, on this level and the levels below it. */
  ghost predicate DupFree(e: Expr)
    decreases Size(e)
  {
    e.Bin? ==> forall p, q :: IsLeaf(e.op, e, p) && IsLeaf(e.op, e, q) && p != q ==>
                 JoinExprs(e.op, At(e, p), At(e, q)).None? && DupFree(At(e, p))
  }

  lemma {:induction false} CheckedLeaves(op: Op, t: Expr, p: Path, q: Path, x: Path, y: Path)
    requires OnSpine(op, t, p) && OnSpine(op, t, q) && Checked(op, t, p, q)
    requires IsLeaf(op, t, x) && IsLeaf(op, t, y) && p <= x && q <= y && x != y
    ensures JoinExprs(op, At(t, x), At(t, y)).None?
    ensures At(t, x).Bin? ==> Checked(At(t, x).op, At(t, x), [], [])
    decreases |x| - |p| + |y| - |q|
  {
    hide JoinExprs, Checked;
    SpineSplit(op, t, p, x);
    SpineSplit(op, t, q, y);
    if Meet(op, t, p, q) {
      CheckedHere(op, t, p, q);
    } else {
      var right := if IsBin(At(t, p), op) then x[|p|] else y[|q|];
      CheckedDown(op, t, p, q, right);
      var (p', q') := Down(op, t, p, q, right);
      CheckedLeaves(op, t, p', q', x, y);
    }
  }

  lemma CheckedDown(op: Op, t: Expr, p: Path, q: Path, right: bool)
    requires OnSpine(op, t, p) && OnSpine(op, t, q) && Checked(op, t, p, q) && !Meet(op, t, p, q)
    ensures var (p', q') := Down(op, t, p, q, right); Checked(op, t, p', q')
  {
    hide JoinExprs, Down, Meet;
  }

  lemma CheckedHere(op: Op, t: Expr, p: Path, q: Path)
    requires OnSpine(op, t, p) && OnSpine(op, t, q) && Checked(op, t, p, q) && Meet(op, t, p, q) && p != q
    ensures JoinExprs(op, At(t, p), At(t, q)).None?
    ensures At(t, p).Bin? ==> Checked(At(t, p).op, At(t, p), [], [])
  {
    hide JoinExprs;
    LeavesApart(op, t, p, q);
  }

  /** A prefix of an operand's slot is that slot, or the slot of an `op` node. */
  lemma {:induction false} SpineSplit(op: Op, t: Expr, p: Path, x: Path)
    requires OnSpine(op, t, p) && IsLeaf(op, t, x) && p <= x
    ensures IsBin(At(t, p), op) <==> p != x
  {
    if p == [] {
      if x != [] { assert IsBin(t, op); }
    } else {
      SpineSplit(op, Child(t, p[0]), p[1..], x[1..]);
      assert p == [p[0]] + p[1..] && x == [x[0]] + x[1..];
    }
  }

  lemma {:induction false} CheckedIsDupFree(e: Expr)
    requires e.Bin? ==> Checked(e.op, e, [], [])
    ensures DupFree(e)
    decreases Size(e)
  {
    if e.Bin? {
      forall p, q | IsLeaf(e.op, e, p) && IsLeaf(e.op, e, q) && p != q
        ensures JoinExprs(e.op, At(e, p), At(e, q)).None? && DupFree(At(e, p))
      {
        CheckedLeaves(e.op, e, [], [], p, q);
        LeavesApart(e.op, e, p, q);
        CheckedIsDupFree(At(e, p));
      }
    }
  }

  /** The result has no duplicate or redundant operand left. */
  lemma {:induction false} EliminateDupsComplete(e: Expr)
    ensures DupFree(EliminateDups(e))
    decreases Size(e)
  {
    if !e.Bin? {
      CheckedIsDupFree(e);
    } else {
      var r := Dups1(e.op, e, [], []);
      Dups1Effect(e.op, e, [], []);
      if r.hits == 0 {
        CheckedIsDupFree(e);
      } else {
        EliminateYnShrinks(r.tree);
        EliminateDupsComplete(EliminateYn(r.tree));
      }
    }
  }

  // ----- what is left, operand by operand -----

  /** The second operand adds nothing to the first, or the two together say less. */
  predicate Telling(op: Op, x: Expr, y: Expr) {
    || x == y
    || (op == OrOp && x.Sym? && y == Not(x) && x.s.Ty() == Boolean)
    || (op == OrOp && Tests(x, y) && x.rel == Equal && y.rel == Equal && Ymn(x.b) && Ymn(y.b))
    || (op == AndOp && x.Sym? && x.s.BoolLike()
        && y in {Cmp(Equal, x.s, SYM_YES), Cmp(Unequal, x.s, SYM_MOD), Cmp(Unequal, x.s, SYM_NO)})
    || (op == AndOp && Tests(x, y) && x.rel == Equal && y.rel == Unequal && x.b.Const? && y.b.Const?)
    || (op == AndOp && Tests(x, y) && x.rel == Unequal && y.rel == Unequal && Ymn(x.b) && Ymn(y.b))
  }

  /** Two tests of one tristate. */
  predicate Tests(x: Expr, y: Expr) { x.Cmp? && y.Cmp? && x.a == y.a && x.a.Ty() == Tristate }

  lemma TellingJoins(op: Op, x: Expr, y: Expr)
    requires Telling(op, x, y)
    ensures JoinExprs(op, x, y).Some? && JoinExprs(op, y, x).Some?
  {
    if x == y { ExprEqReflexive(x); }
    hide ExprEq;
  }

  /** No level has two such operands, in either order. */
  ghost predicate NothingTold(e: Expr)
    decreases Size(e)
  {
    e.Bin? ==> forall p, q :: IsLeaf(e.op, e, p) && IsLeaf(e.op, e, q) && p != q ==>
                 !Telling(e.op, At(e, p), At(e, q)) && NothingTold(At(e, p))
  }

  lemma {:induction false} DupFreeTellsNothing(e: Expr)
    requires DupFree(e)
    ensures NothingTold(e)
    decreases Size(e)
  {
    hide Telling, JoinExprs;
    if e.Bin? {
      forall p, q | IsLeaf(e.op, e, p) && IsLeaf(e.op, e, q) && p != q
        ensures !Telling(e.op, At(e, p), At(e, q)) && NothingTold(At(e, p))
      {
        LeavesApart(e.op, e, p, q);
        if Telling(e.op, At(e, p), At(e, q)) { TellingJoins(e.op, At(e, p), At(e, q)); }
        DupFreeTellsNothing(At(e, p));
      }
    }
  }

  /** So no level of the result has an operand twice, a and !a, two of a='y', a='m', a='n'
      under ||, or a symbol or test beside a test that it decides under &&. */
  lemma NoPairLeft(e: Expr)
    ensures NothingTold(EliminateDups(e))
  {
    EliminateDupsComplete(e);
    DupFreeTellsNothing(EliminateDups(e));
  }
}
