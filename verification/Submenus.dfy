/** Which siblings menu_finalize moves below a symbol, and which nodes it leaves there
    (scripts/config/menu.c, lines 411-535). */
module Submenus {
  import opened Exprs
  import opened ExprEquality
  import opened ExprKeys
  import opened ExprTransform
  import opened Configs
  import opened MenuConditions
  import opened MenuTree

  // ----- a dependency, by the operands of the condition -----

  /** The operands of the outermost &&. */
  function Conjuncts(e: Expr): seq<Expr> {
    if IsBin(e, AndOp) then Conjuncts(e.l) + Conjuncts(e.r) else [e]
  }

  /** An operand that is n whenever `s` is. */
  predicate Demands(x: Expr, s: Symbol) {
    x in {Sym(s), Cmp(Equal, s, SYM_YES), Cmp(Equal, s, SYM_MOD), Cmp(Unequal, s, SYM_NO)}
  }

  ghost predicate DependsOn(e: Expr, s: Symbol) { exists x :: x in Conjuncts(e) && Demands(x, s) }

  lemma {:induction false} ContainsIsDeps(e: Expr, s: Symbol)
    ensures ContainsSymbol(e, s) <==> s in ExprDeps(e)
  {
    match e
    case Sym(_) =>
    case Cmp(_, _, _) =>
    case Not(x) => ContainsIsDeps(x, s);
    case Bin(_, l, r) =>
      ContainsIsDeps(l, s);
      ContainsIsDeps(r, s);
  }

  /** expr_depends_symbol accepts exactly the conditions with such an operand. */
  lemma {:induction false} DependsIsOperand(e: Expr, s: Symbol)
    ensures DependsSymbol(e, s) <==> DependsOn(e, s)
    ensures DependsOn(e, s) ==> s in ExprDeps(e)
  {
    if IsBin(e, AndOp) {
      DependsIsOperand(e.l, s);
      DependsIsOperand(e.r, s);
      var xs, ys := Conjuncts(e.l), Conjuncts(e.r);
      assert forall x :: x in xs + ys <==> x in xs || x in ys;
    } else {
      assert Conjuncts(e) == [e];
      assert e in Conjuncts(e);
    }
  }

  /** The owner's prompt demands nothing, or nothing that the item's condition does not have
      among its && operands. */
  predicate HasOperands(item: ExprOrNull, owner: ExprOrNull) {
    var i, o := Flattened(item), Flattened(owner);
    IsYes(o) || (IsBin(i, AndOp) && !IsConst(o) && Keys(AndOp, o) <= Keys(AndOp, i))
  }

  /** The condition mentions the symbol, and demands it or all that the owner demands. */
  ghost predicate Below(s: Symbol, owner: ExprOrNull, cond: ExprOrNull) {
    cond.Some? && s in ExprDeps(cond.value) && (DependsOn(cond.value, s) || HasOperands(cond, owner))
  }

  /** The owner is judged by its prompt, an item by its prompt or else its dependency. */
  ghost predicate Follows(owner: Info, item: Info)
    requires owner.sym.Some?
  {
    var s, prompt := owner.sym.value, if owner.prompted then owner.prompt else None;
    if item.prompted then Below(s, prompt, item.prompt) else Below(s, prompt, item.dep)
  }

  /** No bool is tested against m; see SupersetTestExact. */
  predicate Plainly(owner: Info, item: Info) {
    && (owner.prompted ==> NoModTestOrNull(owner.prompt))
    && (if item.prompted then NoModTestOrNull(item.prompt) else NoModTestOrNull(item.dep))
  }

  /** The two parts of this that hold for all conditions: mention, and absolute dependency. */
  ghost predicate Mentions(item: Info, s: Symbol) {
    s in if item.prompted then DepsOrNone(item.prompt) else DepsOrNone(item.dep)
  }

  ghost predicate Demanding(item: Info, s: Symbol) {
    if item.prompted then item.prompt.Some? && DependsOn(item.prompt.value, s)
    else item.dep.Some? && DependsOn(item.dep.value, s)
  }

  lemma Superset(item: ExprOrNull, owner: ExprOrNull)
    requires NoModTestOrNull(item) && NoModTestOrNull(owner)
    ensures SupersetTest(item, owner) <==> HasOperands(item, owner)
  {
    SupersetTestExact(item, owner);
  }

  lemma AbsorbsExactly(owner: Info, item: Info)
    requires owner.sym.Some?
    ensures Plainly(owner, item) ==> (Absorbs(owner, item) <==> Follows(owner, item))
    ensures Absorbs(owner, item) ==> Mentions(item, owner.sym.value)
    ensures Demanding(item, owner.sym.value) ==> Absorbs(owner, item)
  {
    hide SupersetTest, HasOperands, DependsOn, DependsSymbol, ContainsSymbol, ExprDeps;
    var cond, prompt := ItemCond(item), OwnerCond(owner);
    if cond.Some? {
      ContainsIsDeps(cond.value, owner.sym.value);
      DependsIsOperand(cond.value, owner.sym.value);
      if Plainly(owner, item) { Superset(cond, prompt); }
    }
  }

  // ----- the run of siblings that goes below a symbol -----

  /** All siblings taken over belong below the owner, and the first one left does not. */
  lemma {:induction false} RunIsMaximal(owner: Info, f: seq<Tree>)
    requires owner.sym.Some?
    ensures var (kids, left) := FinAbsorb(owner, f);
            && (forall t :: t in kids ==> Mentions(t.menu.info, owner.sym.value))
            && (forall t :: t in kids && Plainly(owner, t.menu.info) ==> Follows(owner, t.menu.info))
            && (left != [] ==> !Demanding(left[0].menu.info, owner.sym.value))
            && (left != [] && Plainly(owner, left[0].menu.info) ==> !Follows(owner, left[0].menu.info))
    decreases Count(f)
  {
    hide Absorbs, Mentions, Follows, Plainly, Demanding, FinNode;
    if f != [] {
      AbsorbsExactly(owner, f[0].menu.info);
      if Absorbs(owner, f[0].menu.info) {
        assert [f[0]] + f[1..] == f;
        var x := FinNode(f[0], f[1..]);
        RunIsMaximal(owner, x.rest);
      }
    }
  }

  ghost predicate IsSuffix(a: seq<Tree>, b: seq<Tree>) { |a| <= |b| && b[|b| - |a|..] == a }

  lemma {:induction false} RestIsSuffix(t: Tree, rest: seq<Tree>)
    ensures IsSuffix(FinNode(t, rest).rest, rest)
    decreases Count([t] + rest), 1
  {
    PreCons(t, rest);
    if t.kids == [] && t.menu.info.sym.Some? {
      LeftIsSuffix(t.menu.info, rest);
    }
  }

  lemma {:induction false} LeftIsSuffix(owner: Info, f: seq<Tree>)
    requires owner.sym.Some?
    ensures IsSuffix(FinAbsorb(owner, f).1, f)
    decreases Count(f), 2
  {
    hide Absorbs, FinAbsorb, FinNode, IsSuffix, Pre;
    if f != [] && Absorbs(owner, f[0].menu.info) {
      var rest := FinNode(f[0], f[1..]).rest;
      TakenRest(owner, f);
      RestIsSuffix(f[0], f[1..]);
      LeftIsSuffix(owner, rest);
      SuffixOfSuffix(FinAbsorb(owner, rest).1, rest, f[1..]);
      TailIsSuffix(f);
      SuffixOfSuffix(FinAbsorb(owner, rest).1, f[1..], f);
    } else {
      AbsorbStops(owner, f);
      TailIsSuffix(f);
    }
  }

  lemma TailIsSuffix(f: seq<Tree>)
    ensures IsSuffix(f, f) && (f != [] ==> IsSuffix(f[1..], f))
  {
  }

  /** Siblings that demand the owner, one after the other, all go below it; with the preorder
      kept, that is where the nodes of `a` are. */
  lemma {:induction false} DemandingTaken(owner: Info, a: seq<Tree>, b: seq<Tree>)
    requires owner.sym.Some?
    requires forall t :: t in a ==> Demanding(t.menu.info, owner.sym.value)
    ensures IsSuffix(FinAbsorb(owner, a + b).1, b)
    decreases Count(a + b)
  {
    hide Absorbs, Demanding, FinNode;
    var f := a + b;
    if a == [] {
      assert f == b;
      LeftIsSuffix(owner, b);
    } else {
      assert f[0] == a[0] && f[0] in a;
      AbsorbsExactly(owner, f[0].menu.info);
      var rest := FinNode(f[0], f[1..]).rest;
      RestIsSuffix(f[0], f[1..]);
      assert f[1..] == a[1..] + b;
      TakenRest(owner, f);
      hide FinAbsorb, IsSuffix;
      if |rest| >= |b| {
        var a' := SuffixOfBoth(rest, a[1..], b);
        DemandingTaken(owner, a', b);
      } else {
        SuffixOfSecond(rest, a[1..], b);
        LeftIsSuffix(owner, rest);
        SuffixOfSuffix(FinAbsorb(owner, rest).1, rest, b);
      }
    }
  }

  lemma TakenRest(owner: Info, f: seq<Tree>)
    requires owner.sym.Some? && f != [] && Absorbs(owner, f[0].menu.info)
    ensures [f[0]] + f[1..] == f
    ensures FinAbsorb(owner, f).1 == FinAbsorb(owner, FinNode(f[0], f[1..]).rest).1
    ensures Count(FinNode(f[0], f[1..]).rest) < Count(f)
  {
    hide Absorbs, FinNode, Pre;
    assert [f[0]] + f[1..] == f;
  }

  lemma SuffixOfBoth(r: seq<Tree>, a: seq<Tree>, b: seq<Tree>) returns (a': seq<Tree>)
    requires IsSuffix(r, a + b) && |r| >= |b|
    ensures r == a' + b && forall t :: t in a' ==> t in a
  {
    a' := a[|a| - (|r| - |b|)..];
    assert r == a' + b;
  }

  lemma SuffixOfSecond(r: seq<Tree>, a: seq<Tree>, b: seq<Tree>)
    requires IsSuffix(r, a + b) && |r| < |b|
    ensures IsSuffix(r, b)
  {
    assert (a + b)[|a + b| - |r|..] == b[|b| - |r|..];
  }

  lemma SuffixOfSuffix(x: seq<Tree>, y: seq<Tree>, z: seq<Tree>)
    requires IsSuffix(x, y) && IsSuffix(y, z)
    ensures IsSuffix(x, z)
  {
    assert z[|z| - |x|..] == y[|y| - |x|..];
  }

  /** So a childless symbol gets them all as its submenu. */
  lemma SubmenuHolds(t: Tree, a: seq<Tree>, b: seq<Tree>)
    requires t.kids == [] && t.menu.info.sym.Some?
    requires forall x :: x in a ==> Demanding(x.menu.info, t.menu.info.sym.value)
    ensures Pre(a) <= Pre(FinNode(t, a + b).tree.kids)
  {
    hide Pre, FinAbsorb, Demanding;
    var r := FinNode(t, a + b);
    DemandingTaken(t.menu.info, a, b);
    var (kids, left) := FinAbsorb(t.menu.info, a + b);
    var more := b[..|b| - |left|];
    assert b == more + left;
    PreConcat(kids, left);
    PreConcat(a, b);
    PreConcat(more, left);
    SamePrefix(Pre(kids), Pre(a), Pre(more), Pre(left));
  }

  lemma SamePrefix(k: seq<Menu>, a: seq<Menu>, m: seq<Menu>, l: seq<Menu>)
    requires k + l == a + (m + l)
    ensures k == a + m
  {
    assert a + (m + l) == (a + m) + l;
    assert k == (k + l)[..|k|] && a + m == ((a + m) + l)[..|a + m|];
  }

  /** A next sibling that does not mention the symbol stays where it is. */
  lemma StrangerStays(t: Tree, n: Tree, rest: seq<Tree>)
    requires t.kids == [] && t.menu.info.sym.Some? && !Mentions(n.menu.info, t.menu.info.sym.value)
    ensures FinNode(t, [n] + rest) == Fin(t, [n] + rest)
  {
    hide Absorbs, Mentions;
    AbsorbsExactly(t.menu.info, n.menu.info);
    assert t == Node(t.menu, []);
  }

  /** A node with children, or without a symbol, takes over no sibling. */
  lemma OthersTakeNone(t: Tree, rest: seq<Tree>)
    requires t.kids != [] || t.menu.info.sym.None?
    ensures FinNode(t, rest).rest == rest
    ensures t.kids == [] ==> FinNode(t, rest).tree == t
  {
    hide Pre, Flatten, FinForest;
  }

  // ----- the parent of every node -----

  /** The parents of the nodes, in preorder; `p` is that of the roots. */
  ghost function Parents(f: seq<Tree>, p: Option<Menu>): seq<Option<Menu>> {
    if f == [] then []
    else [p] + Parents(f[0].kids, Some(f[0].menu)) + Parents(f[1..], p)
  }

  /** The nearest ancestors with a prompt. */
  ghost function Owners(f: seq<Tree>, p: Option<Menu>): seq<Option<Menu>> {
    if f == [] then []
    else [p] + Owners(f[0].kids, if f[0].menu.info.prompted then Some(f[0].menu) else p) + Owners(f[1..], p)
  }

  lemma {:induction false} OwnersConcat(a: seq<Tree>, b: seq<Tree>, p: Option<Menu>)
    ensures Owners(a + b, p) == Owners(a, p) + Owners(b, p)
  {
    if a == [] {
      assert a + b == b;
    } else {
      assert (a + b)[1..] == a[1..] + b;
      OwnersConcat(a[1..], b, p);
    }
  }

  lemma {:induction false} OwnersAreParents(f: seq<Tree>, p: Option<Menu>)
    requires OnlyPromptedOwn(f)
    ensures Parents(f, p) == Owners(f, p)
  {
    if f != [] {
      assert f[0] in f;
      OwnersAreParents(f[0].kids, Some(f[0].menu));
      OwnersAreParents(f[1..], p);
    }
  }

  lemma ParentsCons(t: Tree, f: seq<Tree>, p: Option<Menu>)
    ensures Parents([t] + f, p) == [p] + Parents(t.kids, Some(t.menu)) + Parents(f, p)
    ensures t.kids == [] ==> Parents([t] + f, p) == [p] + Parents(f, p)
  {
    assert ([t] + f)[1..] == f;
  }

  lemma OwnersUnfold(f: seq<Tree>, p: Option<Menu>)
    requires f != []
    ensures Owners(f, p)
            == [p] + Owners(f[0].kids, if f[0].menu.info.prompted then Some(f[0].menu) else p) + Owners(f[1..], p)
  {
  }

  lemma OwnersNone(p: Option<Menu>)
    ensures Owners([], p) == []
  {
  }

  lemma Group(x: Option<Menu>, a: seq<Option<Menu>>, b: seq<Option<Menu>>)
    ensures [x] + a + b == [x] + (a + b)
  {
  }

  lemma FlattenSplit(f: seq<Tree>)
    requires f != []
    ensures Flatten(f) == if f[0].kids != [] && !f[0].menu.info.prompted
                          then [Node(f[0].menu, [])] + Flatten(f[0].kids + f[1..])
                          else [f[0]] + Flatten(f[1..])
  {
    hide Pre;
  }

  /** Flattening hands every node to its nearest ancestor with a prompt, and moves no other. */
  lemma {:induction false} FlattenParents(f: seq<Tree>, p: Option<Menu>)
    requires forall t :: t in f ==> OnlyPromptedOwn(t.kids)
    ensures Parents(Flatten(f), p) == Owners(f, p)
    decreases Count(f)
  {
    if f != [] {
      var t, rest := f[0], f[1..];
      assert t in f;
      PreSplit(f);
      FlattenSplit(f);
      OwnersUnfold(f, p);
      OwnersAreParents(t.kids, Some(t.menu));
      KidsToo(f);
      OwnersNone(p);
      OwnersNone(Some(t.menu));
      hide Pre, Flatten, Parents, Owners, OnlyPromptedOwn;
      if t.kids != [] && !t.menu.info.prompted {
        FlattenParents(t.kids + rest, p);
        OwnersConcat(t.kids, rest, p);
        ParentsCons(Node(t.menu, []), Flatten(t.kids + rest), p);
        Group(p, Owners(t.kids, p), Owners(rest, p));
      } else {
        FlattenParents(rest, p);
        ParentsCons(t, Flatten(rest), p);
      }
    }
  }

  lemma KidsToo(f: seq<Tree>)
    requires f != [] && forall t :: t in f ==> OnlyPromptedOwn(t.kids)
    ensures forall t :: t in f[0].kids + f[1..] ==> OnlyPromptedOwn(t.kids)
  {
    assert f[0] in f;
  }
}
