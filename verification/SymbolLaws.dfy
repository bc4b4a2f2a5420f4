/** What selects and user assignments promise, as laws of solutions
    (scripts/config/menu.c, lines 391-399; scripts/config/symbol.c, lines 459-512). */
module SymbolLaws {
  import opened Exprs
  import opened Configs
  import opened ExprDups
  import opened MenuConditions
  import opened Solutions

  // ----- select and imply -----

  /** One `select t if cond` on symbol `src`; `cond` is the stored, propagated condition. */
  datatype Select = Select(src: Symbol, cond: ExprOrNull)

  /** The rev_dep.expr that menu_finalize builds up, one select after the other. */
  function RevDep(sels: seq<Select>): ExprOrNull {
    if sels == [] then None
    else
      var last := sels[|sels| - 1];
      AllocOr(RevDep(sels[..|sels| - 1]), AllocAnd(Some(Sym(last.src)), last.cond))
  }

  /** How far a select is active. */
  function Active(sel: Select, v: Valuation): Tri {
    Min(v.tri(sel.src), EvalOrYes(sel.cond, v))
  }

  function MostActive(sels: seq<Select>, v: Valuation): Tri {
    if sels == [] then NO
    else Max(MostActive(sels[..|sels| - 1], v), Active(sels[|sels| - 1], v))
  }

  lemma AllocOrValue(a: ExprOrNull, b: ExprOrNull, v: Valuation)
    ensures EvalOrNo(AllocOr(a, b), v) == Max(EvalOrNo(a, v), EvalOrNo(b, v))
  {
  }

  lemma ActiveValue(sel: Select, v: Valuation)
    ensures EvalOrNo(AllocAnd(Some(Sym(sel.src)), sel.cond), v) == Active(sel, v)
  {
    assert Eval(Sym(sel.src), v) == v.tri(sel.src);
    if sel.cond.Some? {
      assert AllocAnd(Some(Sym(sel.src)), sel.cond) == Some(Bin(AndOp, Sym(sel.src), sel.cond.value));
    }
  }

  lemma {:induction false} RevDepValue(sels: seq<Select>, v: Valuation)
    ensures EvalOrNo(RevDep(sels), v) == MostActive(sels, v)
    ensures RevDep(sels).None? <==> sels == []
  {
    if sels != [] {
      var last := sels[|sels| - 1];
      RevDepValue(sels[..|sels| - 1], v);
      ActiveValue(last, v);
      AllocOrValue(RevDep(sels[..|sels| - 1]), AllocAnd(Some(Sym(last.src)), last.cond), v);
    }
  }

  lemma {:induction false} MostActiveBound(sels: seq<Select>, i: nat, v: Valuation)
    requires i < |sels|
    ensures Active(sels[i], v) <= MostActive(sels, v)
  {
    if i < |sels| - 1 {
      MostActiveBound(sels[..|sels| - 1], i, v);
    }
  }

  /** Every active select is honoured, unless the target's own dependency is n: then the
      target is n. */
  lemma SelectHonoured(c: Setup, v: Valuation, t: Symbol, sels: seq<Select>, i: nat)
    requires IsSolution(c, v) && t.BoolLike() && i < |sels|
    requires Def(c.k, t).revDep == RevDep(sels)
    ensures LimitsOf(c, t, v).dir != NO ==> v.tri(t) >= Active(sels[i], v)
    ensures LimitsOf(c, t, v).dir == NO && Active(sels[i], v) != NO ==> v.tri(t) == NO
  {
    RevDepValue(sels, v);
    MostActiveBound(sels, i, v);
    assert Settled(c, v, t);
  }

  /** Without defaults, implies and a user value, a symbol is exactly as far on as its selects. */
  lemma SelectedOnly(c: Setup, v: Valuation, t: Symbol, sels: seq<Select>)
    requires IsSolution(c, v) && t.BoolLike() && t !in c.users
    requires Def(c.k, t).revDep == RevDep(sels) && Def(c.k, t).implied.None?
    requires forall p :: p in Def(c.k, t).props ==> !p.kind.DefaultProp?
    ensures v.tri(t) == if LimitsOf(c, t, v).dir == NO then NO else Clamp(c, t, MostActive(sels, v))
  {
    RevDepValue(sels, v);
    FirstOfNone(Def(c.k, t).props, v);
    assert Settled(c, v, t);
  }

  // ----- sym_tristate_within_range, sym_set_tristate_value -----

  predicate WithinRange(ty: SymType, lim: Limits, val: Tri) {
    && lim.visible != NO
    && (ty == Boolean || ty == Tristate)
    && !(ty == Boolean && val == MOD)
    && lim.visible > lim.rev
    && lim.rev <= val <= lim.visible
  }

  /** The setup after a successful sym_set_tristate_value. */
  function Assign(c: Setup, s: Symbol, val: Tri): Setup {
    var str := if s in c.users then c.users[s].str else "";
    c.(users := c.users[s := UserValue(val, str)])
  }

  /** Changing the user value of `s` does not move anything `s` depends on. */
  lemma LimitsSurviveAssignment(c: Setup, s: Symbol, val: Tri, v: Valuation, w: Valuation)
    requires Closed(c.k) && Ordered(c.k) && s in c.k.syms
    requires IsSolution(c, v) && IsSolution(Assign(c, s, val), w)
    ensures LimitsOf(Assign(c, s, val), s, w) == LimitsOf(c, s, v)
  {
    hide Deps;
    hide LimitsOf;
    hide IsSolution;
    var c' := Assign(c, s, val);
    var order :| Topological(c.k, order) && forall t :: t in c.k.syms ==> t in order;
    forall d | d in Deps(c.k, s) ensures v.tri(d) == w.tri(d) && v.str(d) == w.str(d) {
      IndexDecreases(c.k, order, s, d);
      SolutionsAgree(c, c', order, v, w, d);
    }
    LimitsAgree(c, c', s, v, w);
  }

  /** An accepted assignment takes effect exactly when no select is being overruled by a
      direct dependency of n. */
  lemma AssignmentTakesEffect(c: Setup, s: Symbol, val: Tri, v: Valuation, w: Valuation)
    requires Closed(c.k) && Ordered(c.k) && s in c.k.syms
    requires IsSolution(c, v) && IsSolution(Assign(c, s, val), w)
    requires WithinRange(EffectiveType(c, s), LimitsOf(c, s, v), val)
    ensures var lim := LimitsOf(c, s, v);
            w.tri(s) == val <==> !(lim.dir == NO && lim.rev != NO)
  {
    hide LimitsOf;
    hide TriOf;
    LimitsSurviveAssignment(c, s, val, v, w);
    assert Settled(Assign(c, s, val), w, s);
    AssignedTri(Assign(c, s, val), s, val, w);
  }

  lemma AssignedTri(c: Setup, s: Symbol, val: Tri, w: Valuation)
    requires s in c.users && c.users[s].tri == val
    requires WithinRange(EffectiveType(c, s), LimitsOf(c, s, w), val)
    ensures var lim := LimitsOf(c, s, w);
            TriOf(c, s, w) == val <==> !(lim.dir == NO && lim.rev != NO)
  {
    hide LimitsOf;
  }

  /** Each prompt of the definition has the condition that menu_finalize stores: its own one
      together with the direct dependency. */
  ghost predicate StoredPrompts(d: SymDef, modules: Symbol, tristate: bool, cs: set<string>) {
    && NoClash(cs) && Clean(d.dirDep, cs, true)
    && (forall p :: p in d.props && p.kind.PromptProp? ==> StoredPrompt(d, p, modules, tristate, cs))
  }

  ghost predicate Stored(k: Kconfig, s: Symbol, modules: Symbol, cs: set<string>) {
    StoredPrompts(Def(k, s), modules, s.Ty() == Tristate, cs)
  }

  ghost predicate StoredPrompt(d: SymDef, p: Property, modules: Symbol, tristate: bool, cs: set<string>) {
    exists own :: Clean(own, cs, false) && p.visible == PropCondition(d.dirDep, own, modules, tristate)
  }

  /** A dependency of n hides every such prompt. */
  lemma {:induction false} NoDepNoPrompt(d: SymDef, ps: seq<Property>, modules: Symbol, tristate: bool,
                                         v: Valuation, cs: set<string>)
    requires Wf(v) && StoredPrompts(d, modules, tristate, cs) && forall p :: p in ps ==> p in d.props
    requires EvalOrYes(d.dirDep, v) == NO
    ensures AnyPrompt(ps, v) == NO
  {
    hide PropCondition, Clean, NoClash;
    if ps != [] {
      var last := ps[|ps| - 1];
      NoDepNoPrompt(d, ps[..|ps| - 1], modules, tristate, v, cs);
      if last.kind.PromptProp? {
        assert StoredPrompt(d, last, modules, tristate, cs);
        var own :| Clean(own, cs, false) && last.visible == PropCondition(d.dirDep, own, modules, tristate);
        PropConditionValue(d.dirDep, own, modules, tristate, v, cs);
      }
    }
  }

  /** With the conditions that menu_finalize stores, every accepted assignment takes effect. */
  lemma AcceptedTakesEffect(c: Setup, s: Symbol, val: Tri, v: Valuation, w: Valuation,
                            modules: Symbol, cs: set<string>)
    requires Closed(c.k) && Ordered(c.k) && s in c.k.syms
    requires IsSolution(c, v) && IsSolution(Assign(c, s, val), w)
    requires WithinRange(EffectiveType(c, s), LimitsOf(c, s, v), val)
    requires Stored(c.k, s, modules, cs)
    ensures w.tri(s) == val
  {
    AssignmentTakesEffect(c, s, val, v, w);
    NotOverruled(c, s, v, modules, cs);
    hide IsSolution, Stored, LimitsOf;
  }

  /** And conversely: while the prompt is shown above the selects, an assignment that would
      take effect is accepted. */
  lemma AcceptedIff(c: Setup, s: Symbol, val: Tri, v: Valuation, w: Valuation, modules: Symbol, cs: set<string>)
    requires Closed(c.k) && Ordered(c.k) && s in c.k.syms && s.BoolLike()
    requires IsSolution(c, v) && IsSolution(Assign(c, s, val), w)
    requires Stored(c.k, s, modules, cs)
    ensures var lim := LimitsOf(c, s, v);
            WithinRange(EffectiveType(c, s), lim, val) <==> lim.visible > lim.rev && w.tri(s) == val
  {
    var lim := LimitsOf(c, s, v);
    if WithinRange(EffectiveType(c, s), lim, val) {
      AcceptedTakesEffect(c, s, val, v, w, modules, cs);
    }
    NotOverruled(c, s, v, modules, cs);
    LimitsSurviveAssignment(c, s, val, v, w);
    assert Settled(Assign(c, s, val), w, s);
    NeverAtMod(c, s, v);
    hide LimitsOf, Stored, IsSolution;
  }

  /** A shown prompt of a bool is shown at y. */
  lemma NeverAtMod(c: Setup, s: Symbol, v: Valuation)
    ensures EffectiveType(c, s) == Boolean ==> LimitsOf(c, s, v).visible != MOD
  {
  }

  lemma NotOverruled(c: Setup, s: Symbol, v: Valuation, modules: Symbol, cs: set<string>)
    requires IsSolution(c, v) && Stored(c.k, s, modules, cs)
    ensures LimitsOf(c, s, v).visible != NO ==> LimitsOf(c, s, v).dir != NO
  {
    var d := Def(c.k, s);
    SolutionWf(c, v);
    hide IsSolution, StoredPrompts;
    if EvalOrYes(d.dirDep, v) == NO {
      NoDepNoPrompt(d, d.props, modules, s.Ty() == Tristate, v, cs);
    }
  }

  /** Asserting the value a symbol already has leaves all values as they are iff its prompt
      is hidden or reaches that value: a default may exceed the prompt, a user value not. */
  lemma ReassertedValue(c: Setup, s: Symbol, v: Valuation)
    requires IsSolution(c, v) && s.BoolLike()
    ensures var lim := LimitsOf(c, s, v);
            IsSolution(Assign(c, s, v.tri(s)), v)
            <==> lim.visible == NO || v.tri(s) <= Max(lim.visible, lim.rev)
  {
    var c' := Assign(c, s, v.tri(s));
    assert Settled(c, v, s);
    AgreeWithSelf(v);
    LimitsAgree(c, c', s, v, v);
    if LimitsOf(c, s, v).visible == NO {
      OwnWithoutUser(c, c', s, v, LimitsOf(c, s, v));
    }
    assert Settled(c', v, s) <==>
           var lim := LimitsOf(c, s, v); lim.visible == NO || v.tri(s) <= Max(lim.visible, lim.rev);
    forall t: Symbol | t != s ensures Settled(c', v, t) {
      assert Settled(c, v, t);
      CalcAgrees(c, c', t, v, v);
    }
  }

  lemma AgreeWithSelf(v: Valuation)
    ensures forall ds: set<Symbol> :: AgreeOn(ds, v, v)
  {
  }

  lemma OwnWithoutUser(c: Setup, c': Setup, s: Symbol, v: Valuation, lim: Limits)
    requires c'.k == c.k && lim.visible == NO
    ensures OwnTri(c, s, v, lim) == OwnTri(c', s, v, lim)
  {
  }
}
