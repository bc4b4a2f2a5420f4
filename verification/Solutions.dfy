/** The value every symbol must have, as a fixed point: the meaning that the cached
    evaluation of scripts/config/symbol.c (lines 177-238, 304-457) computes. */
module Solutions {
  import opened Exprs
  import opened Configs

  /** def[S_DEF_USER] of the symbols with SYMBOL_DEF_USER. */
  datatype UserValue = UserValue(tri: Tri, str: string)
  type Users = map<Symbol, UserValue>

  /** Definitions, user values and the settled value of modules_val. */
  datatype Setup = Setup(k: Kconfig, users: Users, modules: Tri)

  /** sym_get_type, outside choices. */
  function EffectiveType(c: Setup, s: Symbol): SymType {
    if s.Ty() == Tristate && c.modules == NO then Boolean else s.Ty()
  }

  function Clamp(c: Setup, s: Symbol, t: Tri): Tri {
    if t == MOD && EffectiveType(c, s) == Boolean then YES else t
  }

  function EvalOrNo(e: ExprOrNull, v: Valuation): Tri {
    if e.None? then NO else Eval(e.value, v)
  }

  function AnyPrompt(ps: seq<Property>, v: Valuation): Tri {
    if ps == [] then NO
    else
      var last := ps[|ps| - 1];
      var rest := AnyPrompt(ps[..|ps| - 1], v);
      if last.kind.PromptProp? then Max(rest, EvalOrYes(last.visible, v)) else rest
  }

  /** sym->visible, sym->dir_dep.tri, sym->rev_dep.tri, sym->implied.tri */
  datatype Limits = Limits(visible: Tri, dir: Tri, rev: Tri, imp: Tri)

  function LimitsOf(c: Setup, s: Symbol, v: Valuation): Limits {
    var d := Def(c.k, s);
    var vis := AnyPrompt(d.props, v);
    Limits(
      if vis == MOD && (s.Ty() != Tristate || c.modules == NO) then YES else vis,
      Clamp(c, s, EvalOrYes(d.dirDep, v)),
      Clamp(c, s, EvalOrNo(d.revDep, v)),
      Clamp(c, s, EvalOrNo(d.implied, v)))
  }

  /** sym_get_default_prop: the first default whose condition is not n. */
  function FirstDefault(ps: seq<Property>, v: Valuation): Option<Property> {
    if ps == [] then None
    else if ps[0].kind.DefaultProp? && EvalOrYes(ps[0].visible, v) != NO then Some(ps[0])
    else FirstDefault(ps[1..], v)
  }

  /** No default has a condition other than n. */
  ghost predicate NoneApplies(ps: seq<Property>, v: Valuation) {
    forall p :: p in ps && p.kind.DefaultProp? ==> EvalOrYes(p.visible, v) == NO
  }

  lemma {:induction false} FirstOfNone(ps: seq<Property>, v: Valuation)
    requires NoneApplies(ps, v)
    ensures FirstDefault(ps, v).None?
  {
    if ps != [] {
      assert ps[0] in ps;
      FirstOfNone(ps[1..], v);
    }
  }

  predicate HasUser(c: Setup, s: Symbol) { s in c.users }

  /** The value without selects: the user's, or else the default raised by implies. */
  function OwnTri(c: Setup, s: Symbol, v: Valuation, lim: Limits): Tri {
    if lim.visible != NO && HasUser(c, s) then Min(c.users[s].tri, lim.visible)
    else
      var p := FirstDefault(Def(c.k, s).props, v);
      var def := if p.Some? then Min(EvalOrYes(p.value.expr, v), EvalOrYes(p.value.visible, v)) else NO;
      if lim.imp != NO then Min(Max(def, lim.imp), lim.dir) else def
  }

  function TriOf(c: Setup, s: Symbol, v: Valuation): Tri {
    var lim := LimitsOf(c, s, v);
    var own := OwnTri(c, s, v, lim);
    Clamp(c, s, if lim.dir == NO && lim.rev != NO then NO else Max(own, lim.rev))
  }

  /** `ds->curr.val`: for a bool or tristate this is the text it started from. */
  function RawText(s: Symbol, v: Valuation): string {
    if s.BoolLike() then "n" else v.str(s)
  }

  function StrOf(c: Setup, s: Symbol, v: Valuation): string {
    if LimitsOf(c, s, v).visible != NO && HasUser(c, s) then c.users[s].str
    else
      var p := FirstDefault(Def(c.k, s).props, v);
      if p.Some? && p.value.expr.Some? && p.value.expr.value.Sym? then RawText(p.value.expr.value.s, v)
      else ""
  }

  function ConstTri(s: Symbol): Tri {
    if s == SYM_YES then YES else if s == SYM_MOD then MOD else NO
  }

  function CalcTri(c: Setup, s: Symbol, v: Valuation): Tri {
    if s.BoolLike() then TriOf(c, s, v) else ConstTri(s)
  }

  function CalcStr(c: Setup, s: Symbol, v: Valuation): string {
    match s.Ty()
    case Boolean => TriString(TriOf(c, s, v))
    case Tristate => TriString(TriOf(c, s, v))
    case Unknown => if s.Choice? then "" else s.name
    case _ => StrOf(c, s, v)
  }

  ghost predicate Settled(c: Setup, v: Valuation, s: Symbol) {
    v.tri(s) == CalcTri(c, s, v) && v.str(s) == CalcStr(c, s, v)
  }

  /** Every symbol has the value its definition gives it in `v` itself. */
  ghost predicate IsSolution(c: Setup, v: Valuation) {
    forall s: Symbol :: Settled(c, v, s)
  }

  // ----- solutions are well-formed valuations -----

  lemma SolutionWf(c: Setup, v: Valuation)
    requires IsSolution(c, v)
    ensures Wf(v)
  {
    assert Settled(c, v, SYM_YES) && Settled(c, v, SYM_MOD) && Settled(c, v, SYM_NO);
    forall s: Symbol
      ensures s.Ty() == Boolean ==> v.tri(s) != MOD
      ensures s.BoolLike() ==> v.str(s) == TriString(v.tri(s))
      ensures s.Const? ==> v.str(s) == s.name
    {
      assert Settled(c, v, s);
    }
  }

  // ----- a symbol's value depends on its dependencies only -----

  ghost predicate AgreeOn(ds: set<Symbol>, v: Valuation, w: Valuation) {
    forall d :: d in ds ==> v.tri(d) == w.tri(d) && v.str(d) == w.str(d)
  }

  lemma {:induction false} EvalAgrees(e: Expr, v: Valuation, w: Valuation)
    requires AgreeOn(ExprDeps(e), v, w)
    ensures Eval(e, v) == Eval(e, w)
  {
    match e
    case Sym(_) =>
    case Cmp(_, _, _) =>
    case Not(x) => EvalAgrees(x, v, w);
    case Bin(_, l, r) =>
      EvalAgrees(l, v, w);
      EvalAgrees(r, v, w);
  }

  lemma OrNullAgrees(e: ExprOrNull, v: Valuation, w: Valuation)
    requires AgreeOn(DepsOrNone(e), v, w)
    ensures EvalOrYes(e, v) == EvalOrYes(e, w) && EvalOrNo(e, v) == EvalOrNo(e, w)
  {
    if e.Some? { EvalAgrees(e.value, v, w); }
  }

  lemma {:induction false} PropsDepsOf(ps: seq<Property>, p: Property)
    requires p in ps
    ensures PropDeps(p) <= PropsDeps(ps)
  {
    if p != ps[0] {
      PropsDepsOf(ps[1..], p);
    }
  }

  lemma {:induction false} AnyPromptAgrees(ps: seq<Property>, all: seq<Property>, v: Valuation, w: Valuation)
    requires AgreeOn(PropsDeps(all), v, w)
    requires forall p :: p in ps ==> p in all
    ensures AnyPrompt(ps, v) == AnyPrompt(ps, w)
  {
    if ps != [] {
      var last := ps[|ps| - 1];
      AnyPromptAgrees(ps[..|ps| - 1], all, v, w);
      if last.kind.PromptProp? {
        PropsDepsOf(all, last);
        OrNullAgrees(last.visible, v, w);
      }
    }
  }

  lemma {:induction false} FirstDefaultAgrees(ps: seq<Property>, v: Valuation, w: Valuation)
    requires AgreeOn(PropsDeps(ps), v, w)
    ensures FirstDefault(ps, v) == FirstDefault(ps, w)
    ensures FirstDefault(ps, v).Some? ==>
              var p := FirstDefault(ps, v).value; p in ps && p.kind.DefaultProp? && AgreeOn(PropDeps(p), v, w)
  {
    if ps != [] {
      if ps[0].kind.DefaultProp? {
        OrNullAgrees(ps[0].visible, v, w);
      }
      FirstDefaultAgrees(ps[1..], v, w);
    }
  }

  lemma LimitsAgree(c: Setup, c': Setup, s: Symbol, v: Valuation, w: Valuation)
    requires c'.k == c.k && c'.modules == c.modules
    requires AgreeOn(Deps(c.k, s), v, w)
    ensures LimitsOf(c, s, v) == LimitsOf(c', s, w)
  {
    var d := Def(c.k, s);
    AnyPromptAgrees(d.props, d.props, v, w);
    OrNullAgrees(d.dirDep, v, w);
    OrNullAgrees(d.revDep, v, w);
    OrNullAgrees(d.implied, v, w);
  }

  lemma OwnAgrees(c: Setup, c': Setup, s: Symbol, v: Valuation, w: Valuation, lim: Limits)
    requires c'.k == c.k
    requires HasUser(c, s) == HasUser(c', s) && (HasUser(c, s) ==> c.users[s] == c'.users[s])
    requires AgreeOn(Deps(c.k, s), v, w)
    ensures OwnTri(c, s, v, lim) == OwnTri(c', s, w, lim)
  {
    var ps := Def(c.k, s).props;
    FirstDefaultAgrees(ps, v, w);
    if FirstDefault(ps, v).Some? {
      OrNullAgrees(FirstDefault(ps, v).value.expr, v, w);
      OrNullAgrees(FirstDefault(ps, v).value.visible, v, w);
    }
  }

  /** Equal user values and equal dependencies give an equal value. */
  lemma CalcAgrees(c: Setup, c': Setup, s: Symbol, v: Valuation, w: Valuation)
    requires c'.k == c.k && c'.modules == c.modules
    requires HasUser(c, s) == HasUser(c', s) && (HasUser(c, s) ==> c.users[s] == c'.users[s])
    requires AgreeOn(Deps(c.k, s), v, w)
    ensures CalcTri(c, s, v) == CalcTri(c', s, w) && CalcStr(c, s, v) == CalcStr(c', s, w)
  {
    var ps := Def(c.k, s).props;
    LimitsAgree(c, c', s, v, w);
    OwnAgrees(c, c', s, v, w, LimitsOf(c, s, v));
    FirstDefaultAgrees(ps, v, w);
  }

  // ----- on an ordered table there is exactly one solution -----

  /** Two solutions agree wherever the user values below agree. */
  lemma {:induction false} SolutionsAgree(c: Setup, c': Setup, order: seq<Symbol>, v: Valuation, w: Valuation,
                                          s: Symbol)
    requires c'.k == c.k && c'.modules == c.modules && Closed(c.k)
    requires Topological(c.k, order) && (forall t :: t in c.k.syms ==> t in order)
    requires IsSolution(c, v) && IsSolution(c', w)
    requires s in order
    requires forall t :: t in order && Index(order, t) <= Index(order, s) ==>
               HasUser(c, t) == HasUser(c', t) && (HasUser(c, t) ==> c.users[t] == c'.users[t])
    ensures v.tri(s) == w.tri(s) && v.str(s) == w.str(s)
    decreases Index(order, s)
  {
    forall d | d in Deps(c.k, s) ensures v.tri(d) == w.tri(d) && v.str(d) == w.str(d) {
      IndexDecreases(c.k, order, s, d);
      SolutionsAgree(c, c', order, v, w, d);
    }
    CalcAgrees(c, c', s, v, w);
    assert Settled(c, v, s) && Settled(c', w, s);
  }

  lemma SolutionUnique(c: Setup, v: Valuation, w: Valuation, s: Symbol)
    requires Closed(c.k) && Ordered(c.k) && IsSolution(c, v) && IsSolution(c, w)
    ensures v.tri(s) == w.tri(s) && v.str(s) == w.str(s)
  {
    var order :| Topological(c.k, order) && forall t :: t in c.k.syms ==> t in order;
    if s in order {
      SolutionsAgree(c, c, order, v, w, s);
    } else {
      CalcAgrees(c, c, s, v, w);
      assert Settled(c, v, s) && Settled(c, w, s);
    }
  }

  /** Values for the symbols of `order`, computed in that order. */
  ghost function Build(c: Setup, order: seq<Symbol>): Valuation {
    if order == [] then
      var blank := Valuation((s: Symbol) => NO, (s: Symbol) => "");
      Valuation((s: Symbol) => CalcTri(c, s, blank), (s: Symbol) => CalcStr(c, s, blank))
    else
      var w := Build(c, order[..|order| - 1]);
      var last := order[|order| - 1];
      Valuation((s: Symbol) => if s == last then CalcTri(c, s, w) else w.tri(s),
                (s: Symbol) => if s == last then CalcStr(c, s, w) else w.str(s))
  }

  lemma TopologicalPrefix(k: Kconfig, order: seq<Symbol>)
    requires Topological(k, order) && order != []
    ensures var prefix := order[..|order| - 1];
            && Topological(k, prefix)
            && (forall d :: d in Deps(k, order[|order| - 1]) ==> d in prefix)
            && (forall s, d :: s in prefix && d in Deps(k, s) ==> d in prefix)
  {
    hide Deps;
    var prefix := order[..|order| - 1];
    forall i, d | 0 <= i < |prefix| && d in Deps(k, prefix[i]) ensures d in prefix[..i] && d in prefix {
      assert prefix[i] == order[i] && prefix[..i] == order[..i];
      assert prefix[..i] <= prefix;
    }
  }

  lemma {:induction false} BuildSettles(c: Setup, order: seq<Symbol>, s: Symbol)
    requires Topological(c.k, order) && (s in order || Deps(c.k, s) == {})
    ensures Settled(c, Build(c, order), s)
    decreases |order|
  {
    hide CalcTri;
    hide CalcStr;
    hide Topological;
    hide Deps;
    var v := Build(c, order);
    if order == [] {
      var blank := Valuation((s: Symbol) => NO, (s: Symbol) => "");
      CalcAgrees(c, c, s, blank, v);
    } else {
      var prefix, last := order[..|order| - 1], order[|order| - 1];
      assert forall x :: x in order ==> x == last || x in prefix;
      var w := Build(c, prefix);
      TopologicalPrefix(c.k, order);
      if last in prefix {
        BuildSettles(c, prefix, last);
      }
      if s != last || last in prefix {
        BuildSettles(c, prefix, s);
      }
      CalcAgrees(c, c, s, w, v);
    }
  }

  lemma SolutionExists(c: Setup)
    requires Closed(c.k) && Ordered(c.k)
    ensures exists v :: IsSolution(c, v)
  {
    var order :| Topological(c.k, order) && forall t :: t in c.k.syms ==> t in order;
    forall s: Symbol ensures Settled(c, Build(c, order), s) {
      if s !in order {
        assert Def(c.k, s) == SymDef([], None, None, None);
      }
      BuildSettles(c, order, s);
    }
    assert IsSolution(c, Build(c, order));
  }
}
