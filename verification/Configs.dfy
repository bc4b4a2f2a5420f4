/** The parsed configuration: what the parser and menu_finalize leave for symbol.c
    (struct symbol and struct property of scripts/config/expr.h). */
module Configs {
  import opened Exprs

  /** PromptProp stands for P_PROMPT, P_MENU and P_COMMENT, the kinds that carry a text. */
  datatype PropKind = PromptProp | DefaultProp | ChoiceProp | SelectProp | ImplyProp | RangeProp | OtherProp

  /** `visible` is the condition, `expr` the value. */
  datatype Property = Property(kind: PropKind, visible: ExprOrNull, expr: ExprOrNull)

  datatype SymDef = SymDef(
    props: seq<Property>, dirDep: ExprOrNull, revDep: ExprOrNull, implied: ExprOrNull)

  /** The symbol table and the definitions of the symbols that have one. */
  datatype Kconfig = Kconfig(syms: set<Symbol>, defs: map<Symbol, SymDef>)

  function Def(k: Kconfig, s: Symbol): SymDef {
    if s in k.defs then k.defs[s] else SymDef([], None, None, None)
  }

  // ----- the dependencies that sym_check_deps follows -----

  function ExprDeps(e: Expr): set<Symbol> {
    match e
    case Sym(s) => {s}
    case Not(x) => ExprDeps(x)
    case Bin(_, l, r) => ExprDeps(l) + ExprDeps(r)
    case Cmp(_, a, b) => {a, b}
  }

  function DepsOrNone(e: ExprOrNull): set<Symbol> {
    if e.None? then {} else ExprDeps(e.value)
  }

  predicate Skipped(p: Property) { p.kind.ChoiceProp? || p.kind.SelectProp? || p.kind.ImplyProp? }

  function PropDeps(p: Property): set<Symbol> {
    if Skipped(p) then {}
    else DepsOrNone(p.visible) + if p.kind.DefaultProp? then DepsOrNone(p.expr) else {}
  }

  function PropsDeps(ps: seq<Property>): set<Symbol> {
    if ps == [] then {} else PropDeps(ps[0]) + PropsDeps(ps[1..])
  }

  function DefDeps(d: SymDef): set<Symbol> {
    DepsOrNone(d.dirDep) + DepsOrNone(d.revDep) + DepsOrNone(d.implied) + PropsDeps(d.props)
  }

  function Deps(k: Kconfig, s: Symbol): set<Symbol> { DefDeps(Def(k, s)) }

  lemma {:induction false} PropsDepsIff(ps: seq<Property>, d: Symbol)
    ensures d in PropsDeps(ps) <==> exists p :: p in ps && d in PropDeps(p)
  {
    if ps != [] {
      PropsDepsIff(ps[1..], d);
      assert ps == [ps[0]] + ps[1..];
    }
  }

  /** A symbol depends on what its dependencies, selects and implies mention, on the conditions
      of its own prompts, defaults and ranges and on the values of its defaults; the conditions
      under which it selects or implies others do not count. */
  lemma DependsIff(k: Kconfig, s: Symbol, d: Symbol)
    ensures var def := Def(k, s);
            d in Deps(k, s)
            <==> || d in DepsOrNone(def.dirDep) || d in DepsOrNone(def.revDep) || d in DepsOrNone(def.implied)
                 || (exists p :: p in def.props && p.kind in {PromptProp, DefaultProp, RangeProp, OtherProp}
                                 && d in DepsOrNone(p.visible))
                 || (exists p :: p in def.props && p.kind == DefaultProp && d in DepsOrNone(p.expr))
  {
    PropsDepsIff(Def(k, s).props, d);
    hide PropsDeps, DepsOrNone;
  }

  /** Every symbol mentioned is in the table; no choices. */
  ghost predicate Closed(k: Kconfig) {
    && k.defs.Keys <= k.syms
    && (forall s :: s in k.syms ==> Deps(k, s) <= k.syms)
    && (forall s :: s in k.syms ==> !s.Choice?)
  }

  // ----- cycles -----

  ghost predicate IsPath(k: Kconfig, p: seq<Symbol>) {
    forall i, j :: 0 <= i && j == i + 1 && j < |p| ==> p[j] in Deps(k, p[i])
  }

  ghost predicate CycleThrough(k: Kconfig, p: seq<Symbol>, s: Symbol) {
    |p| >= 2 && IsPath(k, p) && p[0] == s && p[|p| - 1] == s
  }

  ghost predicate OnCycle(k: Kconfig, s: Symbol) {
    exists p :: CycleThrough(k, p, s)
  }

  /** Each symbol comes after everything it depends on. */
  ghost predicate Topological(k: Kconfig, order: seq<Symbol>) {
    forall i, d :: 0 <= i < |order| && d in Deps(k, order[i]) ==> d in order[..i]
  }

  /** All symbols in the table can be put in dependency order. */
  ghost predicate Ordered(k: Kconfig) {
    exists order :: Topological(k, order) && forall s :: s in k.syms ==> s in order
  }

  function Index(order: seq<Symbol>, s: Symbol): (i: nat)
    requires s in order
    ensures i < |order| && order[i] == s && s !in order[..i]
  {
    if order[0] == s then 0
    else
      assert s in order[1..];
      1 + Index(order[1..], s)
  }

  /** Dependencies come strictly earlier. */
  lemma IndexDecreases(k: Kconfig, order: seq<Symbol>, s: Symbol, d: Symbol)
    requires Topological(k, order) && s in order && d in Deps(k, s)
    ensures d in order && Index(order, d) < Index(order, s)
  {
    var i := Index(order, s);
    assert d in order[..i];
  }

  lemma {:induction false} PathDecreases(k: Kconfig, order: seq<Symbol>, p: seq<Symbol>)
    requires Topological(k, order) && |p| >= 2 && IsPath(k, p) && p[0] in order
    ensures p[|p| - 1] in order && Index(order, p[|p| - 1]) < Index(order, p[0])
  {
    IndexDecreases(k, order, p[0], p[1]);
    if |p| > 2 {
      PathDecreases(k, order, p[1..]);
    }
  }

  /** A table in dependency order has no cycle. */
  lemma OrderedHasNoCycle(k: Kconfig, s: Symbol)
    requires Closed(k) && Ordered(k) && s in k.syms
    ensures !OnCycle(k, s)
  {
    var order :| Topological(k, order) && forall s :: s in k.syms ==> s in order;
    forall p | CycleThrough(k, p, s) ensures false {
      PathDecreases(k, order, p);
    }
  }
}
