/** The search for recursive dependencies (scripts/config/symbol.c, lines 1109-1190 and
    1229-1261; scripts/config/parser.tab.c, lines 1977-1983), for symbols outside choices. */
module DependencyCheck {
  import opened Exprs
  import opened Configs

  /** SYMBOL_CHECK, SYMBOL_CHECKED, the dep_stack (outermost first), and the symbols whose
      check has finished without finding a cycle, in that order. */
  datatype Marks = Marks(check: set<Symbol>, checked: set<Symbol>, stack: seq<Symbol>, order: seq<Symbol>)

  ghost predicate Good(k: Kconfig, m: Marks) {
    && Closed(k)
    && m.check <= m.checked <= k.syms
    && (forall s :: s in m.check <==> s in m.stack)
    && IsPath(k, m.stack)
    && Topological(k, m.order)
    && (forall s :: s in m.order ==> s in m.checked && s !in m.check)
  }

  /** Nothing was abandoned so far. */
  ghost predicate Complete(m: Marks) {
    forall s :: s in m.checked && s !in m.check ==> s in m.order
  }

  /** `ds` are dependencies of the symbol on top of the stack. */
  ghost predicate OfTop(k: Kconfig, m: Marks, ds: set<Symbol>) {
    ds <= k.syms && (m.stack != [] ==> ds <= Deps(k, m.stack[|m.stack| - 1]))
  }

  /** What checking the dependencies `ds` does to the marks `a`, with answer `r`. */
  ghost predicate Outcome(k: Kconfig, isError: bool, a: Marks, b: Marks, ds: set<Symbol>, r: Option<Symbol>) {
    && Good(k, b) && b.check == a.check && b.stack == a.stack
    && a.checked <= b.checked
    && (r.Some? ==> OnCycle(k, r.value) && (!isError ==> r.value in b.check))
    && (r.None? && isError && Complete(a) ==>
          Complete(b) && (forall d :: d in a.order || d in ds ==> d in b.order))
  }

  lemma OutcomeThen(k: Kconfig, isError: bool, a: Marks, b: Marks, c: Marks,
                    ds: set<Symbol>, es: set<Symbol>, r: Option<Symbol>)
    requires Outcome(k, isError, a, b, ds, None) && Outcome(k, isError, b, c, es, r)
    ensures Outcome(k, isError, a, c, ds + es, r)
  {
  }

  lemma OutcomeStops(k: Kconfig, isError: bool, a: Marks, b: Marks,
                     ds: set<Symbol>, es: set<Symbol>, r: Option<Symbol>)
    requires Outcome(k, isError, a, b, ds, r) && (r.Some? || es <= ds)
    ensures Outcome(k, isError, a, b, es, r)
  {
  }

  lemma OutcomeKeeps(k: Kconfig, isError: bool, a: Marks, b: Marks, ds: set<Symbol>, r: Option<Symbol>)
    requires Outcome(k, isError, a, b, ds, r)
    ensures Good(k, b) && a.checked <= b.checked && b.stack == a.stack
  {
  }

  lemma OutcomeNothing(k: Kconfig, isError: bool, a: Marks)
    requires Good(k, a)
    ensures Outcome(k, isError, a, a, {}, None)
  {
  }

  /** Meeting a symbol that is being checked closes a cycle along the stack. */
  lemma CycleOnStack(k: Kconfig, isError: bool, m: Marks, s: Symbol)
    requires Good(k, m) && s in m.check && OfTop(k, m, {s})
    ensures Outcome(k, isError, m, m, {s}, Some(s))
  {
    CheckedOnCycle(k, m, s);
    hide OnCycle, Good, Complete;
  }

  lemma CheckedOnCycle(k: Kconfig, m: Marks, s: Symbol)
    requires Good(k, m) && s in m.check && OfTop(k, m, {s})
    ensures OnCycle(k, s)
  {
    hide Deps, OnCycle, IsPath, Topological, Closed;
    StackCycle(k, m.stack, s);
  }

  lemma StackCycle(k: Kconfig, stack: seq<Symbol>, s: Symbol)
    requires IsPath(k, stack) && s in stack && s in Deps(k, stack[|stack| - 1])
    ensures OnCycle(k, s)
  {
    hide Deps;
    var i :| 0 <= i < |stack| && stack[i] == s;
    var p := stack[i..] + [s];
    forall i', j | 0 <= i' && j == i' + 1 && j < |p| ensures p[j] in Deps(k, p[i']) {
      assert p[i'] == stack[i + i'];
      if j < |p| - 1 { assert p[j] == stack[i + j]; }
    }
    assert CycleThrough(k, p, s);
  }

  /** The marks inside the check of `s`. */
  function Enter(m: Marks, s: Symbol): Marks {
    Marks(m.check + {s}, m.checked + {s}, m.stack + [s], m.order)
  }

  /** The marks after it: `s` is finished if nothing was found and nothing abandoned. */
  ghost function Leave(m: Marks, s: Symbol, finished: bool): Marks
    requires m.stack != []
  {
    Marks(m.check - {s}, m.checked, m.stack[..|m.stack| - 1], if finished then m.order + [s] else m.order)
  }

  lemma EnterGood(k: Kconfig, m: Marks, s: Symbol)
    requires Good(k, m) && s !in m.checked && s in k.syms && OfTop(k, m, {s})
    ensures Good(k, Enter(m, s)) && (Complete(m) ==> Complete(Enter(m, s)))
  {
    hide Deps, IsPath, Topological, Closed;
    assert s in {s};
    PathGrows(k, m.stack, s);
    assert forall x :: x in m.stack + [s] <==> x in m.stack || x == s;
  }

  lemma PathGrows(k: Kconfig, p: seq<Symbol>, s: Symbol)
    requires IsPath(k, p) && (p != [] ==> s in Deps(k, p[|p| - 1]))
    ensures IsPath(k, p + [s])
  {
    hide Deps;
    var st := p + [s];
    assert forall i :: 0 <= i < |p| ==> st[i] == p[i];
    assert st[|p|] == s;
  }

  lemma LeaveGood(k: Kconfig, isError: bool, a: Marks, b: Marks, s: Symbol, r: Option<Symbol>)
    requires Good(k, a) && s !in a.checked && s in k.syms
    requires Outcome(k, isError, Enter(a, s), b, Deps(k, s), r)
    ensures var finished := r.None? && isError && Complete(b) && Complete(Enter(a, s));
            var r' := if !isError && r == Some(s) then None else r;
            Outcome(k, isError, a, Leave(b, s, finished), {s}, r')
  {
    var finished := r.None? && isError && Complete(b) && Complete(Enter(a, s));
    var c := Leave(b, s, finished);
    assert c.stack == a.stack && c.check == a.check;
    assert s !in b.order;
    assert finished ==> Topological(k, c.order) by {
      forall i, d | finished && 0 <= i < |c.order| && d in Deps(k, c.order[i]) ensures d in c.order[..i] {
        if i < |b.order| {
          assert c.order[i] == b.order[i] && c.order[..i] == b.order[..i];
        } else {
          assert c.order[..i] == b.order;
        }
      }
    }
  }

  class DepChecker {
    const k: Kconfig
    const recursiveIsError: bool
    var check: set<Symbol>
    var checked: set<Symbol>
    var stack: seq<Symbol>
    ghost var order: seq<Symbol>

    ghost function M(): Marks
      reads this
    {
      Marks(check, checked, stack, order)
    }

    constructor (k: Kconfig, recursiveIsError: bool)
      requires Closed(k)
      ensures Good(k, M()) && Complete(M()) && this.k == k && this.recursiveIsError == recursiveIsError
      ensures check == {} && checked == {} && stack == [] && order == []
    {
      this.k, this.recursiveIsError := k, recursiveIsError;
      check, checked, stack, order := {}, {}, [], [];
    }

    /** sym_check_deps. */
    method CheckDeps(s: Symbol) returns (r: Option<Symbol>)
      requires Good(k, M()) && OfTop(k, M(), {s}) && s in k.syms
      modifies this
      ensures Outcome(k, recursiveIsError, old(M()), M(), {s}, r)
      decreases k.syms - checked, 0, 0, 0
    {
      ghost var a := M();
      if s in check {
        CycleOnStack(k, recursiveIsError, a, s);
        return Some(s);
      }
      if s in checked {
        return None;
      }
      EnterGood(k, a, s);
      check, checked := check + {s}, checked + {s};
      r := CheckSymDeps(s, a);
      ghost var b := Marks(check, checked, stack + [s], order);
      check := check - {s};
      LeaveGood(k, recursiveIsError, a, b, s, r);
      if r.None? && recursiveIsError && Complete(b) && Complete(Enter(a, s)) {
        order := order + [s];
      }
      if !recursiveIsError && r == Some(s) {
        r := None;
      }
    }

    /** sym_check_sym_deps: the symbol's own expressions, then its properties. */
    method CheckSymDeps(s: Symbol, ghost a: Marks) returns (r: Option<Symbol>)
      requires Good(k, Enter(a, s)) && s !in a.checked && s in k.syms
      requires M() == Enter(a, s).(stack := a.stack)
      modifies this
      ensures stack == a.stack
      ensures Outcome(k, recursiveIsError, Enter(a, s), M().(stack := a.stack + [s]), Deps(k, s), r)
      decreases k.syms - checked, 2, 0, 0
    {
      stack := stack + [s];
      var d := Def(k, s);
      r := CheckOwn(s, d);
      stack := stack[..|stack| - 1];
      assert stack == a.stack;
    }

    method CheckOwn(s: Symbol, d: SymDef) returns (r: Option<Symbol>)
      requires Good(k, M()) && d == Def(k, s) && OfTop(k, M(), DefDeps(d))
      modifies this
      ensures Outcome(k, recursiveIsError, old(M()), M(), DefDeps(d), r)
      decreases k.syms - checked, 1, 2, 0
    {
      hide Good;
      hide Outcome;
      ghost var m := M();
      ghost var dirs, revs, imps := DepsOrNone(d.dirDep), DepsOrNone(d.revDep), DepsOrNone(d.implied);
      r := CheckExpr(d.dirDep);
      ghost var ds, m1 := dirs, M();
      OutcomeKeeps(k, recursiveIsError, m, M(), ds, r);
      if r.None? {
        r := CheckExpr(d.revDep);
        OutcomeThen(k, recursiveIsError, m, m1, M(), ds, revs, r);
        ds, m1 := ds + revs, M();
        OutcomeKeeps(k, recursiveIsError, m, M(), ds, r);
      }
      if r.None? {
        r := CheckExpr(d.implied);
        OutcomeThen(k, recursiveIsError, m, m1, M(), ds, imps, r);
        ds, m1 := ds + imps, M();
        OutcomeKeeps(k, recursiveIsError, m, M(), ds, r);
      }
      if r.None? {
        r := CheckProps(d.props);
        OutcomeThen(k, recursiveIsError, m, m1, M(), ds, PropsDeps(d.props), r);
        ds := ds + PropsDeps(d.props);
      }
      OutcomeStops(k, recursiveIsError, m, M(), ds, DefDeps(d), r);
    }

    /** The loop over the property list. */
    method CheckProps(ps: seq<Property>) returns (r: Option<Symbol>)
      requires Good(k, M()) && OfTop(k, M(), PropsDeps(ps))
      modifies this
      ensures Outcome(k, recursiveIsError, old(M()), M(), PropsDeps(ps), r)
      decreases k.syms - checked, 1, 1, 0
    {
      hide Good;
      hide Outcome;
      ghost var m := M();
      ghost var ds: set<Symbol> := {};
      OutcomeNothing(k, recursiveIsError, m);
      for i := 0 to |ps|
        invariant Good(k, M()) && OfTop(k, M(), PropsDeps(ps))
        invariant Outcome(k, recursiveIsError, m, M(), ds, None)
        invariant PropsDeps(ps) == ds + PropsDeps(ps[i..])
        invariant m.checked <= checked
      {
        assert PropsDeps(ps[i..]) == PropDeps(ps[i]) + PropsDeps(ps[i + 1..]);
        ghost var m1 := M();
        r := CheckProp(ps[i]);
        OutcomeThen(k, recursiveIsError, m, m1, M(), ds, PropDeps(ps[i]), r);
        ds := ds + PropDeps(ps[i]);
        OutcomeKeeps(k, recursiveIsError, m, M(), ds, r);
        if r.Some? {
          OutcomeStops(k, recursiveIsError, m, M(), ds, PropsDeps(ps), r);
          return;
        }
      }
      assert ps[|ps|..] == [];
      r := None;
    }

    method CheckProp(p: Property) returns (r: Option<Symbol>)
      requires Good(k, M()) && OfTop(k, M(), PropDeps(p))
      modifies this
      ensures Outcome(k, recursiveIsError, old(M()), M(), PropDeps(p), r)
      decreases k.syms - checked, 1, 1, -1
    {
      hide Good;
      hide Outcome;
      ghost var m := M();
      if Skipped(p) {
        OutcomeNothing(k, recursiveIsError, m);
        return None;
      }
      r := CheckExpr(p.visible);
      OutcomeKeeps(k, recursiveIsError, m, M(), DepsOrNone(p.visible), r);
      if r.Some? || !p.kind.DefaultProp? {
        OutcomeStops(k, recursiveIsError, m, M(), DepsOrNone(p.visible), PropDeps(p), r);
        return;
      }
      ghost var m1 := M();
      r := CheckExpr(p.expr);
      OutcomeThen(k, recursiveIsError, m, m1, M(), DepsOrNone(p.visible), DepsOrNone(p.expr), r);
    }

    /** sym_check_expr_deps. */
    method CheckExpr(e: ExprOrNull) returns (r: Option<Symbol>)
      requires Good(k, M()) && OfTop(k, M(), DepsOrNone(e))
      modifies this
      ensures Outcome(k, recursiveIsError, old(M()), M(), DepsOrNone(e), r)
      decreases k.syms - checked, 1, 0, if e.None? then 0 else Size(e.value)
    {
      if e.None? {
        return None;
      }
      ghost var a := M();
      match e.value {
        case Bin(_, x, y) =>
          r := CheckExpr(Some(x));
          if r.None? {
            ghost var b := M();
            r := CheckExpr(Some(y));
            OutcomeThen(k, recursiveIsError, a, b, M(), ExprDeps(x), ExprDeps(y), r);
          }
        case Not(x) =>
          r := CheckExpr(Some(x));
        case Cmp(_, x, y) =>
          r := CheckDeps(x);
          if r.None? {
            ghost var b := M();
            r := CheckDeps(y);
            OutcomeThen(k, recursiveIsError, a, b, M(), {x}, {y}, r);
          }
        case Sym(s) =>
          r := CheckDeps(s);
      }
    }

    /** The parser's final loop: how many symbols are reported. */
    method CheckAll(symbols: seq<Symbol>) returns (errors: nat)
      requires Good(k, M()) && stack == [] && check == {} && checked == {} && order == []
      requires forall s :: s in symbols <==> s in k.syms
      modifies this
      ensures check == {} && stack == []
      ensures recursiveIsError && errors == 0 ==> Ordered(k)
      ensures errors > 0 ==> recursiveIsError && exists s :: s in k.syms && OnCycle(k, s)
    {
      errors := 0;
      for i := 0 to |symbols|
        invariant Good(k, M()) && stack == [] && check == {}
        invariant recursiveIsError && errors == 0 ==>
                    Complete(M()) && forall j :: 0 <= j < i ==> symbols[j] in order
        invariant errors > 0 ==> recursiveIsError && exists s :: s in k.syms && OnCycle(k, s)
      {
        var r := CheckDeps(symbols[i]);
        if r.Some? {
          CycleInTable(k, r.value);
          errors := errors + 1;
        }
      }
      if recursiveIsError && errors == 0 {
        assert forall s :: s in k.syms ==> s in order;
      }
    }
  }

  lemma CycleInTable(k: Kconfig, s: Symbol)
    requires Closed(k) && OnCycle(k, s)
    ensures s in k.syms
  {
    var p :| CycleThrough(k, p, s);
    var prev := p[|p| - 2];
    assert p[|p| - 1] in Deps(k, prev);
  }

  /** With recursive_is_error set, the table is accepted iff it can be put in dependency order. */
  method CheckTable(k: Kconfig, symbols: seq<Symbol>) returns (ok: bool)
    requires Closed(k) && forall s :: s in symbols <==> s in k.syms
    ensures ok <==> Ordered(k)
    ensures ok <==> forall s :: s in k.syms ==> !OnCycle(k, s)
  {
    var c := new DepChecker(k, true);
    var errors := c.CheckAll(symbols);
    ok := errors == 0;
    if Ordered(k) {
      forall s | s in k.syms ensures !OnCycle(k, s) { OrderedHasNoCycle(k, s); }
    }
  }
}
