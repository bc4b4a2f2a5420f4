/** Lazy evaluation with the SYMBOL_VALID cache (scripts/config/symbol.c, lines 83-93,
    177-238, 304-457; scripts/config/expr.c, lines 1030-1102), for symbols outside choices. */
module Evaluator {
  import opened Exprs
  import opened Configs
  import opened Solutions
  import opened SymbolLaws

  /** struct symbol_value */
  datatype Value = Value(val: string, tri: Tri)

  /** Whether the default of `s` makes it worth writing. */
  predicate DefaultCounts(s: Symbol, def: Option<Property>) {
    def.Some? && (s.BoolLike() || (def.value.expr.Some? && def.value.expr.value.Sym?))
  }

  /** SYMBOL_WRITE: whether the symbol goes into the configuration file. */
  predicate Written(c: Setup, s: Symbol, v: Valuation) {
    var lim := LimitsOf(c, s, v);
    || lim.visible != NO
    || DefaultCounts(s, FirstDefault(Def(c.k, s).props, v))
    || (s.BoolLike() && (lim.rev != NO || lim.imp != NO))
  }

  /** The fields that a run changes. */
  datatype Store = Store(
    valid: set<Symbol>, curr: map<Symbol, Value>, limits: map<Symbol, Limits>, write: set<Symbol>)

  /** sym_get_string_value */
  function Text(modules: Tri, s: Symbol, x: Value): string {
    if !s.BoolLike() then x.val
    else if x.tri == MOD && modules == NO then "n"
    else TriString(x.tri)
  }

  /** The stored fields of `s` are those of the solution. */
  ghost predicate Fresh(c: Setup, st: Store, v: Valuation, s: Symbol) {
    && s in st.curr && st.curr[s].tri == v.tri(s) && Text(c.modules, s, st.curr[s]) == v.str(s)
    && (s.BoolLike() ==> st.curr[s].val == "n")
    && (s.Ty() != Unknown ==>
          && s in st.limits && st.limits[s] == LimitsOf(c, s, v)
          && (s in st.write <==> Written(c, s, v)))
  }

  /** The solution, an order of the table, the symbols whose calculation has begun but not
      ended, and a bound below all of those. */
  datatype Frame = Frame(v: Valuation, order: seq<Symbol>, active: set<Symbol>, bound: nat)

  ghost predicate Fits(c: Setup, f: Frame) {
    && Closed(c.k) && Topological(c.k, f.order) && (forall s :: s in c.k.syms ==> s in f.order)
    && IsSolution(c, f.v)
    && (forall a :: a in f.active ==> a in f.order && f.bound <= Index(f.order, a))
  }

  /** Every valid symbol that is not in progress holds its value. */
  ghost predicate Sound(c: Setup, st: Store, f: Frame) {
    && SYM_YES in st.valid && SYM_MOD in st.valid && SYM_NO in st.valid
    && (forall s :: s in st.valid ==> s in c.k.syms || Ymn(s))
    && (forall s :: s in st.valid && s !in f.active ==> Fresh(c, st, f.v, s))
  }

  /** Symbols that may be read: below everything in progress. */
  ghost predicate Below(c: Setup, f: Frame, ds: set<Symbol>) {
    forall d :: d in ds ==> d in c.k.syms && d in f.order && Index(f.order, d) < f.bound
  }

  ghost predicate SameFields(a: Store, b: Store, s: Symbol) {
    && (s in a.curr <==> s in b.curr) && (s in a.curr ==> a.curr[s] == b.curr[s])
    && (s in a.limits <==> s in b.limits) && (s in a.limits ==> a.limits[s] == b.limits[s])
    && (s in a.write <==> s in b.write)
  }

  /** A run fills in symbols below the bound and leaves those in progress alone. */
  ghost predicate Runs(c: Setup, a: Store, b: Store, f: Frame) {
    && Sound(c, b, f) && a.valid <= b.valid
    && (forall s :: s in f.active ==> SameFields(a, b, s))
  }

  lemma ValidIsFresh(c: Setup, st: Store, f: Frame, s: Symbol)
    requires Fits(c, f) && Sound(c, st, f) && Below(c, f, {s}) && s in st.valid
    ensures Fresh(c, st, f.v, s)
  {
  }

  lemma RunsNothing(c: Setup, x: Store, f: Frame)
    requires Sound(c, x, f)
    ensures Runs(c, x, x, f)
  {
  }

  lemma RunsThen(c: Setup, x: Store, y: Store, z: Store, f: Frame)
    requires Runs(c, x, y, f) && Runs(c, y, z, f)
    ensures Runs(c, x, z, f)
  {
  }

  // ----- entering and leaving the calculation of one symbol -----

  function Inside(f: Frame, s: Symbol): Frame
    requires s in f.order
  {
    f.(active := f.active + {s}, bound := Index(f.order, s))
  }

  /** As Runs, but the fields of `s` itself may change. */
  ghost predicate RunsOwn(c: Setup, a: Store, b: Store, f: Frame, s: Symbol) {
    && Sound(c, b, f) && a.valid <= b.valid
    && (forall t :: t in f.active && t != s ==> SameFields(a, b, t))
  }

  lemma Enter(c: Setup, st: Store, f: Frame, s: Symbol)
    requires Fits(c, f) && Sound(c, st, f) && Below(c, f, {s})
    ensures var g := Inside(f, s);
            Fits(c, g) && Sound(c, st.(valid := st.valid + {s}), g) && Below(c, g, Deps(c.k, s))
    ensures s in c.k.syms && (Ymn(s) ==> s in st.valid)
  {
    hide Deps;
    hide IsSolution;
    hide Settled;
    forall d | d in Deps(c.k, s) ensures d in c.k.syms && d in f.order && Index(f.order, d) < Index(f.order, s) {
      IndexDecreases(c.k, f.order, s, d);
    }
    var st' := st.(valid := st.valid + {s});
    forall t | t in st'.valid && t !in Inside(f, s).active ensures Fresh(c, st', f.v, t) {
      FreshOther(c, st, st', f.v, t);
    }
  }

  /** Freshness looks at the fields of one symbol. */
  lemma FreshOther(c: Setup, a: Store, b: Store, v: Valuation, t: Symbol)
    requires SameFields(a, b, t) && Fresh(c, a, v, t)
    ensures Fresh(c, b, v, t)
  {
  }

  lemma UpdateOwn(c: Setup, a: Store, b: Store, b': Store, f: Frame, s: Symbol)
    requires RunsOwn(c, a, b, f, s) && s in f.active && b'.valid == b.valid
    requires forall t :: t != s ==> SameFields(b, b', t)
    ensures RunsOwn(c, a, b', f, s)
  {
    hide Fresh;
    hide SameFields;
    forall t | t in b'.valid && t !in f.active ensures Fresh(c, b', f.v, t) {
      FreshOther(c, b, b', f.v, t);
    }
    forall t | t in f.active && t != s ensures SameFields(a, b', t) {
      SameFieldsThen(a, b, b', t);
    }
  }

  lemma SameFieldsThen(a: Store, b: Store, d: Store, t: Symbol)
    requires SameFields(a, b, t) && SameFields(b, d, t)
    ensures SameFields(a, d, t)
  {
  }

  lemma OwnThenRuns(c: Setup, x: Store, y: Store, z: Store, f: Frame, s: Symbol)
    requires RunsOwn(c, x, y, f, s) && Runs(c, y, z, f)
    ensures RunsOwn(c, x, z, f, s)
  {
  }

  lemma InsideFacts(f: Frame, s: Symbol)
    requires s in f.order
    ensures s in Inside(f, s).active && Inside(f, s).bound == Index(f.order, s) && Inside(f, s).v == f.v
  {
  }

  lemma FitsSolution(c: Setup, f: Frame)
    requires Fits(c, f)
    ensures IsSolution(c, f.v)
  {
  }

  lemma FieldsOf(a: Store, b: Store, s: Symbol)
    requires SameFields(a, b, s)
    ensures (s in a.limits ==> s in b.limits && b.limits[s] == a.limits[s]) && (s in a.write <==> s in b.write)
  {
  }

  /** Writing fields of `s` only. */
  lemma OwnUpdated(c: Setup, a: Store, b: Store, b': Store, f: Frame, s: Symbol)
    requires RunsOwn(c, a, b, f, s) && s in f.active && b'.valid == b.valid
    requires s in b'.curr && b'.curr == b.curr[s := b'.curr[s]]
    requires s in b'.limits && b'.limits == b.limits[s := b'.limits[s]]
    requires b'.write == b.write + {s} || b'.write == b.write - {s} || b'.write == b.write
    ensures RunsOwn(c, a, b', f, s) && Sound(c, b', f)
  {
    UpdateOwn(c, a, b, b', f, s);
    OwnIsSound(c, a, b', f, s);
  }

  lemma RunsIsOwn(c: Setup, a: Store, b: Store, f: Frame, s: Symbol)
    requires Runs(c, a, b, f) && s in f.active
    ensures RunsOwn(c, a, b, f, s) && SameFields(a, b, s)
  {
  }

  lemma OwnIsSound(c: Setup, a: Store, b: Store, f: Frame, s: Symbol)
    requires RunsOwn(c, a, b, f, s)
    ensures Sound(c, b, f)
  {
  }

  /** The fields that make `s` fresh. */
  lemma Finished(c: Setup, st: Store, v: Valuation, s: Symbol)
    requires IsSolution(c, v) && s.Ty() != Unknown
    requires s in st.curr && s in st.limits && st.limits[s] == LimitsOf(c, s, v)
    requires s in st.write <==> Written(c, s, v)
    requires if s.BoolLike() then st.curr[s] == Value("n", TriOf(c, s, v)) else st.curr[s] == Value(StrOf(c, s, v), NO)
    ensures Fresh(c, st, v, s)
  {
    hide LimitsOf;
    hide Written;
    hide OwnTri;
    assert Settled(c, v, s);
  }

  lemma LeaveFrame(c: Setup, a: Store, b: Store, f: Frame, s: Symbol)
    requires Fits(c, f) && Below(c, f, {s})
    requires RunsOwn(c, a.(valid := a.valid + {s}), b, Inside(f, s), s) && Fresh(c, b, f.v, s)
    ensures Runs(c, a, b, f) && Sound(c, b, f)
  {
    hide Fresh, IsSolution, Topological, Closed, SameFields;
    var g := Inside(f, s);
    assert s in {s} && s !in f.active;
    assert forall t :: t in f.active ==> t in g.active && t != s;
    assert SameFieldsSince(a, a.(valid := a.valid + {s}));
    forall t | t in f.active ensures SameFields(a, b, t) {
      SameFieldsStart(a, a.(valid := a.valid + {s}), b, t);
    }
  }

  /** Only the set of valid symbols differs. */
  predicate SameFieldsSince(a: Store, b: Store) { a.curr == b.curr && a.limits == b.limits && a.write == b.write }

  lemma SameFieldsStart(a: Store, b: Store, d: Store, t: Symbol)
    requires SameFieldsSince(a, b) && SameFields(b, d, t)
    ensures SameFields(a, d, t)
  {
  }

  lemma RunsValid(c: Setup, a: Store, b: Store, f: Frame)
    requires Runs(c, a, b, f)
    ensures a.valid <= b.valid
  {
  }

  class SymbolTable {
    const k: Kconfig
    const modules: Tri
    var users: Users
    var valid: set<Symbol>
    var curr: map<Symbol, Value>
    var limits: map<Symbol, Limits>
    var write: set<Symbol>

    ghost function C(): Setup
      reads this
    {
      Setup(k, users, modules)
    }

    ghost function St(): Store
      reads this
    {
      Store(valid, curr, limits, write)
    }

    /** expr_calc_value */
    method CalcExpr(e: ExprOrNull, ghost f: Frame) returns (t: Tri)
      requires Fits(C(), f) && Sound(C(), St(), f) && Below(C(), f, DepsOrNone(e))
      modifies this`valid, this`curr, this`limits, this`write
      ensures Runs(C(), old(St()), St(), f) && Sound(C(), St(), f)
      ensures t == EvalOrYes(e, f.v)
      decreases f.bound, 0, if e.None? then 0 else Size(e.value)
    {
      hide Fits, Sound, Runs, LimitsOf, Written;
      RunsNothing(C(), St(), f);
      if e.None? {
        return YES;
      }
      ghost var a := St();
      match e.value {
        case Bin(op, x, y) =>
          var t1 := CalcExpr(Some(x), f);
          ghost var b := St();
          var t2 := CalcExpr(Some(y), f);
          RunsThen(C(), a, b, St(), f);
          t := Join(op, t1, t2);
        case Not(x) =>
          t := CalcExpr(Some(x), f);
          t := Flip(t);
        case Sym(s) =>
          CalcValue(s, f);
          t := curr[s].tri;
        case Cmp(rel, x, y) =>
          CalcValue(x, f);
          ghost var b := St();
          CalcValue(y, f);
          RunsThen(C(), a, b, St(), f);
          RunsValid(C(), b, St(), f);
          ValidIsFresh(C(), St(), f, x);
          var res := CompareStrings(x.Ty(), Text(modules, x, curr[x]), y.Ty(), Text(modules, y, curr[y]));
          t := if Holds(rel, res) then YES else NO;
      }
    }

    /** sym_calc_value */
    method CalcValue(s: Symbol, ghost f: Frame)
      requires Fits(C(), f) && Sound(C(), St(), f) && Below(C(), f, {s})
      modifies this`valid, this`curr, this`limits, this`write
      ensures Runs(C(), old(St()), St(), f) && Sound(C(), St(), f)
      ensures s in valid && Fresh(C(), St(), f.v, s)
      decreases Index(f.order, s), 2, 0
    {
      hide Fits;
      hide Sound;
      hide Runs;
      hide Fresh;
      hide Below;
      ghost var a := St();
      if s in valid {
        ValidIsFresh(C(), a, f, s);
        RunsNothing(C(), a, f);
        return;
      }
      Enter(C(), a, f, s);
      valid := valid + {s};
      if s.Ty() == Unknown {
        CalcUntyped(s, f);
      } else {
        CalcTyped(s, f);
      }
      LeaveFrame(C(), a, St(), f, s);
    }

    /** A symbol without a type reads as its name. */
    method CalcUntyped(s: Symbol, ghost f: Frame)
      requires s in f.order && s in k.syms && s.Ty() == Unknown && !Ymn(s)
      requires Fits(C(), Inside(f, s)) && Sound(C(), St(), Inside(f, s))
      modifies this`curr
      ensures RunsOwn(C(), old(St()), St(), Inside(f, s), s) && Fresh(C(), St(), f.v, s)
    {
      ghost var b := St();
      curr := curr[s := Value(s.name, NO)];
      UpdateOwn(C(), b, b, St(), Inside(f, s), s);
      assert Settled(C(), f.v, s);
    }

    method CalcTyped(s: Symbol, ghost f: Frame)
      requires s in f.order && s.Ty() != Unknown
      requires var g := Inside(f, s); Fits(C(), g) && Sound(C(), St(), g) && Below(C(), g, Deps(k, s))
      modifies this`valid, this`curr, this`limits, this`write
      ensures RunsOwn(C(), old(St()), St(), Inside(f, s), s) && Fresh(C(), St(), f.v, s)
      decreases Index(f.order, s), 1, 5
    {
      hide Fits;
      hide Sound;
      hide Runs;
      hide RunsOwn;
      hide Fresh;
      hide Written;
      hide LimitsOf;
      hide TriOf;
      hide StrOf;
      hide Below;
      hide Deps;
      hide SameFields;
      hide Inside;
      ghost var g, a := Inside(f, s), St();
      InsideFacts(f, s);
      var lim := CalcLimits(s, g);
      ghost var b := St();
      RunsIsOwn(C(), a, b, g, s);
      limits := limits[s := lim];
      write := if lim.visible != NO then write + {s} else write - {s};
      curr := curr[s := Value(if s.BoolLike() then "n" else "", NO)];
      OwnUpdated(C(), a, b, St(), g, s);
      ghost var d := St();
      var x, counts := curr[s], false;
      if s.BoolLike() {
        var tri;
        tri, counts := CalcTri(s, lim, g);
        x := Value("n", tri);
      } else {
        var val;
        val, counts := CalcStr(s, lim, g);
        x := Value(val, NO);
      }
      ghost var e := St();
      RunsIsOwn(C(), d, e, g, s);
      OwnThenRuns(C(), a, d, e, g, s);
      curr := curr[s := x];
      write := if counts then write + {s} else write;
      OwnUpdated(C(), a, e, St(), g, s);
      FitsSolution(C(), g);
      FieldsOf(d, e, s);
      Finished(C(), St(), f.v, s);
    }

    /** sym_calc_visibility */
    method CalcLimits(s: Symbol, ghost f: Frame) returns (lim: Limits)
      requires Fits(C(), f) && Sound(C(), St(), f) && Below(C(), f, Deps(k, s)) && s.Ty() != Unknown
      modifies this`valid, this`curr, this`limits, this`write
      ensures Runs(C(), old(St()), St(), f) && Sound(C(), St(), f)
      ensures lim == LimitsOf(C(), s, f.v)
      decreases f.bound, 1, 4
    {
      hide Fits;
      hide Sound;
      hide Runs;
      ghost var a := St();
      var d := Def(k, s);
      var vis := CalcPrompts(d.props, f);
      ghost var b := St();
      var dir := CalcExpr(d.dirDep, f);
      RunsThen(C(), a, b, St(), f);
      b := St();
      var rev := NO;
      if d.revDep.Some? {
        rev := CalcExpr(d.revDep, f);
        RunsThen(C(), a, b, St(), f);
        b := St();
      }
      var imp := NO;
      if d.implied.Some? {
        imp := CalcExpr(d.implied, f);
        RunsThen(C(), a, b, St(), f);
      }
      lim := Limits(
        if vis == MOD && (s.Ty() != Tristate || modules == NO) then YES else vis,
        Clamp(Setup(k, users, modules), s, dir),
        Clamp(Setup(k, users, modules), s, rev),
        Clamp(Setup(k, users, modules), s, imp));
    }

    method CalcPrompts(ps: seq<Property>, ghost f: Frame) returns (vis: Tri)
      requires Fits(C(), f) && Sound(C(), St(), f) && Below(C(), f, PropsDeps(ps))
      modifies this`valid, this`curr, this`limits, this`write
      ensures Runs(C(), old(St()), St(), f) && Sound(C(), St(), f)
      ensures vis == AnyPrompt(ps, f.v)
      decreases f.bound, 1, 3
    {
      hide Fits;
      hide Sound;
      hide Runs;
      vis := NO;
      ghost var a := St();
      RunsNothing(C(), a, f);
      for i := 0 to |ps|
        invariant Runs(C(), a, St(), f) && Sound(C(), St(), f)
        invariant vis == AnyPrompt(ps[..i], f.v)
      {
        assert ps[..i + 1][..i] == ps[..i];
        if ps[i].kind.PromptProp? {
          PropsDepsOf(ps, ps[i]);
          ghost var b := St();
          var t := CalcExpr(ps[i].visible, f);
          RunsThen(C(), a, b, St(), f);
          vis := Max(vis, t);
        }
      }
      assert ps[..|ps|] == ps;
    }

    /** sym_get_default_prop, with the value of the condition */
    method CalcDefault(ps: seq<Property>, ghost f: Frame) returns (p: Option<Property>, cond: Tri)
      requires Fits(C(), f) && Sound(C(), St(), f) && Below(C(), f, PropsDeps(ps))
      modifies this`valid, this`curr, this`limits, this`write
      ensures Runs(C(), old(St()), St(), f) && Sound(C(), St(), f)
      ensures p == FirstDefault(ps, f.v)
      ensures p.Some? ==> p.value in ps && p.value.kind.DefaultProp? && cond == EvalOrYes(p.value.visible, f.v)
      decreases f.bound, 1, 3
    {
      hide Fits;
      hide Sound;
      hide Runs;
      ghost var a := St();
      RunsNothing(C(), a, f);
      for i := 0 to |ps|
        invariant Runs(C(), a, St(), f) && Sound(C(), St(), f)
        invariant FirstDefault(ps, f.v) == FirstDefault(ps[i..], f.v)
      {
        assert ps[i..][1..] == ps[i + 1..];
        if ps[i].kind.DefaultProp? {
          PropsDepsOf(ps, ps[i]);
          ghost var b := St();
          cond := CalcExpr(ps[i].visible, f);
          RunsThen(C(), a, b, St(), f);
          if cond != NO {
            return Some(ps[i]), cond;
          }
        }
      }
      assert ps[|ps|..] == [];
      p, cond := None, NO;
    }

    /** The value of a bool or tristate, and whether selects, defaults or implies ask to write it. */
    method CalcTri(s: Symbol, lim: Limits, ghost f: Frame) returns (t: Tri, counts: bool)
      requires Fits(C(), f) && Sound(C(), St(), f) && Below(C(), f, Deps(k, s))
      requires s.BoolLike() && lim == LimitsOf(C(), s, f.v)
      modifies this`valid, this`curr, this`limits, this`write
      ensures Runs(C(), old(St()), St(), f) && Sound(C(), St(), f)
      ensures t == TriOf(C(), s, f.v)
      ensures (lim.visible != NO || counts) <==> Written(C(), s, f.v)
      decreases f.bound, 1, 4
    {
      hide Fits;
      hide Sound;
      hide Runs;
      hide LimitsOf;
      RunsNothing(C(), St(), f);
      if lim.visible != NO && s in users {
        t, counts := Min(users[s].tri, lim.visible), false;
      } else {
        ghost var a := St();
        var p, cond := CalcDefault(Def(k, s).props, f);
        t, counts := NO, lim.rev != NO;
        if p.Some? {
          PropsDepsOf(Def(k, s).props, p.value);
          ghost var b := St();
          t := CalcExpr(p.value.expr, f);
          RunsThen(C(), a, b, St(), f);
          t, counts := Min(t, cond), true;
        }
        if lim.imp != NO {
          t, counts := Min(Max(t, lim.imp), lim.dir), true;
        }
      }
      t := if lim.dir == NO && lim.rev != NO then NO else Max(t, lim.rev);
      t := Clamp(Setup(k, users, modules), s, t);
    }

    /** The value of a string, int or hex without a range. */
    method CalcStr(s: Symbol, lim: Limits, ghost f: Frame) returns (val: string, counts: bool)
      requires Fits(C(), f) && Sound(C(), St(), f) && Below(C(), f, Deps(k, s))
      requires !s.BoolLike() && lim == LimitsOf(C(), s, f.v)
      modifies this`valid, this`curr, this`limits, this`write
      ensures Runs(C(), old(St()), St(), f) && Sound(C(), St(), f)
      ensures val == StrOf(C(), s, f.v)
      ensures (lim.visible != NO || counts) <==> Written(C(), s, f.v)
      decreases f.bound, 1, 4
    {
      hide Fits;
      hide Sound;
      hide Runs;
      hide LimitsOf;
      val, counts := "", false;
      RunsNothing(C(), St(), f);
      if lim.visible != NO && s in users {
        val := users[s].str;
      } else {
        ghost var a := St();
        var p, _ := CalcDefault(Def(k, s).props, f);
        if p.Some? && p.value.expr.Some? && p.value.expr.value.Sym? {
          var ds := p.value.expr.value.s;
          PropsDepsOf(Def(k, s).props, p.value);
          ghost var b := St();
          CalcValue(ds, f);
          RunsThen(C(), a, b, St(), f);
          val, counts := curr[ds].val, true;
          assert Fresh(C(), St(), f.v, ds);
        }
      }
    }

    // ----- the table seen from outside, with nothing in progress -----

    /** Every valid symbol holds its value in the solution `v`. */
    ghost predicate Cached(v: Valuation)
      reads this
    {
      && Closed(k) && Ordered(k) && IsSolution(C(), v)
      && Sound(C(), St(), Frame(v, [], {}, 0))
    }

    constructor (k: Kconfig, modules: Tri, users: Users)
      requires Closed(k) && Ordered(k)
      ensures this.k == k && this.modules == modules && this.users == users
      ensures forall v :: IsSolution(C(), v) ==> Cached(v)
    {
      this.k, this.modules, this.users := k, modules, users;
      valid := {SYM_YES, SYM_MOD, SYM_NO};
      curr := map[SYM_YES := Value("y", YES), SYM_MOD := Value("m", MOD), SYM_NO := Value("n", NO)];
      limits, write := map[], {};
      new;
      ConstantsSound(C(), St());
    }

    /** sym_calc_value, called for any symbols in any order. */
    method CalcSequence(ss: seq<Symbol>, ghost v: Valuation)
      requires Cached(v) && forall s :: s in ss ==> s in k.syms
      modifies this`valid, this`curr, this`limits, this`write
      ensures Cached(v)
      ensures forall s :: s in ss ==> s in valid && Fresh(C(), St(), v, s)
    {
      ghost var order :| Topological(k, order) && forall s :: s in k.syms ==> s in order;
      ghost var f := Frame(v, order, {}, |order|);
      for i := 0 to |ss|
        invariant Cached(v) && forall j :: 0 <= j < i ==> ss[j] in valid
      {
        hide Fresh;
        CalcValue(ss[i], f);
      }
    }

    /** sym_set_tristate_value. The stored limits are up to date because `s` is valid. */
    method SetTristateValue(s: Symbol, val: Tri, ghost v: Valuation) returns (ok: bool)
      requires Cached(v) && s in k.syms && s in valid && s.BoolLike()
      modifies this`valid, this`users
      ensures var lim := LimitsOf(old(C()), s, v);
              ok <==> val == v.tri(s) || WithinRange(EffectiveType(old(C()), s), lim, val)
      ensures C() == if ok then Assign(old(C()), s, val) else old(C())
      ensures ok && val != v.tri(s) ==> valid == {SYM_YES, SYM_MOD, SYM_NO}
      ensures ok && val != v.tri(s) ==> forall w :: IsSolution(C(), w) ==> Cached(w)
      ensures !ok || val == v.tri(s) ==> valid == old(valid)
      ensures !ok ==> Cached(v)
      ensures var lim := LimitsOf(old(C()), s, v);
              val == v.tri(s) && (lim.visible == NO || val <= Max(lim.visible, lim.rev)) ==> Cached(v)
    {
      hide LimitsOf;
      hide Written;
      ghost var c := C();
      assert Fresh(c, St(), v, s);
      var oldval := curr[s].tri;
      if oldval != val && !WithinRange(EffectiveType(Setup(k, users, modules), s), limits[s], val) {
        return false;
      }
      var str := if s in users then users[s].str else "";
      ConstantsFresh(c, St(), v);
      users := users[s := UserValue(val, str)];
      if oldval != val {
        ClearAllValid();
      } else {
        ReassertedValue(c, s, v);
        FreshReasserted(c, C(), St(), v);
      }
      ok := true;
    }

    /** Setting a value and asking for it again. */
    method SetThenCalc(s: Symbol, val: Tri, ghost v: Valuation) returns (ok: bool, now: Tri)
      requires Cached(v) && s in k.syms && s in valid && s.BoolLike() && val != v.tri(s)
      modifies this`valid, this`users, this`curr, this`limits, this`write
      ensures var lim := LimitsOf(old(C()), s, v);
              ok <==> WithinRange(EffectiveType(old(C()), s), lim, val)
      ensures var lim := LimitsOf(old(C()), s, v);
              ok ==> (now == val <==> !(lim.dir == NO && lim.rev != NO))
      ensures !ok ==> now == v.tri(s)
      ensures ok ==> forall m, cs :: Stored(k, s, m, cs) ==> now == val
    {
      hide LimitsOf;
      hide Written;
      hide Stored;
      ghost var c := C();
      ok := SetTristateValue(s, val, v);
      if ok {
        SolutionExists(C());
        ghost var w :| IsSolution(C(), w);
        CalcSequence([s], w);
        assert s in [s];
        assert Fresh(C(), St(), w, s);
        now := curr[s].tri;
        AssignmentTakesEffect(c, s, val, v, w);
        forall m, cs | Stored(k, s, m, cs) ensures now == val {
          AcceptedTakesEffect(c, s, val, v, w, m, cs);
        }
      } else {
        assert Fresh(C(), St(), v, s);
        now := curr[s].tri;
      }
    }

    /** What no assignment touches: only symbols of the table and y, m and n are ever valid,
        and those three have their values. */
    ghost predicate Grounded()
      reads this
    {
      && Closed(k) && Ordered(k) && {SYM_YES, SYM_MOD, SYM_NO} <= valid
      && (forall s :: s in valid ==> s in k.syms || Ymn(s))
      && HoldsConstants(curr)
    }

    /** sym_clear_all_valid. The three constants are not in the hash table, so they stay valid;
        the table is then sound for whatever solution the present user values have. */
    method ClearAllValid()
      requires Grounded()
      modifies this`valid
      ensures Grounded() && forall s :: s in k.syms && s in valid ==> Ymn(s)
      ensures forall v :: IsSolution(C(), v) ==> Cached(v)
    {
      hide IsSolution, Sound, HoldsConstants, Closed, Ordered;
      var rest := k.syms - {SYM_YES, SYM_MOD, SYM_NO};
      while rest != {}
        invariant Grounded() && rest <= k.syms - {SYM_YES, SYM_MOD, SYM_NO}
        invariant forall s :: s in k.syms && s !in rest && s in valid ==> Ymn(s)
        decreases |rest|
      {
        var s :| s in rest;
        valid := valid - {s};
        rest := rest - {s};
      }
      assert valid == {SYM_YES, SYM_MOD, SYM_NO};
      ConstantsSound(C(), St());
    }
  }

  ghost predicate HoldsConstants(curr: map<Symbol, Value>) {
    && SYM_YES in curr && SYM_MOD in curr && SYM_NO in curr
    && curr[SYM_YES] == Value("y", YES) && curr[SYM_MOD] == Value("m", MOD) && curr[SYM_NO] == Value("n", NO)
  }

  lemma ConstantsSound(c: Setup, st: Store)
    requires st.valid == {SYM_YES, SYM_MOD, SYM_NO} && HoldsConstants(st.curr)
    ensures forall v :: IsSolution(c, v) ==> Sound(c, st, Frame(v, [], {}, 0))
  {
    forall v | IsSolution(c, v) ensures Sound(c, st, Frame(v, [], {}, 0)) {
      assert Settled(c, v, SYM_YES) && Settled(c, v, SYM_MOD) && Settled(c, v, SYM_NO);
    }
  }

  lemma ConstantsFresh(c: Setup, st: Store, v: Valuation)
    requires IsSolution(c, v) && Sound(c, st, Frame(v, [], {}, 0))
    ensures HoldsConstants(st.curr)
  {
    assert Fresh(c, st, v, SYM_YES) && Fresh(c, st, v, SYM_MOD) && Fresh(c, st, v, SYM_NO);
    assert Settled(c, v, SYM_YES) && Settled(c, v, SYM_MOD) && Settled(c, v, SYM_NO);
  }

  /** Limits and write flags do not look at user values. */
  lemma FreshReasserted(c: Setup, c': Setup, st: Store, v: Valuation)
    requires c'.k == c.k && c'.modules == c.modules && Sound(c, st, Frame(v, [], {}, 0))
    ensures Sound(c', st, Frame(v, [], {}, 0))
  {
    forall s | s in st.valid ensures Fresh(c', st, v, s) {
      assert Fresh(c, st, v, s);
      LimitsAgree(c, c', s, v, v);
    }
  }
}
