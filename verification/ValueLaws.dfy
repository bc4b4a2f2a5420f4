/** Where the value of a symbol comes from, property by property: prompts, defaults, implies
    and selects (scripts/config/symbol.c, lines 83-93, 177-238, 341-410). */
module ValueLaws {
  import opened Exprs
  import opened Configs
  import opened Solutions
  import Evaluator

  // ----- which property counts -----

  /** The first default whose condition is not n. */
  ghost predicate Applies(ps: seq<Property>, i: nat, v: Valuation) {
    && i < |ps| && ps[i].kind.DefaultProp? && EvalOrYes(ps[i].visible, v) != NO
    && (forall j :: 0 <= j < i && ps[j].kind.DefaultProp? ==> EvalOrYes(ps[j].visible, v) == NO)
  }

  /** A prompt that is shown, with no other one shown further. */
  ghost predicate Leads(ps: seq<Property>, p: Property, v: Valuation) {
    && p in ps && p.kind.PromptProp? && EvalOrYes(p.visible, v) != NO
    && (forall q :: q in ps && q.kind.PromptProp? ==> EvalOrYes(q.visible, v) <= EvalOrYes(p.visible, v))
  }

  ghost predicate Hidden(ps: seq<Property>, v: Valuation) {
    forall p :: p in ps && p.kind.PromptProp? ==> EvalOrYes(p.visible, v) == NO
  }

  /** No user value counts: there is none, or no prompt is shown. */
  ghost predicate Unset(c: Setup, s: Symbol, v: Valuation) { s in c.users ==> Hidden(Def(c.k, s).props, v) }

  lemma {:induction false} FirstApplies(ps: seq<Property>, i: nat, v: Valuation)
    requires Applies(ps, i, v)
    ensures FirstDefault(ps, v) == Some(ps[i])
  {
    if i > 0 {
      assert ps[0].kind.DefaultProp? ==> EvalOrYes(ps[0].visible, v) == NO;
      assert forall j :: 0 <= j < |ps| - 1 ==> ps[1..][j] == ps[j + 1];
      FirstApplies(ps[1..], i - 1, v);
    }
  }

  lemma {:induction false} PromptBound(ps: seq<Property>, v: Valuation, t: Tri)
    requires forall p :: p in ps && p.kind.PromptProp? ==> EvalOrYes(p.visible, v) <= t
    ensures AnyPrompt(ps, v) <= t
  {
    if ps != [] {
      var last := ps[|ps| - 1];
      assert last in ps;
      PromptBound(ps[..|ps| - 1], v, t);
    }
  }

  lemma {:induction false} PromptReached(ps: seq<Property>, p: Property, v: Valuation)
    requires p in ps && p.kind.PromptProp?
    ensures AnyPrompt(ps, v) >= EvalOrYes(p.visible, v)
  {
    if p != ps[|ps| - 1] {
      PromptReached(ps[..|ps| - 1], p, v);
    }
  }

  lemma LeadingPrompt(ps: seq<Property>, p: Property, v: Valuation)
    requires Leads(ps, p, v)
    ensures AnyPrompt(ps, v) == EvalOrYes(p.visible, v)
  {
    PromptBound(ps, v, EvalOrYes(p.visible, v));
    PromptReached(ps, p, v);
  }

  // ----- the value -----

  /** A tristate with modules on has value `x`; any other has y for an `x` of m. */
  ghost predicate Gives(c: Setup, s: Symbol, v: Valuation, x: Tri) {
    v.tri(s) == if s.Ty() == Tristate && c.modules != NO then x else if x == NO then NO else YES
  }

  /** Raised by an active imply, as far as the symbol's dependency allows. */
  function Implied(d: SymDef, v: Valuation, x: Tri): Tri {
    var imp := EvalOrNo(d.implied, v);
    if imp == NO then x else Min(Max(x, imp), EvalOrYes(d.dirDep, v))
  }

  /** On top of the symbol's own value come its selects, unless its dependency is n. */
  ghost predicate Selected(c: Setup, s: Symbol, v: Valuation, own: Tri) {
    var d := Def(c.k, s);
    var rev := EvalOrNo(d.revDep, v);
    if rev != NO && EvalOrYes(d.dirDep, v) == NO then v.tri(s) == NO else Gives(c, s, v, Max(own, rev))
  }

  lemma Combine(c: Setup, s: Symbol, v: Valuation, own: Tri, x: Tri)
    requires Settled(c, v, s) && s.BoolLike() && own == OwnTri(c, s, v, LimitsOf(c, s, v))
    requires own == x || (own == YES && x == MOD && EffectiveType(c, s) == Boolean)
             || (own == MOD && x == YES && EffectiveType(c, s) == Boolean)
    ensures Selected(c, s, v, x)
  {
    hide OwnTri, AnyPrompt;
  }

  /** The default that applies gives the minimum of its value and its condition. */
  lemma DefaultDecides(c: Setup, s: Symbol, v: Valuation, i: nat)
    requires IsSolution(c, v) && s.BoolLike() && Unset(c, s, v) && Applies(Def(c.k, s).props, i, v)
    ensures var d := Def(c.k, s);
            var p := d.props[i];
            Selected(c, s, v, Implied(d, v, Min(EvalOrYes(p.expr, v), EvalOrYes(p.visible, v))))
  {
    var d := Def(c.k, s);
    var p := d.props[i];
    FirstApplies(d.props, i, v);
    OwnDefault(c, s, v, Min(EvalOrYes(p.expr, v), EvalOrYes(p.visible, v)));
  }

  /** Without one the symbol starts from n. */
  lemma NoDefaultIsNo(c: Setup, s: Symbol, v: Valuation)
    requires IsSolution(c, v) && s.BoolLike() && Unset(c, s, v) && NoneApplies(Def(c.k, s).props, v)
    ensures Selected(c, s, v, Implied(Def(c.k, s), v, NO))
  {
    FirstOfNone(Def(c.k, s).props, v);
    OwnDefault(c, s, v, NO);
  }

  lemma OwnDefault(c: Setup, s: Symbol, v: Valuation, x: Tri)
    requires IsSolution(c, v) && s.BoolLike() && Unset(c, s, v)
    requires var p := FirstDefault(Def(c.k, s).props, v);
             x == if p.Some? then Min(EvalOrYes(p.value.expr, v), EvalOrYes(p.value.visible, v)) else NO
    ensures Selected(c, s, v, Implied(Def(c.k, s), v, x))
  {
    var d := Def(c.k, s);
    if Hidden(d.props, v) { PromptBound(d.props, v, NO); }
    assert Settled(c, v, s);
    hide FirstDefault, AnyPrompt, Hidden;
    Combine(c, s, v, OwnTri(c, s, v, LimitsOf(c, s, v)), Implied(d, v, x));
  }

  /** A user value counts as far as the leading prompt is shown. */
  lemma UserDecides(c: Setup, s: Symbol, v: Valuation, p: Property)
    requires IsSolution(c, v) && s.BoolLike() && s in c.users && Leads(Def(c.k, s).props, p, v)
    ensures Selected(c, s, v, Min(c.users[s].tri, EvalOrYes(p.visible, v)))
  {
    LeadingPrompt(Def(c.k, s).props, p, v);
    assert Settled(c, v, s);
    hide FirstDefault, AnyPrompt;
    Combine(c, s, v, OwnTri(c, s, v, LimitsOf(c, s, v)), Min(c.users[s].tri, EvalOrYes(p.visible, v)));
  }

  /** One of these cases always holds. */
  lemma {:induction false} SomeCase(ps: seq<Property>, v: Valuation)
    ensures NoneApplies(ps, v) || exists i: nat :: Applies(ps, i, v)
    ensures Hidden(ps, v) || exists p :: Leads(ps, p, v)
  {
    if ps != [] {
      var front, last := ps[..|ps| - 1], ps[|ps| - 1];
      assert ps == front + [last];
      SomeCase(front, v);
      if exists i: nat :: Applies(front, i, v) {
        var i: nat :| Applies(front, i, v);
        assert Applies(ps, i, v);
      } else if last.kind.DefaultProp? && EvalOrYes(last.visible, v) != NO {
        assert forall j :: 0 <= j < |front| ==> ps[j] in front;
        assert Applies(ps, |front|, v);
      }
      if exists p :: Leads(front, p, v) {
        var p :| Leads(front, p, v);
        assert Leads(ps, p, v) || Leads(ps, last, v);
      } else if last.kind.PromptProp? && EvalOrYes(last.visible, v) != NO {
        assert Leads(ps, last, v);
      }
    }
  }

  // ----- texts -----

  predicate HasText(s: Symbol) { s.Ty() == Int || s.Ty() == Hex || s.Ty() == Str }

  /** A default gives the text of the symbol it names; a bool or tristate counts as "n" there. */
  lemma DefaultText(c: Setup, s: Symbol, v: Valuation, i: nat, t: Symbol)
    requires IsSolution(c, v) && HasText(s) && Unset(c, s, v) && Applies(Def(c.k, s).props, i, v)
    requires Def(c.k, s).props[i].expr == Some(Sym(t))
    ensures v.str(s) == if t.BoolLike() then "n" else v.str(t)
    ensures t.Const? ==> v.str(s) == t.name
  {
    var ps := Def(c.k, s).props;
    FirstApplies(ps, i, v);
    if Hidden(ps, v) { PromptBound(ps, v, NO); }
    assert Settled(c, v, s) && Settled(c, v, t);
  }

  /** Any other default, or none, gives the empty text. */
  lemma NoText(c: Setup, s: Symbol, v: Valuation)
    requires IsSolution(c, v) && HasText(s) && Unset(c, s, v)
    requires forall i: nat :: Applies(Def(c.k, s).props, i, v) ==>
               var e := Def(c.k, s).props[i].expr; e.None? || !e.value.Sym?
    ensures v.str(s) == ""
  {
    var ps := Def(c.k, s).props;
    SomeCase(ps, v);
    if NoneApplies(ps, v) {
      FirstOfNone(ps, v);
    } else {
      var i: nat :| Applies(ps, i, v);
      FirstApplies(ps, i, v);
    }
    if Hidden(ps, v) { PromptBound(ps, v, NO); }
    assert Settled(c, v, s);
  }

  lemma UserText(c: Setup, s: Symbol, v: Valuation)
    requires IsSolution(c, v) && HasText(s) && s in c.users && !Hidden(Def(c.k, s).props, v)
    ensures v.str(s) == c.users[s].str
  {
    var ps := Def(c.k, s).props;
    var p :| p in ps && p.kind.PromptProp? && EvalOrYes(p.visible, v) != NO;
    PromptReached(ps, p, v);
    assert Settled(c, v, s);
  }

  /** Where a tristate is asked for, only bools, tristates and y and m are ever more than n; a
      symbol without a type reads as its own name. */
  lemma OtherValues(c: Setup, s: Symbol, v: Valuation)
    requires IsSolution(c, v)
    ensures !s.BoolLike() ==> v.tri(s) == if s == SYM_YES then YES else if s == SYM_MOD then MOD else NO
    ensures s.Ty() == Unknown && !s.Choice? ==> v.str(s) == s.name
  {
    assert Settled(c, v, s);
  }

  // ----- what need not be written -----

  /** A symbol that is not written to the configuration file has no value to lose. */
  lemma UnwrittenIsEmpty(c: Setup, s: Symbol, v: Valuation)
    requires IsSolution(c, v) && !Evaluator.Written(c, s, v)
    ensures s.BoolLike() ==> v.tri(s) == NO
    ensures HasText(s) ==> v.str(s) == ""
  {
    assert Settled(c, v, s);
  }

  /** One is written iff a prompt is shown, a default applies, or a select or imply is active. */
  lemma WrittenIff(c: Setup, s: Symbol, v: Valuation)
    requires s.BoolLike()
    ensures var d := Def(c.k, s);
            Evaluator.Written(c, s, v)
            <==> !Hidden(d.props, v) || !NoneApplies(d.props, v)
                 || EvalOrNo(d.revDep, v) != NO || EvalOrNo(d.implied, v) != NO
  {
    var ps := Def(c.k, s).props;
    SomeCase(ps, v);
    if NoneApplies(ps, v) {
      FirstOfNone(ps, v);
    } else {
      var i: nat :| Applies(ps, i, v);
      FirstApplies(ps, i, v);
    }
    if Hidden(ps, v) {
      PromptBound(ps, v, NO);
    } else {
      var p :| p in ps && p.kind.PromptProp? && EvalOrYes(p.visible, v) != NO;
      PromptReached(ps, p, v);
    }
  }
}
