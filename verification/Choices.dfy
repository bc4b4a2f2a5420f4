/** Choice groups (scripts/config/symbol.c, lines 177-209, 240-302, 304-446, 459-512): the
    choice symbol, whose value picks a member, and the members, whose visibility depends on
    the choice. The rest of the configuration is fixed. */
module Choices {
  import opened Exprs
  import opened Solutions
  import opened ExprTransform

  /** A member and the conditions of its prompts. */
  datatype Member = Member(sym: Symbol, prompts: seq<Expr>)

  /** The choice symbol, its own limits, its `default sym if cond` lines and its members;
      `env` values all other symbols, `outside` says which of them are visible. */
  datatype Group = Group(
    choice: Symbol, lim: Limits, defaults: seq<(Symbol, ExprOrNull)>, members: seq<Member>,
    env: Valuation, outside: set<Symbol>, modules: Tri)

  predicate IsMember(g: Group, s: Symbol) { exists m :: m in g.members && m.sym == s }

  ghost predicate GroupOk(g: Group) {
    && g.choice.BoolLike()
    && (forall i, j :: 0 <= i < j < |g.members| ==> g.members[i].sym != g.members[j].sym)
    && (forall m :: m in g.members ==> m.sym.BoolLike() && m.sym != g.choice)
    && (forall m, e :: m in g.members && e in m.prompts ==> ContainsSymbol(e, g.choice))
  }

  /** The environment with the choice at `t`. */
  function EnvAt(g: Group, t: Tri): Valuation {
    Valuation((s: Symbol) => TriAt(g, t, s), (s: Symbol) => if s == g.choice then TriString(t) else g.env.str(s))
  }

  function TriAt(g: Group, t: Tri, s: Symbol): Tri { if s == g.choice then t else g.env.tri(s) }

  /** A prompt at m does not count while the choice is y, for tristate members. */
  function PromptAt(g: Group, m: Member, e: Expr, t: Tri): Tri {
    var x := Eval(e, EnvAt(g, t));
    if m.sym.Ty() == Tristate && x == MOD && t == YES then NO else x
  }

  function AnyPromptAt(g: Group, m: Member, es: seq<Expr>, t: Tri): Tri {
    if es == [] then NO
    else Max(AnyPromptAt(g, m, es[..|es| - 1], t), PromptAt(g, m, es[|es| - 1], t))
  }

  /** sym->visible of a member when the choice is at `t`. */
  function VisibleAt(g: Group, m: Member, t: Tri): Tri {
    var x := AnyPromptAt(g, m, m.prompts, t);
    if x == MOD && (m.sym.Ty() != Tristate || g.modules == NO) then YES else x
  }

  // ----- what the user has set -----

  /** The choice's SYMBOL_DEF_USER, def.tri and def.val; the members' flags and def.tri. */
  datatype ChoiceUser = ChoiceUser(
    set_: bool, tri: Tri, val: Option<Symbol>, flagged: set<Symbol>, tris: map<Symbol, Tri>)

  /** The choice's own value, before a member is picked. */
  function Mode(g: Group, u: ChoiceUser): Tri {
    var own := if g.lim.visible != NO && u.set_ then Min(u.tri, g.lim.visible) else NO;
    var t := if g.lim.dir == NO && g.lim.rev != NO then NO else Max(own, g.lim.rev);
    if t == MOD && (g.choice.Ty() == Boolean || g.modules == NO) then YES else t
  }

  predicate SymVisible(g: Group, s: Symbol) {
    if IsMember(g, s) then exists m :: m in g.members && m.sym == s && VisibleAt(g, m, YES) != NO
    else s in g.outside
  }

  function FirstDefaultSym(g: Group, ds: seq<(Symbol, ExprOrNull)>): Option<Symbol> {
    if ds == [] then None
    else if EvalOrYes(ds[0].1, EnvAt(g, YES)) != NO && SymVisible(g, ds[0].0) then Some(ds[0].0)
    else FirstDefaultSym(g, ds[1..])
  }

  function FirstVisible(g: Group, ms: seq<Member>): Option<Symbol> {
    if ms == [] then None
    else if VisibleAt(g, ms[0], YES) != NO then Some(ms[0].sym)
    else FirstVisible(g, ms[1..])
  }

  /** The member a choice at y picks: the user's if visible, else a default, else the first. */
  function Picked(g: Group, u: ChoiceUser): Option<Symbol> {
    if u.val.Some? && SymVisible(g, u.val.value) then u.val
    else if FirstDefaultSym(g, g.defaults).Some? then FirstDefaultSym(g, g.defaults)
    else FirstVisible(g, g.members)
  }

  /** The choice's final value: without a visible member it falls back to n. */
  function ChoiceTri(g: Group, u: ChoiceUser): Tri {
    if Mode(g, u) == YES && Picked(g, u).None? then NO else Mode(g, u)
  }

  /** A member's value. */
  function MemberTri(g: Group, u: ChoiceUser, m: Member): Tri {
    var vis := VisibleAt(g, m, ChoiceTri(g, u));
    if vis == YES then (if Mode(g, u) == YES && Picked(g, u) == Some(m.sym) then YES else NO)
    else
      var t := if vis != NO && m.sym in u.flagged && m.sym in u.tris then Min(u.tris[m.sym], vis) else NO;
      if t == MOD && (m.sym.Ty() == Boolean || g.modules == NO) then YES else t
  }

  // ----- exclusivity -----

  lemma {:induction false} PromptsTwoValued(g: Group, m: Member, es: seq<Expr>)
    requires m.sym.Ty() == Tristate
    ensures AnyPromptAt(g, m, es, YES) != MOD
  {
    if es != [] {
      PromptsTwoValued(g, m, es[..|es| - 1]);
    }
  }

  /** While the choice is y, no member is visible at m. */
  lemma VisibleTwoValued(g: Group, m: Member)
    ensures VisibleAt(g, m, YES) != MOD
  {
    if m.sym.Ty() == Tristate {
      PromptsTwoValued(g, m, m.prompts);
    }
  }

  /** A choice at y has exactly its picked symbol at y; every other member is n. */
  lemma ExactlyOne(g: Group, u: ChoiceUser, m: Member)
    requires ChoiceTri(g, u) == YES && m in g.members
    ensures Picked(g, u).Some?
    ensures MemberTri(g, u, m) == if VisibleAt(g, m, YES) != NO && Picked(g, u) == Some(m.sym) then YES else NO
  {
    VisibleTwoValued(g, m);
  }

  lemma {:induction false} FirstVisibleIsMember(g: Group, ms: seq<Member>)
    requires forall m :: m in ms ==> m in g.members
    ensures FirstVisible(g, ms).Some? ==>
              exists m :: m in g.members && m.sym == FirstVisible(g, ms).value && VisibleAt(g, m, YES) != NO
    ensures FirstVisible(g, ms).None? ==> forall m :: m in ms ==> VisibleAt(g, m, YES) == NO
  {
    if ms != [] {
      assert ms[0] in ms;
      FirstVisibleIsMember(g, ms[1..]);
    }
  }

  lemma {:induction false} DefaultIsVisible(g: Group, ds: seq<(Symbol, ExprOrNull)>)
    ensures FirstDefaultSym(g, ds).Some? ==> SymVisible(g, FirstDefaultSym(g, ds).value)
    ensures FirstDefaultSym(g, ds).Some? ==> exists d :: d in ds && d.0 == FirstDefaultSym(g, ds).value
  {
    if ds != [] {
      DefaultIsVisible(g, ds[1..]);
      if FirstDefaultSym(g, ds) == Some(ds[0].0) { assert ds[0] in ds; }
    }
  }

  /** Whatever is picked is visible. */
  lemma PickedIsVisible(g: Group, u: ChoiceUser)
    requires Picked(g, u).Some?
    ensures SymVisible(g, Picked(g, u).value)
  {
    DefaultIsVisible(g, g.defaults);
    FirstVisibleIsMember(g, g.members);
  }

  /** Some member is y iff the picked symbol belongs to the choice. A default may name a
      symbol outside the choice (menu_finalize only warns): then all members are n. */
  lemma OneMemberIff(g: Group, u: ChoiceUser)
    requires GroupOk(g) && ChoiceTri(g, u) == YES
    ensures Picked(g, u).Some?
    ensures (exists m :: m in g.members && MemberTri(g, u, m) == YES) <==> IsMember(g, Picked(g, u).value)
    ensures forall m :: m in g.members ==> (MemberTri(g, u, m) == YES <==> Picked(g, u) == Some(m.sym))
    ensures forall m :: m in g.members && Picked(g, u) != Some(m.sym) ==> MemberTri(g, u, m) == NO
  {
    PickedIsVisible(g, u);
    var s := Picked(g, u).value;
    forall m | m in g.members
      ensures MemberTri(g, u, m) == YES <==> Picked(g, u) == Some(m.sym)
      ensures Picked(g, u) != Some(m.sym) ==> MemberTri(g, u, m) == NO
    {
      ExactlyOne(g, u, m);
      if m.sym == s {
        assert IsMember(g, s);
        var m' :| m' in g.members && m'.sym == s && VisibleAt(g, m', YES) != NO;
      }
    }
  }

  // ----- the cached calculation -----

  ghost predicate FlagsWithin(u: ChoiceUser, u0: ChoiceUser) {
    u == u0.(set_ := u.set_)
  }

  /** Whether sym_calc_choice leaves SYMBOL_DEF_USER on the choice: the user has settled every
      member that is visible. */
  ghost predicate StaysSet(g: Group, u: ChoiceUser) {
    u.set_ && (Mode(g, u) == YES ==>
                 forall m :: m in g.members && VisibleAt(g, m, YES) != NO ==> m.sym in u.flagged)
  }

  /** The visibilities of all members, calculated with the choice at y. */
  ghost predicate AllVisibleAtYes(g: Group, visible: map<Symbol, Tri>) {
    && GroupOk(g) && (forall s :: s in visible ==> IsMember(g, s))
    && (forall m :: m in g.members ==> m.sym in visible && visible[m.sym] == VisibleAt(g, m, YES))
  }

  lemma VisibleAgain(g: Group, visible: map<Symbol, Tri>, m: Member)
    requires AllVisibleAtYes(g, visible) && m in g.members
    ensures AllVisibleAtYes(g, visible[m.sym := VisibleAt(g, m, YES)])
  {
    hide VisibleAt;
  }

  class ChoiceTable {
    const g: Group
    var user: ChoiceUser
    var choiceValid: bool
    var choiceTri: Tri
    var choiceVal: Option<Symbol>
    /** Members with SYMBOL_VALID, and their visible and curr.tri. */
    var valid: set<Symbol>
    var visible: map<Symbol, Tri>
    var tris: map<Symbol, Tri>

    /** The fields of a finished member are those of the specification. */
    ghost predicate MemberDone(u0: ChoiceUser, m: Member)
      reads this
    {
      && m.sym in visible && visible[m.sym] == VisibleAt(g, m, ChoiceTri(g, u0))
      && m.sym in tris && tris[m.sym] == MemberTri(g, u0, m)
      && (m.prompts != [] ==> choiceValid)
    }

    ghost predicate ChoiceDone(u0: ChoiceUser)
      reads this
    {
      && choiceTri == ChoiceTri(g, u0)
      && choiceVal == (if Mode(g, u0) == YES then Picked(g, u0) else None)
      && (choiceTri == YES ==> VisibleAtYes())
    }

    /** `u0` is what the user had set when the calculation began; `busy` is in progress. */
    ghost predicate Inv(u0: ChoiceUser, busy: set<Symbol>)
      reads this
    {
      && GroupOk(g) && FlagsWithin(user, u0)
      && (if choiceValid then ChoiceDone(u0) && (user.set_ <==> StaysSet(g, u0)) else user == u0)
      && (forall s :: s in visible ==> IsMember(g, s))
      && (forall m :: m in g.members && m.sym in valid && m.sym !in busy ==> MemberDone(u0, m))
    }

    constructor (g: Group, user: ChoiceUser)
      requires GroupOk(g)
      ensures this.g == g && this.user == user && Inv(user, {}) && valid == {}
    {
      this.g, this.user := g, user;
      choiceValid, choiceTri, choiceVal := false, NO, None;
      valid, visible, tris := {}, map[], map[];
    }

    /** A prompt of a member. Reading the choice symbol calculates it. */
    method CalcPrompt(m: Member, e: Expr, ghost u0: ChoiceUser, ghost busy: set<Symbol>) returns (t: Tri)
      requires Inv(u0, busy) && m in g.members && e in m.prompts
      modifies this
      ensures Inv(u0, busy) && choiceValid && valid == old(valid)
      ensures choiceTri == ChoiceTri(g, u0) && t == PromptAt(g, m, e, choiceTri)
    {
      if ContainsSymbol(e, g.choice) {
        CalcChoice(u0, busy);
      }
      t := Eval(e, EnvAt(g, choiceTri));
      if m.sym.Ty() == Tristate && t == MOD && choiceTri == YES {
        t := NO;
      }
    }

    /** The loop over the prompts of a member */
    method CalcPrompts(m: Member, ghost u0: ChoiceUser, ghost busy: set<Symbol>) returns (tri: Tri)
      requires Inv(u0, busy) && m in g.members
      modifies this
      ensures Inv(u0, busy) && valid == old(valid) && (m.prompts != [] ==> choiceValid)
      ensures tri == AnyPromptAt(g, m, m.prompts, ChoiceTri(g, u0))
    {
      hide Inv;
      hide GroupOk;
      hide PromptAt;
      hide ChoiceTri;
      tri := NO;
      for i := 0 to |m.prompts|
        invariant Inv(u0, busy) && valid == old(valid) && (i > 0 ==> choiceValid)
        invariant tri == AnyPromptAt(g, m, m.prompts[..i], ChoiceTri(g, u0))
      {
        var t := CalcPrompt(m, m.prompts[i], u0, busy);
        assert m.prompts[..i + 1][..i] == m.prompts[..i];
        tri := Max(tri, t);
      }
      assert m.prompts[..|m.prompts|] == m.prompts;
    }

    /** sym_calc_visibility on a member */
    method CalcVisibility(m: Member, ghost u0: ChoiceUser, ghost busy: set<Symbol>)
      requires Inv(u0, busy) && m in g.members && m.sym in busy
      modifies this
      ensures Inv(u0, busy) && valid == old(valid) && (m.prompts != [] ==> choiceValid)
      ensures m.sym in visible && visible[m.sym] == VisibleAt(g, m, ChoiceTri(g, u0))
    {
      hide GroupOk, ChoiceTri, MemberTri, StaysSet, AllVisibleAtYes;
      var tri := CalcPrompts(m, u0, busy);
      if tri == MOD && (m.sym.Ty() != Tristate || g.modules == NO) {
        tri := YES;
      }
      assert tri == VisibleAt(g, m, ChoiceTri(g, u0));
      hide VisibleAt;
      if choiceValid && choiceTri == YES { VisibleAgain(g, visible, m); }
      visible := visible[m.sym := tri];
    }

    /** sym_calc_value on the choice symbol */
    method CalcChoice(ghost u0: ChoiceUser, ghost busy: set<Symbol>)
      requires Inv(u0, busy)
      modifies this
      ensures Inv(u0, busy) && choiceValid && valid == old(valid) && tris == old(tris)
    {
      if choiceValid {
        return;
      }
      choiceValid := true;
      choiceTri := Mode(g, user);
      choiceVal := None;
      if choiceTri == YES {
        PickMember();
      }
      forall m | m in g.members && m.sym in valid && m.sym !in busy ensures MemberDone(u0, m) {
        assert m.prompts == [];
      }
    }

    /** def_sym->visible != no */
    predicate Shows(s: Symbol)
      reads this`visible
    {
      if s in visible then visible[s] != NO else s in g.outside
    }

    ghost predicate VisibleAtYes()
      reads this`visible
    {
      AllVisibleAtYes(g, visible)
    }

    lemma ShowsIsVisible(s: Symbol)
      requires VisibleAtYes()
      ensures Shows(s) <==> SymVisible(g, s)
    {
    }

    /** sym_choice_default */
    method ChoiceDefault() returns (d: Option<Symbol>)
      requires VisibleAtYes()
      ensures d == if FirstDefaultSym(g, g.defaults).Some? then FirstDefaultSym(g, g.defaults)
                   else FirstVisible(g, g.members)
    {
      for i := 0 to |g.defaults|
        invariant FirstDefaultSym(g, g.defaults) == FirstDefaultSym(g, g.defaults[i..])
      {
        assert g.defaults[i..][1..] == g.defaults[i + 1..];
        var (s, cond) := g.defaults[i];
        ShowsIsVisible(s);
        if EvalOrYes(cond, EnvAt(g, YES)) != NO && Shows(s) {
          return Some(s);
        }
      }
      assert g.defaults[|g.defaults|..] == [];
      for i := 0 to |g.members|
        invariant FirstVisible(g, g.members) == FirstVisible(g, g.members[i..])
      {
        assert g.members[i..][1..] == g.members[i + 1..];
        if visible[g.members[i].sym] != NO {
          return Some(g.members[i].sym);
        }
      }
      assert g.members[|g.members|..] == [];
      d := None;
    }

    /** sym_calc_visibility of a member while the choice is being calculated */
    method VisibilityAtYes(m: Member) returns (tri: Tri)
      requires choiceValid && choiceTri == YES
      ensures tri == VisibleAt(g, m, YES)
    {
      tri := NO;
      for j := 0 to |m.prompts|
        invariant tri == AnyPromptAt(g, m, m.prompts[..j], YES)
      {
        assert m.prompts[..j + 1][..j] == m.prompts[..j];
        tri := Max(tri, PromptAt(g, m, m.prompts[j], choiceTri));
      }
      assert m.prompts[..|m.prompts|] == m.prompts;
      tri := if tri == MOD && (m.sym.Ty() != Tristate || g.modules == NO) then YES else tri;
    }

    /** The visibilities of all members, and whether the user has settled all visible ones. */
    method CalcAllVisible() returns (flag: bool)
      requires GroupOk(g) && choiceValid && choiceTri == YES && forall s :: s in visible ==> IsMember(g, s)
      modifies this`visible
      ensures VisibleAtYes()
      ensures flag <==> user.set_ && forall m :: m in g.members && VisibleAt(g, m, YES) != NO ==> m.sym in user.flagged
    {
      hide VisibleAt;
      flag := user.set_;
      for i := 0 to |g.members|
        invariant forall s :: s in visible ==> IsMember(g, s)
        invariant forall j :: 0 <= j < i ==>
          g.members[j].sym in visible && visible[g.members[j].sym] == VisibleAt(g, g.members[j], YES)
        invariant flag <==> user.set_ && forall j :: 0 <= j < i && VisibleAt(g, g.members[j], YES) != NO ==>
                              g.members[j].sym in user.flagged
      {
        var m := g.members[i];
        var tri := VisibilityAtYes(m);
        assert m in g.members;
        visible := visible[m.sym := tri];
        if tri != NO {
          flag := flag && m.sym in user.flagged;
        }
      }
    }

    /** sym_calc_choice: all visibilities with the choice at y, then the pick. */
    method PickMember()
      requires GroupOk(g) && choiceValid && choiceTri == YES && forall s :: s in visible ==> IsMember(g, s)
      modifies this
      ensures choiceValid && valid == old(valid) && tris == old(tris)
      ensures FlagsWithin(user, old(user)) && choiceVal == Picked(g, user)
      ensures choiceTri == if Picked(g, user).None? then NO else YES
      ensures VisibleAtYes()
      ensures user.set_ <==> old(user.set_) && forall m :: m in g.members && VisibleAt(g, m, YES) != NO ==>
                                m.sym in user.flagged
    {
      hide VisibleAt, GroupOk, VisibleAtYes, Shows, SymVisible, FirstDefaultSym, FirstVisible;
      var flag := CalcAllVisible();
      user := user.(set_ := flag);
      if user.val.Some? {
        ShowsIsVisible(user.val.value);
      }
      if user.val.Some? && Shows(user.val.value) {
        choiceVal := user.val;
      } else {
        choiceVal := ChoiceDefault();
      }
      if choiceVal.None? {
        choiceTri := NO;
      }
    }

    /** sym_calc_value on a member */
    method CalcMember(m: Member, ghost u0: ChoiceUser)
      requires Inv(u0, {}) && m in g.members
      modifies this
      ensures Inv(u0, {}) && valid == old(valid) + {m.sym}
    {
      hide ChoiceTri, Picked, Mode, VisibleAt, MemberTri, StaysSet, AllVisibleAtYes;
      if m.sym in valid {
        return;
      }
      valid := valid + {m.sym};
      CalcVisibility(m, u0, {m.sym});
      var tri := MemberValue(m, u0);
      tris := tris[m.sym := tri];
      forall m' | m' in g.members && m'.sym in valid ensures MemberDone(u0, m') {
        if m'.sym == m.sym { assert m' == m; }
      }
    }

    /** The value of a member whose visibility is known. */
    method MemberValue(m: Member, ghost u0: ChoiceUser) returns (tri: Tri)
      requires FlagsWithin(user, u0) && (if choiceValid then ChoiceDone(u0) else user == u0)
      requires m.sym in visible && visible[m.sym] == VisibleAt(g, m, ChoiceTri(g, u0))
      requires m.prompts != [] ==> choiceValid
      ensures tri == MemberTri(g, u0, m)
    {
      hide ChoiceTri, Picked, Mode;
      var vis := visible[m.sym];
      tri := NO;
      if vis == YES {
        tri := if choiceVal == Some(m.sym) then YES else NO;
      } else {
        if vis != NO && m.sym in user.flagged {
          tri := Min(if m.sym in user.tris then user.tris[m.sym] else NO, vis);
        }
        if tri == MOD && (m.sym.Ty() == Boolean || g.modules == NO) {
          tri := YES;
        }
      }
    }

    /** Calculating members in any order. */
    method CalcMembers(ms: seq<Member>, ghost u0: ChoiceUser)
      requires Inv(u0, {}) && forall m :: m in ms ==> m in g.members
      modifies this
      ensures Inv(u0, {})
      ensures forall m :: m in ms ==> m.sym in tris && tris[m.sym] == MemberTri(g, u0, m)
    {
      hide VisibleAt;
      hide MemberTri;
      hide Picked;
      hide Mode;
      hide ChoiceTri;
      for i := 0 to |ms|
        invariant Inv(u0, {}) && forall j :: 0 <= j < i ==> ms[j].sym in valid
      {
        CalcMember(ms[i], u0);
      }
    }

    /** sym_set_tristate_value(member, yes), whatever the choice is at. */
    method SetMember(m: Member, ghost u0: ChoiceUser) returns (ok: bool)
      requires Inv(u0, {}) && m in g.members && m.sym in valid
      modifies this
      ensures ok <==> VisibleAt(g, m, ChoiceTri(g, u0)) == YES
      ensures ok ==> user == old(user).(set_ := true, val := Some(m.sym), flagged := user.flagged,
                                        tris := old(user).tris[m.sym := YES])
      ensures ok ==> user.flagged == old(user).flagged + {m.sym} + set s | s in visible && visible[s] != NO
      ensures ok ==> Inv(user, {})
      ensures ok && ChoiceTri(g, u0) == YES ==> StaysSet(g, user)
      ensures ok && MemberTri(g, u0, m) != YES ==> !choiceValid && valid == {}
      ensures !ok ==> unchanged(this)
    {
      hide VisibleAt, Picked, Mode, MemberTri, ChoiceTri, StaysSet, AllVisibleAtYes;
      OnlyVisibleAtYes(g, u0, m);
      assert MemberDone(u0, m);
      if visible[m.sym] == YES { ShownHasPrompt(g, m, ChoiceTri(g, u0)); }
      var oldval := tris[m.sym];
      if oldval != YES && visible[m.sym] != YES {
        return false;
      }
      var shown := set s | s in visible && visible[s] != NO;
      user := user.(set_ := true, val := Some(m.sym), flagged := user.flagged + {m.sym} + shown,
                    tris := user.tris[m.sym := YES]);
      if choiceTri == YES { AllSettled(user); }
      if oldval != YES {
        choiceValid, valid := false, {};
      } else {
        PickedAtYes(g, u0, m);
        ChosenAgain(m, u0);
      }
      ok := true;
    }

    lemma AllSettled(u: ChoiceUser)
      requires VisibleAtYes() && u.set_ && forall s :: s in visible && visible[s] != NO ==> s in u.flagged
      ensures StaysSet(g, u)
    {
      hide VisibleAt, Mode;
    }

    /** Choosing the member that is y already changes no value. */
    lemma ChosenAgain(m: Member, u0: ChoiceUser)
      requires GroupOk(g) && m in g.members && MemberTri(g, u0, m) == YES && VisibleAt(g, m, ChoiceTri(g, u0)) == YES
      requires user.set_ && user.tri == u0.tri && user.val == Some(m.sym)
      requires choiceValid ==> ChoiceDone(u0)
      requires (forall s :: s in visible ==> IsMember(g, s)) && (m.prompts != [] ==> choiceValid)
      requires StaysSet(g, user)
      requires forall m' :: m' in g.members && m'.sym in valid ==> MemberDone(u0, m')
      ensures Inv(user, {})
    {
      hide VisibleAt;
      PickedAtYes(g, u0, m);
      hide Picked, Mode;
      ChosenMemberWins(g, u0, m, user);
      OneMemberIff(g, u0);
      assert Mode(g, user) == YES && Mode(g, u0) == YES by { YesMode(g, user); YesMode(g, u0); }
      forall m' | m' in g.members && m'.sym in valid ensures MemberDone(user, m') {
        assert MemberDone(u0, m');
        if m'.sym == m.sym { UniqueMember(g, m, m'); }
      }
    }

    /** Choosing a member and asking for all of them again. */
    method Choose(m: Member, ghost u0: ChoiceUser) returns (ok: bool)
      requires Inv(u0, {}) && m in g.members && m.sym in valid
      modifies this
      ensures ok <==> VisibleAt(g, m, ChoiceTri(g, u0)) == YES
      ensures ok && (ChoiceTri(g, u0) == YES || (Wf(g.env) && Bounded(g, m))) ==>
                forall m' :: m' in g.members ==> m'.sym in tris && tris[m'.sym] == if m' == m then YES else NO
      ensures ok && (ChoiceTri(g, u0) == YES || (Wf(g.env) && Bounded(g, m))) ==>
                user.set_ && user.val == Some(m.sym)
      ensures !ok ==> unchanged(this)
    {
      hide VisibleAt, MemberTri, Picked, Mode, ChoiceTri, StaysSet;
      ok := SetMember(m, u0);
      if ok {
        ghost var u := user;
        if Wf(g.env) && Bounded(g, m) { ChoosingRefused(g, u0, m); }
        if ChoiceTri(g, u0) == YES { ChosenMemberWins(g, u0, m, u); }
        CalcMembers(g.members, u);
      }
    }
  }

  lemma ShownHasPrompt(g: Group, m: Member, t: Tri)
    requires VisibleAt(g, m, t) != NO
    ensures m.prompts != []
  {
  }

  /** A member at y is visible at y. */
  lemma OnlyVisibleAtYes(g: Group, u: ChoiceUser, m: Member)
    ensures MemberTri(g, u, m) == YES ==> VisibleAt(g, m, ChoiceTri(g, u)) == YES
  {
    hide ChoiceTri, Picked, Mode;
  }

  /** And then it is the pick of a choice at y. */
  lemma PickedAtYes(g: Group, u: ChoiceUser, m: Member)
    requires MemberTri(g, u, m) == YES && VisibleAt(g, m, ChoiceTri(g, u)) == YES
    ensures ChoiceTri(g, u) == YES && Mode(g, u) == YES && Picked(g, u) == Some(m.sym)
  {
    hide VisibleAt;
  }

  // ----- choosing while the choice is not at y -----

  /** The choice is an operand of the condition: menu_finalize hands it to its members as the
      dependency of their parent. */
  predicate BoundedBy(e: Expr, s: Symbol) {
    match e
    case Sym(t) => t == s
    case Bin(op, l, r) =>
      if op == AndOp then BoundedBy(l, s) || BoundedBy(r, s) else BoundedBy(l, s) && BoundedBy(r, s)
    case _ => false
  }

  lemma {:induction false} BoundedValue(e: Expr, s: Symbol, v: Valuation)
    requires BoundedBy(e, s)
    ensures Eval(e, v) <= v.tri(s)
  {
    if e.Bin? {
      if BoundedBy(e.l, s) { BoundedValue(e.l, s, v); }
      if BoundedBy(e.r, s) { BoundedValue(e.r, s, v); }
    }
  }

  /** The condition holds only with the symbol at y: what a bool member of a tristate choice
      gets in addition. */
  predicate OnlyAtYes(e: Expr, s: Symbol) {
    match e
    case Cmp(rel, a, b) => rel == Equal && a == s && b == SYM_YES
    case Bin(op, l, r) => op == AndOp && (OnlyAtYes(l, s) || OnlyAtYes(r, s))
    case _ => false
  }

  lemma {:induction false} OnlyAtYesValue(e: Expr, s: Symbol, v: Valuation)
    requires Wf(v) && s.BoolLike() && OnlyAtYes(e, s) && v.tri(s) != YES
    ensures Eval(e, v) == NO
  {
    match e
    case Cmp(_, a, b) => YmnCompare(a, b, v);
    case Bin(_, l, r) =>
      if OnlyAtYes(l, s) { OnlyAtYesValue(l, s, v); }
      if OnlyAtYes(r, s) { OnlyAtYesValue(r, s, v); }
  }

  /** The prompts of a member as menu_finalize leaves them. */
  predicate Bounded(g: Group, m: Member) {
    forall e :: e in m.prompts ==>
      && BoundedBy(e, g.choice)
      && (g.choice.Ty() == Tristate && m.sym.Ty() != Tristate ==> OnlyAtYes(e, g.choice))
  }

  lemma {:induction false} BoundedPrompts(g: Group, m: Member, es: seq<Expr>, t: Tri)
    requires Bounded(g, m) && forall e :: e in es ==> e in m.prompts
    ensures AnyPromptAt(g, m, es, t) <= t
  {
    if es != [] {
      BoundedPrompts(g, m, es[..|es| - 1], t);
      BoundedValue(es[|es| - 1], g.choice, EnvAt(g, t));
    }
  }

  lemma EnvWf(g: Group, t: Tri)
    requires Wf(g.env) && g.choice.BoolLike() && (g.choice.Ty() == Boolean ==> t != MOD)
    ensures Wf(EnvAt(g, t))
  {
  }

  lemma {:induction false} BoolPrompts(g: Group, m: Member, es: seq<Expr>, t: Tri)
    requires Wf(g.env) && g.choice.Ty() == Tristate && m.sym.Ty() != Tristate && t != YES
    requires Bounded(g, m) && forall e :: e in es ==> e in m.prompts
    ensures AnyPromptAt(g, m, es, t) == NO
  {
    if es != [] {
      EnvWf(g, t);
      BoolPrompts(g, m, es[..|es| - 1], t);
      OnlyAtYesValue(es[|es| - 1], g.choice, EnvAt(g, t));
    }
  }

  lemma ChoiceAtMod(g: Group, u: ChoiceUser)
    requires ChoiceTri(g, u) == MOD
    ensures g.choice.Ty() != Boolean && g.modules != NO
  {
  }

  /** A member can be chosen only while the choice is at y. */
  lemma ChoosingRefused(g: Group, u: ChoiceUser, m: Member)
    requires g.choice.BoolLike() && Wf(g.env) && Bounded(g, m)
    ensures VisibleAt(g, m, ChoiceTri(g, u)) == YES ==> ChoiceTri(g, u) == YES
  {
    var t := ChoiceTri(g, u);
    BoundedPrompts(g, m, m.prompts, t);
    if t == MOD {
      ChoiceAtMod(g, u);
      if m.sym.Ty() != Tristate { BoolPrompts(g, m, m.prompts, t); }
    }
    hide ChoiceTri;
  }

  lemma YesMode(g: Group, u: ChoiceUser)
    requires ChoiceTri(g, u) == YES
    ensures Mode(g, u) == YES
  {
  }

  lemma UniqueMember(g: Group, m: Member, m': Member)
    requires GroupOk(g) && m in g.members && m' in g.members && m.sym == m'.sym
    ensures m == m'
  {
  }

  /** Choosing a visible member keeps the choice at y and makes that member the one. */
  lemma ChosenMemberWins(g: Group, u: ChoiceUser, m: Member, u': ChoiceUser)
    requires GroupOk(g) && m in g.members && ChoiceTri(g, u) == YES && VisibleAt(g, m, YES) == YES
    requires u'.set_ && u'.tri == u.tri && u'.val == Some(m.sym)
    ensures ChoiceTri(g, u') == YES && Picked(g, u') == Some(m.sym)
    ensures forall m' :: m' in g.members ==> MemberTri(g, u', m') == if m' == m then YES else NO
  {
    assert IsMember(g, m.sym) && SymVisible(g, m.sym);
    assert Mode(g, u') == YES;
    OneMemberIff(g, u');
    forall m' | m' in g.members ensures MemberTri(g, u', m') == if m' == m then YES else NO {
      if m'.sym == m.sym { UniqueMember(g, m, m'); }
    }
  }
}
