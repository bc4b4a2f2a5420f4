/** Which member a choice picks, prompt by prompt and default by default, and what its
    members are while it is not at y (scripts/config/symbol.c, lines 177-209, 240-302,
    349-400). */
module ChoiceLaws {
  import opened Exprs
  import opened Configs
  import opened Solutions
  import opened Choices

  // ----- visibility, by the prompts -----

  lemma {:induction false} PromptsShow(g: Group, m: Member, es: seq<Expr>)
    ensures AnyPromptAt(g, m, es, YES) != NO <==> exists e :: e in es && Shows(g, m, e)
  {
    if es != [] {
      var front, last := es[..|es| - 1], es[|es| - 1];
      PromptsShow(g, m, front);
      assert AnyPromptAt(g, m, es, YES) == Max(AnyPromptAt(g, m, front, YES), PromptAt(g, m, last, YES));
      assert PromptAt(g, m, last, YES) != NO <==> Shows(g, m, last);
      hide AnyPromptAt, PromptAt, Shows;
      assert es == front + [last];
    }
  }

  /** With the choice at y, a tristate member needs a prompt at y; m is enough for others. */
  predicate Shows(g: Group, m: Member, e: Expr) {
    var x := Eval(e, EnvAt(g, YES));
    x == YES || (x == MOD && m.sym.Ty() != Tristate)
  }

  ghost predicate Shown(g: Group, m: Member) { exists e :: e in m.prompts && Shows(g, m, e) }

  lemma ShownIsVisible(g: Group, m: Member)
    ensures VisibleAt(g, m, YES) == if Shown(g, m) then YES else NO
  {
    PromptsShow(g, m, m.prompts);
    VisibleTwoValued(g, m);
  }

  /** A symbol named by a default or by the user: a member that is shown, or a symbol outside
      the choice that is visible. */
  ghost predicate Available(g: Group, s: Symbol) {
    || (exists m :: m in g.members && m.sym == s && Shown(g, m))
    || (s in g.outside && forall m :: m in g.members ==> m.sym != s)
  }

  lemma AvailableIsVisible(g: Group, s: Symbol)
    ensures SymVisible(g, s) <==> Available(g, s)
  {
    forall m ensures VisibleAt(g, m, YES) != NO <==> Shown(g, m) { ShownIsVisible(g, m); }
    hide Shown, VisibleAt;
  }

  // ----- the pick -----

  /** The user has named a symbol that is available. */
  ghost predicate UserPicks(g: Group, u: ChoiceUser) { u.val.Some? && Available(g, u.val.value) }

  /** The condition of the `i`th default holds and its symbol is available. */
  ghost predicate Qualifies(g: Group, i: nat)
    requires i < |g.defaults|
  {
    EvalOrYes(g.defaults[i].1, EnvAt(g, YES)) != NO && Available(g, g.defaults[i].0)
  }

  ghost predicate NoDefaultBefore(g: Group, n: nat) {
    forall i :: 0 <= i < n && i < |g.defaults| ==> !Qualifies(g, i)
  }

  lemma UserPicked(g: Group, u: ChoiceUser)
    requires UserPicks(g, u)
    ensures Picked(g, u) == u.val
  {
    AvailableIsVisible(g, u.val.value);
  }

  lemma {:induction false} DefaultAt(g: Group, k: nat, i: nat)
    requires k <= i < |g.defaults| && Qualifies(g, i) && NoDefaultBefore(g, i)
    ensures FirstDefaultSym(g, g.defaults[k..]) == Some(g.defaults[i].0)
    decreases i - k
  {
    hide Available, SymVisible;
    AvailableIsVisible(g, g.defaults[k].0);
    assert g.defaults[k..][1..] == g.defaults[k + 1..];
    if k < i {
      assert !Qualifies(g, k);
      DefaultAt(g, k + 1, i);
    }
  }

  /** Without a pick of the user's, the first default that qualifies decides. */
  lemma DefaultPicked(g: Group, u: ChoiceUser, i: nat)
    requires !UserPicks(g, u) && i < |g.defaults| && Qualifies(g, i) && NoDefaultBefore(g, i)
    ensures Picked(g, u) == Some(g.defaults[i].0)
  {
    if u.val.Some? { AvailableIsVisible(g, u.val.value); }
    DefaultAt(g, 0, i);
    assert g.defaults[0..] == g.defaults;
  }

  lemma {:induction false} NoDefaultAt(g: Group, k: nat)
    requires k <= |g.defaults| && NoDefaultBefore(g, |g.defaults|)
    ensures FirstDefaultSym(g, g.defaults[k..]).None?
    decreases |g.defaults| - k
  {
    hide Available, SymVisible;
    if k < |g.defaults| {
      AvailableIsVisible(g, g.defaults[k].0);
      assert g.defaults[k..][1..] == g.defaults[k + 1..];
      assert !Qualifies(g, k);
      NoDefaultAt(g, k + 1);
    }
  }

  lemma {:induction false} MemberAt(g: Group, k: nat, j: nat)
    requires k <= j < |g.members| && Shown(g, g.members[j])
    requires forall i :: 0 <= i < j ==> !Shown(g, g.members[i])
    ensures FirstVisible(g, g.members[k..]) == Some(g.members[j].sym)
    decreases j - k
  {
    hide Shown, VisibleAt;
    ShownIsVisible(g, g.members[k]);
    assert g.members[k..][1..] == g.members[k + 1..];
    if k < j { MemberAt(g, k + 1, j); }
  }

  /** If none does, the first member that is shown. */
  lemma FirstMemberPicked(g: Group, u: ChoiceUser, j: nat)
    requires !UserPicks(g, u) && NoDefaultBefore(g, |g.defaults|)
    requires j < |g.members| && Shown(g, g.members[j]) && forall i :: 0 <= i < j ==> !Shown(g, g.members[i])
    ensures Picked(g, u) == Some(g.members[j].sym)
  {
    if u.val.Some? { AvailableIsVisible(g, u.val.value); }
    NoDefaultAt(g, 0);
    assert g.defaults[0..] == g.defaults;
    MemberAt(g, 0, j);
    assert g.members[0..] == g.members;
  }

  /** And without one, nothing is picked and the choice falls back to n. */
  lemma NothingPicked(g: Group, u: ChoiceUser)
    requires !UserPicks(g, u) && NoDefaultBefore(g, |g.defaults|)
    requires forall m :: m in g.members ==> !Shown(g, m)
    ensures Picked(g, u).None? && ChoiceTri(g, u) != YES
  {
    if u.val.Some? { AvailableIsVisible(g, u.val.value); }
    NoDefaultAt(g, 0);
    assert g.defaults[0..] == g.defaults;
    FirstVisibleIsMember(g, g.members);
    forall m | m in g.members ensures VisibleAt(g, m, YES) == NO { ShownIsVisible(g, m); }
    hide Shown, VisibleAt, SymVisible, FirstDefaultSym;
  }

  // ----- the choice's own value -----

  /** Before it picks, a choice is a symbol like any other, without defaults and implies. */
  lemma ModeIsValue(g: Group, u: ChoiceUser, c: Setup, v: Valuation)
    requires g.choice.BoolLike() && c.modules == g.modules && LimitsOf(c, g.choice, v) == g.lim && g.lim.imp == NO
    requires FirstDefault(Def(c.k, g.choice).props, v).None?
    requires u.set_ == HasUser(c, g.choice) && (u.set_ ==> c.users[g.choice].tri == u.tri)
    ensures Mode(g, u) == TriOf(c, g.choice, v)
  {
    hide LimitsOf, FirstDefault;
  }

  /** A mandatory choice, which menu_finalize selects at its own visibility, is never n while
      its dependency holds; without modules it is y. */
  lemma MandatoryIsOn(g: Group, u: ChoiceUser)
    requires g.lim.rev != NO && g.lim.dir != NO
    ensures Mode(g, u) != NO
    ensures g.choice.Ty() == Boolean || g.modules == NO ==> Mode(g, u) == YES
  {
  }

  /** Without modules it has exactly one member at y, as soon as some member is shown and its
      defaults name members. */
  lemma MandatoryHasOne(g: Group, u: ChoiceUser) returns (m: Member)
    requires GroupOk(g) && g.lim.rev != NO && g.lim.dir != NO && (g.choice.Ty() == Boolean || g.modules == NO)
    requires exists n :: n in g.members && Shown(g, n)
    requires (u.val.Some? ==> IsMember(g, u.val.value)) && forall d :: d in g.defaults ==> IsMember(g, d.0)
    ensures m in g.members && MemberTri(g, u, m) == YES
    ensures forall n :: n in g.members && n != m ==> MemberTri(g, u, n) == NO
  {
    MandatoryIsOn(g, u);
    PickIsMember(g, u);
    hide Mode, Picked, MemberTri, Shown;
    OneMemberIff(g, u);
    m :| m in g.members && MemberTri(g, u, m) == YES;
    forall n | n in g.members && n != m ensures MemberTri(g, u, n) == NO {
      if n.sym == m.sym { UniqueMember(g, n, m); }
    }
  }

  lemma PickIsMember(g: Group, u: ChoiceUser)
    requires exists n :: n in g.members && Shown(g, n)
    requires (u.val.Some? ==> IsMember(g, u.val.value)) && forall d :: d in g.defaults ==> IsMember(g, d.0)
    ensures Picked(g, u).Some? && IsMember(g, Picked(g, u).value)
  {
    var n :| n in g.members && Shown(g, n);
    ShownIsVisible(g, n);
    DefaultIsVisible(g, g.defaults);
    FirstVisibleIsMember(g, g.members);
    hide Shown, VisibleAt, SymVisible, FirstDefaultSym, FirstVisible;
  }

  // ----- members of a choice that is not at y -----

  /** A choice at n has all its members at n. */
  lemma MembersOff(g: Group, u: ChoiceUser, m: Member)
    requires Bounded(g, m) && ChoiceTri(g, u) == NO
    ensures MemberTri(g, u, m) == NO
  {
    BoundedPrompts(g, m, m.prompts, NO);
    hide AnyPromptAt, ChoiceTri;
  }

  predicate ShowsAtMod(g: Group, e: Expr) { Eval(e, EnvAt(g, MOD)) != NO }

  /** At m, the tristate members follow the user one by one, up to m, and the others are n. */
  lemma MembersAtMod(g: Group, u: ChoiceUser, m: Member)
    requires g.choice.BoolLike() && Wf(g.env) && Bounded(g, m) && ChoiceTri(g, u) == MOD
    requires m.sym.BoolLike()
    ensures MemberTri(g, u, m)
            == if m.sym.Ty() == Tristate && m.sym in u.flagged && m.sym in u.tris && u.tris[m.sym] != NO
                  && (exists e :: e in m.prompts && ShowsAtMod(g, e))
               then MOD else NO
  {
    ChoiceAtMod(g, u);
    BoundedPrompts(g, m, m.prompts, MOD);
    if m.sym.Ty() != Tristate {
      BoolPrompts(g, m, m.prompts, MOD);
    }
    PromptsAtMod(g, m, m.prompts);
    hide AnyPromptAt, ChoiceTri, Bounded, ShowsAtMod;
  }

  lemma {:induction false} PromptsAtMod(g: Group, m: Member, es: seq<Expr>)
    ensures AnyPromptAt(g, m, es, MOD) != NO <==> exists e :: e in es && ShowsAtMod(g, e)
  {
    if es != [] {
      var front, last := es[..|es| - 1], es[|es| - 1];
      PromptsAtMod(g, m, front);
      assert AnyPromptAt(g, m, es, MOD) == Max(AnyPromptAt(g, m, front, MOD), PromptAt(g, m, last, MOD));
      assert PromptAt(g, m, last, MOD) != NO <==> ShowsAtMod(g, last);
      hide AnyPromptAt, PromptAt, ShowsAtMod;
      assert es == front + [last];
    }
  }
}
