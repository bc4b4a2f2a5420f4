/** Saving a configuration and loading it again (scripts/config/confdata.c, lines 436-503 and
    886-930; scripts/config/symbol.c, lines 304-446), for symbols outside choices. */
module SaveReload {
  import opened Exprs
  import opened Configs
  import opened Solutions
  import opened SymbolLaws
  import Evaluator
  import opened ConfLines
  import MenuTree

  /** The value that conf_write prints for a symbol. */
  function LineOf(s: Symbol, v: Valuation): LineValue {
    if s.BoolLike() then TriVal(v.tri(s)) else TextVal(v.str(s))
  }

  /** The user value that conf_set_sym_val stores. */
  function UserOf(x: LineValue): UserValue {
    match x
    case TriVal(t) => UserValue(t, "")
    case TextVal(str) => UserValue(NO, str)
  }

  /** The symbols that a saved file names. */
  predicate InFile(c: Setup, s: Symbol, v: Valuation) {
    s in c.k.syms && s.Config? && s.Ty() != Unknown && Evaluator.Written(c, s, v)
  }

  /** Only configuration symbols have definitions, and a name belongs to one of them. */
  ghost predicate Named(k: Kconfig) {
    && Closed(k)
    && (forall s :: s in k.defs ==> s.Config?)
    && (forall s, t :: s in k.syms && t in k.syms && s.Config? && t.Config? && s.name == t.name ==> s == t)
  }

  /** What both ways of setting a user value check: an int or hex text is valid. */
  ghost predicate UsersValid(c: Setup) {
    forall s :: s in c.users && (s.Ty() == Int || s.Ty() == Hex) ==> ValidText(s.Ty(), c.users[s].str)
  }

  /** `conf` holds the value of every symbol of the file that the reader accepts, and nothing
      else. */
  ghost predicate Saved(c: Setup, v: Valuation, conf: Conf) {
    && (forall s :: InFile(c, s, v) ==>
          if Admitted(s.Ty(), LineOf(s, v)) then s.name in conf && conf[s.name] == LineOf(s, v)
          else s.name !in conf)
    && (forall name :: name in conf ==> exists s :: InFile(c, s, v) && s.name == name)
  }

  /** The setup after a load: conf_reset, and then the values of the file. */
  function Loaded(c: Setup, conf: Conf): Setup {
    c.(users := map s | s in c.k.syms && s.Config? && s.name in conf :: UserOf(conf[s.name]))
  }

  /** Whatever the user had set before. */
  lemma LoadForgets(c: Setup, c': Setup, conf: Conf, v: Valuation)
    requires c'.k == c.k && c'.modules == c.modules
    ensures IsSolution(Loaded(c, conf), v) <==> IsSolution(Loaded(c', conf), v)
  {
    hide IsSolution;
    assert Loaded(c, conf) == Loaded(c', conf);
  }

  /** A prompt that is shown reaches the value, or a select forces it. */
  predicate PromptReaches(c: Setup, s: Symbol, v: Valuation) {
    var lim := LimitsOf(c, s, v);
    lim.visible == NO || v.tri(s) <= Max(lim.visible, lim.rev)
  }

  lemma HiddenSettles(c: Setup, c': Setup, s: Symbol, v: Valuation)
    requires c'.k == c.k && c'.modules == c.modules && LimitsOf(c, s, v).visible == NO
    ensures Settled(c, v, s) <==> Settled(c', v, s)
  {
    AgreeWithSelf(v);
    LimitsAgree(c, c', s, v, v);
    hide LimitsOf;
    OwnWithoutUser(c, c', s, v, LimitsOf(c, s, v));
  }

  lemma ShownSettles(c: Setup, c': Setup, s: Symbol, v: Valuation)
    requires c'.k == c.k && c'.modules == c.modules && Settled(c, v, s) && LimitsOf(c, s, v).visible != NO
    requires s.Ty() != Unknown ==> s in c'.users && c'.users[s] == UserOf(LineOf(s, v))
    ensures Settled(c', v, s) <==> (s.BoolLike() ==> PromptReaches(c, s, v))
  {
    AgreeWithSelf(v);
    LimitsAgree(c, c', s, v, v);
    hide LimitsOf;
  }

  /** A text that the reader refuses was no user value, so it is the default before and after. */
  lemma RefusedSettles(c: Setup, c': Setup, s: Symbol, v: Valuation)
    requires c'.k == c.k && c'.modules == c.modules && Settled(c, v, s) && LimitsOf(c, s, v).visible != NO
    requires UsersValid(c) && !Admitted(s.Ty(), LineOf(s, v)) && s !in c'.users
    ensures Settled(c', v, s) && !s.BoolLike()
  {
    AgreeWithSelf(v);
    LimitsAgree(c, c', s, v, v);
    hide LimitsOf, ValidText;
    assert s !in c.users;
    CalcAgrees(c, c', s, v, v);
  }

  /** A symbol with a prompt is defined, and goes into the file if it has a type. */
  lemma ShownInFile(c: Setup, s: Symbol, v: Valuation)
    requires Named(c.k) && LimitsOf(c, s, v).visible != NO
    ensures s in c.k.syms && s.Config? && (s.Ty() != Unknown ==> InFile(c, s, v))
  {
  }

  /** Loading what was saved gives the same values iff no shown bool or tristate has a value
      beyond its prompt. */
  lemma LoadedIsSame(c: Setup, v: Valuation, conf: Conf)
    requires Named(c.k) && UsersValid(c) && IsSolution(c, v) && Saved(c, v, conf)
    ensures IsSolution(Loaded(c, conf), v)
            <==> forall s :: s in c.k.syms && s.BoolLike() ==> PromptReaches(c, s, v)
  {
    hide LimitsOf, Settled, Admitted, LineOf, UsersValid;
    var c' := Loaded(c, conf);
    forall s: Symbol
      ensures Settled(c', v, s) <==> (s.BoolLike() ==> PromptReaches(c, s, v))
      ensures s !in c.k.syms ==> PromptReaches(c, s, v)
    {
      assert Settled(c, v, s);
      if LimitsOf(c, s, v).visible == NO {
        HiddenSettles(c, c', s, v);
      } else {
        ShownInFile(c, s, v);
        if s.Ty() != Unknown && !Admitted(s.Ty(), LineOf(s, v)) {
          RefusedSettles(c, c', s, v);
        } else {
          ShownSettles(c, c', s, v);
        }
      }
    }
  }

  // ----- a configuration that changes -----

  const A := Config("A", Tristate)

  /** A tristate with a prompt only at m and a default of y; modules are on. */
  const EXAMPLE := Setup(
    Kconfig({SYM_MOD, SYM_YES, A},
            map[A := SymDef([Property(PromptProp, Some(Sym(SYM_MOD)), None),
                             Property(DefaultProp, None, Some(Sym(SYM_YES)))], None, None, None)]),
    map[], YES)

  lemma ExampleOrdered()
    ensures Named(EXAMPLE.k) && Ordered(EXAMPLE.k) && UsersValid(EXAMPLE)
  {
    var k, order := EXAMPLE.k, [SYM_MOD, SYM_YES, A];
    ExampleDeps();
    hide Deps;
    assert order[..2] == [SYM_MOD, SYM_YES];
    assert Topological(k, order);
  }

  lemma ExampleDeps()
    ensures var k := EXAMPLE.k;
            Deps(k, A) == {SYM_MOD, SYM_YES} && Deps(k, SYM_MOD) == {} && Deps(k, SYM_YES) == {}
  {
    var ps := EXAMPLE.k.defs[A].props;
    assert ps[1..][1..] == [] && PropsDeps(ps[1..]) == {SYM_YES};
  }

  lemma ExampleLimits(c: Setup, v: Valuation)
    requires c.k == EXAMPLE.k && c.modules == YES && IsSolution(c, v)
    ensures LimitsOf(c, A, v) == Limits(MOD, YES, NO, NO)
    ensures FirstDefault(Def(c.k, A).props, v) == Some(Property(DefaultProp, None, Some(Sym(SYM_YES))))
    ensures v.tri(SYM_YES) == YES && v.tri(SYM_MOD) == MOD
  {
    assert Settled(c, v, SYM_YES) && Settled(c, v, SYM_MOD);
    var ps := c.k.defs[A].props;
    assert ps[..|ps| - 1] == [ps[0]] && [ps[0]][..0] == [];
    assert AnyPrompt([ps[0]], v) == MOD;
    assert ps[1..] == [ps[1]];
  }

  lemma ExampleBefore(v: Valuation)
    requires IsSolution(EXAMPLE, v)
    ensures v.tri(A) == YES && InFile(EXAMPLE, A, v) && !PromptReaches(EXAMPLE, A, v)
  {
    ExampleLimits(EXAMPLE, v);
    assert Settled(EXAMPLE, v, A);
    hide LimitsOf, FirstDefault, IsSolution;
  }

  lemma ExampleAfter(c: Setup, w: Valuation)
    requires c.k == EXAMPLE.k && c.modules == YES && IsSolution(c, w)
    requires A in c.users && c.users[A].tri == YES
    ensures w.tri(A) == MOD
  {
    ExampleLimits(c, w);
    assert Settled(c, w, A);
    hide LimitsOf, FirstDefault, IsSolution;
  }

  /** Its value is y, beyond its prompt; saved and loaded it becomes m. */
  lemma LoadingChanges(v: Valuation, conf: Conf, w: Valuation)
    requires IsSolution(EXAMPLE, v) && Saved(EXAMPLE, v, conf) && IsSolution(Loaded(EXAMPLE, conf), w)
    ensures v.tri(A) == YES && w.tri(A) == MOD
    ensures !PromptReaches(EXAMPLE, A, v) && !IsSolution(Loaded(EXAMPLE, conf), v)
  {
    hide IsSolution, PromptReaches, Named, UsersValid, InFile;
    ExampleBefore(v);
    assert LineOf(A, v) == TriVal(YES) && A in Loaded(EXAMPLE, conf).users;
    ExampleAfter(Loaded(EXAMPLE, conf), w);
    ExampleOrdered();
    LoadedIsSame(EXAMPLE, v, conf);
  }

  /** Such values exist, and the file says A=y. */
  lemma LoadingChangesSome()
    ensures var conf := map["A" := TriVal(YES)];
            exists v, w :: IsSolution(EXAMPLE, v) && Saved(EXAMPLE, v, conf) && IsSolution(Loaded(EXAMPLE, conf), w)
  {
    var conf := map["A" := TriVal(YES)];
    ExampleOrdered();
    SolutionExists(EXAMPLE);
    SolutionExists(Loaded(EXAMPLE, conf));
    var v, w :| IsSolution(EXAMPLE, v) && IsSolution(Loaded(EXAMPLE, conf), w);
    hide IsSolution, Saved;
    ExampleSaved(v);
  }

  lemma ExampleSaved(v: Valuation)
    requires IsSolution(EXAMPLE, v)
    ensures Saved(EXAMPLE, v, map["A" := TriVal(YES)])
  {
    ExampleBefore(v);
    hide IsSolution, Evaluator.Written;
    assert LineOf(A, v) == TriVal(YES) && A.name == "A";
  }

  // ----- through the file -----

  function EntryOf(s: Symbol, v: Valuation): Item
    requires s.Config?
  {
    Entry(s.name, LineOf(s, v))
  }

  /** A file with one entry for each symbol to be written, anywhere among its other lines. */
  ghost predicate FileOf(c: Setup, v: Valuation, items: seq<Item>) {
    && DistinctNames(items)
    && (forall e :: e in items && e.Entry? ==> exists s :: InFile(c, s, v) && e == EntryOf(s, v))
    && (forall s :: InFile(c, s, v) ==> EntryOf(s, v) in items)
  }

  /** The types the reader finds: those of the table's symbols. */
  ghost predicate TypesOf(k: Kconfig, table: map<string, SymType>) {
    forall s :: s in k.syms && s.Config? ==> TypeOf(table, s.name) == s.Ty()
  }

  lemma FileIsSaved(c: Setup, v: Valuation, table: map<string, SymType>, items: seq<Item>)
    requires FileOf(c, v, items) && TypesOf(c.k, table)
    ensures Saved(c, v, Values(table, items, map[]))
  {
    hide LineOf, Evaluator.Written, Admitted, TypeOf;
    var conf := Values(table, items, map[]);
    forall s | InFile(c, s, v)
      ensures if Admitted(s.Ty(), LineOf(s, v)) then s.name in conf && conf[s.name] == LineOf(s, v)
              else s.name !in conf
    {
      var i :| 0 <= i < |items| && items[i] == EntryOf(s, v);
      ValuesAre(table, items, map[], s.name);
      assert Sets(table, items[i]) <==> Admitted(s.Ty(), LineOf(s, v));
    }
    forall name | name in conf ensures exists s :: InFile(c, s, v) && s.name == name {
      ValuesAre(table, items, map[], name);
    }
  }

  /** Writing the file and reading it back leaves every value as it was iff no shown bool or
      tristate has a value beyond its prompt. */
  lemma SaveThenLoad(c: Setup, v: Valuation, prefix: string, table: map<string, SymType>, items: seq<Item>)
    requires Named(c.k) && UsersValid(c) && TypesOf(c.k, table) && IsSolution(c, v) && FileOf(c, v, items)
    requires '\n' !in prefix && forall i :: 0 <= i < |items| ==> GoodItem(prefix, table, items[i])
    ensures var conf := ReadFile(prefix, table, WriteFile(prefix, table, items), map[]);
            IsSolution(Loaded(c, conf), v)
            <==> forall s :: s in c.k.syms && s.BoolLike() ==> PromptReaches(c, s, v)
  {
    WrittenFileReadsBack(prefix, table, items, map[]);
    FileIsSaved(c, v, table, items);
    LoadedIsSame(c, v, Values(table, items, map[]));
  }

  // ----- the file that the walk writes -----

  /** The entries of `items` are those of the symbols in `written`, one each. */
  ghost predicate Entries(c: Setup, v: Valuation, items: seq<Item>, written: set<Symbol>) {
    && DistinctNames(items)
    && (forall e :: e in items && e.Entry? ==> exists s :: s in written && s.Config? && e == EntryOf(s, v))
    && (forall s :: s in written ==> InFile(c, s, v) && EntryOf(s, v) in items)
  }

  predicate NoEntry(items: seq<Item>) { forall e :: e in items ==> !e.Entry? }

  lemma AddNotes(c: Setup, v: Valuation, items: seq<Item>, notes: seq<Item>, written: set<Symbol>)
    requires Entries(c, v, items, written) && NoEntry(notes)
    ensures Entries(c, v, items + notes, written)
  {
    hide EntryOf, Evaluator.Written;
    var all := items + notes;
    assert forall i :: |items| <= i < |all| ==> all[i] in notes;
    assert DistinctNames(all);
  }

  lemma AddEntry(c: Setup, v: Valuation, items: seq<Item>, written: set<Symbol>, s: Symbol)
    requires Named(c.k) && Entries(c, v, items, written) && InFile(c, s, v) && s !in written
    ensures Entries(c, v, items + [EntryOf(s, v)], written + {s})
  {
    hide LineOf, Evaluator.Written;
    var all := items + [EntryOf(s, v)];
    forall i | 0 <= i < |items| && items[i].Entry? ensures items[i].name != s.name {
      assert items[i] in items;
      var t :| t in written && t.Config? && items[i] == EntryOf(t, v);
    }
    assert DistinctNames(all);
  }

  /** The symbol a node offers to the file, if any. */
  function NodeSymbol(m: MenuTree.Menu): Option<Symbol> {
    if m.info.sym.Some? && m.info.sym.value.Config? then m.info.sym else None
  }

  /** conf_write: the walk, with SYMBOL_WRITTEN against double entries. `notes` are the lines
      that the program prints before a node. */
  method WriteConfig(root: MenuTree.Menu, ghost kids: seq<MenuTree.Tree>, t: Evaluator.SymbolTable,
                     ghost v: Valuation, notes: MenuTree.Menu -> seq<Item>)
    returns (items: seq<Item>)
    requires MenuTree.Seg(root.list, kids, null, root) && root.parent == null && root.next == null
    requires t.Cached(v) && Named(t.k)
    requires forall m :: m in MenuTree.Pre(kids) ==>
               NoEntry(notes(m)) && (NodeSymbol(m).Some? ==> NodeSymbol(m).value in t.k.syms)
    requires forall s :: InFile(t.C(), s, v) ==> exists m :: m in MenuTree.Pre(kids) && NodeSymbol(m) == Some(s)
    modifies t`valid, t`curr, t`limits, t`write
    ensures FileOf(t.C(), v, items) && t.Cached(v)
  {
    hide InFile, Named, LineOf, Entries, NoEntry, MenuTree.Seg, MenuTree.Pre, Closed, Ordered, IsSolution;
    hide Evaluator.Sound;
    ghost var c := t.C();
    var visited := MenuTree.Walk(root, kids);
    items := [];
    var written: set<Symbol> := {};
    NothingWritten(c, v);
    for n := 0 to |visited|
      invariant t.Cached(v) && t.C() == c
      invariant Entries(c, v, items, written)
      invariant forall i, s :: 0 <= i < n && NodeSymbol(visited[i]) == Some(s) && InFile(c, s, v) ==> s in written
    {
      var m := visited[n];
      AddNotes(c, v, items, notes(m), written);
      items := items + notes(m);
      if NodeSymbol(m).Some? && NodeSymbol(m).value !in written {
        var s := NodeSymbol(m).value;
        var line := CalcLine(t, s, v);
        if line.Some? {
          AddEntry(c, v, items, written, s);
          items, written := items + [Entry(s.name, line.value)], written + {s};
        }
      }
    }
    EntriesAreFile(c, v, items, written, visited);
  }

  lemma NothingWritten(c: Setup, v: Valuation)
    ensures Entries(c, v, [], {})
  {
  }

  /** sym_calc_value, and the value if SYMBOL_WRITE is set. */
  method CalcLine(t: Evaluator.SymbolTable, s: Symbol, ghost v: Valuation) returns (r: Option<LineValue>)
    requires t.Cached(v) && s in t.k.syms && s.Config?
    modifies t`valid, t`curr, t`limits, t`write
    ensures t.Cached(v)
    ensures r == if InFile(t.C(), s, v) then Some(LineOf(s, v)) else None
  {
    t.CalcSequence([s], v);
    assert s in [s];
    hide Evaluator.Written, LimitsOf, IsSolution;
    if s.Ty() == Unknown || s !in t.write {
      return None;
    }
    r := Some(if s.BoolLike() then TriVal(t.curr[s].tri) else TextVal(t.curr[s].val));
  }

  lemma EntriesAreFile(c: Setup, v: Valuation, items: seq<Item>, written: set<Symbol>, visited: seq<MenuTree.Menu>)
    requires Entries(c, v, items, written)
    requires forall i, s :: 0 <= i < |visited| && NodeSymbol(visited[i]) == Some(s) && InFile(c, s, v) ==> s in written
    requires forall s :: InFile(c, s, v) ==> exists m :: m in visited && NodeSymbol(m) == Some(s)
    ensures FileOf(c, v, items)
  {
    hide LineOf, Evaluator.Written;
    forall s | InFile(c, s, v) ensures s in written {
      var m :| m in visited && NodeSymbol(m) == Some(s);
      var i :| 0 <= i < |visited| && visited[i] == m;
    }
  }
}
