/** Checking a table for recursive dependencies and then evaluating it
    (scripts/config/parser.tab.c, lines 1977-1983; scripts/config/symbol.c, lines 304-457). */
module Pipeline {
  import opened Exprs
  import opened Configs
  import opened DependencyCheck
  import opened Solutions
  import opened Evaluator

  /** A table is evaluated iff it has no dependency cycle; each value is then that of the
      one solution, whatever the order of evaluation. */
  method CheckAndEvaluate(k: Kconfig, users: Users, modules: Tri, symbols: seq<Symbol>)
    returns (ok: bool, values: map<Symbol, Value>)
    requires Closed(k) && forall s :: s in symbols <==> s in k.syms
    ensures ok <==> forall s :: s in k.syms ==> !OnCycle(k, s)
    ensures ok ==> exists v :: IsSolution(Setup(k, users, modules), v)
    ensures ok ==> forall v, s :: IsSolution(Setup(k, users, modules), v) && s in k.syms ==>
                     s in values && values[s].tri == v.tri(s) && Text(modules, s, values[s]) == v.str(s)
  {
    values := map[];
    ok := CheckTable(k, symbols);
    if ok {
      var table := new SymbolTable(k, modules, users);
      ghost var c := Setup(k, users, modules);
      SolutionExists(c);
      ghost var w :| IsSolution(c, w);
      table.CalcSequence(symbols, w);
      values := table.curr;
      forall v, s | IsSolution(c, v) && s in k.syms
        ensures s in values && values[s].tri == v.tri(s) && Text(modules, s, values[s]) == v.str(s)
      {
        SolutionUnique(c, v, w, s);
        assert Fresh(c, table.St(), w, s);
      }
    }
  }
}
