/** The rewriting of scripts/config/expr.c as it runs: one tree whose slots are
    overwritten, and the global counter trans_count. */
module ExprRewriter {
  import opened Exprs
  import opened ExprPaths
  import opened ExprEquality
  import opened ExprDups

  class Rewriter {
    /** The tree being deduplicated, reached through slots. */
    var tree: Expr
    var transCount: nat

    constructor (e: Expr)
      ensures tree == e && transCount == 0
    {
      tree, transCount := e, 0;
    }

    /** expr_eq: works on copies and puts trans_count back. */
    method Equal(a: Expr, b: Expr) returns (res: bool)
      modifies this`transCount
      ensures res == ExprEq(a, b) && transCount == old(transCount)
      decreases Size(a) + Size(b), 2
    {
      match (a, b) {
        case (Not(x), Not(y)) => res := Equal(x, y);
        case (Bin(op1, _, _), Bin(op2, _, _)) =>
          if op1 != op2 {
            return false;
          }
          var oldCount := transCount;
          var x, y := EliminateCommon(a, b);
          res := x.Sym? && y.Sym? && x.s == y.s;
          transCount := oldCount;
        case (_, _) => res := a == b && (a.Sym? || a.Cmp?);
      }
    }

    /** expr_eliminate_eq on two trees that do not share nodes. */
    method EliminateCommon(a: Expr, b: Expr) returns (x: Expr, y: Expr)
      modifies this`transCount
      ensures (x, y) == EliminateEq(a, b)
      ensures transCount == old(transCount) + ElimEqBoth(a, b).hits
      decreases Size(a) + Size(b), 1
    {
      x, y := a, b;
      if x.Bin? {
        x, y := WalkCommon(x.op, x, y);
      }
      if y.Bin? && !IsBin(x, y.op) {
        x, y := WalkCommon(y.op, x, y);
      }
      x, y := EliminateYn(x), EliminateYn(y);
    }

    /** __expr_eliminate_eq. */
    method WalkCommon(op: Op, a: Expr, b: Expr) returns (x: Expr, y: Expr)
      modifies this`transCount
      ensures var r := ElimEqWalk(op, a, b);
              x == r.a && y == r.b && transCount == old(transCount) + r.hits
      decreases Size(a) + Size(b), if IsBin(a, op) || IsBin(b, op) then 0 else 3
    {
      x, y := a, b;
      if IsBin(a, op) {
        var l, r;
        l, y := WalkCommon(op, a.l, y);
        r, y := WalkCommon(op, a.r, y);
        x := Bin(op, l, r);
      } else if IsBin(b, op) {
        var l, r;
        x, l := WalkCommon(op, x, b.l);
        x, r := WalkCommon(op, x, b.r);
        y := Bin(op, l, r);
      } else if !(a == b && IsConst(a)) {
        var eq := Equal(a, b);
        if eq {
          transCount := transCount + 1;
          x, y := Sym(UnitSym(op)), Sym(UnitSym(op));
        }
      }
    }

    /** expr_eliminate_dups1 on the level rooted at slot `r`, from its slots `p` and `q`. */
    method Dedup1(op: Op, r: Path, p: Path, q: Path)
      requires Valid(tree, r) && OnSpine(op, At(tree, r), p) && OnSpine(op, At(tree, r), q)
      modifies this
      ensures var pass := Dups1(op, old(At(tree, r)), p, q);
              tree == Put(old(tree), r, pass.tree) && transCount == old(transCount) + pass.hits
      decreases Size(At(tree, r)), Below(op, At(tree, r), p, q)
    {
      ghost var t := At(tree, r);
      AtBelow(tree, r, p);
      AtBelow(tree, r, q);
      if IsBin(At(tree, r + p), op) || IsBin(At(tree, r + q), op) {
        var (p0, q0) := DownSlots(op, r, p, q, false);
        var (p1, q1) := DownSlots(op, r, p, q, true);
        ghost var tree0 := tree;
        Dedup1(op, r, p0, q0);
        ghost var x := Dups1(op, t, p0, q0).tree;
        AtPut(tree0, r, x);
        DownAfter(op, t, x, p1, q1);
        Dedup1(op, r, p1, q1);
        PutPut(tree0, r, x, Dups1(op, x, p1, q1).tree);
      } else if p != q {
        DedupPair(op, r, p, q);
      } else {
        AtPut(tree, r, t);
      }
    }

    function DownSlots(op: Op, r: Path, p: Path, q: Path, right: bool): (s: (Path, Path))
      requires Valid(tree, r) && OnSpine(op, At(tree, r), p) && OnSpine(op, At(tree, r), q)
      requires !Meet(op, At(tree, r), p, q)
      reads this
      ensures s == Down(op, At(tree, r), p, q, right)
    {
      AtBelow(tree, r, p);
      if IsBin(At(tree, r + p), op) then (p + [right], q) else (p, q + [right])
    }

    /** Two operands of the level meet. */
    method DedupPair(op: Op, r: Path, p: Path, q: Path)
      requires Valid(tree, r) && IsLeaf(op, At(tree, r), p) && IsLeaf(op, At(tree, r), q) && p != q
      modifies this
      ensures var pass := Dups1(op, old(At(tree, r)), p, q);
              tree == Put(old(tree), r, pass.tree) && transCount == old(transCount) + pass.hits
      decreases Size(At(tree, r)), 0
    {
      ghost var tree0, t := tree, At(tree, r);
      AtBelow(tree, r, p);
      AtBelow(tree, r, q);
      LeavesApart(op, t, p, q);
      DupsLeafPair(op, t, p, q);
      ghost var e := At(t, p);
      ghost var inner := if e.Bin? then Dups1(e.op, e, [], []) else Pass(e, 0);
      var first := At(tree, r + p);
      if first.Bin? {
        Dedup1(first.op, r + p, [], []);
      } else {
        AtPut(tree, r + p, first);
      }
      ghost var t1 := Put(t, p, inner.tree);
      PutBelow(tree0, r, p, inner.tree);
      AtPut(tree0, r, t1);
      AtBelow(tree, r, p);
      AtBelow(tree, r, q);
      var j := JoinExprs(op, At(tree, r + p), At(tree, r + q));
      if j.Some? {
        var unit := Sym(UnitSym(op));
        ghost var t2 := Put(t1, p, unit);
        tree := Put(tree, r + p, unit);
        assert tree == Put(tree0, r, t2) by { PutBelow(Put(tree0, r, t1), r, p, unit); PutPut(tree0, r, t1, t2); }
        AtPut(tree0, r, t2);
        AtBelow(tree, r, q);
        tree := Put(tree, r + q, j.value);
        PutBelow(Put(tree0, r, t2), r, q, j.value);
        PutPut(tree0, r, t2, Put(t2, q, j.value));
        transCount := transCount + 1;
      }
    }

    /** expr_eliminate_dups. */
    method Dedup()
      modifies this
      ensures tree == EliminateDups(old(tree)) && transCount == old(transCount)
    {
      var oldCount := transCount;
      while true
        invariant EliminateDups(tree) == EliminateDups(old(tree))
        decreases Size(tree)
      {
        transCount := 0;
        ghost var e := tree;
        if tree.Bin? {
          Dedup1(tree.op, [], [], []);
          Dups1Effect(e.op, e, [], []);
        }
        if transCount == 0 {
          break;
        }
        EliminateYnShrinks(tree);
        tree := EliminateYn(tree);
      }
      transCount := oldCount;
    }
  }
}
