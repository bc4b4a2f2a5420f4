/** Slots of an expression tree. A `struct expr **` into a tree is modelled by the
    path from the root, so two slots of one tree can be named, and updated, at once. */
module ExprPaths {
  import opened Exprs

  /** false goes left, true goes right. */
  type Path = seq<bool>

  function Child(e: Expr, right: bool): (c: Expr)
    requires e.Bin?
    ensures Size(c) < Size(e)
  {
    if right then e.r else e.l
  }

  predicate Valid(e: Expr, p: Path) {
    p == [] || (e.Bin? && Valid(Child(e, p[0]), p[1..]))
  }

  function At(e: Expr, p: Path): (x: Expr)
    requires Valid(e, p)
    ensures Size(x) + |p| <= Size(e)
  {
    if p == [] then e else At(Child(e, p[0]), p[1..])
  }

  function Put(e: Expr, p: Path, x: Expr): Expr
    requires Valid(e, p)
  {
    if p == [] then x
    else if p[0] then Bin(e.op, e.l, Put(e.r, p[1..], x))
    else Bin(e.op, Put(e.l, p[1..], x), e.r)
  }

  /** Every node above the slot is an `op`: the slot is on one level of && or ||. */
  predicate OnSpine(op: Op, e: Expr, p: Path)
    ensures OnSpine(op, e, p) ==> Valid(e, p)
  {
    p == [] || (IsBin(e, op) && OnSpine(op, Child(e, p[0]), p[1..]))
  }

  /** A slot holding an operand of that level. */
  predicate IsLeaf(op: Op, e: Expr, p: Path) {
    OnSpine(op, e, p) && !IsBin(At(e, p), op)
  }

  predicate Apart(p: Path, q: Path) {
    p != [] && q != [] && (p[0] != q[0] || Apart(p[1..], q[1..]))
  }

  // ----- paths below paths -----

  lemma {:induction false} AtBelow(e: Expr, p: Path, q: Path)
    requires Valid(e, p) && Valid(At(e, p), q)
    ensures Valid(e, p + q) && At(e, p + q) == At(At(e, p), q)
  {
    if p == [] {
      assert p + q == q;
    } else {
      AtBelow(Child(e, p[0]), p[1..], q);
      assert (p + q)[1..] == p[1..] + q;
    }
  }

  lemma {:induction false} SpineBelow(op: Op, e: Expr, p: Path, q: Path)
    requires OnSpine(op, e, p) && OnSpine(op, At(e, p), q)
    ensures OnSpine(op, e, p + q) && At(e, p + q) == At(At(e, p), q)
  {
    if p == [] {
      assert p + q == q;
    } else {
      SpineBelow(op, Child(e, p[0]), p[1..], q);
      assert (p + q)[1..] == p[1..] + q;
    }
  }

  lemma {:induction false} PutBelow(e: Expr, p: Path, q: Path, x: Expr)
    requires Valid(e, p) && Valid(At(e, p), q)
    ensures Valid(e, p + q) && Put(e, p + q, x) == Put(e, p, Put(At(e, p), q, x))
  {
    if p == [] {
      assert p + q == q;
    } else {
      PutBelow(Child(e, p[0]), p[1..], q, x);
      assert (p + q)[1..] == p[1..] + q;
    }
  }

  // ----- reading back -----

  lemma {:induction false} AtPut(e: Expr, p: Path, x: Expr)
    requires Valid(e, p)
    ensures Valid(Put(e, p, x), p) && At(Put(e, p, x), p) == x
    ensures Put(e, p, At(e, p)) == e
    ensures Size(Put(e, p, x)) == Size(e) - Size(At(e, p)) + Size(x)
  {
    if p != [] {
      AtPut(Child(e, p[0]), p[1..], x);
    }
  }

  lemma {:induction false} PutPut(e: Expr, p: Path, x: Expr, y: Expr)
    requires Valid(e, p)
    ensures Valid(Put(e, p, x), p) && Put(Put(e, p, x), p, y) == Put(e, p, y)
  {
    if p != [] {
      PutPut(Child(e, p[0]), p[1..], x, y);
    }
  }

  lemma {:induction false} AtPutApart(e: Expr, p: Path, q: Path, x: Expr)
    requires Valid(e, p) && Valid(e, q) && Apart(p, q)
    ensures Valid(Put(e, p, x), q) && At(Put(e, p, x), q) == At(e, q)
  {
    if p[0] == q[0] {
      AtPutApart(Child(e, p[0]), p[1..], q[1..], x);
    }
  }

  lemma {:induction false} LeavesApart(op: Op, e: Expr, p: Path, q: Path)
    requires IsLeaf(op, e, p) && IsLeaf(op, e, q) && p != q
    ensures Apart(p, q) && IsBin(e, op)
  {
    if p != [] && q != [] && p[0] == q[0] {
      assert p == [p[0]] + p[1..] && q == [q[0]] + q[1..];
      LeavesApart(op, Child(e, p[0]), p[1..], q[1..]);
    }
  }

  // ----- one level keeps its shape when operands are replaced -----

  predicate SameSpine(op: Op, a: Expr, b: Expr) {
    if IsBin(a, op) then IsBin(b, op) && SameSpine(op, a.l, b.l) && SameSpine(op, a.r, b.r)
    else !IsBin(b, op)
  }

  function SpineSize(op: Op, e: Expr): nat {
    if IsBin(e, op) then 1 + SpineSize(op, e.l) + SpineSize(op, e.r) else 1
  }

  lemma {:induction false} SameSpineAt(op: Op, a: Expr, b: Expr, p: Path)
    requires SameSpine(op, a, b) && OnSpine(op, a, p)
    ensures OnSpine(op, b, p) && SameSpine(op, At(a, p), At(b, p))
    ensures SpineSize(op, At(a, p)) == SpineSize(op, At(b, p))
  {
    if p == [] {
      SameSpineSize(op, a, b);
    } else {
      SameSpineAt(op, Child(a, p[0]), Child(b, p[0]), p[1..]);
    }
  }

  lemma {:induction false} SameSpineSize(op: Op, a: Expr, b: Expr)
    requires SameSpine(op, a, b)
    ensures SpineSize(op, a) == SpineSize(op, b)
  {
    if IsBin(a, op) {
      SameSpineSize(op, a.l, b.l);
      SameSpineSize(op, a.r, b.r);
    }
  }

  lemma {:induction false} SameSpineTrans(op: Op, a: Expr, b: Expr, c: Expr)
    requires SameSpine(op, a, b) && SameSpine(op, b, c)
    ensures SameSpine(op, a, c)
  {
    if IsBin(a, op) {
      SameSpineTrans(op, a.l, b.l, c.l);
      SameSpineTrans(op, a.r, b.r, c.r);
    }
  }

  lemma {:induction false} SameSpineRefl(op: Op, a: Expr)
    ensures SameSpine(op, a, a)
  {
    if IsBin(a, op) {
      SameSpineRefl(op, a.l);
      SameSpineRefl(op, a.r);
    }
  }

  lemma {:induction false} SameSpinePut(op: Op, e: Expr, p: Path, x: Expr)
    requires IsLeaf(op, e, p) && !IsBin(x, op)
    ensures SameSpine(op, e, Put(e, p, x))
  {
    if p != [] {
      SameSpinePut(op, Child(e, p[0]), p[1..], x);
      SameSpineRefl(op, Child(e, !p[0]));
    }
  }

  // ----- values -----

  /** The join of all operands of the level except the one at `p`. */
  ghost function Rest(op: Op, e: Expr, p: Path, v: Valuation): Tri
    requires OnSpine(op, e, p)
  {
    if p == [] then UnitTri(op)
    else Join(op, Eval(Child(e, !p[0]), v), Rest(op, Child(e, p[0]), p[1..], v))
  }

  lemma {:induction false} SplitAt(op: Op, e: Expr, p: Path, x: Expr, v: Valuation)
    requires OnSpine(op, e, p)
    ensures Eval(Put(e, p, x), v) == Join(op, Eval(x, v), Rest(op, e, p, v))
  {
    if p != [] {
      var c := Child(e, p[0]);
      SplitAt(op, c, p[1..], x, v);
      JoinAgain(op, Eval(x, v), Eval(Child(e, !p[0]), v), Rest(op, c, p[1..], v));
      JoinComm(op, Eval(Put(c, p[1..], x), v), Eval(Child(e, !p[0]), v));
    } else {
      JoinUnit(op, Eval(x, v));
    }
  }

  /** Two operands of one level may be replaced by any two with the same join. */
  lemma {:induction false} ReplaceTwo(op: Op, e: Expr, p: Path, q: Path, x: Expr, y: Expr, v: Valuation)
    requires OnSpine(op, e, p) && OnSpine(op, e, q) && Apart(p, q)
    requires Valid(Put(e, p, x), q)
    requires Join(op, Eval(x, v), Eval(y, v)) == Join(op, Eval(At(e, p), v), Eval(At(e, q), v))
    ensures Eval(Put(Put(e, p, x), q, y), v) == Eval(e, v)
  {
    if p[0] == q[0] {
      ReplaceTwo(op, Child(e, p[0]), p[1..], q[1..], x, y, v);
    } else {
      var a, b := Child(e, p[0]), Child(e, q[0]);
      AtPut(a, p[1..], x);
      AtPut(b, q[1..], y);
      SplitAt(op, a, p[1..], x, v);
      SplitAt(op, a, p[1..], At(a, p[1..]), v);
      SplitAt(op, b, q[1..], y, v);
      SplitAt(op, b, q[1..], At(b, q[1..]), v);
      FourWay(op, Eval(x, v), Eval(y, v), Eval(At(a, p[1..]), v), Eval(At(b, q[1..]), v),
              Rest(op, a, p[1..], v), Rest(op, b, q[1..], v));
    }
  }

  lemma FourWay(op: Op, x: Tri, y: Tri, x': Tri, y': Tri, c: Tri, d: Tri)
    requires Join(op, x, y) == Join(op, x', y')
    ensures Join(op, Join(op, x, c), Join(op, y, d)) == Join(op, Join(op, x', c), Join(op, y', d))
    ensures Join(op, Join(op, y, d), Join(op, x, c)) == Join(op, Join(op, y', d), Join(op, x', c))
  {
    JoinTwice(op, x, y, c, d);
    JoinTwice(op, x', y', c, d);
    JoinComm(op, Join(op, x, c), Join(op, y, d));
    JoinComm(op, Join(op, x', c), Join(op, y', d));
  }

  /** Replacing a subtree by one of the same value keeps the value of the whole. */
  lemma {:induction false} PutValue(e: Expr, p: Path, x: Expr, v: Valuation)
    requires Valid(e, p) && Eval(x, v) == Eval(At(e, p), v)
    ensures Eval(Put(e, p, x), v) == Eval(e, v)
  {
    if p != [] {
      PutValue(Child(e, p[0]), p[1..], x, v);
    }
  }
}
