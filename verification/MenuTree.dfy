/** The restructuring of the menu tree by menu_finalize (scripts/config/menu.c, lines
    285-564) and the walk of conf_write (scripts/config/confdata.c, lines 886-930). */
module MenuTree {
  import opened Exprs
  import opened ExprTransform
  import opened MenuConditions

  /** What menu_finalize asks of a node once conditions have been propagated: its symbol,
      whether it has a prompt with a text, the prompt's condition, and its dep. */
  datatype Info = Info(sym: Option<Symbol>, prompted: bool, prompt: ExprOrNull, dep: ExprOrNull)

  class Menu {
    const info: Info
    var next: Menu?
    var parent: Menu?
    var list: Menu?

    constructor (info: Info)
      ensures this.info == info && next == null && parent == null && list == null
    {
      this.info := info;
      next, parent, list := null, null, null;
    }
  }

  /** The condition that decides whether `item` goes below `owner`. */
  function ItemCond(item: Info): ExprOrNull { if item.prompted then item.prompt else item.dep }

  function OwnerCond(owner: Info): ExprOrNull { if owner.prompted then owner.prompt else None }

  predicate Absorbs(owner: Info, item: Info)
    requires owner.sym.Some?
  {
    var cond := ItemCond(item);
    && cond.Some? && ContainsSymbol(cond.value, owner.sym.value)
    && (DependsSymbol(cond.value, owner.sym.value) || SupersetTest(cond, OwnerCond(owner)))
  }

  // ----- trees and forests of nodes -----

  datatype Tree = Node(menu: Menu, kids: seq<Tree>)

  /** Preorder: the order in which the nodes were declared. */
  ghost function Pre(f: seq<Tree>): seq<Menu> {
    if f == [] then [] else [f[0].menu] + Pre(f[0].kids) + Pre(f[1..])
  }

  ghost function Count(f: seq<Tree>): nat { |Pre(f)| }

  lemma {:induction false} PreConcat(a: seq<Tree>, b: seq<Tree>)
    ensures Pre(a + b) == Pre(a) + Pre(b)
  {
    if a == [] {
      assert a + b == b;
    } else {
      assert (a + b)[1..] == a[1..] + b;
      PreConcat(a[1..], b);
    }
  }

  lemma PreCons(t: Tree, f: seq<Tree>)
    ensures Pre([t] + f) == [t.menu] + Pre(t.kids) + Pre(f)
  {
    assert ([t] + f)[1..] == f;
  }

  lemma PreUnfolds(f: seq<Tree>)
    requires f != []
    ensures Pre(f) == [f[0].menu] + Pre(f[0].kids) + Pre(f[1..])
  {
  }

  lemma PreSplit(f: seq<Tree>)
    requires f != []
    ensures f == [f[0]] + f[1..] && Pre(f) == [f[0].menu] + Pre(f[0].kids) + Pre(f[1..])
    ensures Count(f[1..]) < Count(f) && Count(f[0].kids + f[1..]) < Count(f)
    ensures Pre(f) == [f[0].menu] + Pre(f[0].kids + f[1..])
  {
    PreUnfolds(f);
    hide Pre;
    PreConcat(f[0].kids, f[1..]);
    Regroup(f[0].menu, Pre(f[0].kids), Pre(f[1..]));
  }

  lemma Regroup(m: Menu, a: seq<Menu>, b: seq<Menu>)
    ensures [m] + (a + b) == [m] + a + b
    ensures |a + b| == |a| + |b| && |[m] + a + b| == 1 + |a| + |b|
  {
  }

  lemma PreLeaf(m: Menu, f: seq<Tree>)
    ensures Pre([Node(m, [])] + f) == [m] + Pre(f)
  {
    PreCons(Node(m, []), f);
    assert [m] + [] + Pre(f) == [m] + Pre(f);
  }

  // ----- menu_finalize as a function on forests -----

  /** Flattening of `if` blocks and promptless symbols: the children of such a node become
      its next siblings. */
  ghost function Flatten(f: seq<Tree>): (r: seq<Tree>)
    ensures Pre(r) == Pre(f)
    decreases Count(f)
  {
    if f == [] then []
    else
      hide Pre;
      PreSplit(f);
      if f[0].kids != [] && !f[0].menu.info.prompted then
        PreLeaf(f[0].menu, Flatten(f[0].kids + f[1..]));
        [Node(f[0].menu, [])] + Flatten(f[0].kids + f[1..])
      else
        PreCons(f[0], Flatten(f[1..]));
        [f[0]] + Flatten(f[1..])
  }

  /** A finalised node and the siblings it left alone. */
  datatype Fin = Fin(tree: Tree, rest: seq<Tree>)

  ghost function FinNode(t: Tree, rest: seq<Tree>): (r: Fin)
    ensures Pre([r.tree] + r.rest) == Pre([t] + rest) && r.tree.menu == t.menu
    ensures Count(r.rest) < Count([t] + rest)
    decreases Count([t] + rest), 1
  {
    hide Pre;
    PreCons(t, rest);
    if t.kids != [] then
      var tree := Node(t.menu, Flatten(FinForest(t.kids)));
      PreCons(tree, rest);
      Fin(tree, rest)
    else if t.menu.info.sym.Some? then
      var (kids, left) := FinAbsorb(t.menu.info, rest);
      var tree := Node(t.menu, Flatten(kids));
      PreConcat(kids, left); PreCons(tree, left);
      PreLeaf(t.menu, rest); Regroup(t.menu, Pre(kids), Pre(left));
      Fin(tree, left)
    else Fin(t, rest)
  }

  /** The loop over the children. */
  ghost function FinForest(f: seq<Tree>): (r: seq<Tree>)
    ensures Pre(r) == Pre(f)
    decreases Count(f), 2
  {
    if f == [] then []
    else
      hide Pre;
      PreSplit(f);
      var x := FinNode(f[0], f[1..]);
      PreCons(x.tree, x.rest); PreCons(x.tree, FinForest(x.rest));
      [x.tree] + FinForest(x.rest)
  }

  /** Automatic submenus: finalise and take over following siblings as long as they depend
      on the owner. */
  ghost function FinAbsorb(owner: Info, f: seq<Tree>): (r: (seq<Tree>, seq<Tree>))
    requires owner.sym.Some?
    ensures Pre(r.0 + r.1) == Pre(f)
    decreases Count(f), 2
  {
    if f == [] || !Absorbs(owner, f[0].menu.info) then
      assert [] + f == f;
      ([], f)
    else
      hide Pre, Absorbs;
      PreSplit(f);
      var x := FinNode(f[0], f[1..]);
      var (kids, left) := FinAbsorb(owner, x.rest);
      PreCons(x.tree, x.rest); PreCons(x.tree, kids + left);
      assert ([x.tree] + kids) + left == [x.tree] + (kids + left);
      ([x.tree] + kids, left)
  }

  // ----- forests in memory -----

  ghost function Nodes(f: seq<Tree>): set<Menu> {
    if f == [] then {} else {f[0].menu} + Nodes(f[0].kids) + Nodes(f[1..])
  }

  /** No node occurs twice. */
  ghost predicate Distinct(f: seq<Tree>) {
    f != [] ==>
      && f[0].menu !in Nodes(f[0].kids) && f[0].menu !in Nodes(f[1..])
      && Nodes(f[0].kids) !! Nodes(f[1..])
      && Distinct(f[0].kids) && Distinct(f[1..])
  }

  ghost function SetOf(s: seq<Menu>): set<Menu> { set m | m in s }

  lemma SetOfConcat(a: seq<Menu>, b: seq<Menu>)
    ensures SetOf(a + b) == SetOf(a) + SetOf(b)
  {
  }

  lemma {:induction false} NodesPre(f: seq<Tree>)
    ensures Nodes(f) == SetOf(Pre(f))
  {
    if f != [] {
      NodesPre(f[0].kids);
      NodesPre(f[1..]);
      SetOfConcat([f[0].menu], Pre(f[0].kids));
      SetOfConcat([f[0].menu] + Pre(f[0].kids), Pre(f[1..]));
      assert SetOf([f[0].menu]) == {f[0].menu};
    }
  }

  /** No node is listed twice. */
  ghost predicate Once(s: seq<Menu>) {
    forall m :: m in s ==> multiset(s)[m] == 1
  }

  lemma OnceConcat(a: seq<Menu>, b: seq<Menu>)
    ensures Once(a + b) <==> Once(a) && Once(b) && SetOf(a) !! SetOf(b)
  {
    assert multiset(a + b) == multiset(a) + multiset(b);
    if Once(a + b) {
      forall m | m in a ensures m !in b && multiset(a)[m] == 1 { assert m in a + b; }
      forall m | m in b ensures multiset(b)[m] == 1 { assert m in a + b; }
    }
    if Once(a) && Once(b) && SetOf(a) !! SetOf(b) {
      forall m | m in a + b ensures multiset(a + b)[m] == 1 {
        if m in a { assert m in SetOf(a); } else { assert m in SetOf(b); }
      }
    }
  }

  lemma OnceOne(m: Menu)
    ensures Once([m]) && SetOf([m]) == {m}
  {
  }

  lemma DistinctStep(f: seq<Tree>)
    requires f != []
    ensures Distinct(f) <==>
              && f[0].menu !in Nodes(f[0].kids) && f[0].menu !in Nodes(f[1..])
              && Nodes(f[0].kids) !! Nodes(f[1..]) && Distinct(f[0].kids) && Distinct(f[1..])
    ensures Pre(f) == [f[0].menu] + Pre(f[0].kids) + Pre(f[1..])
  {
  }

  lemma {:induction false} DistinctPre(f: seq<Tree>)
    ensures Distinct(f) <==> Once(Pre(f))
  {
    if f != [] {
      DistinctStep(f);
      hide *;
      var m, y, z := f[0].menu, Pre(f[0].kids), Pre(f[1..]);
      DistinctPre(f[0].kids);
      DistinctPre(f[1..]);
      NodesPre(f[0].kids);
      NodesPre(f[1..]);
      OnceOne(m);
      OnceConcat([m], y);
      OnceConcat([m] + y, z);
      SetOfConcat([m], y);
    }
  }

  /** Forests with the same preorder have the same nodes. */
  lemma SamePre(f: seq<Tree>, g: seq<Tree>)
    requires Pre(f) == Pre(g)
    ensures Nodes(f) == Nodes(g) && Distinct(f) == Distinct(g)
  {
    hide *;
    NodesPre(f);
    NodesPre(g);
    DistinctPre(f);
    DistinctPre(g);
  }

  lemma {:induction false} NodesConcat(a: seq<Tree>, b: seq<Tree>)
    ensures Nodes(a + b) == Nodes(a) + Nodes(b)
    ensures Distinct(a + b) <==> Distinct(a) && Distinct(b) && Nodes(a) !! Nodes(b)
  {
    if a == [] {
      assert a + b == b;
    } else {
      assert (a + b)[1..] == a[1..] + b;
      NodesConcat(a[1..], b);
    }
  }

  /** Following `next` from `h` up to `e` meets the trees of `f`, whose roots have parent `p`;
      below each root, `list` leads to its children. */
  ghost predicate Seg(h: Menu?, f: seq<Tree>, e: Menu?, p: Menu?)
    reads Nodes(f)
  {
    if f == [] then h == e
    else
      && h == f[0].menu && h.parent == p
      && Seg(h.list, f[0].kids, null, h)
      && Seg(h.next, f[1..], e, p)
  }

  lemma {:induction false} SegAppend(h: Menu?, a: seq<Tree>, m: Menu?, b: seq<Tree>, e: Menu?, p: Menu?)
    requires Seg(h, a, m, p) && Seg(m, b, e, p)
    ensures Seg(h, a + b, e, p)
  {
    if a == [] {
      assert a + b == b;
    } else {
      SegAppend(h.next, a[1..], m, b, e, p);
      assert (a + b)[1..] == a[1..] + b;
    }
  }

  lemma {:induction false} SegLast(h: Menu?, a: seq<Tree>, l: Tree, e: Menu?, p: Menu?)
    requires Seg(h, a + [l], e, p)
    ensures Seg(h, a, l.menu, p) && Seg(l.menu, [l], e, p)
  {
    if a == [] {
      assert a + [l] == [l];
    } else {
      assert (a + [l])[1..] == a[1..] + [l];
      SegLast(h.next, a[1..], l, e, p);
    }
  }

  lemma SegHead(h: Menu?, t: Tree, f: seq<Tree>, e: Menu?, p: Menu?)
    requires Seg(h, [t] + f, e, p) && Distinct([t] + f)
    ensures h == t.menu && h != null && Seg(h, [t], h.next, p) && Seg(h.next, f, e, p)
    ensures h.parent == p && Seg(h.list, t.kids, null, h)
    ensures h !in Nodes(t.kids) && h !in Nodes(f) && Nodes(t.kids) !! Nodes(f) && Distinct(t.kids) && Distinct(f)
    ensures Nodes([t] + f) == {h} + Nodes(t.kids) + Nodes(f) && Nodes([t]) == {h} + Nodes(t.kids)
  {
    assert ([t] + f)[1..] == f;
  }

  lemma SegOne(h: Menu, t: Tree, p: Menu?)
    requires h == t.menu && h.parent == p && Seg(h.list, t.kids, null, h)
    ensures Seg(h, [t], h.next, p)
  {
    assert [t][1..] == [];
  }

  /** A list ends where its head is null. */
  lemma SegEnd(h: Menu?, f: seq<Tree>, p: Menu?)
    requires Seg(h, f, null, p)
    ensures h == null <==> f == []
    ensures h != null ==> h == f[0].menu && h in Nodes(f) && f == [f[0]] + f[1..]
  {
  }

  lemma SegNothing(h: Menu?, p: Menu?)
    ensures Seg(h, [], h, p)
  {
  }

  /** Points `last.next` elsewhere, where `last` ends the segment. */
  method Relink(h: Menu?, last: Menu, e: Menu?, ghost a: seq<Tree>, ghost l: Tree, ghost e0: Menu?, ghost p: Menu?)
    requires Seg(h, a + [l], e0, p) && last == l.menu && Distinct(a + [l])
    modifies last
    ensures Seg(h, a + [l], e, p)
    ensures last.next == e && last.list == old(last.list) && last.parent == old(last.parent)
  {
    SegLast(h, a, l, e0, p);
    NodesConcat(a, [l]);
    last.next := e;
    SegAppend(h, a, last, [l], e, p);
  }

  // ----- the loops of menu_finalize -----

  lemma SeqStep<T>(a: seq<T>, b: seq<T>)
    requires b != []
    ensures a + [b[0]] + b[1..] == a + b && [b[0]] + b[1..] == b
  {
  }

  /** Moves the first tree of `b` to the segment before it, under parent `to`. */
  method Adopt(h: Menu?, m: Menu, to: Menu?, ghost a: seq<Tree>, ghost b: seq<Tree>, ghost p: Menu?)
    requires b != [] && Seg(h, a, m, to) && Seg(m, b, null, p) && Distinct(a + b)
    modifies m
    ensures m.next == old(m.next) && m.list == old(m.list)
    ensures Seg(h, a + [b[0]], m.next, to) && Seg(m.next, b[1..], null, p)
  {
    hide Distinct;
    hide Nodes;
    hide Seg;
    NodesConcat(a, b);
    SeqStep(a, b);
    SegHead(m, b[0], b[1..], null, p);
    m.parent := to;
    SegOne(m, b[0], to);
    SegAppend(h, a, m, [b[0]], m.next, to);
  }

  /** The inner loop of flattening: new parents for a list of siblings, and its last node. */
  method Reparent(h: Menu, to: Menu?, ghost f: seq<Tree>, ghost p: Menu?) returns (last: Menu)
    requires f != [] && Seg(h, f, null, p) && Distinct(f)
    modifies Nodes(f)
    ensures Seg(h, f, null, to) && last == f[|f| - 1].menu
  {
    hide Distinct;
    hide Nodes;
    hide Seg;
    last := h;
    ghost var a, b: seq<Tree> := [], f;
    SegNothing(h, to);
    SegEnd(h, f, p);
    assert a + b == f;
    while true
      invariant b != [] && a + b == f && last == b[0].menu
      invariant Seg(h, a, last, to) && Seg(last, b, null, p)
      decreases |b|
    {
      NodesConcat(a, b);
      SegEnd(last, b, p);
      SeqStep(a, b);
      Adopt(h, last, to, a, b, p);
      SegEnd(last.next, b[1..], p);
      if last.next == null {
        assert f == a + [b[0]] + [] == a + [b[0]];
        return;
      }
      a, b, last := a + [b[0]], b[1..], last.next;
    }
  }

  /** Flattening of the list of `p`. */
  method FlattenList(h: Menu?, p: Menu, ghost f: seq<Tree>)
    requires Seg(h, f, null, p) && Distinct(f)
    modifies Nodes(f)
    ensures Seg(h, Flatten(f), null, p)
  {
    hide Distinct;
    hide Nodes;
    hide Seg;
    var menu := h;
    ghost var a, b: seq<Tree> := [], f;
    SegNothing(h, p);
    assert a + b == f && a + Flatten(b) == Flatten(f);
    while menu != null
      invariant Seg(h, a, menu, p) && Seg(menu, b, null, p)
      invariant Distinct(a + b) && Nodes(a + b) == Nodes(f)
      invariant a + Flatten(b) == Flatten(f)
      decreases Count(b)
    {
      SegEnd(menu, b, p);
      NodesConcat(a, b);
      if menu.list != null && !menu.info.prompted {
        Splice(h, menu, p, a, b);
        ghost var b' := b[0].kids + b[1..];
        SpliceKeeps(a, b);
        a, b := a + [Node(b[0].menu, [])], b';
      } else {
        StepOver(h, menu, p, a, b);
        a, b := a + [b[0]], b[1..];
      }
      menu := menu.next;
    }
    SegEnd(menu, b, p);
    assert a + [] == a;
  }

  lemma StepOver(h: Menu?, m: Menu, p: Menu?, a: seq<Tree>, b: seq<Tree>)
    requires b != [] && Seg(h, a, m, p) && Seg(m, b, null, p) && Distinct(a + b)
    requires m.list == null || m.info.prompted
    ensures Seg(h, a + [b[0]], m.next, p) && Seg(m.next, b[1..], null, p)
    ensures a + [b[0]] + b[1..] == a + b && a + [b[0]] + Flatten(b[1..]) == a + Flatten(b)
    ensures Count(b[1..]) < Count(b)
  {
    hide Distinct, Nodes, Seg, Flatten, Pre;
    NodesConcat(a, b);
    SeqStep(a, b);
    SegHead(m, b[0], b[1..], null, p);
    SegEnd(m.list, b[0].kids, m);
    SegAppend(h, a, m, [b[0]], m.next, p);
    PreSplit(b);
    FlattenKeeps(b);
    assert a + [b[0]] + Flatten(b[1..]) == a + ([b[0]] + Flatten(b[1..]));
  }

  lemma FlattenKeeps(b: seq<Tree>)
    requires b != [] && (b[0].kids == [] || b[0].menu.info.prompted)
    ensures Flatten(b) == [b[0]] + Flatten(b[1..])
  {
    hide Pre;
  }

  lemma SpliceKeeps(a: seq<Tree>, b: seq<Tree>)
    requires b != [] && b[0].kids != [] && !b[0].menu.info.prompted && Distinct(a + b)
    ensures var a', b' := a + [Node(b[0].menu, [])], b[0].kids + b[1..];
            && Distinct(a' + b') && Nodes(a' + b') == Nodes(a + b)
            && a' + Flatten(b') == a + Flatten(b) && Count(b') < Count(b)
  {
    var x, b' := Node(b[0].menu, []), b[0].kids + b[1..];
    SplicePre(a, b);
    SamePre(a + b, a + [x] + b');
    hide *;
    SpliceFlatten(b);
    assert a + [x] + Flatten(b') == a + ([x] + Flatten(b'));
  }

  lemma SpliceFlatten(b: seq<Tree>)
    requires b != [] && b[0].kids != [] && !b[0].menu.info.prompted
    ensures Flatten(b) == [Node(b[0].menu, [])] + Flatten(b[0].kids + b[1..])
    ensures Count(b[0].kids + b[1..]) < Count(b)
  {
    PreConcat(b[0].kids, b[1..]);
  }

  lemma SplicePre(a: seq<Tree>, b: seq<Tree>)
    requires b != []
    ensures Pre(a + [Node(b[0].menu, [])] + (b[0].kids + b[1..])) == Pre(a + b)
  {
    var x, b' := Node(b[0].menu, []), b[0].kids + b[1..];
    SpliceHead(b);
    hide Pre;
    PreConcat(a, b);
    PreConcat(a, [x] + b');
    assert a + [x] + b' == a + ([x] + b');
  }

  lemma SpliceHead(b: seq<Tree>)
    requires b != []
    ensures Pre([Node(b[0].menu, [])] + (b[0].kids + b[1..])) == Pre(b)
  {
    PreCons(Node(b[0].menu, []), b[0].kids + b[1..]);
    PreConcat(b[0].kids, b[1..]);
  }

  /** The children of `m` become its next siblings. */
  method Splice(h: Menu?, m: Menu, p: Menu, ghost a: seq<Tree>, ghost b: seq<Tree>)
    requires b != [] && Seg(h, a, m, p) && Seg(m, b, null, p) && Distinct(a + b) && m.list != null
    modifies Nodes(b)
    ensures b[0].kids != []
    ensures Seg(h, a + [Node(b[0].menu, [])], m.next, p) && Seg(m.next, b[0].kids + b[1..], null, p)
  {
    hide Distinct;
    hide Nodes;
    hide Seg;
    ghost var kids, rest := b[0].kids, b[1..];
    NodesConcat(a, b);
    SeqStep(a, b);
    SegHead(m, b[0], rest, null, p);
    SegEnd(m.list, kids, m);
    var first, after := m.list, m.next;
    assert Nodes(kids) !! Nodes(rest) && Nodes(kids) !! Nodes(a);
    assert Seg(after, rest, null, p) && Seg(h, a, m, p);
    NodesAllocated(rest);
    NodesAllocated(a);
    var last := Reparent(first, p, kids, m);
    assert Seg(after, rest, null, p) && Seg(h, a, m, p);
    ghost var init, l := kids[..|kids| - 1], kids[|kids| - 1];
    assert kids == init + [l];
    LastNode(kids);
    Relink(first, last, after, init, l, null, p);
    assert Seg(after, rest, null, p) && Seg(h, a, m, p);
    SegAppend(first, kids, after, rest, null, p);
    NodesConcat(kids, rest);
    m.next := first;
    m.list := null;
    SegNothing(null, m);
    SegOne(m, Node(m, []), p);
    SegAppend(h, a, m, [Node(m, [])], m.next, p);
  }

  lemma {:induction false} NodesAllocated(f: seq<Tree>)
    ensures allocated(Nodes(f))
  {
    if f != [] {
      NodesAllocated(f[0].kids);
      NodesAllocated(f[1..]);
    }
  }

  lemma LastNode(f: seq<Tree>)
    requires f != []
    ensures f[|f| - 1].menu in Nodes(f)
  {
    var init, l := f[..|f| - 1], f[|f| - 1];
    assert f == init + [l];
    NodesConcat(init, [l]);
  }

  // ----- menu_finalize -----

  lemma UnfoldFin(t: Tree, rest: seq<Tree>)
    ensures Flatten([]) == []
    ensures t.kids != [] ==> FinNode(t, rest) == Fin(Node(t.menu, Flatten(FinForest(t.kids))), rest)
    ensures t.kids == [] && t.menu.info.sym.Some? ==>
              var (kids, left) := FinAbsorb(t.menu.info, rest);
              FinNode(t, rest) == Fin(Node(t.menu, Flatten(kids)), left)
    ensures t.kids == [] && t.menu.info.sym.None? ==> FinNode(t, rest) == Fin(Node(t.menu, []), rest)
  {
  }

  /** menu_finalize on `m`, with the siblings `rest` after it, all below `up`. The log lists
      the nodes finalised, in the order in which their calls begin. */
  method Finalize(m: Menu, ghost t: Tree, ghost rest: seq<Tree>, ghost up: Menu?) returns (ghost log: seq<Menu>)
    requires t.menu == m && Seg(m, [t] + rest, null, up) && Distinct([t] + rest)
    modifies Nodes([t] + rest)
    ensures var r := FinNode(t, rest);
            Seg(m, [r.tree] + r.rest, null, up) && log == Pre([r.tree])
    decreases Count([t] + rest), 1
  {
    hide Distinct;
    hide Nodes;
    hide Seg;
    assert Pre([]) == [];
    UnfoldFin(t, rest);
    hide Pre;
    hide FinNode;
    hide FinAbsorb;
    hide FinForest;
    hide Flatten;
    SegHead(m, t, rest, null, up);
    SegEnd(m.list, t.kids, m);
    PreCons(t, rest);
    NodesAllocated(rest);
    ghost var kids, left := [], rest;
    log := [];
    if m.list != null {
      log := FinalizeList(m.list, m, t.kids);
      kids := FinForest(t.kids);
      SamePre(t.kids, kids);
    } else if m.info.sym.Some? {
      log := Absorb(m, rest, up);
      kids, left := FinAbsorb(m.info, rest).0, FinAbsorb(m.info, rest).1;
      SamePre(rest, kids + left);
      NodesConcat(kids, left);
      NodesAllocated(left);
    }
    FlattenList(m.list, m, kids);
    SamePre(kids, Flatten(kids));
    ghost var tree := Node(m, Flatten(kids));
    PreCons(tree, []);
    assert [tree] + [] == [tree];
    log := [m] + log;
    SegOne(m, tree, up);
    SegAppend(m, [tree], m.next, left, null, up);
  }

  /** The loop over the children of `p`. */
  method FinalizeList(h: Menu?, p: Menu, ghost f: seq<Tree>) returns (ghost log: seq<Menu>)
    requires Seg(h, f, null, p) && Distinct(f)
    modifies Nodes(f)
    ensures Seg(h, FinForest(f), null, p) && log == Pre(FinForest(f))
    decreases Count(f), 2
  {
    hide Distinct;
    hide Nodes;
    hide Seg;
    var menu := h;
    ghost var a, b: seq<Tree> := [], f;
    log := [];
    SegNothing(h, p);
    assert a + b == f && a + FinForest(b) == FinForest(f);
    while menu != null
      invariant Seg(h, a, menu, p) && Seg(menu, b, null, p)
      invariant Distinct(a + b) && Nodes(a + b) == Nodes(f)
      invariant a + FinForest(b) == FinForest(f) && log == Pre(a)
      invariant Count(b) <= Count(f)
      decreases Count(b)
    {
      SegEnd(menu, b, p);
      NodesConcat(a, b);
      NodesAllocated(a);
      ghost var x := FinNode(b[0], b[1..]);
      ghost var l := Finalize(menu, b[0], b[1..], p);
      FinStep(a, b);
      SegHead(menu, x.tree, x.rest, null, p);
      SegAppend(h, a, menu, [x.tree], menu.next, p);
      PreConcat(a, [x.tree]);
      log := log + l;
      a, b := a + [x.tree], x.rest;
      menu := menu.next;
    }
    SegEnd(menu, b, p);
    assert a + [] == a;
  }

  lemma FinStep(a: seq<Tree>, b: seq<Tree>)
    requires b != [] && Distinct(a + b)
    ensures var x := FinNode(b[0], b[1..]);
            && [b[0]] + b[1..] == b
            && Distinct([x.tree] + x.rest) && Nodes([x.tree] + x.rest) == Nodes(b)
            && Distinct(a + [x.tree] + x.rest) && Nodes(a + [x.tree] + x.rest) == Nodes(a + b)
            && a + [x.tree] + FinForest(x.rest) == a + FinForest(b)
            && Count(x.rest) < Count(b)
  {
    hide Distinct;
    hide Nodes;
    hide Pre;
    SeqStep(a, b);
    var x := FinNode(b[0], b[1..]);
    SamePre(b, [x.tree] + x.rest);
    NodesConcat(a, b);
    NodesConcat(a, [x.tree] + x.rest);
    assert a + [x.tree] + x.rest == a + ([x.tree] + x.rest);
    assert FinForest(b) == [x.tree] + FinForest(x.rest);
    assert a + [x.tree] + FinForest(x.rest) == a + ([x.tree] + FinForest(x.rest));
  }

  /** Automatic submenus: the siblings of `m` that depend on it become its children. */
  method Absorb(m: Menu, ghost f: seq<Tree>, ghost up: Menu?) returns (ghost log: seq<Menu>)
    requires m.info.sym.Some? && m.list == null && m !in Nodes(f)
    requires Seg(m.next, f, null, up) && Distinct(f)
    modifies m, Nodes(f)
    ensures var (kids, left) := FinAbsorb(m.info, f);
            Seg(m.list, kids, null, m) && Seg(m.next, left, null, up) && log == Pre(kids)
    ensures m.parent == old(m.parent)
    decreases Count(f), 4
  {
    hide Distinct, Nodes, Seg, Absorbs, Pre, FinAbsorb, FinNode;
    var last, menu;
    ghost var a, b;
    last, menu, a, b, log := AbsorbRun(m, f, up);
    assert a + [] == a;
    if last != null {
      NodesConcat(a, b);
      LastNode(a);
      Detach(m, last, menu, a, b, up);
    } else {
      assert Seg(null, [], null, m) by { SegNothing(null, m); }
      SegEmpty(m.next, menu, m);
    }
  }

  /** The loop over the following siblings: the run `a` that it finalises and adopts, up to
      `last`, and what is left from `menu` on. */
  method AbsorbRun(m: Menu, ghost f: seq<Tree>, ghost up: Menu?)
    returns (last: Menu?, menu: Menu?, ghost a: seq<Tree>, ghost b: seq<Tree>, ghost log: seq<Menu>)
    requires m.info.sym.Some? && m.list == null && m !in Nodes(f)
    requires Seg(m.next, f, null, up) && Distinct(f)
    modifies Nodes(f)
    ensures unchanged(m)
    ensures Seg(m.next, a, menu, m) && Seg(menu, b, null, up) && Distinct(a + b) && Nodes(a + b) == Nodes(f)
    ensures (a, b) == FinAbsorb(m.info, f) && log == Pre(a)
    ensures last == if a == [] then null else a[|a| - 1].menu
    decreases Count(f), 3
  {
    hide Distinct, Nodes, Seg, Absorbs, Pre, FinAbsorb, FinNode;
    var h := m.next;
    menu, last, a, b, log := h, null, [], f, [];
    PreNothing();
    SegNothing(h, m);
    assert a + b == f && a + FinAbsorb(m.info, b).0 == FinAbsorb(m.info, f).0;
    while menu != null && Absorbs(m.info, menu.info)
      invariant unchanged(m)
      invariant Seg(h, a, menu, m) && Seg(menu, b, null, up)
      invariant Distinct(a + b) && Nodes(a + b) == Nodes(f)
      invariant a + FinAbsorb(m.info, b).0 == FinAbsorb(m.info, f).0 && FinAbsorb(m.info, b).1 == FinAbsorb(m.info, f).1
      invariant log == Pre(a) && Count(b) <= Count(f)
      invariant last == if a == [] then null else a[|a| - 1].menu
      decreases Count(b)
    {
      SegEnd(menu, b, up);
      NodesConcat(a, b);
      AbsorbStep(m.info, a, b);
      ghost var x := FinNode(b[0], b[1..]);
      ghost var l := AbsorbOne(h, m, menu, a, b, up);
      PreConcat(a, [x.tree]);
      log := log + l;
      a, b := a + [x.tree], x.rest;
      last := menu;
      menu := menu.next;
    }
    SegEnd(menu, b, up);
    AbsorbStops(m.info, b);
    assert a + [] == a;
  }

  /** One turn: the first sibling of `b` is finalised and joins the run under its new parent. */
  method AbsorbOne(h: Menu?, m: Menu, menu: Menu, ghost a: seq<Tree>, ghost b: seq<Tree>, ghost up: Menu?)
    returns (ghost l: seq<Menu>)
    requires m.info.sym.Some? && b != [] && Absorbs(m.info, b[0].menu.info) && Distinct(a + b)
    requires Seg(h, a, menu, m) && Seg(menu, b, null, up)
    modifies Nodes(b)
    ensures var x := FinNode(b[0], b[1..]);
            Seg(h, a + [x.tree], menu.next, m) && Seg(menu.next, x.rest, null, up) && l == Pre([x.tree])
    decreases Count(b), 2
  {
    hide Distinct, Nodes, Seg, Absorbs, Pre, FinAbsorb, FinNode;
    SegEnd(menu, b, up);
    NodesConcat(a, b);
    NodesAllocated(a);
    AbsorbStep(m.info, a, b);
    ghost var x := FinNode(b[0], b[1..]);
    l := Finalize(menu, b[0], b[1..], up);
    SegEnd(menu, [x.tree] + x.rest, up);
    Adopt(h, menu, m, a, [x.tree] + x.rest, up);
  }

  lemma SegEmpty(h: Menu?, e: Menu?, p: Menu?)
    requires Seg(h, [], e, p)
    ensures h == e
  {
  }

  /** The siblings up to `last` move from behind `m` to below it. */
  method Detach(m: Menu, last: Menu, ghost e: Menu?, ghost a: seq<Tree>, ghost b: seq<Tree>, ghost up: Menu?)
    requires a != [] && last == a[|a| - 1].menu && m !in Nodes(a + b) && Distinct(a + b)
    requires Seg(m.next, a, e, m) && Seg(e, b, null, up)
    modifies m, last
    ensures Seg(m.list, a, null, m) && Seg(m.next, b, null, up) && m.parent == old(m.parent)
  {
    hide Distinct;
    hide Nodes;
    hide Seg;
    NodesConcat(a, b);
    LastNode(a);
    NodesAllocated(b);
    ghost var init, l := a[..|a| - 1], a[|a| - 1];
    assert a == init + [l];
    var h := m.next;
    SegLast(h, init, l, e, m);
    LastNext(l, e, m);
    m.list := h;
    m.next := last.next;
    Relink(h, last, null, init, l, e, m);
  }

  lemma LastNext(l: Tree, e: Menu?, p: Menu?)
    requires Seg(l.menu, [l], e, p)
    ensures l.menu.next == e
  {
    assert [l][1..] == [];
  }

  lemma AbsorbStops(owner: Info, b: seq<Tree>)
    requires owner.sym.Some? && (b == [] || !Absorbs(owner, b[0].menu.info))
    ensures FinAbsorb(owner, b) == ([], b)
  {
  }

  lemma AbsorbStep(owner: Info, a: seq<Tree>, b: seq<Tree>)
    requires owner.sym.Some? && b != [] && Absorbs(owner, b[0].menu.info) && Distinct(a + b)
    ensures var x := FinNode(b[0], b[1..]);
            && [b[0]] + b[1..] == b
            && ([x.tree] + x.rest)[0] == x.tree && ([x.tree] + x.rest)[1..] == x.rest
            && Distinct(a + ([x.tree] + x.rest)) && Nodes([x.tree] + x.rest) == Nodes(b)
            && Distinct(a + [x.tree] + x.rest) && Nodes(a + [x.tree] + x.rest) == Nodes(a + b)
            && a + [x.tree] + FinAbsorb(owner, x.rest).0 == a + FinAbsorb(owner, b).0
            && FinAbsorb(owner, x.rest).1 == FinAbsorb(owner, b).1
            && Count(x.rest) < Count(b)
  {
    hide Distinct;
    hide Nodes;
    hide Pre;
    SeqStep(a, b);
    var x := FinNode(b[0], b[1..]);
    SamePre(b, [x.tree] + x.rest);
    NodesConcat(a, b);
    NodesConcat(a, [x.tree] + x.rest);
    assert a + [x.tree] + x.rest == a + ([x.tree] + x.rest);
    var kids := FinAbsorb(owner, x.rest).0;
    assert FinAbsorb(owner, b).0 == [x.tree] + kids;
    assert a + [x.tree] + kids == a + ([x.tree] + kids);
  }

  // ----- what the finished tree looks like -----

  /** Below every node, only nodes with a prompt have children. */
  ghost predicate OnlyPromptedOwn(f: seq<Tree>) {
    forall t :: t in f ==> (t.kids != [] ==> t.menu.info.prompted) && OnlyPromptedOwn(t.kids)
  }

  lemma {:induction false} FlattenPrompted(f: seq<Tree>)
    requires forall t :: t in f ==> OnlyPromptedOwn(t.kids)
    ensures OnlyPromptedOwn(Flatten(f))
    decreases Count(f)
  {
    if f != [] {
      if f[0].kids != [] && !f[0].menu.info.prompted {
        PreConcat(f[0].kids, f[1..]);
        assert f[0] in f;
        FlattenPrompted(f[0].kids + f[1..]);
      } else {
        FlattenPrompted(f[1..]);
      }
    }
  }

  lemma {:induction false} FinNodePrompted(t: Tree, rest: seq<Tree>)
    ensures OnlyPromptedOwn(FinNode(t, rest).tree.kids)
    decreases Count([t] + rest), 1
  {
    PreCons(t, rest);
    if t.kids != [] {
      FinForestPrompted(t.kids);
      FlattenPrompted(FinForest(t.kids));
    } else if t.menu.info.sym.Some? {
      FinAbsorbPrompted(t.menu.info, rest);
      FlattenPrompted(FinAbsorb(t.menu.info, rest).0);
    }
  }

  lemma {:induction false} FinForestPrompted(f: seq<Tree>)
    ensures forall t :: t in FinForest(f) ==> OnlyPromptedOwn(t.kids)
    decreases Count(f), 2
  {
    if f != [] {
      assert [f[0]] + f[1..] == f;
      FinNodePrompted(f[0], f[1..]);
      FinForestPrompted(FinNode(f[0], f[1..]).rest);
    }
  }

  lemma {:induction false} FinAbsorbPrompted(owner: Info, f: seq<Tree>)
    requires owner.sym.Some?
    ensures forall t :: t in FinAbsorb(owner, f).0 ==> OnlyPromptedOwn(t.kids)
    decreases Count(f), 2
  {
    if f != [] && Absorbs(owner, f[0].menu.info) {
      assert [f[0]] + f[1..] == f;
      FinNodePrompted(f[0], f[1..]);
      FinAbsorbPrompted(owner, FinNode(f[0], f[1..]).rest);
    }
  }

  // ----- the walk of conf_write -----

  /** Above `a`, the siblings still to come on each level; at the root there are none. */
  ghost predicate Above(a: Menu, rests: seq<seq<Tree>>)
    reads *
    decreases |rests|
  {
    if rests == [] then a.parent == null && a.next == null
    else a.parent != null && Seg(a.next, rests[0], null, a.parent) && Above(a.parent, rests[1..])
  }

  ghost function PreAll(rests: seq<seq<Tree>>): seq<Menu> {
    if rests == [] then [] else Pre(rests[0]) + PreAll(rests[1..])
  }

  /** The nodes still to come. */
  ghost function Todo(cur: seq<Tree>, rests: seq<seq<Tree>>): seq<Menu> { Pre(cur) + PreAll(rests) }

  lemma AboveChild(m: Menu, cur: seq<Tree>, p: Menu, rests: seq<seq<Tree>>)
    requires cur != [] && Seg(m, cur, null, p) && Above(p, rests)
    ensures Above(m, [cur[1..]] + rests) && Seg(m.list, cur[0].kids, null, m) && Seg(m.next, cur[1..], null, p)
    ensures m.parent == p
    ensures Todo(cur, rests) == [m] + Todo(cur[0].kids, [cur[1..]] + rests)
    ensures m.list == null ==> Todo(cur[0].kids, [cur[1..]] + rests) == Todo(cur[1..], rests)
    ensures m.list == null && m.next == null ==> Todo(cur[0].kids, [cur[1..]] + rests) == PreAll(rests)
  {
    hide Pre, PreAll;
    SegChild(m, cur, p);
    AboveSplit(m, cur[1..], p, rests);
    TodoSplit(cur, rests);
    SegEnd(m.list, cur[0].kids, m);
    SegEnd(m.next, cur[1..], p);
  }

  lemma SegChild(m: Menu, cur: seq<Tree>, p: Menu)
    requires cur != [] && Seg(m, cur, null, p)
    ensures m == cur[0].menu && m.parent == p
    ensures Seg(m.list, cur[0].kids, null, m) && Seg(m.next, cur[1..], null, p)
  {
  }

  lemma AboveSplit(m: Menu, rest: seq<Tree>, p: Menu, rests: seq<seq<Tree>>)
    requires m.parent == p && Seg(m.next, rest, null, p) && Above(p, rests)
    ensures Above(m, [rest] + rests)
  {
    hide Seg;
    assert ([rest] + rests)[1..] == rests;
  }

  lemma TodoSplit(cur: seq<Tree>, rests: seq<seq<Tree>>)
    requires cur != []
    ensures Todo(cur, rests) == [cur[0].menu] + Todo(cur[0].kids, [cur[1..]] + rests)
    ensures cur[0].kids == [] ==> Todo(cur[0].kids, [cur[1..]] + rests) == Todo(cur[1..], rests)
    ensures cur[0].kids == [] && cur[1..] == [] ==> Todo(cur[0].kids, [cur[1..]] + rests) == PreAll(rests)
  {
    hide Pre;
    PreSplit(cur);
    PreNothing();
    assert ([cur[1..]] + rests)[1..] == rests;
    assert PreAll([cur[1..]] + rests) == Pre(cur[1..]) + PreAll(rests);
  }

  lemma PreNothing()
    ensures Pre([]) == []
  {
  }

  /** `while ((menu = menu->parent))`: up to the first ancestor with a next sibling. */
  method ClimbUp(p: Menu, ghost rests: seq<seq<Tree>>)
    returns (menu: Menu?, ghost cur: seq<Tree>, ghost q: Menu, ghost left: seq<seq<Tree>>)
    requires Above(p, rests)
    ensures menu == null ==> PreAll(rests) == []
    ensures menu != null ==> Seg(menu, cur, null, q) && Above(q, left) && Todo(cur, left) == PreAll(rests)
  {
    menu, cur, q, left := p, [], p, rests;
    while menu != null
      invariant PreAll(left) == PreAll(rests)
      invariant if menu == null then PreAll(left) == [] else Above(menu, left)
      decreases menu != null, |left|
    {
      if left != [] {
        SegEnd(menu.next, left[0], menu.parent);
      }
      if menu.next != null {
        q := menu.parent;
        cur, left, menu := left[0], left[1..], menu.next;
        return;
      }
      if left != [] {
        assert Pre(left[0]) == [];
        left := left[1..];
      }
      menu := menu.parent;
    }
  }

  /** Down through `list`, on through `next`, and back up through `parent`. */
  method Walk(root: Menu, ghost kids: seq<Tree>) returns (visited: seq<Menu>)
    requires Seg(root.list, kids, null, root) && root.parent == null && root.next == null
    ensures visited == Pre(kids)
  {
    visited := [];
    var menu := root.list;
    ghost var cur, p: Menu, rests: seq<seq<Tree>> := kids, root, [];
    SegEnd(menu, cur, p);
    assert visited + Todo(cur, rests) == Pre(kids);
    while menu != null
      invariant menu == null ==> visited == Pre(kids)
      invariant menu != null ==> Seg(menu, cur, null, p) && Above(p, rests)
      invariant menu != null ==> visited + Todo(cur, rests) == Pre(kids)
      decreases menu != null, |Todo(cur, rests)|
    {
      hide *;
      SegEnd(menu, cur, p);
      AboveChild(menu, cur, p, rests);
      ghost var todo := Todo(cur[0].kids, [cur[1..]] + rests);
      assert visited + ([menu] + todo) == visited + [menu] + todo;
      visited := visited + [menu];
      if menu.list != null {
        cur, p, rests := cur[0].kids, menu, [cur[1..]] + rests;
        menu := menu.list;
      } else if menu.next != null {
        cur := cur[1..];
        menu := menu.next;
      } else {
        menu, cur, p, rests := ClimbUp(menu.parent, rests);
        assert todo == [] ==> visited + todo == visited;
      }
    }
  }

  /** menu_finalize on the root, then the walk: every node is finalised exactly once, in the
      order of declaration, and the walk meets every node below the root in that order. */
  method FinalizeThenWalk(root: Menu, ghost t: Tree) returns (visited: seq<Menu>, ghost log: seq<Menu>)
    requires t.menu == root && Seg(root, [t], null, null) && Distinct([t])
    modifies Nodes([t])
    ensures log == Pre([t]) && visited == Pre(t.kids)
    ensures Seg(root, [FinNode(t, []).tree], null, null)
    ensures OnlyPromptedOwn(FinNode(t, []).tree.kids)
  {
    RootKeepsAll(t);
    FinNodePrompted(t, []);
    hide *;
    assert [t] + [] == [t];
    log := Finalize(root, t, [], null);
    ghost var r := FinNode(t, []);
    assert [r.tree] + [] == [r.tree] && [r.tree] + r.rest == [r.tree];
    SamePre([t], [r.tree]);
    SegHead(root, r.tree, [], null, null);
    SegEmptyNext(root);
    NodesAllocated([r.tree]);
    visited := Walk(root, r.tree.kids);
  }

  lemma SegEmptyNext(m: Menu)
    requires Seg(m.next, [], null, null)
    ensures m.next == null
  {
  }

  lemma RootKeepsAll(t: Tree)
    ensures var r := FinNode(t, []); r.rest == [] && Pre([r.tree]) == Pre([t]) && Pre(r.tree.kids) == Pre(t.kids)
  {
    var r := FinNode(t, []);
    assert r.rest == [];
    assert [t] + [] == [t] && [r.tree] + [] == [r.tree];
    PreCons(t, []);
    PreCons(r.tree, []);
    assert Pre([]) == [];
    assert Pre([t]) == [t.menu] + Pre(t.kids) && Pre([r.tree]) == [t.menu] + Pre(r.tree.kids);
    assert Pre([t])[1..] == Pre(t.kids) && Pre([r.tree])[1..] == Pre(r.tree.kids);
  }
}
