/** Source origins, trees that carry one per node, and their canonical rearrangement. */
module Origins {
  import opened Order
  import opened Grouping
  import opened Exprs
  import opened Canonical
  import opened Atoms

  datatype TriviaKind = Whitespace | LineComment | BlockComment

  datatype Trivia = Trivia(kind: TriviaKind, text: Text)

  datatype Origin = Origin(codec: u32, source: Text, start: usize, end: usize, trivia: seq<Trivia>)

  datatype LocatedTree = LocatedTree(expr: Expr, origin: Option<Origin>, children: seq<LocatedTree>)

  function Root(t: LocatedTree): Expr {
    t.expr
  }

  function Roots(ts: seq<LocatedTree>): seq<Expr> {
    MapSeq(Root, ts)
  }

  /** The tree check: every child stands for the matching subexpression, up to value equality. */
  ghost predicate Validated(t: LocatedTree)
    decreases t
  {
    WellFormed(t.expr) && |t.children| == |t.expr.kids|
    && (forall i | 0 <= i < |t.children| :: CanonicalEq(t.expr.kids[i], t.children[i].expr))
    && (forall k | k in t.children :: Validated(k))
  }

  /** Every child is exactly the matching subexpression. */
  predicate Mirrors(t: LocatedTree)
    decreases t
  {
    t.expr.kids == Roots(t.children) && forall k | k in t.children :: Mirrors(k)
  }

  /** The bare tree of an expression. */
  function PlainTree(e: Expr): LocatedTree
    decreases e
  {
    LocatedTree(e, None, PlainTrees(e.kids))
  }

  function PlainTrees(es: seq<Expr>): (r: seq<LocatedTree>)
    ensures |r| == |es|
    decreases es
  {
    if es == [] then [] else [PlainTree(es[0])] + PlainTrees(es[1..])
  }

  // ---- canonical rearrangement ------------------------------------------------------

  function TreeKeys(ts: seq<LocatedTree>): Code {
    RawKeys(CanonAll(Roots(ts)))
  }

  /** Rebuilds a tree bottom-up in canonical order, each node keeping its origin. */
  function CanonTree(t: LocatedTree): LocatedTree
    decreases t
  {
    var children := ArrangeBy(CanonTrees(t.children), GroupWidth(t.expr.head), TreeKeys);
    LocatedTree(Expr(t.expr.head, Roots(children)), t.origin, children)
  }

  function CanonTrees(ts: seq<LocatedTree>): (r: seq<LocatedTree>)
    ensures |r| == |ts|
    decreases ts
  {
    if ts == [] then [] else [CanonTree(ts[0])] + CanonTrees(ts[1..])
  }

  lemma {:induction false} CanonTreesIsMap(ts: seq<LocatedTree>)
    ensures CanonTrees(ts) == MapSeq(CanonTree, ts)
  {
    if ts != [] { CanonTreesIsMap(ts[1..]); }
  }

  /** Sorting trees by key sorts their expressions as the body writer visits them. */
  lemma RootsOfArranged(h: Head, ts: seq<LocatedTree>)
    ensures Roots(ArrangeBy(ts, GroupWidth(h), TreeKeys)) == Visited(h, Roots(ts))
  {
    hide ArrangeBy, RawKeys, CanonAll;
    assert forall g: seq<LocatedTree> :: TreeKeys(g) == CanonicalKeys(MapSeq(Root, g));
    ArrangeByMap(Root, ts, GroupWidth(h), TreeKeys, CanonicalKeys);
  }

  lemma VisitedCanonical(h: Head, ks: seq<Expr>)
    requires CanonAll(ks) == ks
    ensures CanonAll(Visited(h, ks)) == Arrange(h, ks)
  {
    VisitedIsCanonical(Expr(h, ks));
  }

  /** The visiting order of canonical children is the canonical order. */
  lemma VisitedFixed(h: Head, ks: seq<Expr>)
    requires h.Map? ==> |ks| % 2 == 0
    requires forall k | k in ks :: Canon(k) == k
    ensures Visited(h, ks) == Arrange(h, ks)
  {
    hide Arrange, Canon;
    CanonAllFixed(ks);
    VisitedCanonical(h, ks);
    VisitedMembers(h, ks);
    CanonAllFixed(Visited(h, ks));
  }

  lemma VisitedMembers(h: Head, ks: seq<Expr>)
    requires h.Map? ==> |ks| % 2 == 0
    ensures forall k :: k in Visited(h, ks) <==> k in ks
  {
    ArrangeByMembers(ks, GroupWidth(h), CanonicalKeys);
  }

  /** The rebuilt expression is the canonical form, whatever order the tree was given in. */
  lemma {:induction false} CanonTreeExpr(t: LocatedTree)
    requires Validated(t)
    ensures CanonTree(t).expr == Canon(t.expr)
    decreases t
  {
    hide Arrange, ArrangeBy, CanonTrees, CanonAll;
    var ks := t.expr.kids;
    var roots := Roots(CanonTrees(t.children));
    CanonTreesIsMap(t.children);
    forall i | 0 <= i < |ks| ensures roots[i] == Canon(ks[i]) {
      assert t.children[i] in t.children;
      CanonTreeExpr(t.children[i]);
    }
    RootsFixed(ks, roots);
    VisitedFixed(t.expr.head, roots);
    RootsOfArranged(t.expr.head, CanonTrees(t.children));
  }

  /** Canonical children are their own canonical forms. */
  lemma RootsFixed(ks: seq<Expr>, roots: seq<Expr>)
    requires |roots| == |ks| && forall i | 0 <= i < |ks| :: roots[i] == Canon(ks[i]) && WellFormed(ks[i])
    ensures roots == CanonAll(ks) && forall k | k in roots :: Canon(k) == k
  {
    hide Canon, WellFormed;
    CanonAllIsMap(ks);
    forall k | k in roots ensures Canon(k) == k {
      var i :| 0 <= i < |ks| && k == roots[i];
      CanonIdempotent(ks[i]);
    }
  }

  lemma ArrangedTrees(h: Head, ts: seq<LocatedTree>)
    requires h.Map? ==> |ts| % 2 == 0
    ensures |ArrangeBy(ts, GroupWidth(h), TreeKeys)| == |ts|
    ensures forall t :: t in ArrangeBy(ts, GroupWidth(h), TreeKeys) <==> t in ts
  {
    ArrangeByMembers(ts, GroupWidth(h), TreeKeys);
  }

  lemma CanonTreesMember(ts: seq<LocatedTree>, k: LocatedTree)
    ensures k in CanonTrees(ts) <==> exists j | 0 <= j < |ts| :: k == CanonTree(ts[j])
  {
    hide CanonTree;
    CanonTreesIsMap(ts);
  }

  /** The rebuilt tree mirrors its expression and passes the tree check again. */
  lemma {:induction false} CanonTreeValid(t: LocatedTree)
    requires Validated(t)
    ensures Mirrors(CanonTree(t)) && Validated(CanonTree(t))
    decreases t
  {
    hide ArrangeBy, Canon;
    var c := CanonTree(t);
    ArrangedTrees(t.expr.head, CanonTrees(t.children));
    CanonTreeExpr(t);
    CanonWellFormed(t.expr);
    forall k | k in c.children ensures Mirrors(k) && Validated(k) {
      CanonTreesMember(t.children, k);
      var j :| 0 <= j < |t.children| && k == CanonTree(t.children[j]);
      CanonTreeValid(t.children[j]);
    }
  }

  /** What was rebuilt is already in the order it is written in. */
  lemma {:induction false} CanonTreeIdempotent(t: LocatedTree)
    requires Validated(t)
    ensures CanonTree(CanonTree(t)) == CanonTree(t)
    decreases t
  {
    hide ArrangeBy, TreeKeys;
    var c := CanonTree(t);
    ArrangedTrees(t.expr.head, CanonTrees(t.children));
    forall k | k in c.children ensures CanonTree(k) == k {
      CanonTreesMember(t.children, k);
      var j :| 0 <= j < |t.children| && k == CanonTree(t.children[j]);
      CanonTreeIdempotent(t.children[j]);
    }
    CanonTreesFixed(c.children);
    ArrangeByTwice(CanonTrees(t.children), GroupWidth(t.expr.head), TreeKeys);
  }

  lemma CanonTreesFixed(ts: seq<LocatedTree>)
    requires forall t | t in ts :: CanonTree(t) == t
    ensures CanonTrees(ts) == ts
  {
    hide CanonTree;
    CanonTreesIsMap(ts);
  }

  /** The same trees, moved only as whole pairs of a map or whole members of a set. */
  ghost predicate Regrouped(h: Head, was: seq<LocatedTree>, now: seq<LocatedTree>) {
    var w := GroupWidth(h);
    if w == 0 then now == was else multiset(Chunks(now, w)) == multiset(Chunks(was, w))
  }

  ghost predicate AllRearranged(ts: seq<LocatedTree>, moved: seq<LocatedTree>)
    decreases ts, 0
  {
    |moved| == |ts| && forall i | 0 <= i < |ts| :: Rearranged(ts[i], moved[i])
  }

  /**
    * `c` is `t` with map entries and set members moved, at any depth, each
    * node taking its origin and its whole subtree with it.
    */
  ghost predicate Rearranged(t: LocatedTree, c: LocatedTree)
    decreases t, 1
  {
    c.origin == t.origin && c.expr.head == t.expr.head
    && exists moved: seq<LocatedTree> :: AllRearranged(t.children, moved) && Regrouped(t.expr.head, moved, c.children)
  }

  /** Origins travel with their nodes. */
  lemma {:induction false} OriginsTravel(t: LocatedTree)
    ensures Rearranged(t, CanonTree(t))
    decreases t
  {
    hide ArrangeBy;
    var moved := CanonTrees(t.children);
    CanonTreesIsMap(t.children);
    forall i | 0 <= i < |t.children| ensures Rearranged(t.children[i], moved[i]) {
      OriginsTravel(t.children[i]);
    }
    assert AllRearranged(t.children, moved);
    ChildrenRegrouped(t.expr.head, moved);
  }

  lemma ChildrenRegrouped(h: Head, ts: seq<LocatedTree>)
    ensures Regrouped(h, ts, ArrangeBy(ts, GroupWidth(h), TreeKeys))
  {
    hide TreeKeys;
    if GroupWidth(h) != 0 { ArrangeByMoves(ts, GroupWidth(h), TreeKeys); }
  }

  // ---- origins in pre-order -----------------------------------------------------------

  /** One entry for every node, parents first. */
  function Preorder(t: LocatedTree): seq<Option<Origin>>
    decreases t
  {
    [t.origin] + PreorderAll(t.children)
  }

  function PreorderAll(ts: seq<LocatedTree>): seq<Option<Origin>>
    decreases ts
  {
    if ts == [] then [] else Preorder(ts[0]) + PreorderAll(ts[1..])
  }

  /** Deals origins out to the nodes of an expression in pre-order. */
  function Deal(e: Expr, os: seq<Option<Origin>>): LocatedTree
    decreases e
  {
    var children := DealAll(e.kids, if os == [] then [] else os[1..]);
    LocatedTree(Expr(e.head, Roots(children)), if os == [] then None else os[0], children)
  }

  function DealAll(es: seq<Expr>, os: seq<Option<Origin>>): seq<LocatedTree>
    decreases es
  {
    if es == [] then [] else
      var n := NodeCount(es[0]);
      if n <= |os| then [Deal(es[0], os[..n])] + DealAll(es[1..], os[n..])
      else [Deal(es[0], os)] + DealAll(es[1..], [])
  }

  lemma {:induction false} DealExpr(e: Expr, os: seq<Option<Origin>>)
    ensures Deal(e, os).expr == e
    decreases e
  {
    DealAllExpr(e.kids, if os == [] then [] else os[1..]);
  }

  lemma {:induction false} DealAllExpr(es: seq<Expr>, os: seq<Option<Origin>>)
    ensures Roots(DealAll(es, os)) == es
    decreases es
  {
    if es != [] {
      var n := NodeCount(es[0]);
      DealExpr(es[0], if n <= |os| then os[..n] else os);
      DealAllExpr(es[1..], if n <= |os| then os[n..] else []);
    }
  }

  /** A tree is its expression with its origins dealt out. */
  lemma {:induction false} DealPreorder(t: LocatedTree)
    requires Mirrors(t)
    ensures |Preorder(t)| == NodeCount(t.expr) && Deal(t.expr, Preorder(t)) == t
    decreases t
  {
    DealPreorderAll(t.children);
    assert Preorder(t)[1..] == PreorderAll(t.children);
  }

  lemma {:induction false} DealPreorderAll(ts: seq<LocatedTree>)
    requires forall t | t in ts :: Mirrors(t)
    ensures |PreorderAll(ts)| == SumNodes(Roots(ts)) && DealAll(Roots(ts), PreorderAll(ts)) == ts
    decreases ts
  {
    if ts != [] {
      DealPreorder(ts[0]);
      DealPreorderAll(ts[1..]);
      var a, b := Preorder(ts[0]), PreorderAll(ts[1..]);
      assert Roots(ts)[1..] == Roots(ts[1..]);
      assert (a + b)[..|a|] == a && (a + b)[|a|..] == b;
    }
  }

  /** Dealing loses nothing. */
  lemma {:induction false} PreorderDeal(e: Expr, os: seq<Option<Origin>>)
    requires |os| == NodeCount(e)
    ensures Preorder(Deal(e, os)) == os
    decreases e
  {
    PreorderDealAll(e.kids, os[1..]);
    assert os == [os[0]] + os[1..];
  }

  lemma {:induction false} PreorderDealAll(es: seq<Expr>, os: seq<Option<Origin>>)
    requires |os| == SumNodes(es)
    ensures PreorderAll(DealAll(es, os)) == os
    decreases es
  {
    hide Deal, Preorder, NodeCount;
    if es != [] {
      var n := NodeCount(es[0]);
      PreorderDeal(es[0], os[..n]);
      PreorderDealAll(es[1..], os[n..]);
      assert DealAll(es, os)[1..] == DealAll(es[1..], os[n..]);
      assert os == os[..n] + os[n..];
    }
  }
}
