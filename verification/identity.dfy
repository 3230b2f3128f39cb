/** Canonical bytes decide value equality, and every accepted frame is within its limits. */
module Identity {
  import opened Exprs
  import opened Bits
  import opened Grouping
  import opened Canonical
  import opened Atoms
  import opened Body
  import opened Accounting
  import opened SideTables
  import opened Origins
  import opened Wire
  import opened Frames
  import opened Codecs

  const WIDEST: Limits := Limits(USIZE_MAX, USIZE_MAX, USIZE_MAX, USIZE_MAX, USIZE_MAX, USIZE_MAX, USIZE_MAX)

  /** Every length and count of the value fits a machine word, as anything held in memory does. */
  ghost predicate Storable(c: Carrier, e: Expr) {
    Decodable(c, WIDEST, e) && |EncodeFrame(c, e)| <= USIZE_MAX
  }

  lemma EqualValuesEqualFrames(c: Carrier, a: Expr, b: Expr)
    requires WellFormed(a) && WellFormed(b) && CanonicalEq(a, b)
    ensures EncodeFrame(c, a) == EncodeFrame(c, b)
    ensures EncodeDense(a) == EncodeDense(b)
  {
    hide Canon, TablesOf, Packed, FrameUnits;
    TablesOfCanon(a);
    TablesOfCanon(b);
  }

  /** Two values have the same canonical bytes exactly when they are equal. */
  lemma FramesDecideEquality(c: Carrier, a: Expr, b: Expr)
    requires Storable(c, a) && Storable(c, b)
    ensures EncodeFrame(c, a) == EncodeFrame(c, b) <==> CanonicalEq(a, b)
  {
    hide EncodeFrame, EncodeDense, Decode, Canon, Fits, Height, NodeCount, TablesWithin, TablesOf;
    if EncodeFrame(c, a) == EncodeFrame(c, b) {
      PlainRoundTrip(c, WIDEST, a);
      PlainRoundTrip(c, WIDEST, b);
    } else if CanonicalEq(a, b) {
      EqualValuesEqualFrames(c, a, b);
    }
  }

  /** The same for frames with sharing, although they are written quite differently. */
  lemma DenseFramesDecideEquality(a: Expr, b: Expr)
    requires Decodable(Bitwise, WIDEST, a) && |EncodeDense(a)| <= USIZE_MAX
    requires Decodable(Bitwise, WIDEST, b) && |EncodeDense(b)| <= USIZE_MAX
    ensures EncodeDense(a) == EncodeDense(b) <==> CanonicalEq(a, b)
  {
    hide EncodeFrame, EncodeDense, Decode, Canon, Fits, Height, NodeCount, TablesWithin, TablesOf;
    if EncodeDense(a) == EncodeDense(b) {
      DenseRoundTrip(WIDEST, a);
      DenseRoundTrip(WIDEST, b);
    } else if CanonicalEq(a, b) {
      EqualValuesEqualFrames(Bitwise, a, b);
    }
  }

  /** Re-encoding what a frame decodes to gives the frame back, sharing or not. */
  lemma ReencodingIsIdentity(c: Carrier, limits: Limits, e: Expr)
    requires Decodable(c, limits, e) && |EncodeFrame(c, e)| <= limits.maxFrameBytes
    ensures Decode(c, limits, EncodeFrame(c, e)).Some?
    ensures EncodeFrame(c, Decode(c, limits, EncodeFrame(c, e)).value.tree.expr) == EncodeFrame(c, e)
    ensures c.Bitwise? && |EncodeDense(e)| <= limits.maxFrameBytes ==>
      Decode(c, limits, EncodeDense(e)).Some?
      && EncodeDense(Decode(c, limits, EncodeDense(e)).value.tree.expr) == EncodeDense(e)
  {
    hide EncodeFrame, EncodeDense, Decode, Canon, Fits, Height, NodeCount, TablesWithin, TablesOf;
    PlainRoundTrip(c, limits, e);
    CanonWellFormed(e);
    CanonIdempotent(e);
    EqualValuesEqualFrames(c, Canon(e), e);
    if c.Bitwise? && |EncodeDense(e)| <= limits.maxFrameBytes { DenseRoundTrip(limits, e); }
  }

  // ---- reordering ------------------------------------------------------------------------

  ghost predicate AllReordered(ks: seq<Expr>, moved: seq<Expr>)
    decreases ks, 0
  {
    |moved| == |ks| && forall i | 0 <= i < |ks| :: Reordered(ks[i], moved[i])
  }

  /** Moves of whole map entries and set members only. */
  ghost predicate SameRuns(h: Head, was: seq<Expr>, now: seq<Expr>) {
    var w := GroupWidth(h);
    if w == 0 then now == was else multiset(Chunks(now, w)) == multiset(Chunks(was, w))
  }

  /** `b` is `a` with map entries and set members in another order, at any depth. */
  ghost predicate Reordered(a: Expr, b: Expr)
    decreases a, 1
  {
    b.head == a.head && exists moved: seq<Expr> :: AllReordered(a.kids, moved) && SameRuns(a.head, moved, b.kids)
  }

  lemma {:induction false} ReorderedEqual(a: Expr, b: Expr)
    requires Reordered(a, b)
    ensures CanonicalEq(a, b)
    decreases a
  {
    hide Canon;
    var moved: seq<Expr> :| AllReordered(a.kids, moved) && SameRuns(a.head, moved, b.kids);
    forall i | 0 <= i < |a.kids| ensures CanonicalEq(a.kids[i], moved[i]) {
      ReorderedEqual(a.kids[i], moved[i]);
    }
    CanonCongruence(a.head, a.kids, moved);
    if GroupWidth(a.head) != 0 { InsertionOrderIrrelevant(a.head, moved, b.kids); }
    assert a == Expr(a.head, a.kids) && b == Expr(a.head, b.kids);
  }

  /** Insertion order never reaches the bytes. */
  lemma ReorderingKeepsBytes(c: Carrier, a: Expr, b: Expr)
    requires WellFormed(a) && WellFormed(b) && Reordered(a, b)
    ensures EncodeFrame(c, a) == EncodeFrame(c, b) && EncodeDense(a) == EncodeDense(b)
  {
    hide EncodeFrame, EncodeDense;
    ReorderedEqual(a, b);
    EqualValuesEqualFrames(c, a, b);
  }

  /** The canonical form itself is only a reordering. */
  lemma {:induction false} CanonIsReordering(e: Expr)
    ensures Reordered(e, Canon(e))
    decreases e
  {
    hide ArrangeBy;
    var moved := CanonAll(e.kids);
    CanonAllIsMap(e.kids);
    forall i | 0 <= i < |e.kids| ensures Reordered(e.kids[i], moved[i]) {
      CanonIsReordering(e.kids[i]);
    }
    assert AllReordered(e.kids, moved);
    RunsKept(e.head, moved);
  }

  lemma RunsKept(h: Head, ks: seq<Expr>)
    ensures SameRuns(h, ks, Arrange(h, ks))
  {
    if GroupWidth(h) != 0 { ArrangeByMoves(ks, GroupWidth(h), RawKeys); }
  }

  // ---- any accepted frame ------------------------------------------------------------------

  lemma {:induction false} PlainTreeMirrors(e: Expr)
    ensures Mirrors(PlainTree(e))
    decreases e
  {
    PlainTreesMirror(e.kids);
  }

  lemma {:induction false} PlainTreesMirror(es: seq<Expr>)
    ensures Roots(PlainTrees(es)) == es && forall t | t in PlainTrees(es) :: Mirrors(t)
    decreases es
  {
    if es != [] {
      PlainTreeMirrors(es[0]);
      PlainTreesMirror(es[1..]);
    }
  }

  lemma {:induction false} DecTreeMirrors(c: Carrier, limits: Limits, e: Expr, s: Units, depth: nat)
    requires DecTree(c, limits, e, s, depth).Some?
    ensures var t := DecTree(c, limits, e, s, depth).value.0; t.expr == e && Mirrors(t)
    decreases e
  {
    hide DecMaybe;
    var (_, rest) := DecMaybe(c, limits, s).value;
    DecTreesMirror(c, limits, e.kids, rest, depth + 1);
  }

  lemma {:induction false} DecTreesMirror(c: Carrier, limits: Limits, es: seq<Expr>, s: Units, depth: nat)
    requires DecTrees(c, limits, es, s, depth).Some?
    ensures var ts := DecTrees(c, limits, es, s, depth).value.0;
      Roots(ts) == es && forall t | t in ts :: Mirrors(t)
    decreases es
  {
    if es != [] {
      DecTreeMirrors(c, limits, es[0], s, depth);
      DecTreesMirror(c, limits, es[1..], DecTree(c, limits, es[0], s, depth).value.1, depth);
    }
  }

  lemma DecOriginsMirrors(c: Carrier, limits: Limits, flags: nat, e: Expr, s: Units)
    requires DecOrigins(c, limits, flags, e, s).Some?
    ensures var t := DecOrigins(c, limits, flags, e, s).value.0; t.expr == e && Mirrors(t)
  {
    hide DecOrigin, DecTree, PlainTree;
    PlainTreeMirrors(e);
    PlainTreeExpr(e);
    if HasFlag(flags, TREE) { DecTreeMirrors(c, limits, e, s, 0); }
  }

  lemma PlainTreeExpr(e: Expr)
    ensures PlainTree(e).expr == e
  {
  }

  lemma FreshSlots(c: Carrier, limits: Limits)
    ensures SlotsGood(c, limits, FRESH_READER)
  {
  }

  /**
    * Whatever bytes are accepted, the decoded value has at most the allowed
    * number of nodes after expansion; without sharing it is also at most the
    * allowed depth, and every origin sits on a node of it.
    */
  lemma DecodeIsBounded(c: Carrier, limits: Limits, frame: bytes)
    requires Decode(c, limits, frame).Some?
    ensures var p := Decode(c, limits, frame).value;
      Mirrors(p.tree) && Sized(c, limits, p.tree.expr) && NodeCount(p.tree.expr) <= limits.maxExprNodes
      && (!HasFlag(p.flags, DENSE) ==> Height(p.tree.expr) <= limits.maxDepth)
  {
    hide Dec, DecHeader, DecOrigins, Payload, Finished, NodeCount, Height, Sized, Mirrors, SlotsGood;
    var h := DecHeader(c, limits, Payload(c, frame)).value;
    var f := FormatOf(c, h.flags, h.tables);
    var body := Dec(f, limits, h.rest, 0, FRESH_READER).value;
    FreshSlots(c, limits);
    DecFacts(f, limits, h.rest, 0, FRESH_READER);
    DecOriginsMirrors(c, limits, h.flags, body.value, body.rest);
    SomeNodes(body.value);
  }

  lemma SomeNodes(e: Expr)
    ensures NodeCount(e) > 0
  {
  }

  // ---- where the bit codec's tree frames go wrong --------------------------------------------

  /** A tree whose maps and sets are already in canonical order comes back as it was. */
  lemma SortedTreeRoundTrip(limits: Limits, t: LocatedTree)
    requires Validated(t) && Mirrors(t) && Canon(t.expr) == t.expr
    requires Decodable(Bitwise, limits, t.expr) && AllWithin(limits, Preorder(t))
    requires |TreeFrame(Bitwise, t)| <= limits.maxFrameBytes
    ensures Decode(Bitwise, limits, TreeFrame(Bitwise, t)) == Some(Parts(TablesOf(t.expr), t, TREE))
  {
    hide TreeFrame, Decode, Canon, TablesOf, AllWithin, Preorder, Deal, Decodable, Mirrors, Validated;
    BitwiseTreeDeals(limits, t);
    DealPreorder(t);
  }
}
