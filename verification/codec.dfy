/** The frame functions of the codecs, and what they promise end to end. */
module Codecs {
  import opened Exprs
  import opened Bits
  import opened Canonical
  import opened Grouping
  import opened Atoms
  import opened Body
  import opened RoundTrips
  import opened Accounting
  import opened SideTables
  import opened Origins
  import opened Wire
  import opened Frames

  const PLAIN: nat := 0
  const ORIGIN: nat := 1
  const TREE: nat := 2
  const DENSE: nat := 4

  predicate HasFlag(flags: nat, flag: nat)
    requires flag > 0
  {
    flags / flag % 2 == 1
  }

  function FormatOf(c: Carrier, flags: nat, t: Tables): (f: Format)
    requires flags <= KnownFlags(c)
    ensures Legal(f)
  {
    Format(c, t, HasFlag(flags, DENSE))
  }

  const FRESH_WRITER: WState := WState(map[], 0)
  const FRESH_READER: RState := RState(0, [])

  // ---- encoding -----------------------------------------------------------------------

  function FrameUnits(c: Carrier, flags: nat, t: Tables, e: Expr, trailer: Units): Units
    requires flags <= KnownFlags(c)
  {
    EncHeader(c, flags, t) + (Enc(FormatOf(c, flags, t), e, FRESH_WRITER).0 + trailer)
  }

  lemma CleanFrame(c: Carrier, flags: nat, t: Tables, e: Expr, trailer: Units)
    requires flags <= KnownFlags(c) && Clean(c, trailer)
    ensures Clean(c, FrameUnits(c, flags, t, e, trailer))
  {
    hide EncHeader, Enc;
    CleanHeader(c, flags, t);
    CleanEnc(FormatOf(c, flags, t), e, FRESH_WRITER);
  }

  /** Header, canonical body and origins of one value, as bytes. */
  ghost function Frame(c: Carrier, flags: nat, e: Expr, trailer: Units): bytes
    requires flags <= KnownFlags(c) && Clean(c, trailer)
  {
    CleanFrame(c, flags, TablesOf(e), Canon(e), trailer);
    Packed(c, FrameUnits(c, flags, TablesOf(e), Canon(e), trailer))
  }

  ghost function EncodeLocated(c: Carrier, e: Expr, origin: Option<Origin>, lossless: bool): bytes {
    if lossless && origin.Some? then
      CleanOrigin(c, origin.value);
      Frame(c, ORIGIN, e, EncOrigin(c, origin.value))
    else Frame(c, PLAIN, e, [])
  }

  ghost function EncodeFrame(c: Carrier, e: Expr): bytes {
    EncodeLocated(c, e, None, false)
  }

  ghost function EncodeDense(e: Expr): bytes {
    Frame(Bitwise, DENSE, e, [])
  }

  /** The byte codec rebuilds the tree first; the bit codec writes it as it stands. */
  ghost function TreeToWrite(c: Carrier, t: LocatedTree): LocatedTree {
    if c.Binary? then CanonTree(t) else t
  }

  ghost function TreeFrame(c: Carrier, t: LocatedTree): bytes {
    EncTreeIsPreorder(c, t);
    CleanMaybes(c, Preorder(t));
    Frame(c, TREE, t.expr, EncTree(c, t))
  }

  ghost function EncodeTree(c: Carrier, t: LocatedTree, lossless: bool): Option<bytes> {
    if !Validated(t) || !Validated(TreeToWrite(c, t)) then None
    else if lossless then Some(TreeFrame(c, TreeToWrite(c, t)))
    else Some(EncodeFrame(c, TreeToWrite(c, t).expr))
  }

  // ---- decoding -----------------------------------------------------------------------

  datatype Parts = Parts(tables: Tables, tree: LocatedTree, flags: nat)

  function DecOrigins(c: Carrier, limits: Limits, flags: nat, e: Expr, s: Units): Option<(LocatedTree, Units)> {
    match (if HasFlag(flags, TREE) then DecTree(c, limits, e, s, 0) else Some((PlainTree(e), s)))
    case None => None
    case Some((tree, rest)) =>
      if !HasFlag(flags, ORIGIN) then Some((tree, rest)) else
      match DecOrigin(c, limits, rest)
      case None => None
      case Some((o, tail)) => Some((tree.(origin := Some(o)), tail))
  }

  /** A byte frame ends where its payload ends; a bit frame ends with fewer than eight zero bits. */
  predicate Finished(c: Carrier, rest: Units) {
    if c.Binary? then rest == [] else |rest| < 8 && forall i | 0 <= i < |rest| :: rest[i] == 0
  }

  function Decode(c: Carrier, limits: Limits, frame: bytes): Option<Parts> {
    if |frame| > limits.maxFrameBytes then None else
    match DecHeader(c, limits, Payload(c, frame))
    case None => None
    case Some(h) =>
      match Dec(FormatOf(c, h.flags, h.tables), limits, h.rest, 0, FRESH_READER)
      case None => None
      case Some(body) =>
        match DecOrigins(c, limits, h.flags, body.value, body.rest)
        case None => None
        case Some((tree, rest)) => if Finished(c, rest) then Some(Parts(h.tables, tree, h.flags)) else None
  }

  // ---- what a decoder's limits must allow -------------------------------------------------

  ghost predicate Decodable(c: Carrier, limits: Limits, e: Expr) {
    WellFormed(e) && Fits(c, limits, e)
    && NodeCount(e) <= limits.maxExprNodes && Height(e) <= limits.maxDepth
    && TablesWithin(limits, TablesOf(e))
  }

  lemma {:induction false} CanonFits(c: Carrier, limits: Limits, e: Expr)
    requires WellFormed(e) && Fits(c, limits, e)
    ensures Fits(c, limits, Canon(e))
    decreases e
  {
    hide Arrange, HeadFits;
    ArrangeFacts(e.head, CanonAll(e.kids));
    CanonKids(e);
    forall d | d in Canon(e).kids ensures Fits(c, limits, d) {
      var k :| k in e.kids && d == Canon(k);
      CanonFits(c, limits, k);
    }
  }

  lemma {:induction false} HeightAllAtMost(ks: seq<Expr>, m: nat)
    ensures HeightAll(ks) <= m <==> forall k | k in ks :: Height(k) < m
  {
    hide Height;
    if ks != [] {
      HeightAllAtMost(ks[1..], m);
      assert ks[0] in ks && forall k | k in ks[1..] :: k in ks;
      if HeightAll(ks) <= m {
        forall k | k in ks ensures Height(k) < m {
          assert k == ks[0] || k in ks[1..];
        }
      }
    }
  }

  lemma {:induction false} CanonHeight(e: Expr)
    requires WellFormed(e)
    ensures Height(Canon(e)) == Height(e)
    decreases e
  {
    hide Canon, HeightAll;
    var c := Canon(e);
    CanonKids(e);
    forall k | k in e.kids ensures Height(Canon(k)) == Height(k) {
      CanonHeight(k);
    }
    HeightAllAtMost(c.kids, HeightAll(e.kids));
    HeightAllAtMost(e.kids, HeightAll(e.kids));
    HeightAllAtMost(c.kids, HeightAll(c.kids));
    HeightAllAtMost(e.kids, HeightAll(c.kids));
  }

  lemma DecodableCanon(c: Carrier, limits: Limits, e: Expr)
    requires Decodable(c, limits, e)
    ensures Decodable(c, limits, Canon(e))
  {
    hide Canon, TablesOf, WellFormed, Fits, NodeCount, Height, TablesWithin;
    CanonWellFormed(e);
    CanonFits(c, limits, e);
    CanonHeight(e);
    TablesOfCanon(e);
  }

  // ---- round trips ------------------------------------------------------------------------

  /** The canonical body reads back between any header and any trailer. */
  lemma BodyRoundTrip(c: Carrier, limits: Limits, flags: nat, e: Expr, rest: Units)
    requires flags <= KnownFlags(c) && Decodable(c, limits, e)
    ensures var f := FormatOf(c, flags, TablesOf(e));
      var d := Dec(f, limits, Enc(f, Canon(e), FRESH_WRITER).0 + rest, 0, FRESH_READER);
      d.Some? && d.value.value == Canon(e) && d.value.rest == rest
  {
    hide Enc, Dec, Canon, TablesOf, TablesWithin, NodeCount, Height, Fits, WellFormed;
    var f := FormatOf(c, flags, TablesOf(e));
    DecodableCanon(c, limits, e);
    TablesOfCanon(e);
    TablesComplete(Canon(e));
    TablesWithinFit(limits, TablesOf(e));
    var r := ExprRoundTrip(f, limits, Canon(e), FRESH_WRITER, FRESH_READER, 0, rest, NodeCount(Canon(e)));
  }

  lemma TablesWithinFit(limits: Limits, t: Tables)
    requires TablesWithin(limits, t)
    ensures TablesFit(t)
  {
  }

  lemma PaddingFinished(c: Carrier, s: Units)
    ensures Finished(c, Padding(c, s))
  {
  }

  lemma FrameSplit(c: Carrier, flags: nat, t: Tables, e: Expr, trailer: Units, pad: Units)
    requires flags <= KnownFlags(c)
    ensures FrameUnits(c, flags, t, e, trailer) + pad
         == EncHeader(c, flags, t) + (Enc(FormatOf(c, flags, t), e, FRESH_WRITER).0 + (trailer + pad))
  {
    hide EncHeader, Enc;
    var h, b := EncHeader(c, flags, t), Enc(FormatOf(c, flags, t), e, FRESH_WRITER).0;
    Assoc(h, b + trailer, pad);
    Assoc(b, trailer, pad);
  }

  /**
    * A frame decodes to its own tables and canonical value; the reader stops at
    * the writer's last unit, so only padding is left.
    */
  lemma FrameRoundTrip(c: Carrier, limits: Limits, flags: nat, e: Expr, trailer: Units, tree: LocatedTree)
    requires flags <= KnownFlags(c) && Clean(c, trailer) && Decodable(c, limits, e)
    requires |Frame(c, flags, e, trailer)| <= limits.maxFrameBytes
    requires forall pad: Units :: DecOrigins(c, limits, flags, Canon(e), trailer + pad) == Some((tree, pad))
    ensures Decode(c, limits, Frame(c, flags, e, trailer)) == Some(Parts(TablesOf(e), tree, flags))
  {
    hide Enc, Dec, EncHeader, DecHeader, Canon, TablesOf, TablesWithin, NodeCount, Height, Fits, WellFormed,
      DecOrigins, FrameUnits, Payload, Padding, Finished, Packed;
    var t := TablesOf(e);
    var units := FrameUnits(c, flags, t, Canon(e), trailer);
    CleanFrame(c, flags, t, Canon(e), trailer);
    UnpackPacked(c, units);
    var pad := Padding(c, units);
    FrameSplit(c, flags, t, Canon(e), trailer, pad);
    var rest := Enc(FormatOf(c, flags, t), Canon(e), FRESH_WRITER).0 + (trailer + pad);
    TablesComplete(e);
    DecHeaderOf(c, limits, flags, t, rest);
    BodyRoundTrip(c, limits, flags, e, trailer + pad);
    PaddingFinished(c, units);
  }

  lemma NoOrigins(c: Carrier, limits: Limits, flags: nat, e: Expr, pad: Units)
    requires flags == PLAIN || flags == DENSE
    ensures DecOrigins(c, limits, flags, e, [] + pad) == Some((PlainTree(e), pad))
  {
    hide DecTree, DecOrigin, PlainTree;
    assert [] + pad == pad;
  }

  /** Plain frames, at any bit alignment. */
  lemma PlainRoundTrip(c: Carrier, limits: Limits, e: Expr)
    requires Decodable(c, limits, e) && |EncodeFrame(c, e)| <= limits.maxFrameBytes
    ensures Decode(c, limits, EncodeFrame(c, e)) == Some(Parts(TablesOf(e), PlainTree(Canon(e)), PLAIN))
  {
    hide Frame, Decode, Decodable, DecOrigins, Canon, TablesOf, PlainTree;
    forall pad: Units ensures DecOrigins(c, limits, PLAIN, Canon(e), [] + pad) == Some((PlainTree(Canon(e)), pad)) {
      NoOrigins(c, limits, PLAIN, Canon(e), pad);
    }
    FrameRoundTrip(c, limits, PLAIN, e, [], PlainTree(Canon(e)));
  }

  /** Dense frames: sharing is invisible after decoding. */
  lemma DenseRoundTrip(limits: Limits, e: Expr)
    requires Decodable(Bitwise, limits, e) && |EncodeDense(e)| <= limits.maxFrameBytes
    ensures Decode(Bitwise, limits, EncodeDense(e)) == Some(Parts(TablesOf(e), PlainTree(Canon(e)), DENSE))
  {
    hide Frame, Decode, Decodable, DecOrigins, Canon, TablesOf, PlainTree;
    forall pad: Units ensures DecOrigins(Bitwise, limits, DENSE, Canon(e), [] + pad) == Some((PlainTree(Canon(e)), pad)) {
      NoOrigins(Bitwise, limits, DENSE, Canon(e), pad);
    }
    FrameRoundTrip(Bitwise, limits, DENSE, e, [], PlainTree(Canon(e)));
  }

  /** Frames with one origin give that origin back at the root. */
  lemma LocatedRoundTrip(c: Carrier, limits: Limits, e: Expr, o: Origin)
    requires Decodable(c, limits, e) && OriginWithin(limits, o)
    requires |EncodeLocated(c, e, Some(o), true)| <= limits.maxFrameBytes
    ensures Decode(c, limits, EncodeLocated(c, e, Some(o), true))
         == Some(Parts(TablesOf(e), PlainTree(Canon(e)).(origin := Some(o)), ORIGIN))
  {
    hide Frame, Decode, Decodable, EncOrigin, DecOrigin, Canon, TablesOf, OriginWithin, PlainTree;
    var tree := PlainTree(Canon(e)).(origin := Some(o));
    CleanOrigin(c, o);
    forall pad: Units ensures DecOrigins(c, limits, ORIGIN, Canon(e), EncOrigin(c, o) + pad) == Some((tree, pad)) {
      DecOriginOf(c, limits, o, pad);
    }
    FrameRoundTrip(c, limits, ORIGIN, e, EncOrigin(c, o), tree);
  }

  /** A tree frame deals the written origins out over the canonical expression, in pre-order. */
  lemma TreeOrigins(c: Carrier, limits: Limits, e: Expr, os: seq<Option<Origin>>, pad: Units)
    requires |os| == NodeCount(e) && AllWithin(limits, os) && Height(e) <= limits.maxDepth
    ensures DecOrigins(c, limits, TREE, e, EncMaybes(c, os) + pad) == Some((Deal(e, os), pad))
  {
    hide DecTree, EncMaybes, Deal, AllWithin, NodeCount, Height, DecOrigin;
    DecTreeDeals(c, limits, e, os, pad, 0);
  }

  /** The three flags are independent: a tree of origins, then one origin for the root, and sharing in the body. */
  lemma OriginsByFlags(c: Carrier, limits: Limits, flags: nat, e: Expr, os: seq<Option<Origin>>, o: Origin, rest: Units)
    requires |os| == NodeCount(e) && AllWithin(limits, os) && Height(e) <= limits.maxDepth && OriginWithin(limits, o)
    ensures flags in {2, 3, 6, 7} ==> var tree := Deal(e, os);
      DecOrigins(c, limits, flags, e, EncMaybes(c, os) + ((if flags in {3, 7} then EncOrigin(c, o) else []) + rest))
      == Some((if flags in {3, 7} then tree.(origin := Some(o)) else tree, rest))
    ensures flags in {1, 5} ==>
      DecOrigins(c, limits, flags, e, EncOrigin(c, o) + rest) == Some((PlainTree(e).(origin := Some(o)), rest))
    ensures flags in {0, 4} ==> DecOrigins(c, limits, flags, e, rest) == Some((PlainTree(e), rest))
    ensures flags <= KnownFlags(c) ==> forall t :: FormatOf(c, flags, t) == Format(c, t, flags >= 4)
  {
    hide DecTree, EncMaybes, Deal, AllWithin, NodeCount, Height, DecOrigin, EncOrigin, PlainTree;
    if flags in {2, 3, 6, 7} {
      DecTreeDeals(c, limits, e, os, (if flags in {3, 7} then EncOrigin(c, o) else []) + rest, 0);
    }
    DecOriginOf(c, limits, o, rest);
    assert [] + rest == rest;
  }

  lemma TreeFrameDeals(c: Carrier, limits: Limits, t: LocatedTree)
    requires Decodable(c, limits, t.expr) && AllWithin(limits, Preorder(t)) && |Preorder(t)| == NodeCount(t.expr)
    requires |TreeFrame(c, t)| <= limits.maxFrameBytes
    ensures Decode(c, limits, TreeFrame(c, t)) == Some(Parts(TablesOf(t.expr), Deal(Canon(t.expr), Preorder(t)), TREE))
  {
    hide Frame, Decode, DecOrigins, EncTree, Canon, TablesOf, AllWithin, Preorder, Deal, Fits, Height, NodeCount,
      WellFormed, TablesWithin;
    var e, os := Canon(t.expr), Preorder(t);
    EncTreeIsPreorder(c, t);
    CleanMaybes(c, os);
    CanonWellFormed(t.expr);
    CanonHeight(t.expr);
    forall pad: Units ensures DecOrigins(c, limits, TREE, e, EncTree(c, t) + pad) == Some((Deal(e, os), pad)) {
      TreeOrigins(c, limits, e, os, pad);
    }
    FrameRoundTrip(c, limits, TREE, t.expr, EncTree(c, t), Deal(e, os));
  }

  lemma {:induction false} ValidatedPreorder(t: LocatedTree)
    requires Validated(t)
    ensures |Preorder(t)| == NodeCount(t.expr)
    decreases t
  {
    var ks := t.expr.kids;
    ValidatedPreorders(ks, t.children);
  }

  lemma {:induction false} ValidatedPreorders(ks: seq<Expr>, ts: seq<LocatedTree>)
    requires |ks| == |ts|
    requires forall k | k in ks :: WellFormed(k)
    requires forall i | 0 <= i < |ts| :: CanonicalEq(ks[i], ts[i].expr)
    requires forall t | t in ts :: Validated(t)
    ensures |PreorderAll(ts)| == SumNodes(ks)
    decreases ts
  {
    if ts != [] {
      ValidatedPreorder(ts[0]);
      CanonWellFormed(ks[0]);
      CanonWellFormed(ts[0].expr);
      ValidatedPreorders(ks[1..], ts[1..]);
    }
  }

  /** The byte codec gives back the rebuilt tree, every origin on its own node. */
  lemma BinaryTreeRoundTrip(limits: Limits, t: LocatedTree)
    requires Validated(t) && Decodable(Binary, limits, t.expr) && AllWithin(limits, Preorder(CanonTree(t)))
    requires EncodeTree(Binary, t, true).Some? ==> |EncodeTree(Binary, t, true).value| <= limits.maxFrameBytes
    ensures EncodeTree(Binary, t, true).Some?
    ensures Decode(Binary, limits, EncodeTree(Binary, t, true).value)
         == Some(Parts(TablesOf(t.expr), CanonTree(t), TREE))
  {
    hide TreeFrame, Decode, Validated, Canon, CanonTree, TablesOf, AllWithin, Preorder, Deal, Decodable;
    var u := CanonTree(t);
    CanonTreeValid(t);
    CanonTreeExpr(t);
    assert WellFormed(t.expr) by { ValidatedIsWellFormed(t); }
    DecodableCanon(Binary, limits, t.expr);
    TablesOfCanon(t.expr);
    CanonIdempotent(t.expr);
    DealPreorder(u);
    TreeFrameDeals(Binary, limits, u);
  }

  lemma ValidatedIsWellFormed(t: LocatedTree)
    requires Validated(t)
    ensures WellFormed(t.expr)
  {
  }

  /** The bit codec writes origins in the given order while the body is sorted. */
  lemma BitwiseTreeDeals(limits: Limits, t: LocatedTree)
    requires Validated(t) && Decodable(Bitwise, limits, t.expr) && AllWithin(limits, Preorder(t))
    requires |TreeFrame(Bitwise, t)| <= limits.maxFrameBytes
    ensures EncodeTree(Bitwise, t, true) == Some(TreeFrame(Bitwise, t))
    ensures Decode(Bitwise, limits, TreeFrame(Bitwise, t))
         == Some(Parts(TablesOf(t.expr), Deal(Canon(t.expr), Preorder(t)), TREE))
  {
    hide TreeFrame, Decode, Canon, TablesOf, AllWithin, Preorder, Deal, Decodable;
    ValidatedPreorder(t);
    TreeFrameDeals(Bitwise, limits, t);
  }

  /** So its tree frames round-trip exactly when rebuilding leaves the order of origins alone. */
  lemma BitwiseTreeRoundTrip(limits: Limits, t: LocatedTree)
    requires Validated(t) && Decodable(Bitwise, limits, t.expr) && AllWithin(limits, Preorder(t))
    requires |TreeFrame(Bitwise, t)| <= limits.maxFrameBytes
    ensures Decode(Bitwise, limits, TreeFrame(Bitwise, t)) == Some(Parts(TablesOf(t.expr), CanonTree(t), TREE))
       <==> Preorder(t) == Preorder(CanonTree(t))
  {
    hide TreeFrame, Decode, Canon, TablesOf, AllWithin, Preorder, Deal, Decodable, CanonTree, NodeCount, Mirrors;
    var e, u := Canon(t.expr), CanonTree(t);
    BitwiseTreeDeals(limits, t);
    ValidatedPreorder(t);
    CanonTreeValid(t);
    CanonTreeExpr(t);
    ValidatedIsWellFormed(t);
    CanonWellFormed(t.expr);
    DealPreorder(u);
    PreorderDeal(e, Preorder(t));
  }
}
