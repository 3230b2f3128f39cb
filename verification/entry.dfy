/** The public frame functions, run by the writers and readers. */
module Entry {
  import opened Exprs
  import opened Bits
  import opened Canonical
  import opened Grouping
  import opened Atoms
  import opened Body
  import opened Accounting
  import opened SideTables
  import opened Origins
  import opened Wire
  import opened Frames
  import opened Codecs
  import opened BitIo
  import opened FrameWriters
  import opened FrameReaders
  import opened Identity
  import opened Gate

  /** Header and canonical body; nothing the writer looks up can be missing. */
  method WriteFrame(w: FrameWriter, flags: nat, e: Expr) returns (ok: bool)
    requires w.Valid() && WellFormed(e) && flags <= KnownFlags(w.carrier)
    requires w.Written() == [] && w.State() == FRESH_WRITER
    requires w.tables == TablesOf(e) && w.dense == HasFlag(flags, DENSE)
    modifies w, w.out
    ensures w.Valid() && ok
    ensures w.Written() == FrameUnits(w.carrier, flags, TablesOf(e), Canon(e), [])
  {
    hide TablesOf, EncHeader, Enc, Canon, WellFormed, Closed;
    TablesComplete(e);
    ok := w.WriteHeader(flags);
    assert [] + EncHeader(w.carrier, flags, w.tables) == EncHeader(w.carrier, flags, w.tables);
    ok := w.WriteExpr(e);
    ghost var body := Enc(FormatOf(w.carrier, flags, w.tables), Canon(e), FRESH_WRITER).0;
    assert body + [] == body;
  }

  /** The trailer goes right after the body. */
  lemma WithTrailer(c: Carrier, flags: nat, t: Tables, e: Expr, trailer: Units)
    requires flags <= KnownFlags(c)
    ensures FrameUnits(c, flags, t, e, []) + trailer == FrameUnits(c, flags, t, e, trailer)
  {
    FrameSplit(c, flags, t, e, [], trailer);
    assert [] + trailer == trailer;
  }

  method EncodeLocatedFrame(c: Carrier, e: Expr, origin: Option<Origin>, lossless: bool) returns (frame: Option<bytes>)
    requires WellFormed(e)
    ensures frame == Some(EncodeLocated(c, e, origin, lossless))
  {
    hide TablesOf, FrameUnits, Canon, WellFormed, EncOrigin, Packed;
    var tables := Collect(e);
    var w := new FrameWriter(c, tables, false);
    var flags := if lossless && origin.Some? then ORIGIN else PLAIN;
    var ok := WriteFrame(w, flags, e);
    if !ok { return None; }
    if flags == ORIGIN {
      WithTrailer(c, ORIGIN, tables, Canon(e), EncOrigin(c, origin.value));
      w.WriteOrigin(origin.value);
    }
    var out := w.Finish();
    return Some(out);
  }

  method EncodeDenseFrame(e: Expr) returns (frame: Option<bytes>)
    requires WellFormed(e)
    ensures frame == Some(EncodeDense(e))
  {
    hide TablesOf, FrameUnits, Canon, WellFormed, Packed;
    var tables := Collect(e);
    var w := new FrameWriter(Bitwise, tables, true);
    var ok := WriteFrame(w, DENSE, e);
    if !ok { return None; }
    var out := w.Finish();
    return Some(out);
  }

  /** The tree check of both tree encoders. */
  method Validate(t: LocatedTree) returns (ok: bool)
    requires AllWellFormed(t)
    ensures ok <==> Validated(t)
    decreases t
  {
    hide Canon, WellFormed;
    if |t.children| != |t.expr.kids| { return false; }
    var i := 0;
    while i < |t.children|
      invariant 0 <= i <= |t.children|
      invariant forall j | 0 <= j < i :: CanonicalEq(t.expr.kids[j], t.children[j].expr) && Validated(t.children[j])
    {
      assert t.children[i] in t.children;
      if !CanonicalEq(t.expr.kids[i], t.children[i].expr) { return false; }
      var child := Validate(t.children[i]);
      if !child { return false; }
      i := i + 1;
    }
    return true;
  }

  /** Every expression of the tree is one the kernel can build. */
  ghost predicate AllWellFormed(t: LocatedTree)
    decreases t
  {
    WellFormed(t.expr) && forall k | k in t.children :: AllWellFormed(k)
  }

  method EncodeTreeFrame(c: Carrier, t: LocatedTree, lossless: bool) returns (frame: Option<bytes>)
    requires AllWellFormed(t)
    ensures frame == EncodeTree(c, t, lossless)
  {
    hide Frame, TablesOf, FrameUnits, Canon, CanonTree, Validated, EncTree, Packed;
    var valid := Validate(t);
    if !valid { return None; }
    CanonTreeValid(t);
    TreeToWriteValid(c, t);
    var u := if c.Binary? then CanonTree(t) else t;
    ValidatedIsWellFormed(u);
    if lossless { frame := EncodeOrigins(c, u); } else { frame := EncodeLocatedFrame(c, u.expr, None, false); }
  }

  lemma TreeToWriteValid(c: Carrier, t: LocatedTree)
    requires Validated(t) && Validated(CanonTree(t))
    ensures Validated(TreeToWrite(c, t))
  {
  }

  method EncodeOrigins(c: Carrier, u: LocatedTree) returns (frame: Option<bytes>)
    requires WellFormed(u.expr)
    ensures frame == Some(TreeFrame(c, u))
  {
    hide TablesOf, FrameUnits, Canon, WellFormed, EncTree, Packed;
    var tables := Collect(u.expr);
    var w := new FrameWriter(c, tables, false);
    var ok := WriteFrame(w, TREE, u.expr);
    if !ok { return None; }
    WithTrailer(c, TREE, tables, Canon(u.expr), EncTree(c, u));
    w.WriteOriginTree(u);
    var out := w.Finish();
    return Some(out);
  }

  method DecodeFrame(c: Carrier, limits: Limits, frame: bytes) returns (r: Option<Parts>)
    ensures r == Decode(c, limits, frame)
  {
    hide DecHeader, Dec, DecTree, DecOrigin, Payload, Finished, HasFlag, PlainTree, KnownFlags;
    if |frame| > limits.maxFrameBytes { return None; }
    var reader := new FrameReader(c, frame, limits);
    var flags := reader.ReadHeader();
    if flags.None? { return None; }
    var e := reader.ReadExprWithDepth(0);
    if e.None? { return None; }
    var tree := PlainTree(e.value);
    if HasFlag(flags.value, TREE) {
      var t := reader.ReadOriginTree(e.value, 0);
      if t.None? { return None; }
      tree := t.value;
    }
    if HasFlag(flags.value, ORIGIN) {
      var o := reader.ReadOrigin();
      if o.None? { return None; }
      tree := tree.(origin := o);
    }
    var tables := reader.tables;
    var ended := reader.AtEnd();
    return if ended then Some(Parts(tables, tree, flags.value)) else None;
  }

  method DecodeCanonicalFrame(limits: Limits, frame: bytes, lane: Lane) returns (r: Option<(Tables, LocatedTree)>)
    ensures r == DecodeCanonical(limits, frame, lane)
  {
    hide Decode, EncodeLocated, EncodeTree, Mirrors, Sized;
    var p := DecodeFrame(Binary, limits, frame);
    if p.None? { return None; }
    DecodeIsBounded(Binary, limits, frame);
    SizedIsWellFormed(limits, p.value.tree.expr);
    MirrorsWellFormed(p.value.tree);
    if LaneOf(p.value.flags) != Some(lane) { return None; }
    var t := p.value.tree;
    var again: Option<bytes>;
    match lane {
      case Bare => again := EncodeLocatedFrame(Binary, t.expr, None, false);
      case Located => again := EncodeLocatedFrame(Binary, t.expr, t.origin, true);
      case Tree => again := EncodeTreeFrame(Binary, t, true);
    }
    if again != Some(frame) { return None; }
    return Some((p.value.tables, t));
  }

  lemma {:induction false} MirrorsWellFormed(t: LocatedTree)
    requires Mirrors(t) && WellFormed(t.expr)
    ensures AllWellFormed(t)
    decreases t
  {
    forall k | k in t.children ensures AllWellFormed(k) {
      var i :| 0 <= i < |t.children| && t.children[i] == k;
      assert t.expr.kids[i] == k.expr;
      MirrorsWellFormed(k);
    }
  }
}
