/** The strict boundary of the byte codec: only what a canonical writer wrote gets through. */
module Gate {
  import opened Exprs
  import opened Bits
  import opened Canonical
  import opened Atoms
  import opened Body
  import opened Accounting
  import opened SideTables
  import opened Origins
  import opened Wire
  import opened Frames
  import opened Codecs
  import opened Identity

  datatype Lane = Bare | Located | Tree

  function LaneOf(flags: nat): Option<Lane> {
    match flags
    case 0 => Some(Bare)
    case 1 => Some(Located)
    case 2 => Some(Tree)
    case _ => None
  }

  /** The canonical writer of each lane, over a decoded value. */
  ghost function EncodeLane(lane: Lane, t: LocatedTree): Option<bytes> {
    match lane
    case Bare => Some(EncodeFrame(Binary, t.expr))
    case Located => Some(EncodeLocated(Binary, t.expr, t.origin, true))
    case Tree => EncodeTree(Binary, t, true)
  }

  /** Decode, check the lane, re-encode, compare. */
  ghost function DecodeCanonical(limits: Limits, frame: bytes, lane: Lane): Option<(Tables, LocatedTree)> {
    match Decode(Binary, limits, frame)
    case None => None
    case Some(p) =>
      if LaneOf(p.flags) != Some(lane) then None
      else if EncodeLane(lane, p.tree) != Some(frame) then None
      else Some((p.tables, p.tree))
  }

  /** The value has a frame in the lane, and the limits leave room for it. */
  ghost predicate Admits(limits: Limits, lane: Lane, t: LocatedTree) {
    Decodable(Binary, limits, t.expr)
    && match lane
       case Bare => true
       case Located => t.origin.Some? && OriginWithin(limits, t.origin.value)
       case Tree => Validated(t) && AllWithin(limits, Preorder(t))
  }

  // ---- what is written is accepted -----------------------------------------------------------

  lemma {:induction false} InPreorderAll(ts: seq<LocatedTree>, o: Option<Origin>)
    ensures o in PreorderAll(ts) <==> exists t | t in ts :: o in Preorder(t)
  {
    hide Preorder;
    if ts != [] {
      InPreorderAll(ts[1..], o);
      assert forall t :: t in ts <==> t == ts[0] || t in ts[1..];
      assert o in PreorderAll(ts) <==> o in Preorder(ts[0]) || o in PreorderAll(ts[1..]);
      if o in Preorder(ts[0]) { assert ts[0] in ts; }
    }
  }

  /** Rebuilding invents no origin. */
  lemma {:induction false} CanonTreeOrigins(t: LocatedTree, o: Option<Origin>)
    requires Validated(t) && o in Preorder(CanonTree(t))
    ensures o in Preorder(t)
    decreases t
  {
    hide Grouping.ArrangeBy, Canon;
    var c := CanonTree(t);
    if o != t.origin {
      ArrangedTrees(t.expr.head, CanonTrees(t.children));
      InPreorderAll(c.children, o);
      var k :| k in c.children && o in Preorder(k);
      CanonTreesMember(t.children, k);
      var j :| 0 <= j < |t.children| && k == CanonTree(t.children[j]);
      assert t.children[j] in t.children;
      CanonTreeOrigins(t.children[j], o);
      InPreorderAll(t.children, o);
    }
  }

  lemma CanonTreeWithin(limits: Limits, t: LocatedTree)
    requires Validated(t) && AllWithin(limits, Preorder(t))
    ensures AllWithin(limits, Preorder(CanonTree(t)))
  {
    hide CanonTree, Preorder, Validated;
    forall o | o in Preorder(CanonTree(t)) ensures MaybeWithin(limits, o) { CanonTreeOrigins(t, o); }
  }

  /** The tree that decoding gives back. */
  function Returned(lane: Lane, t: LocatedTree): LocatedTree {
    match lane
    case Bare => PlainTree(Canon(t.expr))
    case Located => PlainTree(Canon(t.expr)).(origin := t.origin)
    case Tree => CanonTree(t)
  }

  function FlagsOf(lane: Lane): nat {
    match lane
    case Bare => PLAIN
    case Located => ORIGIN
    case Tree => TREE
  }

  lemma LaneRoundTrip(limits: Limits, lane: Lane, t: LocatedTree)
    requires Admits(limits, lane, t)
    requires EncodeLane(lane, t).Some? ==> |EncodeLane(lane, t).value| <= limits.maxFrameBytes
    ensures EncodeLane(lane, t).Some?
    ensures Decode(Binary, limits, EncodeLane(lane, t).value) == Some(Parts(TablesOf(t.expr), Returned(lane, t), FlagsOf(lane)))
  {
    hide Decode, EncodeTree, EncodeLocated, CanonTree, Canon, TablesOf, Decodable, Preorder, AllWithin, Validated, OriginWithin, PlainTree;
    match lane
    case Bare => PlainRoundTrip(Binary, limits, t.expr);
    case Located => LocatedRoundTrip(Binary, limits, t.expr, t.origin.value);
    case Tree =>
      CanonTreeWithin(limits, t);
      BinaryTreeRoundTrip(limits, t);
  }

  lemma CanonFrame(flags: nat, e: Expr, trailer: Units)
    requires WellFormed(e) && flags <= KnownFlags(Binary)
    ensures Frame(Binary, flags, Canon(e), trailer) == Frame(Binary, flags, e, trailer)
  {
    hide Canon, TablesOf, Packed, FrameUnits;
    TablesOfCanon(e);
    CanonIdempotent(e);
  }

  /** Without origins a valid tree is written as the plain frame of its expression, and no other tree is written. */
  lemma LossyFrames(c: Carrier, t: LocatedTree, lossless: bool)
    ensures !Validated(t) ==> EncodeTree(c, t, lossless) == None
    ensures Validated(t) ==> EncodeTree(c, t, lossless).Some? && EncodeTree(c, t, false) == Some(EncodeFrame(c, t.expr))
  {
    hide EncodeFrame, Validated, CanonTree, TreeFrame;
    if Validated(t) && c.Binary? {
      CanonTreeValid(t);
      CanonTreeExpr(t);
      PlainCanonFrame(t);
    }
  }

  lemma PlainCanonFrame(t: LocatedTree)
    requires Validated(t)
    ensures EncodeFrame(Binary, Canon(t.expr)) == EncodeFrame(Binary, t.expr)
  {
    hide Frame, Validated, Canon;
    ValidatedIsWellFormed(t);
    CanonFrame(PLAIN, t.expr, []);
  }

  /** So is a value whose origin is missing or not wanted. */
  lemma OriginNotWritten(c: Carrier, e: Expr, o: Option<Origin>, lossless: bool)
    requires o.None? || !lossless
    ensures EncodeLocated(c, e, o, lossless) == EncodeFrame(c, e)
  {
    hide Frame;
  }

  /** Writing what was decoded gives the same frame. */
  lemma ReturnedFrame(limits: Limits, lane: Lane, t: LocatedTree)
    requires Admits(limits, lane, t)
    ensures EncodeLane(lane, Returned(lane, t)) == EncodeLane(lane, t)
  {
    hide Frame, EncTree, Canon, TablesOf, Preorder, AllWithin, Validated, OriginWithin, CanonTree, EncOrigin;
    PlainTreeExpr(Canon(t.expr));
    match lane
    case Bare => CanonFrame(PLAIN, t.expr, []);
    case Located => CanonFrame(ORIGIN, t.expr, EncOrigin(Binary, t.origin.value));
    case Tree =>
      CanonTreeValid(t);
      CanonTreeIdempotent(t);
  }

  // ---- what is accepted was written within the limits ----------------------------------------

  lemma DecTextRelax(limits: Limits, s: Units)
    ensures DecText(Binary, s, limits.maxStringBytes).Some?
        ==> DecText(Binary, s, USIZE_MAX) == DecText(Binary, s, limits.maxStringBytes)
            && |DecText(Binary, s, limits.maxStringBytes).value.0| <= limits.maxStringBytes
  {
    hide ReadVarUint;
  }

  lemma DecRecordRelax(limits: Limits, libs: seq<Text>, s: Units)
    ensures DecRecord(Binary, limits, libs, s).Some?
        ==> DecRecord(Binary, WIDEST, libs, s) == DecRecord(Binary, limits, libs, s)
            && |DecRecord(Binary, limits, libs, s).value.0.name| <= limits.maxStringBytes
  {
    hide DecUInt, DecText;
    match DecUInt(Binary, s)
    case None =>
    case Some((slot, rest)) => DecTextRelax(limits, rest);
  }

  lemma {:induction false} DecAllRelax<T(!new)>(s: Units, n: nat, dec: Units -> Option<(T, Units)>, wide: Units -> Option<(T, Units)>, ok: T -> bool)
    requires forall x :: dec(x).Some? ==> wide(x) == dec(x) && ok(dec(x).value.0)
    requires DecAll(s, n, dec).Some?
    ensures DecAll(s, n, wide) == DecAll(s, n, dec)
    ensures |DecAll(s, n, dec).value.0| == n && forall x | x in DecAll(s, n, dec).value.0 :: ok(x)
    decreases n
  {
    if n > 0 { DecAllRelax(dec(s).value.1, n - 1, dec, wide, ok); }
  }

  lemma DecTableRelax<T(!new)>(s: Units, limit: usize, dec: Units -> Option<(T, Units)>, wide: Units -> Option<(T, Units)>, ok: T -> bool)
    requires forall x :: dec(x).Some? ==> wide(x) == dec(x) && ok(dec(x).value.0)
    requires DecTable(Binary, s, limit, dec).Some?
    ensures DecTable(Binary, s, USIZE_MAX, wide) == DecTable(Binary, s, limit, dec)
    ensures var xs := DecTable(Binary, s, limit, dec).value.0; |xs| <= limit && forall x | x in xs :: ok(x)
  {
    hide ReadVarUint, DecAll;
    var (n, rest) := DecCount(Binary, s, limit).value;
    DecAllRelax(rest, n, dec, wide, ok);
  }

  lemma DecLibsRelax(limits: Limits, s: Units)
    ensures var r := DecTable(Binary, s, limits.maxTableEntries, x => DecText(Binary, x, limits.maxStringBytes));
      r.Some? ==> DecTable(Binary, s, WIDEST.maxTableEntries, x => DecText(Binary, x, WIDEST.maxStringBytes)) == r
                  && TextsWithin(limits, r.value.0)
  {
    hide DecText, DecTable;
    var dec := x => DecText(Binary, x, limits.maxStringBytes);
    var wide := x => DecText(Binary, x, WIDEST.maxStringBytes);
    if DecTable(Binary, s, limits.maxTableEntries, dec).Some? {
      forall x: Units ensures dec(x).Some? ==> wide(x) == dec(x) && |dec(x).value.0| <= limits.maxStringBytes {
        DecTextRelax(limits, x);
      }
      DecTableRelax(s, limits.maxTableEntries, dec, wide, (t: Text) => |t| <= limits.maxStringBytes);
    }
  }

  lemma DecRecordsRelax(limits: Limits, libs: seq<Text>, s: Units)
    ensures var r := DecTable(Binary, s, limits.maxTableEntries, x => DecRecord(Binary, limits, libs, x));
      r.Some? ==> DecTable(Binary, s, WIDEST.maxTableEntries, x => DecRecord(Binary, WIDEST, libs, x)) == r
                  && NamesWithin(limits, r.value.0)
  {
    hide DecRecord, DecTable;
    var dec := x => DecRecord(Binary, limits, libs, x);
    var wide := x => DecRecord(Binary, WIDEST, libs, x);
    if DecTable(Binary, s, limits.maxTableEntries, dec).Some? {
      forall x: Units ensures dec(x).Some? ==> wide(x) == dec(x) && |dec(x).value.0.name| <= limits.maxStringBytes {
        DecRecordRelax(limits, libs, x);
      }
      DecTableRelax(s, limits.maxTableEntries, dec, wide, (t: Symbol) => |t.name| <= limits.maxStringBytes);
    }
  }

  lemma DecTablesRelax(limits: Limits, s: Units)
    ensures DecTables(Binary, limits, s).Some?
        ==> DecTables(Binary, WIDEST, s) == DecTables(Binary, limits, s)
            && TablesWithin(limits, DecTables(Binary, limits, s).value.0)
  {
    hide DecTable, DecText, DecRecord, TextsWithin, NamesWithin;
    if DecTables(Binary, limits, s).Some? {
      DecLibsRelax(limits, s);
      var (libs, s1) := DecTable(Binary, s, limits.maxTableEntries, x => DecText(Binary, x, limits.maxStringBytes)).value;
      DecRecordsRelax(limits, libs, s1);
      var (_, s2) := DecTable(Binary, s1, limits.maxTableEntries, x => DecRecord(Binary, limits, libs, x)).value;
      DecRecordsRelax(limits, libs, s2);
    }
  }

  lemma DecHeaderRelax(limits: Limits, s: Units)
    requires DecHeader(Binary, limits, s).Some?
    ensures DecHeader(Binary, WIDEST, s) == DecHeader(Binary, limits, s)
    ensures TablesWithin(limits, DecHeader(Binary, limits, s).value.tables)
  {
    hide DecUInt, DecTables, TablesWithin;
    var s1 := DecUInt(Binary, s[|MAGIC|..]).value.1;
    var s2 := DecUInt(Binary, s1).value.1;
    DecTablesRelax(limits, s2);
  }

  lemma {:induction false} EncAllSize<T(!new)>(xs: seq<T>, enc: T -> Units, size: T -> nat)
    requires forall x :: |enc(x)| > size(x)
    ensures |xs| <= |EncAll(xs, enc)| && forall x | x in xs :: size(x) <= |EncAll(xs, enc)|
  {
    if xs != [] {
      EncAllSize(xs[1..], enc, size);
      assert forall x :: x in xs <==> x == xs[0] || x in xs[1..];
    }
  }

  lemma EncBytesSize(bs: bytes)
    ensures |EncBytes(Binary, bs)| > |bs|
  {
  }

  lemma EncRecordSize(libs: seq<Text>, x: Symbol)
    ensures |EncRecord(Binary, libs, x)| > |x.name|
  {
    EncBytesSize(x.name);
  }

  /** Tables that fit a frame of a machine word's length fit a machine word. */
  lemma TablesOfFrameWithin(flags: nat, t: Tables, rest: Units)
    requires |EncHeader(Binary, flags, t) + rest| <= USIZE_MAX
    ensures TablesWithin(WIDEST, t)
  {
    hide EncBytes, EncRecord, EncUInt, EncAll;
    forall x: Text ensures |EncBytes(Binary, x)| > |x| { EncBytesSize(x); }
    forall x: Symbol ensures |EncRecord(Binary, t.libs, x)| > |x.name| { EncRecordSize(t.libs, x); }
    EncAllSize(t.libs, x => EncBytes(Binary, x), (x: Text) => |x|);
    EncAllSize(t.symbols, x => EncRecord(Binary, t.libs, x), (x: Symbol) => |x.name|);
    EncAllSize(t.domains, x => EncRecord(Binary, t.libs, x), (x: Symbol) => |x.name|);
  }

  /** When a frame is what the writer makes of the decoded value, its tables are the value's own. */
  lemma WrittenTables(limits: Limits, flags: nat, e: Expr, trailer: Units, h: Header)
    requires flags <= KnownFlags(Binary)
    requires DecHeader(Binary, limits, Frame(Binary, flags, e, trailer)) == Some(h)
    requires |Frame(Binary, flags, e, trailer)| <= USIZE_MAX
    ensures h.tables == TablesOf(e) && TablesWithin(limits, TablesOf(e))
  {
    hide EncHeader, DecHeader, Enc, Canon, TablesOf, TablesWithin;
    var t := TablesOf(e);
    var rest := Enc(FormatOf(Binary, flags, t), Canon(e), FRESH_WRITER).0 + trailer;
    assert Frame(Binary, flags, e, trailer) == EncHeader(Binary, flags, t) + rest;
    DecHeaderRelax(limits, EncHeader(Binary, flags, t) + rest);
    TablesOfFrameWithin(flags, t, rest);
    TablesComplete(e);
    DecHeaderOf(Binary, WIDEST, flags, t, rest);
  }

  lemma DecTriviaWithin(limits: Limits, s: Units)
    ensures DecTrivia(Binary, limits, s).Some? ==> |DecTrivia(Binary, limits, s).value.0.text| <= limits.maxStringBytes
  {
    hide DecText;
    match DecKind(Binary, s)
    case None =>
    case Some((_, rest)) => DecTextRelax(limits, rest);
  }

  lemma DecTriviasWithin(limits: Limits, s: Units)
    ensures var r := DecTable(Binary, s, limits.maxTriviaItems, x => DecTrivia(Binary, limits, x));
      r.Some? ==> |r.value.0| <= limits.maxTriviaItems && forall x | x in r.value.0 :: |x.text| <= limits.maxStringBytes
  {
    hide DecTrivia, DecTable;
    var dec := x => DecTrivia(Binary, limits, x);
    if DecTable(Binary, s, limits.maxTriviaItems, dec).Some? {
      forall x: Units ensures dec(x).Some? ==> |dec(x).value.0.text| <= limits.maxStringBytes {
        DecTriviaWithin(limits, x);
      }
      DecTableRelax(s, limits.maxTriviaItems, dec, dec, (t: Trivia) => |t.text| <= limits.maxStringBytes);
    }
  }

  lemma DecOriginWithin(limits: Limits, s: Units)
    ensures DecOrigin(Binary, limits, s).Some? ==> OriginWithin(limits, DecOrigin(Binary, limits, s).value.0)
  {
    hide DecText, DecCount, DecUInt, DecTable, DecTrivia;
    if DecOrigin(Binary, limits, s).Some? {
      var s1 := DecUInt(Binary, s).value.1;
      DecTextRelax(limits, s1);
      var s2 := DecText(Binary, s1, limits.maxStringBytes).value.1;
      var s3 := DecCount(Binary, s2, USIZE_MAX).value.1;
      DecTriviasWithin(limits, DecCount(Binary, s3, USIZE_MAX).value.1);
    }
  }

  lemma DecMaybeWithin(limits: Limits, s: Units)
    ensures DecMaybe(Binary, limits, s).Some? ==> MaybeWithin(limits, DecMaybe(Binary, limits, s).value.0)
  {
    hide DecOrigin, OriginWithin;
    match DecFlag(Binary, s)
    case None =>
    case Some((_, rest)) => DecOriginWithin(limits, rest);
  }

  lemma {:induction false} DecTreeWithin(limits: Limits, e: Expr, s: Units, depth: nat)
    requires DecTree(Binary, limits, e, s, depth).Some?
    ensures AllWithin(limits, Preorder(DecTree(Binary, limits, e, s, depth).value.0))
    decreases e
  {
    hide DecMaybe, MaybeWithin;
    DecMaybeWithin(limits, s);
    DecTreesWithin(limits, e.kids, DecMaybe(Binary, limits, s).value.1, depth + 1);
  }

  lemma {:induction false} DecTreesWithin(limits: Limits, es: seq<Expr>, s: Units, depth: nat)
    requires DecTrees(Binary, limits, es, s, depth).Some?
    ensures AllWithin(limits, PreorderAll(DecTrees(Binary, limits, es, s, depth).value.0))
    decreases es
  {
    hide MaybeWithin;
    if es != [] {
      DecTreeWithin(limits, es[0], s, depth);
      DecTreesWithin(limits, es[1..], DecTree(Binary, limits, es[0], s, depth).value.1, depth);
    }
  }

  lemma DecOriginsWithin(limits: Limits, flags: nat, e: Expr, s: Units)
    requires DecOrigins(Binary, limits, flags, e, s).Some? && flags <= 2
    ensures var t := DecOrigins(Binary, limits, flags, e, s).value.0;
      (flags == ORIGIN ==> t.origin.Some? && OriginWithin(limits, t.origin.value))
      && (flags == TREE ==> AllWithin(limits, Preorder(t)))
  {
    hide DecOrigin, DecTree, OriginWithin, AllWithin, PlainTree;
    if flags == TREE { DecTreeWithin(limits, e, s, 0); }
    if flags == ORIGIN { DecOriginWithin(limits, s); }
  }

  /** The frame a lane writes, with its header in sight. */
  lemma LaneFrame(lane: Lane, t: LocatedTree) returns (trailer: Units)
    requires EncodeLane(lane, t).Some? && (lane.Located? ==> t.origin.Some?) && (lane.Tree? ==> WellFormed(t.expr))
    ensures EncodeLane(lane, t).value == Frame(Binary, FlagsOf(lane), if lane.Tree? then CanonTree(t).expr else t.expr, trailer)
    ensures lane.Tree? ==> Validated(t) && CanonTree(t).expr == Canon(t.expr)
  {
    hide Frame, EncTree, EncOrigin, Canon, CanonTree, Validated;
    match lane
    case Bare => trailer := [];
    case Located => trailer := EncOrigin(Binary, t.origin.value);
    case Tree =>
      trailer := EncTree(Binary, CanonTree(t));
      CanonTreeExpr(t);
  }

  lemma SizedDecodable(limits: Limits, e: Expr)
    requires Sized(Binary, limits, e) && NodeCount(e) <= limits.maxExprNodes && Height(e) <= limits.maxDepth
    requires TablesWithin(limits, TablesOf(e))
    ensures Decodable(Binary, limits, e)
  {
  }

  /** An accepted frame came from a value the limits have room for. */
  lemma AcceptedIsAdmitted(limits: Limits, frame: bytes, lane: Lane)
    requires DecodeCanonical(limits, frame, lane).Some?
    ensures var (tables, t) := DecodeCanonical(limits, frame, lane).value;
      Admits(limits, lane, t) && EncodeLane(lane, t) == Some(frame) && tables == TablesOf(t.expr)
      && |frame| <= limits.maxFrameBytes
  {
    hide Dec, DecHeader, DecOrigins, EncodeLane, Payload, Finished, Frame, Canon, CanonTree, TablesOf, TablesWithin,
      Sized, NodeCount, Height, Mirrors, Decodable, Validated, OriginWithin, AllWithin, HasFlag;
    var p := Decode(Binary, limits, frame).value;
    var h := DecHeader(Binary, limits, Payload(Binary, frame)).value;
    var e := p.tree.expr;
    DecodeIsBounded(Binary, limits, frame);
    AcceptedParts(limits, frame);
    SizedIsWellFormed(limits, e);
    var trailer := LaneFrame(lane, p.tree);
    PayloadOfBinary(frame);
    if lane.Tree? {
      WrittenTables(limits, FlagsOf(lane), Canon(e), trailer, h);
      TablesOfCanon(e);
    } else {
      WrittenTables(limits, FlagsOf(lane), e, trailer, h);
    }
    SizedDecodable(limits, e);
  }

  lemma PayloadOfBinary(frame: bytes)
    ensures Payload(Binary, frame) == frame
  {
  }

  lemma SizedIsWellFormed(limits: Limits, e: Expr)
    requires Sized(Binary, limits, e)
    ensures WellFormed(e)
  {
  }

  lemma AcceptedParts(limits: Limits, frame: bytes)
    requires Decode(Binary, limits, frame).Some? && LaneOf(Decode(Binary, limits, frame).value.flags).Some?
    ensures var p := Decode(Binary, limits, frame).value;
      !HasFlag(p.flags, DENSE)
      && (p.flags == ORIGIN ==> p.tree.origin.Some? && OriginWithin(limits, p.tree.origin.value))
      && (p.flags == TREE ==> AllWithin(limits, Preorder(p.tree)))
  {
    hide Dec, DecHeader, DecOrigins, Payload, Finished, OriginWithin, AllWithin, Preorder;
    var h := DecHeader(Binary, limits, Payload(Binary, frame)).value;
    var body := Dec(FormatOf(Binary, h.flags, h.tables), limits, h.rest, 0, FRESH_READER).value;
    DecOriginsWithin(limits, h.flags, body.value, body.rest);
  }

  // ---- the gate is exact ------------------------------------------------------------------------

  /**
    * Exactly the frames that some value the limits admit is written to in that
    * lane are accepted, and the value comes back in canonical order.
    */
  lemma GateIsExact(limits: Limits, frame: bytes, lane: Lane)
    ensures DecodeCanonical(limits, frame, lane).Some?
       <==> |frame| <= limits.maxFrameBytes
            && exists t: LocatedTree :: Admits(limits, lane, t) && EncodeLane(lane, t) == Some(frame)
  {
    hide DecodeCanonical, Admits, EncodeLane;
    if DecodeCanonical(limits, frame, lane).Some? {
      AcceptedIsAdmitted(limits, frame, lane);
      assert Admits(limits, lane, DecodeCanonical(limits, frame, lane).value.1);
    }
    if |frame| <= limits.maxFrameBytes && exists t: LocatedTree :: Admits(limits, lane, t) && EncodeLane(lane, t) == Some(frame) {
      var t: LocatedTree :| Admits(limits, lane, t) && EncodeLane(lane, t) == Some(frame);
      WrittenIsAccepted(limits, lane, t);
    }
  }

  lemma WrittenIsAccepted(limits: Limits, lane: Lane, t: LocatedTree)
    requires Admits(limits, lane, t) && EncodeLane(lane, t).Some? && |EncodeLane(lane, t).value| <= limits.maxFrameBytes
    ensures DecodeCanonical(limits, EncodeLane(lane, t).value, lane) == Some((TablesOf(t.expr), Returned(lane, t)))
  {
    hide Decode, EncodeLane, Admits, Returned, TablesOf;
    LaneRoundTrip(limits, lane, t);
    ReturnedFrame(limits, lane, t);
  }

  /** Accepted frames are determined by what they decode to. */
  lemma GateIsInjective(limits: Limits, a: bytes, b: bytes, lane: Lane)
    requires DecodeCanonical(limits, a, lane).Some? && DecodeCanonical(limits, b, lane).Some?
    requires DecodeCanonical(limits, a, lane).value.1 == DecodeCanonical(limits, b, lane).value.1
    ensures a == b
  {
    hide Decode, EncodeLane;
  }

  // ---- the permissive decoder is not --------------------------------------------------------------

  /** The frame with its version spelled in two bytes instead of one. */
  function LongVersion(frame: bytes): bytes
    requires |frame| >= 5
  {
    frame[..4] + [0x81, 0x00] + frame[5..]
  }

  lemma LongOne(rest: Units)
    ensures ReadVarUint([0x81, 0x00] + rest) == Some((1, rest))
  {
    Pow64();
    ReadVarUintStep(0x81, [0x00] + rest, 0, 0);
    ReadVarUintStep(0x00, rest, 7, 1);
    assert [0x81, 0x00] + rest == [0x81] + ([0x00] + rest);
    assert Contribution(0x81, 0) == 1 by { assert Pow2(0) == 1; ModSmall(1, Pow2(64)); }
    assert Contribution(0x00, 7) == 0 by { ModSmall(0, Pow2(64)); }
  }

  lemma LongVersionHeader(limits: Limits, s: Units)
    requires DecHeader(Binary, limits, s).Some? && |s| >= 5 && s[4] == 1
    ensures DecHeader(Binary, limits, LongVersion(s)) == DecHeader(Binary, limits, s)
  {
    hide DecTables, ReadVarUint;
    var tail := s[5..];
    assert s[4..] == VarUint(1) + tail;
    ReadVarUintOf(1, tail);
    LongOne(tail);
    assert LongVersion(s)[4..] == [0x81, 0x00] + tail;
    assert LongVersion(s)[..4] == s[..4] == MAGIC;
  }

  lemma HeaderStart(flags: nat, t: Tables, rest: Units)
    ensures var s := EncHeader(Binary, flags, t) + rest; |s| >= 5 && s[4] == 1
  {
    hide EncTables;
    assert EncHeader(Binary, flags, t)[4] == 1;
  }

  lemma FrameStart(flags: nat, e: Expr, trailer: Units)
    requires flags <= KnownFlags(Binary)
    ensures var s := Frame(Binary, flags, e, trailer); |s| >= 5 && s[4] == 1
  {
    hide EncHeader, Enc, Canon, TablesOf;
    var t := TablesOf(e);
    HeaderStart(flags, t, Enc(FormatOf(Binary, flags, t), Canon(e), FRESH_WRITER).0 + trailer);
  }

  /** Every accepted frame spells its version in one byte. */
  lemma AcceptedStart(limits: Limits, frame: bytes, lane: Lane)
    requires DecodeCanonical(limits, frame, lane).Some?
    ensures |frame| >= 5 && frame[4] == 1
  {
    hide DecodeCanonical, EncodeLane, Frame, Decodable, Validated, OriginWithin, AllWithin, CanonTree;
    AcceptedIsAdmitted(limits, frame, lane);
    var t := DecodeCanonical(limits, frame, lane).value.1;
    if lane.Tree? { ValidatedIsWellFormed(t); }
    var trailer := LaneFrame(lane, t);
    FrameStart(FlagsOf(lane), if lane.Tree? then CanonTree(t).expr else t.expr, trailer);
  }

  /** Another spelling decodes alike, and only the gate tells them apart. */
  lemma PermissiveIsNotInjective(limits: Limits, frame: bytes, lane: Lane)
    requires DecodeCanonical(limits, frame, lane).Some? && |frame| < limits.maxFrameBytes
    ensures |frame| >= 5 && LongVersion(frame) != frame
    ensures Decode(Binary, limits, LongVersion(frame)) == Decode(Binary, limits, frame)
    ensures DecodeCanonical(limits, LongVersion(frame), lane).None?
  {
    hide DecHeader, Dec, DecOrigins, EncodeLane;
    AcceptedStart(limits, frame, lane);
    LongVersionHeader(limits, frame);
  }

  /** Narrowing the codec number loses its high bits. */
  lemma NarrowingIsNotInjective(limits: Limits, o: Origin, rest: Units)
    requires OriginWithin(limits, o)
    ensures var n := o.codec + 0x1_0000_0000;
      DecOrigin(Binary, limits, EncUInt(Binary, n) + EncOrigin(Binary, o)[|EncUInt(Binary, o.codec)|..] + rest) == Some((o, rest))
  {
    hide EncUInt, DecUInt, DecText, DecCount, DecTable, EncBytes, EncTable;
    var n := o.codec + 0x1_0000_0000;
    var head := EncUInt(Binary, o.codec);
    var tail := EncOrigin(Binary, o)[|head|..];
    assert EncOrigin(Binary, o) == head + tail;
    Assoc(head, tail, rest);
    Assoc(EncUInt(Binary, n), tail, rest);
    DecUIntOf(Binary, n, tail + rest);
    DecUIntOf(Binary, o.codec, tail + rest);
    DecOriginOf(Binary, limits, o, rest);
    assert n % 0x1_0000_0000 == o.codec == o.codec % 0x1_0000_0000;
  }
}
