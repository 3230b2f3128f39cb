/** The frame writers: one walk that appends units and remembers what was written. */
module FrameWriters {
  import opened Exprs
  import opened Bits
  import opened Numbers
  import opened Grouping
  import opened Canonical
  import opened Atoms
  import opened Body
  import opened RoundTrips
  import opened SideTables
  import opened Origins
  import opened Wire
  import opened Frames
  import opened Codecs
  import opened BitIo

  /** Everything a list of children needs from the tables is there. */
  ghost predicate KidsClosed(t: Tables, names: seq<Symbol>, ks: seq<Expr>) {
    (forall k | k in ks :: Closed(t, k)) && forall x | x in names :: x in t.symbols
  }

  /**
    * The bit codec's and the byte codec's writers run the same walk over
    * different primitives; `carrier` says whose are called.
    */
  class FrameWriter {
    const carrier: Carrier
    const out: BitWriter
    var bytes: bytes
    const tables: Tables
    const dense: bool
    var seen: map<Expr, nat>
    var nextIndex: nat

    ghost predicate Valid()
      reads this, out
    {
      out.Valid() && (dense ==> carrier.Bitwise?)
    }

    ghost function Written(): Units
      reads this, out
    {
      if carrier.Bitwise? then out.bits else bytes
    }

    ghost function Fmt(): Format {
      Format(carrier, tables, dense)
    }

    ghost function State(): WState
      reads this
    {
      WState(seen, nextIndex)
    }

    constructor (carrier: Carrier, tables: Tables, dense: bool)
      requires dense ==> carrier.Bitwise?
      ensures Valid() && fresh(out) && Written() == [] && State() == FRESH_WRITER
      ensures this.carrier == carrier && this.tables == tables && this.dense == dense
    {
      this.carrier, this.tables, this.dense := carrier, tables, dense;
      out := new BitWriter();
      bytes, seen, nextIndex := [], map[], 0;
    }

    // ---- primitives -------------------------------------------------------------------

    /** Seven bits at a time, least significant first, the high bit on all but the last. */
    method VarUintBytes(value: nat)
      modifies this`bytes
      ensures bytes == old(bytes) + VarUint(value)
    {
      var v, done := value, false;
      while !done
        invariant done ==> bytes == old(bytes) + VarUint(value)
        invariant !done ==> bytes + VarUint(v) == old(bytes) + VarUint(value)
        decreases !done, v
      {
        var b: byte := v % 128;
        ghost var w := v;
        v := v / 128;
        if v != 0 { b := b + 128; }
        Assoc(bytes, [b], VarUint(v));
        bytes := bytes + [b];
        done := v == 0;
      }
    }

    method UInt(n: nat)
      requires Valid()
      modifies this`bytes, out
      ensures Valid() && Written() == old(Written()) + EncUInt(carrier, n)
    {
      if carrier.Bitwise? { out.WriteVBits(n); } else { VarUintBytes(n); }
    }

    method Raw(bs: bytes)
      requires Valid()
      modifies this`bytes, out
      ensures Valid() && Written() == old(Written()) + Payload(carrier, bs)
    {
      if carrier.Bitwise? { out.WriteBytes(bs); } else { bytes := bytes + bs; }
    }

    method BytesField(bs: bytes)
      requires Valid()
      modifies this`bytes, out
      ensures Valid() && Written() == old(Written()) + EncBytes(carrier, bs)
    {
      Assoc(Written(), EncUInt(carrier, |bs|), Payload(carrier, bs));
      UInt(|bs|);
      Raw(bs);
    }

    /** A small code: `width` bits, or one byte. */
    method Code(n: byte, width: nat)
      requires Valid()
      modifies this`bytes, out
      ensures Valid() && Written() == old(Written()) + (if carrier.Bitwise? then BitsOf(n, width) else [n])
    {
      if carrier.Bitwise? { out.WriteBits(n, width); } else { bytes := bytes + [n]; }
    }

    method Tag(kind: nat)
      requires Valid() && HasTag(carrier, kind)
      modifies this`bytes, out
      ensures Valid() && Written() == old(Written()) + EncTag(carrier, kind)
    {
      if carrier.Bitwise? { out.WriteBits(kind, 6); } else { bytes := bytes + [BinaryTag(kind)]; }
    }

    method Flag(b: bool)
      requires Valid()
      modifies this`bytes, out
      ensures Valid() && Written() == old(Written()) + [Bit(b)]
    {
      if carrier.Bitwise? { out.WriteBit(b); } else { bytes := bytes + [Bit(b)]; }
    }

    /** Table look-ups fail when an entry is missing. */
    method SymbolField(x: Symbol) returns (ok: bool)
      requires Valid()
      modifies this`bytes, out
      ensures Valid() && (ok <==> x in tables.symbols)
      ensures ok ==> Written() == old(Written()) + EncEntry(carrier, tables.symbols, x)
    {
      var id := IndexOf(tables.symbols, x);
      if id >= |tables.symbols| { return false; }
      UInt(id);
      return true;
    }

    method DomainField(x: Symbol) returns (ok: bool)
      requires Valid()
      modifies this`bytes, out
      ensures Valid() && (ok <==> x in tables.domains)
      ensures ok ==> Written() == old(Written()) + EncEntry(carrier, tables.domains, x)
    {
      var id := IndexOf(tables.domains, x);
      if id >= |tables.domains| { return false; }
      UInt(id);
      return true;
    }

    // ---- node fields --------------------------------------------------------------------

    method BitList(bits: Units)
      requires Valid() && carrier.Bitwise? && IsBits(bits)
      modifies this`bytes, out
      ensures Valid() && Written() == old(Written()) + bits
    {
      var i := 0;
      assert Written() + bits[..0] == Written();
      while i < |bits|
        invariant 0 <= i <= |bits| && Valid()
        invariant Written() == old(Written()) + bits[..i]
      {
        assert bits[..i + 1] == bits[..i] + [bits[i]];
        Assoc(old(Written()), bits[..i], [bits[i]]);
        out.WriteBit(bits[i] != 0);
        i := i + 1;
      }
      assert bits[..i] == bits;
    }

    method NumberText(text: bytes)
      requires Valid()
      modifies this`bytes, out
      ensures Valid() && Written() == old(Written()) + EncNumberText(carrier, text)
    {
      hide IntegerBits, EncUInt, EncBytes;
      if carrier.Binary? {
        BytesField(text);
        return;
      }
      var integer := IntegerToBits(text);
      match integer {
        case Some((negative, bits)) =>
          IntegerRoundTrip(text);
          IntegerBody(negative, bits);
        case None =>
          Assoc(Written(), [0], EncBytes(carrier, text));
          Flag(false);
          BytesField(text);
      }
    }

    method IntegerBody(negative: bool, bits: Units)
      requires Valid() && carrier.Bitwise? && IsBits(bits)
      modifies this`bytes, out
      ensures Valid() && Written() == old(Written()) + ([1, Bit(negative)] + EncUInt(carrier, |bits|) + bits)
    {
      hide EncUInt, Written;
      ghost var before := Written();
      Flag(true);
      Flag(negative);
      UInt(|bits|);
      BitList(bits);
      FourParts(before, 1, Bit(negative), EncUInt(carrier, |bits|), bits);
    }

    method NumberFields(x: NumberLiteral) returns (ok: bool)
      requires Valid()
      modifies this`bytes, out
      ensures Valid() && (x.domain in tables.domains ==> ok && Written() == old(Written()) + EncFields(carrier, tables, Number(x), 0))
    {
      hide EncNumberText, EncEntry, SmallUint;
      ghost var before := Written();
      ok := DomainField(x.domain);
      if !ok { return; }
      ghost var text := if carrier.Bitwise? && SmallUint(x.canonical).Some? then [] else EncNumberText(carrier, x.canonical);
      Assoc(before, EncEntry(carrier, tables.domains, x.domain), text);
      if carrier.Bitwise? && SmallUint(x.canonical).Some? {
        assert Written() + [] == Written();
      } else {
        NumberText(x.canonical);
      }
    }

    method Mode(m: QuoteMode)
      requires Valid()
      modifies this`bytes, out
      ensures Valid() && Written() == old(Written()) + EncMode(carrier, m)
    {
      Code(ModeCode(m), 3);
    }

    method Fields(h: Head, n: nat) returns (ok: bool)
      requires Valid()
      modifies this`bytes, out
      ensures Valid() && (HeadClosed(tables, h) ==> ok && Written() == old(Written()) + EncFields(carrier, tables, h, n))
    {
      hide EncNumberText, EncEntry, EncBytes, EncUInt, EncMode, SmallUint, Valid, Written;
      ok := true;
      match h {
        case Number(x) => ok := NumberFields(x);
        case Sym(x) => ok := SymbolField(x);
        case Local(x) => ok := SymbolField(x);
        case Infix(x) => ok := SymbolField(x);
        case Prefix(x) => ok := SymbolField(x);
        case Postfix(x) => ok := SymbolField(x);
        case Extension(x) => ok := SymbolField(x);
        case Str(x) => BytesField(x);
        case Blob(x) => BytesField(x);
        case List => UInt(n);
        case Vector => UInt(n);
        case Set => UInt(n);
        case Block => UInt(n);
        case Map => UInt(n / 2);
        case Quote(m) => Mode(m);
        case _ => assert Written() + [] == Written();
      }
    }

    // ---- expressions --------------------------------------------------------------------

    /** Writes a back-reference to an equal value already written, or the value itself. */
    method WriteExpr(e: Expr) returns (ok: bool)
      requires Valid() && WellFormed(e)
      modifies this, out
      ensures Valid()
      ensures Closed(tables, e) ==> ok && Written() == old(Written()) + Enc(Fmt(), Canon(e), old(State())).0
      ensures Closed(tables, e) ==> State() == Enc(Fmt(), Canon(e), old(State())).1
      decreases NodeCount(e), 0, 1
    {
      hide EncTag, EncUInt, EncNode, Canon, WellFormed, Closed, NodeCount;
      if dense {
        if Canon(e) in seen {
          Assoc(Written(), EncTag(carrier, REF), EncUInt(carrier, seen[Canon(e)]));
          Tag(REF);
          UInt(seen[Canon(e)]);
          return true;
        }
        EncNew(Fmt(), Canon(e), State());
        seen := seen[Canon(e) := nextIndex];
        nextIndex := nextIndex + 1;
      }
      ok := WriteBody(e);
    }

    method WriteBody(e: Expr) returns (ok: bool)
      requires Valid() && WellFormed(e)
      modifies this, out
      ensures Valid()
      ensures Closed(tables, e) ==> ok && Written() == old(Written()) + EncNode(Fmt(), Canon(e), old(State())).0
      ensures Closed(tables, e) ==> State() == EncNode(Fmt(), Canon(e), old(State())).1
      decreases NodeCount(e), 0, 0, 1
    {
      hide EncTag, EncUInt, EncFields, KindOf, EncKids, Enc, EncNode, NodeBody, Canon, WellFormed, Closed, Visited, NodeCount, SumNodes,
        CanonAll, HeadClosed, KidsClosed, SymbolsOf, DomainsOf;
      ghost var before, w := Written(), State();
      ghost var c := Canon(e);
      ghost var tag, fields := EncTag(carrier, KindOf(carrier, e.head)), EncFields(carrier, tables, e.head, |e.kids|);
      OneNode(e);
      NodeSplit(Fmt(), c, w);
      BodyParts(Fmt(), e, w);
      if Closed(tables, e) { ClosedParts(tables, e); }
      Tag(KindOf(carrier, e.head));
      ok := Fields(e.head, |e.kids|);
      if !ok { return; }
      if HasTail(e.head) {
        ok := WriteTailed(e);
        ghost var front := Enc(Fmt(), Canon(e.kids[0]), w);
        ghost var tail := EncKids(Fmt(), NamesOf(e.head), CanonAll(e.kids[1..]), front.1);
        Regroup(before, tag, fields, front.0, EncUInt(carrier, |e.kids| - 1), tail.0);
      } else {
        ok := WriteKids([], Visited(e.head, e.kids));
        Assoc(before + tag, fields, EncKids(Fmt(), [], c.kids, w).0);
        Assoc(before, tag, fields + EncKids(Fmt(), [], c.kids, w).0);
      }
    }

    /** The first child, the number of the others, and the others. */
    method WriteTailed(e: Expr) returns (ok: bool)
      requires Valid() && WellFormed(e) && HasTail(e.head) && |e.kids| > 0
      modifies this, out
      ensures Valid()
      ensures var front := Enc(Fmt(), Canon(e.kids[0]), old(State()));
        var tail := EncKids(Fmt(), NamesOf(e.head), CanonAll(e.kids[1..]), front.1);
        Closed(tables, e) ==> (ok && State() == tail.1
          && Written() == old(Written()) + front.0 + EncUInt(carrier, |e.kids| - 1) + tail.0)
      decreases NodeCount(e), 0, 0, 0
    {
      hide EncUInt, EncKids, Enc, Canon, CanonAll, WellFormed, Closed, NodeCount, SumNodes, Visited;
      OneNode(e);
      if Closed(tables, e) { ClosedParts(tables, e); }
      ok := WriteExpr(e.kids[0]);
      if !ok { return; }
      UInt(|e.kids| - 1);
      ok := WriteKids(NamesOf(e.head), e.kids[1..]);
    }

    /** Children in order, each after its annotation name when there are names. */
    method WriteKids(names: seq<Symbol>, ks: seq<Expr>) returns (ok: bool)
      requires Valid() && (forall k | k in ks :: WellFormed(k)) && |names| <= |ks|
      modifies this, out
      ensures Valid()
      ensures KidsClosed(tables, names, ks) ==> ok && Written() == old(Written()) + EncKids(Fmt(), names, CanonAll(ks), old(State())).0
      ensures KidsClosed(tables, names, ks) ==> State() == EncKids(Fmt(), names, CanonAll(ks), old(State())).1
      decreases SumNodes(ks), 1
    {
      hide Enc, EncKids, Canon, WellFormed, Closed, NodeCount, EncEntry, SumNodes, CanonAll;
      ghost var closed := KidsClosed(tables, names, ks);
      ghost var goal := EncKids(Fmt(), names, CanonAll(ks), State());
      ghost var start := Written();
      var i := 0;
      assert ks[0..] == ks && From(names, 0) == names;
      while i < |ks|
        invariant 0 <= i <= |ks| && Valid()
        invariant closed ==>
          Written() + EncKids(Fmt(), From(names, i), CanonAll(ks[i..]), State()).0 == start + goal.0
          && EncKids(Fmt(), From(names, i), CanonAll(ks[i..]), State()).1 == goal.1
      {
        ghost var before, w := Written(), State();
        KidsStep(Fmt(), From(names, i), ks[i..], w);
        FromNext(names, ks, i);
        KidInSum(ks, i);
        if i < |names| {
          var known := SymbolField(names[i]);
          if !known { return false; }
        } else {
          assert Written() + [] == Written();
        }
        ok := WriteExpr(ks[i]);
        if !ok { return; }
        ghost var first := Enc(Fmt(), Canon(ks[i]), w);
        ghost var others := EncKids(Fmt(), From(names, i + 1), CanonAll(ks[i + 1..]), first.1);
        Assoc(before, EncName(Fmt(), From(names, i)), first.0 + others.0);
        Assoc(before + EncName(Fmt(), From(names, i)), first.0, others.0);
        i := i + 1;
      }
      KidsDone(Fmt(), From(names, i), ks[i..], State());
      assert Written() + [] == Written();
      return true;
    }

    // ---- headers ---------------------------------------------------------------------------

    method WriteRecord(x: Symbol) returns (ok: bool)
      requires Valid()
      modifies this`bytes, out
      ensures Valid() && (ok <==> x.namespace.Some? ==> x.namespace.value in tables.libs)
      ensures ok ==> Written() == old(Written()) + EncRecord(carrier, tables.libs, x)
    {
      hide EncBytes, EncUInt;
      Assoc(Written(), EncUInt(carrier, NamespaceSlot(tables.libs, x)), EncBytes(carrier, x.name));
      if x.namespace.Some? && IndexOf(tables.libs, x.namespace.value) >= |tables.libs| { return false; }
      UInt(NamespaceSlot(tables.libs, x));
      BytesField(x.name);
      return true;
    }

    method WriteTexts(xs: seq<Text>)
      requires Valid()
      modifies this`bytes, out
      ensures Valid() && Written() == old(Written()) + EncTable(carrier, xs, x => EncBytes(carrier, x))
    {
      hide EncBytes, EncUInt, EncAll, Valid, Written;
      ghost var enc := (x: Text) => EncBytes(carrier, x);
      ghost var goal := Written() + (EncUInt(carrier, |xs|) + EncAll(xs, enc));
      Assoc(Written(), EncUInt(carrier, |xs|), EncAll(xs, enc));
      UInt(|xs|);
      var i := 0;
      assert xs[0..] == xs;
      while i < |xs|
        invariant 0 <= i <= |xs| && Valid() && Written() + EncAll(xs[i..], enc) == goal
      {
        EncAllFrom(xs, i, enc, Written());
        assert xs[i] in xs;
        BytesField(xs[i]);
        i := i + 1;
      }
      EncAllFrom(xs, i, enc, Written());
    }

    method WriteRecords(xs: seq<Symbol>) returns (ok: bool)
      requires Valid()
      modifies this`bytes, out
      ensures Valid()
      ensures (forall x | x in xs && x.namespace.Some? :: x.namespace.value in tables.libs) ==>
        ok && Written() == old(Written()) + EncTable(carrier, xs, x => EncRecord(carrier, tables.libs, x))
    {
      hide EncRecord, EncUInt, EncAll, Valid, Written;
      ghost var listed := forall x | x in xs && x.namespace.Some? :: x.namespace.value in tables.libs;
      ghost var enc := (x: Symbol) => EncRecord(carrier, tables.libs, x);
      ghost var goal := Written() + (EncUInt(carrier, |xs|) + EncAll(xs, enc));
      Assoc(Written(), EncUInt(carrier, |xs|), EncAll(xs, enc));
      UInt(|xs|);
      var i := 0;
      assert xs[0..] == xs;
      while i < |xs|
        invariant 0 <= i <= |xs| && Valid() && (listed ==> Written() + EncAll(xs[i..], enc) == goal)
      {
        EncAllFrom(xs, i, enc, Written());
        assert xs[i] in xs;
        var known := WriteRecord(xs[i]);
        if !known { return false; }
        i := i + 1;
      }
      EncAllFrom(xs, i, enc, Written());
      return true;
    }

    method WriteHeader(flags: nat) returns (ok: bool)
      requires Valid()
      modifies this`bytes, out
      ensures Valid() && (NamespacesListed(tables) ==> ok && Written() == old(Written()) + EncHeader(carrier, flags, tables))
    {
      hide EncUInt, EncTable, EncBytes, EncRecord;
      ghost var start := Written();
      if carrier.Binary? { bytes := bytes + MAGIC; } else { assert Written() + [] == Written(); }
      UInt(VERSION);
      UInt(flags);
      WriteTexts(tables.libs);
      ok := WriteRecords(tables.symbols);
      if !ok { return; }
      ok := WriteRecords(tables.domains);
      HeaderRegroup(carrier, flags, tables, start);
    }

    // ---- origins ---------------------------------------------------------------------------

    method WriteTrivia(x: Trivia)
      requires Valid()
      modifies this`bytes, out
      ensures Valid() && Written() == old(Written()) + EncTrivia(carrier, x)
    {
      hide EncBytes;
      Assoc(Written(), EncKind(carrier, x.kind), EncBytes(carrier, x.text));
      Code(KindCode(x.kind), 2);
      BytesField(x.text);
    }

    method WriteTrivias(xs: seq<Trivia>)
      requires Valid()
      modifies this`bytes, out
      ensures Valid() && Written() == old(Written()) + EncTable(carrier, xs, x => EncTrivia(carrier, x))
    {
      hide EncTrivia, EncUInt, EncAll, Valid, Written;
      ghost var enc := (x: Trivia) => EncTrivia(carrier, x);
      ghost var goal := Written() + (EncUInt(carrier, |xs|) + EncAll(xs, enc));
      Assoc(Written(), EncUInt(carrier, |xs|), EncAll(xs, enc));
      UInt(|xs|);
      var i := 0;
      assert xs[0..] == xs;
      while i < |xs|
        invariant 0 <= i <= |xs| && Valid() && Written() + EncAll(xs[i..], enc) == goal
      {
        EncAllFrom(xs, i, enc, Written());
        assert xs[i] in xs;
        WriteTrivia(xs[i]);
        i := i + 1;
      }
      EncAllFrom(xs, i, enc, Written());
    }

    method WriteOrigin(o: Origin)
      requires Valid()
      modifies this`bytes, out
      ensures Valid() && Written() == old(Written()) + EncOrigin(carrier, o)
    {
      hide EncUInt, EncTable, EncBytes;
      ghost var start := Written();
      UInt(o.codec);
      BytesField(o.source);
      UInt(o.start);
      UInt(o.end);
      WriteTrivias(o.trivia);
      OriginRegroup(carrier, o, start);
    }

    /** Origins of a tree, parents before children, in the order of the given children. */
    method WriteOriginTree(t: LocatedTree)
      requires Valid()
      modifies this`bytes, out
      ensures Valid() && Written() == old(Written()) + EncTree(carrier, t)
      decreases t, 1
    {
      hide EncOrigin, EncTrees;
      Assoc(Written(), EncMaybe(carrier, t.origin), EncTrees(carrier, t.children));
      match t.origin {
        case Some(o) =>
          Assoc(Written(), [1], EncOrigin(carrier, o));
          Flag(true);
          WriteOrigin(o);
        case None => Flag(false);
      }
      WriteOriginTrees(t.children);
    }

    method WriteOriginTrees(ts: seq<LocatedTree>)
      requires Valid()
      modifies this`bytes, out
      ensures Valid() && Written() == old(Written()) + EncTrees(carrier, ts)
      decreases ts, 0
    {
      hide EncTree;
      ghost var goal := Written() + EncTrees(carrier, ts);
      var i := 0;
      assert ts[0..] == ts;
      while i < |ts|
        invariant 0 <= i <= |ts| && Valid()
        invariant Written() + EncTrees(carrier, ts[i..]) == goal
      {
        assert ts[i..][1..] == ts[i + 1..];
        Assoc(Written(), EncTree(carrier, ts[i]), EncTrees(carrier, ts[i + 1..]));
        WriteOriginTree(ts[i]);
        i := i + 1;
      }
      assert Written() + [] == Written();
    }

    method Finish() returns (frame: bytes)
      requires Valid()
      ensures Clean(carrier, Written()) && frame == Packed(carrier, Written())
    {
      if carrier.Binary? { return bytes; }
      frame := out.Finish();
    }
  }

  function From<T>(xs: seq<T>, i: nat): seq<T> {
    if i <= |xs| then xs[i..] else []
  }

  lemma FromNext<T, U>(names: seq<T>, ks: seq<U>, i: nat)
    requires i < |ks|
    ensures Rest(From(names, i)) == From(names, i + 1) && ks[i..][1..] == ks[i + 1..] && ks[i..][0] == ks[i]
    ensures i < |names| ==> From(names, i) != [] && From(names, i)[0] == names[i]
    ensures i >= |names| ==> From(names, i) == []
  {
  }

  lemma KidInSum(ks: seq<Expr>, i: nat)
    requires i < |ks|
    ensures NodeCount(ks[i]) <= SumNodes(ks) && ks[i] in ks
  {
    KidIsSmaller(ks, i);
  }

  lemma KidsStep(f: Format, names: seq<Symbol>, ks: seq<Expr>, w: WState)
    requires Legal(f) && ks != []
    ensures var first := Enc(f, Canon(ks[0]), w);
      var others := EncKids(f, Rest(names), CanonAll(ks[1..]), first.1);
      EncKids(f, names, CanonAll(ks), w) == (EncName(f, names) + (first.0 + others.0), others.1)
  {
    hide Enc, Canon, EncEntry;
    assert CanonAll(ks)[1..] == CanonAll(ks[1..]);
  }

  lemma KidsDone(f: Format, names: seq<Symbol>, ks: seq<Expr>, w: WState)
    requires Legal(f) && ks == []
    ensures EncKids(f, names, CanonAll(ks), w) == ([], w)
  {
  }

  lemma FourParts(before: Units, a: byte, b: byte, c: Units, d: Units)
    ensures before + [a] + [b] + c + d == before + ([a, b] + c + d)
  {
    assert before + [a] + [b] == before + [a, b];
    Assoc(before, [a, b], c);
    Assoc(before, [a, b] + c, d);
  }

  lemma Regroup(before: Units, tag: Units, fields: Units, front: Units, count: Units, tail: Units)
    ensures before + tag + fields + front + count + tail == before + (tag + (fields + (front + (count + tail))))
  {
    Assoc(before + tag + fields + front, count, tail);
    Assoc(before + tag + fields, front, count + tail);
    Assoc(before + tag, fields, front + (count + tail));
    Assoc(before, tag, fields + (front + (count + tail)));
  }

  lemma HeaderRegroup(c: Carrier, flags: nat, t: Tables, s: Units)
    ensures s + Magic(c) + EncUInt(c, VERSION) + EncUInt(c, flags) + EncTable(c, t.libs, x => EncBytes(c, x))
        + EncTable(c, t.symbols, x => EncRecord(c, t.libs, x)) + EncTable(c, t.domains, x => EncRecord(c, t.libs, x))
      == s + EncHeader(c, flags, t)
  {
    hide EncUInt, EncTable, EncBytes, EncRecord;
    Regroup(s, Magic(c), EncUInt(c, VERSION), EncUInt(c, flags), EncTable(c, t.libs, x => EncBytes(c, x)),
      EncTable(c, t.symbols, x => EncRecord(c, t.libs, x)) + EncTable(c, t.domains, x => EncRecord(c, t.libs, x)));
    Assoc(s + Magic(c) + EncUInt(c, VERSION) + EncUInt(c, flags) + EncTable(c, t.libs, x => EncBytes(c, x)),
      EncTable(c, t.symbols, x => EncRecord(c, t.libs, x)), EncTable(c, t.domains, x => EncRecord(c, t.libs, x)));
  }

  lemma OriginRegroup(c: Carrier, o: Origin, s: Units)
    ensures s + EncUInt(c, o.codec) + EncBytes(c, o.source) + EncUInt(c, o.start) + EncUInt(c, o.end)
        + EncTable(c, o.trivia, x => EncTrivia(c, x))
      == s + EncOrigin(c, o)
  {
    hide EncUInt, EncTable, EncBytes, EncTrivia;
    Regroup(s, EncUInt(c, o.codec), EncBytes(c, o.source), EncUInt(c, o.start), EncUInt(c, o.end),
      EncTable(c, o.trivia, x => EncTrivia(c, x)));
  }

  lemma OneNode(e: Expr)
    requires WellFormed(e)
    ensures NodeCount(e) == 1 + SumNodes(e.kids)
    ensures |Visited(e.head, e.kids)| == |e.kids| && SumNodes(Visited(e.head, e.kids)) == SumNodes(e.kids)
    ensures forall k | k in Visited(e.head, e.kids) :: WellFormed(k)
    ensures HasTail(e.head) ==>
      |e.kids| > 0 && WellFormed(e.kids[0]) && NodeCount(e.kids[0]) < NodeCount(e) && SumNodes(e.kids[1..]) < NodeCount(e)
      && (forall k | k in e.kids[1..] :: WellFormed(k)) && |NamesOf(e.head)| <= |e.kids| - 1
  {
    hide Visited, NodeCount, SumNodes;
    VisitedNodes(e.head, e.kids);
    Counted(e);
    if HasTail(e.head) { assert e.kids[0] in e.kids; }
  }

  lemma Counted(e: Expr)
    ensures NodeCount(e) == 1 + SumNodes(e.kids)
    ensures |e.kids| > 0 ==> SumNodes(e.kids) == NodeCount(e.kids[0]) + SumNodes(e.kids[1..]) && NodeCount(e.kids[0]) > 0
  {
  }

  lemma VisitedNodes(h: Head, ks: seq<Expr>)
    requires h.Map? ==> |ks| % 2 == 0
    ensures |Visited(h, ks)| == |ks| && SumNodes(Visited(h, ks)) == SumNodes(ks)
    ensures forall k :: k in Visited(h, ks) <==> k in ks
  {
    hide CanonicalKeys, SumNodes;
    var w := GroupWidth(h);
    ArrangeByMembers(ks, w, CanonicalKeys);
    if w != 0 {
      var js := Visited(h, ks);
      ArrangeByMoves(ks, w, CanonicalKeys);
      SumOfFlatten(Chunks(js, w), Chunks(ks, w));
      FlattenChunks(ks, w);
      FlattenChunks(js, w);
    }
  }

  ghost predicate TailedParts(f: Format, e: Expr, w: WState)
    requires Legal(f) && |e.kids| > 0
  {
    var front := Enc(f, Canon(e.kids[0]), w);
    var tail := EncKids(f, NamesOf(e.head), CanonAll(e.kids[1..]), front.1);
    NodeBody(f, Canon(e), w)
      == (EncFields(f.carrier, f.tables, e.head, |e.kids|) + (front.0 + (EncUInt(f.carrier, |e.kids| - 1) + tail.0)), tail.1)
  }

  ghost predicate FlatParts(f: Format, e: Expr, w: WState)
    requires Legal(f)
  {
    var front := EncKids(f, [], Canon(e).kids, w);
    NodeBody(f, Canon(e), w) == (EncFields(f.carrier, f.tables, e.head, |e.kids|) + front.0, front.1)
  }

  /** What the walk over the given children adds up to. */
  lemma BodyParts(f: Format, e: Expr, w: WState)
    requires Legal(f) && WellFormed(e)
    ensures Canon(e).head == e.head && |Canon(e).kids| == |e.kids|
    ensures HasTail(e.head) ==> (|e.kids| > 0 && TailedParts(f, e, w))
    ensures !HasTail(e.head) ==> (Canon(e).kids == CanonAll(Visited(e.head, e.kids)) && FlatParts(f, e, w))
  {
    hide EncFields, EncUInt, EncKids, Enc, EncNode, TailedParts, FlatParts, Canon, HasTail;
    CanonShape(e);
    if HasTail(e.head) { TailedIsParts(f, e, w); } else { FlatIsParts(f, e, w); }
  }

  lemma CanonShape(e: Expr)
    requires WellFormed(e)
    ensures Canon(e).head == e.head && |Canon(e).kids| == |e.kids| && (HasTail(e.head) ==> |e.kids| > 0)
    ensures Canon(e).kids == CanonAll(Visited(e.head, e.kids))
  {
    hide Arrange;
    ArrangeFacts(e.head, CanonAll(e.kids));
    VisitedIsCanonical(e);
  }

  lemma TailedIsParts(f: Format, e: Expr, w: WState)
    requires Legal(f) && WellFormed(e) && HasTail(e.head)
    ensures |e.kids| > 0 && TailedParts(f, e, w)
  {
    hide EncFields, EncUInt, EncKids, Enc, Canon;
    CanonShape(e);
    TailedKids(e);
  }

  lemma FlatIsParts(f: Format, e: Expr, w: WState)
    requires Legal(f) && WellFormed(e) && !HasTail(e.head)
    ensures FlatParts(f, e, w)
  {
    hide EncFields, EncUInt, EncKids, Enc, Canon;
    CanonShape(e);
  }

  lemma TailedKids(e: Expr)
    requires HasTail(e.head) && |e.kids| > 0
    ensures Canon(e).kids[0] == Canon(e.kids[0]) && Canon(e).kids[1..] == CanonAll(e.kids[1..])
  {
    assert GroupWidth(e.head) == 0;
  }

  lemma ClosedParts(t: Tables, e: Expr)
    requires Closed(t, e) && WellFormed(e)
    ensures HeadClosed(t, e.head) && KidsClosed(t, [], Visited(e.head, e.kids))
    ensures HasTail(e.head) ==> |e.kids| > 0 && Closed(t, e.kids[0]) && KidsClosed(t, NamesOf(e.head), e.kids[1..])
  {
    hide Canon;
    VisitedNodes(e.head, e.kids);
  }
}
