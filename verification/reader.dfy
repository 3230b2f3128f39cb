/** The frame readers: a cursor, a node count and the completed subtrees of a dense body. */
module FrameReaders {
  import opened Exprs
  import opened Bits
  import opened Numbers
  import opened Grouping
  import opened Atoms
  import opened Body
  import opened SideTables
  import opened Origins
  import opened Wire
  import opened Frames
  import opened Codecs
  import opened BitIo

  /**
    * The bit codec's and the byte codec's readers run the same walk over
    * different primitives; `carrier` says whose are called.
    */
  class FrameReader {
    const carrier: Carrier
    const limits: Limits
    const input: BitReader
    const bytes: bytes
    var index: nat
    var tables: Tables
    var dense: bool
    var exprNodes: nat
    var denseNodes: seq<Option<Slot>>

    ghost predicate Valid()
      reads this, input
    {
      input.Valid() && index <= |bytes|
    }

    ghost function Rest(): Units
      reads this, input
      requires Valid()
    {
      if carrier.Bitwise? then input.Rest() else bytes[index..]
    }

    ghost function Fmt(): Format
      reads this
    {
      Format(carrier, tables, dense)
    }

    ghost function State(): RState
      reads this
    {
      RState(exprNodes, denseNodes)
    }

    /** A successful read leaves exactly what the specification leaves. */
    ghost predicate Took<T>(spec: Option<(T, Units)>, r: Option<T>)
      reads this, input
      requires Valid()
    {
      match spec
      case None => r.None?
      case Some((v, rest)) => r == Some(v) && Rest() == rest
    }

    constructor (carrier: Carrier, frame: bytes, limits: Limits)
      ensures Valid() && fresh(input) && Rest() == Payload(carrier, frame)
      ensures this.carrier == carrier && this.limits == limits && State() == FRESH_READER
    {
      this.carrier, this.limits, this.bytes := carrier, limits, frame;
      index, tables, dense := 0, Tables([], [], []), false;
      exprNodes, denseNodes := 0, [];
      input := new BitReader(frame);
    }

    // ---- primitives -------------------------------------------------------------------

    method ReadU8() returns (r: Option<byte>)
      requires Valid() && carrier.Binary?
      modifies this`index
      ensures Valid()
      ensures old(Rest()) == [] ==> r.None?
      ensures old(Rest()) != [] ==> r == Some(old(Rest())[0]) && Rest() == old(Rest())[1..]
    {
      if index >= |bytes| { return None; }
      r := Some(bytes[index]);
      index := index + 1;
    }

    /** Accumulates seven bits at a time into a 64-bit word, dropping what does not fit. */
    method ReadVarUintLoop() returns (r: Option<nat>)
      requires Valid() && carrier.Binary?
      modifies this`index
      ensures Valid() && Took(ReadVarUint(old(Rest())), r)
    {
      hide Contribution;
      var shift: nat, value: nat := 0, 0;
      ghost var goal := ReadVarUint(Rest());
      while true
        invariant Valid() && goal == ReadVarUintFrom(Rest(), shift, value)
        decreases |bytes| - index
      {
        var b := ReadU8();
        if b.None? { return None; }
        value := value + Contribution(b.value, shift);
        if b.value < 128 { return Some(value); }
        shift := shift + 7;
        if shift >= 64 { return None; }
      }
    }

    method UInt() returns (r: Option<nat>)
      requires Valid()
      modifies this`index, input
      ensures Valid() && Took(DecUInt(carrier, old(Rest())), r)
    {
      if carrier.Bitwise? { r := input.ReadVBits(); } else { r := ReadVarUintLoop(); }
    }

    method Count(limit: usize) returns (r: Option<nat>)
      requires Valid()
      modifies this`index, input
      ensures Valid() && Took(DecCount(carrier, old(Rest()), limit), r)
    {
      hide DecUInt;
      r := UInt();
      if r.Some? && r.value > limit { return None; }
    }

    method Raw(n: nat) returns (r: Option<bytes>)
      requires Valid()
      modifies this`index, input
      ensures Valid() && Took(TakePayload(carrier, old(Rest()), n), r)
    {
      if carrier.Bitwise? {
        r := input.ReadBytes(n);
      } else {
        if index + n > |bytes| { return None; }
        assert bytes[index..][..n] == bytes[index..index + n] && bytes[index..][n..] == bytes[index + n..];
        r := Some(bytes[index..index + n]);
        index := index + n;
      }
    }

    method Bytes(limit: usize) returns (r: Option<bytes>)
      requires Valid()
      modifies this`index, input
      ensures Valid() && Took(DecBytes(carrier, old(Rest()), limit), r)
    {
      hide DecCount, TakePayload;
      var n := Count(limit);
      if n.None? { return None; }
      r := Raw(n.value);
    }

    method Text() returns (r: Option<Text>)
      requires Valid()
      modifies this`index, input
      ensures Valid() && Took(DecText(carrier, old(Rest()), limits.maxStringBytes), r)
    {
      hide DecBytes;
      var bs := Bytes(limits.maxStringBytes);
      if bs.None? || !IsUtf8(bs.value) { return None; }
      return Some(bs.value);
    }

    /** A small code: `width` bits, or one byte. */
    method Code(width: nat) returns (r: Option<nat>)
      requires Valid()
      modifies this`index, input
      ensures Valid() && Took(if carrier.Bitwise? then Bits.ReadBits(old(Rest()), width) else FirstByte(old(Rest())), r)
    {
      if carrier.Bitwise? {
        r := input.ReadBits(width);
      } else {
        var b := ReadU8();
        r := if b.Some? then Some(b.value as nat) else None;
      }
    }

    method Flag() returns (r: Option<bool>)
      requires Valid()
      modifies this`index, input
      ensures Valid() && Took(DecFlag(carrier, old(Rest())), r)
    {
      if carrier.Bitwise? {
        r := input.ReadBit();
      } else {
        var b := ReadU8();
        if b.None? || b.value > 1 { return None; }
        return Some(b.value == 1);
      }
    }

    method Tag() returns (r: Option<nat>)
      requires Valid()
      modifies this`index, input
      ensures Valid() && Took(DecTag(carrier, old(Rest())), r)
    {
      r := Code(6);
      if r.None? { return; }
      if carrier.Bitwise? {
        if r.value > REF { return None; }
      } else {
        r := BinaryKind(r.value);
      }
    }

    method SymbolField() returns (r: Option<Symbol>)
      requires Valid()
      modifies this`index, input
      ensures Valid() && Took(DecEntry(carrier, old(Rest()), tables.symbols), r)
    {
      hide DecCount;
      var i := Count(USIZE_MAX);
      if i.None? || i.value >= |tables.symbols| { return None; }
      return Some(tables.symbols[i.value]);
    }

    method DomainField() returns (r: Option<Symbol>)
      requires Valid()
      modifies this`index, input
      ensures Valid() && Took(DecEntry(carrier, old(Rest()), tables.domains), r)
    {
      hide DecCount;
      var i := Count(USIZE_MAX);
      if i.None? || i.value >= |tables.domains| { return None; }
      return Some(tables.domains[i.value]);
    }

    // ---- numbers --------------------------------------------------------------------------

    method Magnitude() returns (r: Option<Units>)
      requires Valid() && carrier.Bitwise?
      modifies this`index, input
      ensures Valid() && Took(DecMagnitudeBits(old(Rest()), limits), r)
      ensures r.Some? ==> IsBits(r.value)
    {
      hide DecCount;
      var n := Count(MagnitudeLimit(limits));
      if n.None? { return None; }
      r := BitList(n.value);
      if r.Some? && |r.value| > 0 && r.value[0] == 0 { return None; }
    }

    method BitList(n: nat) returns (r: Option<Units>)
      requires Valid() && carrier.Bitwise?
      modifies this`index, input
      ensures Valid()
      ensures |old(Rest())| < n ==> r.None?
      ensures |old(Rest())| >= n ==> r == Some(old(Rest())[..n]) && Rest() == old(Rest())[n..] && IsBits(r.value)
    {
      ghost var start := Rest();
      RestIsBits();
      var bits: Units, i := [], 0;
      while i < n
        invariant 0 <= i <= n && i <= |start| && Valid()
        invariant Rest() == start[i..] && bits == start[..i]
      {
        var bit := input.ReadBit();
        if bit.None? { return None; }
        assert start[..i + 1] == start[..i] + [start[i]];
        bits := bits + [Bit(bit.value)];
        i := i + 1;
      }
      return Some(bits);
    }

    lemma RestIsBits()
      requires Valid() && carrier.Bitwise?
      ensures IsBits(Rest())
    {
      PayloadIsBits(input.bytes);
      SuffixIsBits(Payload(Bitwise, input.bytes), Payload(Bitwise, input.bytes)[..input.bitIndex], Rest());
    }

    method NumberText() returns (r: Option<Text>)
      requires Valid()
      modifies this`index, input
      ensures Valid() && Took(DecNumberText(carrier, old(Rest()), limits), r)
    {
      hide DecText, DecMagnitude, DecMagnitudeBits, IntegerText, IsUtf8;
      if carrier.Binary? { r := Text(); return; }
      var integer := input.ReadBit();
      if integer.None? { return None; }
      if !integer.value { r := Text(); return; }
      var negative := input.ReadBit();
      if negative.None? { return None; }
      MagnitudeSplit(Rest(), limits, negative.value);
      var bits := Magnitude();
      if bits.None? { return None; }
      var text := BitsToInteger(negative.value, bits.value);
      IntegerTextIsAscii(negative.value, bits.value);
      return Some(text);
    }

    // ---- node fields ------------------------------------------------------------------------

    /** A head that needs one table symbol. */
    method SymbolHead(front: nat, make: Symbol -> Head) returns (r: Option<(Head, nat)>)
      requires Valid()
      modifies this`index, input
      ensures Valid() && TookHead(DecSymbolHead(carrier, tables, old(Rest()), front, make), r)
    {
      hide DecEntry;
      var x := SymbolField();
      return if x.Some? then Some((make(x.value), front)) else None;
    }

    method CountedHead(h: Head, paired: bool) returns (r: Option<(Head, nat)>)
      requires Valid()
      modifies this`index, input
      ensures Valid() && TookHead(DecCounted(carrier, limits, old(Rest()), h, paired), r)
    {
      hide DecCount;
      var n := Count(limits.maxTableEntries);
      return if n.Some? then Some((h, if paired then 2 * n.value else n.value)) else None;
    }

    method NumberHead(kind: nat) returns (r: Option<(Head, nat)>)
      requires Valid()
      modifies this`index, input
      ensures Valid() && TookHead(DecNumber(carrier, limits, tables, kind, old(Rest())), r)
    {
      hide DecEntry, DecNumberText, DecimalText;
      var domain := DomainField();
      if domain.None? { return None; }
      if kind < 16 {
        DigitTextIsAscii(kind);
        return Some((Number(NumberLiteral(domain.value, DecimalText(kind))), 0));
      }
      var text := NumberText();
      return if text.Some? then Some((Number(NumberLiteral(domain.value, text.value)), 0)) else None;
    }

    method Mode() returns (r: Option<QuoteMode>)
      requires Valid()
      modifies this`index, input
      ensures Valid() && Took(DecMode(carrier, old(Rest())), r)
    {
      hide Bits.ReadBits;
      var n := Code(3);
      return if n.Some? then ModeFromCode(n.value) else None;
    }

    ghost predicate TookHead(spec: Option<HeadRead>, r: Option<(Head, nat)>)
      reads this, input
      requires Valid()
    {
      match spec
      case None => r.None?
      case Some(h) => r == Some((h.head, h.front)) && Rest() == h.rest
    }

    /** The head a tag announces, and how many children follow at once. */
    method Fields(kind: nat) returns (r: Option<(Head, nat)>)
      requires Valid()
      modifies this`index, input
      ensures Valid() && TookHead(DecFields(carrier, limits, tables, kind, old(Rest())), r)
    {
      hide DecNumber, DecSymbolHead, DecCounted, DecText, DecBytes, DecMode;
      if kind < 16 || kind == 19 { r := NumberHead(kind); return; }
      match kind {
        case 16 => return Some((Nil, 0));
        case 17 => return Some((Bool(false), 0));
        case 18 => return Some((Bool(true), 0));
        case 20 => r := SymbolHead(0, x => Sym(x));
        case 21 => r := SymbolHead(0, x => Local(x));
        case 22 =>
          var x := Text();
          return if x.Some? then Some((Str(x.value), 0)) else None;
        case 23 =>
          var x := Bytes(limits.maxBlobBytes);
          return if x.Some? then Some((Blob(x.value), 0)) else None;
        case 24 => r := CountedHead(List, false);
        case 25 => r := CountedHead(Vector, false);
        case 26 => r := CountedHead(Map, true);
        case 27 => r := CountedHead(Set, false);
        case 28 => return Some((Call, 1));
        case 29 => r := SymbolHead(2, x => Infix(x));
        case 30 => r := SymbolHead(1, x => Prefix(x));
        case 31 => r := SymbolHead(1, x => Postfix(x));
        case 32 => r := CountedHead(Block, false);
        case 33 =>
          var m := Mode();
          return if m.Some? then Some((Quote(m.value), 1)) else None;
        case 34 => return Some((Annotated([]), 1));
        case 35 => r := SymbolHead(1, x => Extension(x));
        case _ => return None;
      }
    }

    // ---- expressions ------------------------------------------------------------------------

    /** A successful read of part of the body also leaves the specified state. */
    ghost predicate Reached<T>(spec: Option<Read<T>>, r: Option<T>)
      reads this, input
      requires Valid()
    {
      match spec
      case None => r.None?
      case Some(d) => r == Some(d.value) && Rest() == d.rest && State() == d.state
    }

    method BumpNodes(count: nat) returns (ok: bool)
      modifies this`exprNodes
      ensures ok <==> Bump(limits, old(State()), count).Some?
      ensures ok ==> State() == Bump(limits, old(State()), count).value
    {
      exprNodes := exprNodes + count;
      ok := exprNodes <= limits.maxExprNodes;
    }

    /** A back-reference costs the whole subtree it stands for. */
    method ResolveRef() returns (r: Option<Expr>)
      requires Valid()
      modifies this`index, this`exprNodes, input
      ensures Valid() && Reached(DecRef(Fmt(), limits, old(Rest()), old(State())), r)
    {
      hide DecCount;
      var i := Count(USIZE_MAX);
      if i.None? || i.value >= |denseNodes| { return None; }
      var entry := denseNodes[i.value];
      if entry.None? { return None; }
      var ok := BumpNodes(entry.value.count);
      return if ok then Some(entry.value.expr) else None;
    }

    method ReadExprWithDepth(depth: nat) returns (r: Option<Expr>)
      requires Valid()
      modifies this`index, this`exprNodes, this`denseNodes, input
      ensures Valid() && Reached(Dec(Fmt(), limits, old(Rest()), depth, old(State())), r)
      decreases if depth > limits.maxDepth then 0 else limits.maxDepth + 1 - depth, 1, 0
    {
      hide DecTag, DecRef, DecNode, DecFields, DecKids, DecCount;
      if depth > limits.maxDepth { return None; }
      ghost var spec := Dec(Fmt(), limits, Rest(), depth, State());
      var tag := Tag();
      if tag.None? { return None; }
      if dense && tag.value == REF { r := ResolveRef(); return; }
      r := ReadNode(tag.value, depth);
    }

    /** An empty slot stands for the subtree about to be read. */
    method Reserve()
      modifies this`denseNodes
      ensures State() == OpenSlot(Fmt(), old(State()))
    {
      if dense { denseNodes := denseNodes + [None]; }
    }

    method Complete(slot: nat, e: Expr)
      modifies this`denseNodes
      ensures State() == CloseSlot(Fmt(), old(State()), slot, e)
    {
      hide NodeCount;
      if dense && slot < |denseNodes| { denseNodes := denseNodes[slot := Some(Slot(e, NodeCount(e)))]; }
    }

    /** Reserves a slot, reads the node and completes the slot. */
    method ReadNode(kind: nat, depth: nat) returns (r: Option<Expr>)
      requires Valid() && depth <= limits.maxDepth
      modifies this`index, this`exprNodes, this`denseNodes, input
      ensures Valid() && Reached(DecNode(Fmt(), limits, kind, old(Rest()), depth, old(State())), r)
      decreases limits.maxDepth + 1 - depth, 0, 1
    {
      hide DecFields, DecKids, DecCount, Bump, OpenSlot, CloseSlot, TailRead, DecNode;
      NodeRead(Fmt(), limits, kind, Rest(), depth, State());
      var slot := |denseNodes|;
      Reserve();
      var ok := BumpNodes(1);
      if !ok { return None; }
      var h := Fields(kind);
      if h.None? { return None; }
      var (head, n) := h.value;
      var front := ReadKids(false, n, depth + 1);
      if front.None? { return None; }
      if HasTail(head) {
        r := ReadTail(head, front.value.1, slot, depth);
      } else {
        r := Some(Expr(head, front.value.1));
        Complete(slot, r.value);
      }
    }

    /** A count and that many more children, named or not. */
    method ReadTail(head: Head, kids: seq<Expr>, slot: nat, depth: nat) returns (r: Option<Expr>)
      requires Valid() && depth <= limits.maxDepth
      modifies this`index, this`exprNodes, this`denseNodes, input
      ensures Valid() && Reached(TailRead(Fmt(), limits, head, kids, old(Rest()), slot, depth, old(State())), r)
      decreases limits.maxDepth + 1 - depth, 0, 0
    {
      hide DecKids, DecCount, CloseSlot;
      var count := Count(limits.maxTableEntries);
      if count.None? { return None; }
      var tail := ReadKids(head.Annotated?, count.value, depth + 1);
      if tail.None? { return None; }
      var e := Expr(if head.Annotated? then Annotated(tail.value.0) else head, kids + tail.value.1);
      Complete(slot, e);
      return Some(e);
    }

    method ReadKids(named: bool, n: nat, depth: nat) returns (r: Option<(seq<Symbol>, seq<Expr>)>)
      requires Valid()
      modifies this`index, this`exprNodes, this`denseNodes, input
      ensures Valid() && Reached(DecKids(Fmt(), limits, named, old(Rest()), n, depth, old(State())), r)
      decreases if depth > limits.maxDepth then 0 else limits.maxDepth + 1 - depth, 2, n
    {
      hide Dec, DecEntry, DecKids;
      ghost var goal := DecKids(Fmt(), limits, named, Rest(), n, depth, State());
      var names: seq<Symbol>, items: seq<Expr>, i := [], [], 0;
      KidsPrefixedNothing(goal);
      while i < n
        invariant 0 <= i <= n && Valid()
        invariant goal == KidsPrefixed(names, items, DecKids(Fmt(), limits, named, Rest(), n - i, depth, State()))
      {
        KidsReadStep(Fmt(), limits, named, names, items, Rest(), n - i, depth, State());
        if named {
          var x := SymbolField();
          if x.None? { return None; }
          names := names + [x.value];
        } else {
          assert names + [] == names;
        }
        var e := ReadExprWithDepth(depth);
        if e.None? { return None; }
        items := items + [e.value];
        i := i + 1;
      }
      KidsReadDone(Fmt(), limits, named, names, items, Rest(), depth, State());
      return Some((names, items));
    }

    // ---- headers ------------------------------------------------------------------------------

    method ReadTexts() returns (r: Option<seq<Text>>)
      requires Valid()
      modifies this`index, input
      ensures Valid()
      ensures Took(DecTable(carrier, old(Rest()), limits.maxTableEntries, x => DecText(carrier, x, limits.maxStringBytes)), r)
    {
      hide DecText, DecCount, DecAll;
      ghost var dec := (x: Units) => DecText(carrier, x, limits.maxStringBytes);
      var n := Count(limits.maxTableEntries);
      if n.None? { return None; }
      ghost var goal := DecAll(Rest(), n.value, dec);
      var out: seq<Text>, i := [], 0;
      AllPrefixedNothing(goal);
      while i < n.value
        invariant 0 <= i <= n.value && Valid()
        invariant goal == AllPrefixed(out, DecAll(Rest(), n.value - i, dec))
      {
        AllStep(out, Rest(), n.value - i, dec);
        var x := Text();
        if x.None? { return None; }
        out := out + [x.value];
        i := i + 1;
      }
      AllDone(out, Rest(), dec);
      return Some(out);
    }

    method ReadRecord(libs: seq<Text>) returns (r: Option<Symbol>)
      requires Valid()
      modifies this`index, input
      ensures Valid() && Took(DecRecord(carrier, limits, libs, old(Rest())), r)
    {
      hide DecUInt, DecText;
      var slot := UInt();
      if slot.None? { return None; }
      var name := Text();
      if name.None? { return None; }
      if slot.value == 0 { return Some(Symbol(None, name.value)); }
      if slot.value - 1 >= |libs| { return None; }
      return Some(Symbol(Some(libs[slot.value - 1]), name.value));
    }

    method ReadRecords(libs: seq<Text>) returns (r: Option<seq<Symbol>>)
      requires Valid()
      modifies this`index, input
      ensures Valid()
      ensures Took(DecTable(carrier, old(Rest()), limits.maxTableEntries, x => DecRecord(carrier, limits, libs, x)), r)
    {
      hide DecRecord, DecCount, DecAll;
      ghost var dec := (x: Units) => DecRecord(carrier, limits, libs, x);
      var n := Count(limits.maxTableEntries);
      if n.None? { return None; }
      ghost var goal := DecAll(Rest(), n.value, dec);
      var out: seq<Symbol>, i := [], 0;
      AllPrefixedNothing(goal);
      while i < n.value
        invariant 0 <= i <= n.value && Valid()
        invariant goal == AllPrefixed(out, DecAll(Rest(), n.value - i, dec))
      {
        AllStep(out, Rest(), n.value - i, dec);
        var x := ReadRecord(libs);
        if x.None? { return None; }
        out := out + [x.value];
        i := i + 1;
      }
      AllDone(out, Rest(), dec);
      return Some(out);
    }

    method ReadMagic() returns (ok: bool)
      requires Valid()
      modifies this`index
      ensures Valid() && (ok <==> Magic(carrier) <= old(Rest())) && (ok ==> Rest() == old(Rest())[|Magic(carrier)|..])
    {
      if carrier.Bitwise? { return true; }
      if index + 4 > |bytes| { return false; }
      assert Rest()[..4] == bytes[index..index + 4];
      if bytes[index..index + 4] != MAGIC { return false; }
      index := index + 4;
      return true;
    }

    method ReadTables() returns (r: Option<Tables>)
      requires Valid()
      modifies this`index, input
      ensures Valid() && Took(DecTables(carrier, limits, old(Rest())), r)
    {
      hide DecTable, DecText, DecRecord;
      var libs := ReadTexts();
      if libs.None? { return None; }
      var symbols := ReadRecords(libs.value);
      if symbols.None? { return None; }
      var domains := ReadRecords(libs.value);
      if domains.None? { return None; }
      return Some(Tables(libs.value, symbols.value, domains.value));
    }

    /** Checks magic, version and flags, then fills the side tables. */
    method ReadHeader() returns (flags: Option<nat>)
      requires Valid()
      modifies this`index, this`tables, this`dense, input
      ensures Valid() && State() == old(State())
      ensures match DecHeader(carrier, limits, old(Rest()))
              case None => flags.None?
              case Some(h) => flags == Some(h.flags) && tables == h.tables && dense == HasFlag(h.flags, DENSE) && Rest() == h.rest
    {
      hide DecUInt, DecTables, Magic;
      var magic := ReadMagic();
      if !magic { return None; }
      var version := UInt();
      if version.None? || version.value != VERSION { return None; }
      var f := UInt();
      if f.None? || f.value > KnownFlags(carrier) { return None; }
      dense := HasFlag(f.value, DENSE);
      var t := ReadTables();
      if t.None? { return None; }
      tables := t.value;
      return f;
    }

    // ---- origins --------------------------------------------------------------------------------

    method ReadTrivia() returns (r: Option<Trivia>)
      requires Valid()
      modifies this`index, input
      ensures Valid() && Took(DecTrivia(carrier, limits, old(Rest())), r)
    {
      hide DecText, Bits.ReadBits;
      var code := Code(2);
      if code.None? { return None; }
      var text := Text();
      if text.None? { return None; }
      var kind := KindFromCode(code.value);
      return if kind.Some? then Some(Trivia(kind.value, text.value)) else None;
    }

    method ReadTrivias() returns (r: Option<seq<Trivia>>)
      requires Valid()
      modifies this`index, input
      ensures Valid()
      ensures Took(DecTable(carrier, old(Rest()), limits.maxTriviaItems, x => DecTrivia(carrier, limits, x)), r)
    {
      hide DecTrivia, DecCount, DecAll;
      ghost var dec := (x: Units) => DecTrivia(carrier, limits, x);
      var n := Count(limits.maxTriviaItems);
      if n.None? { return None; }
      ghost var goal := DecAll(Rest(), n.value, dec);
      var out: seq<Trivia>, i := [], 0;
      AllPrefixedNothing(goal);
      while i < n.value
        invariant 0 <= i <= n.value && Valid()
        invariant goal == AllPrefixed(out, DecAll(Rest(), n.value - i, dec))
      {
        AllStep(out, Rest(), n.value - i, dec);
        var x := ReadTrivia();
        if x.None? { return None; }
        out := out + [x.value];
        i := i + 1;
      }
      AllDone(out, Rest(), dec);
      return Some(out);
    }

    method ReadOrigin() returns (r: Option<Origin>)
      requires Valid()
      modifies this`index, input
      ensures Valid() && Took(DecOrigin(carrier, limits, old(Rest())), r)
    {
      hide DecUInt, DecText, DecCount, DecTable, DecTrivia;
      var wide := UInt();
      if wide.None? { return None; }
      var codec := NarrowCodec(carrier, wide.value);
      if codec.None? { return None; }
      var source := Text();
      if source.None? { return None; }
      var start := Count(USIZE_MAX);
      if start.None? { return None; }
      var end := Count(USIZE_MAX);
      if end.None? { return None; }
      var trivia := ReadTrivias();
      if trivia.None? { return None; }
      return Some(Origin(codec.value, source.value, start.value, end.value, trivia.value));
    }

    /** Rebuilds a located tree over an expression, children in their own order. */
    method ReadOriginTree(e: Expr, depth: nat) returns (r: Option<LocatedTree>)
      requires Valid()
      modifies this`index, input
      ensures Valid() && Took(DecTree(carrier, limits, e, old(Rest()), depth), r)
      decreases e, 1
    {
      hide DecOrigin, DecTrees;
      if depth > limits.maxDepth { return None; }
      var present := Flag();
      if present.None? { return None; }
      var origin: Option<Origin> := None;
      if present.value {
        origin := ReadOrigin();
        if origin.None? { return None; }
      }
      var children := ReadOriginTrees(e.kids, depth + 1);
      if children.None? { return None; }
      return Some(LocatedTree(Expr(e.head, Roots(children.value)), origin, children.value));
    }

    method ReadOriginTrees(es: seq<Expr>, depth: nat) returns (r: Option<seq<LocatedTree>>)
      requires Valid()
      modifies this`index, input
      ensures Valid() && Took(DecTrees(carrier, limits, es, old(Rest()), depth), r)
      decreases es, 0
    {
      hide DecTree, DecTrees;
      ghost var goal := DecTrees(carrier, limits, es, Rest(), depth);
      var out: seq<LocatedTree>, i := [], 0;
      AllPrefixedNothing(goal);
      assert es[0..] == es;
      while i < |es|
        invariant 0 <= i <= |es| && Valid()
        invariant goal == AllPrefixed(out, DecTrees(carrier, limits, es[i..], Rest(), depth))
      {
        TreesStep(carrier, limits, out, es[i..], Rest(), depth);
        assert es[i..][1..] == es[i + 1..];
        var t := ReadOriginTree(es[i], depth);
        if t.None? { return None; }
        out := out + [t.value];
        i := i + 1;
      }
      TreesDone(carrier, limits, out, es[i..], Rest(), depth);
      return Some(out);
    }

    /** A byte frame must be used up; a bit frame may keep fewer than eight zero bits. */
    method AtEnd() returns (ok: bool)
      requires Valid()
      modifies input
      ensures Valid() && (ok <==> Finished(carrier, old(Rest())))
    {
      if carrier.Bitwise? { ok := input.RequireZeroPadding(); } else { ok := index >= |bytes|; }
    }
  }

  /** A result with items already read put in front. */
  ghost function AllPrefixed<T>(out: seq<T>, r: Option<(seq<T>, Units)>): Option<(seq<T>, Units)> {
    match r
    case None => None
    case Some((xs, rest)) => Some((out + xs, rest))
  }

  lemma AllPrefixedNothing<T>(r: Option<(seq<T>, Units)>)
    ensures AllPrefixed([], r) == r
  {
    if r.Some? { assert [] + r.value.0 == r.value.0; }
  }

  lemma AllStep<T>(out: seq<T>, s: Units, n: nat, dec: Units -> Option<(T, Units)>)
    requires n > 0
    ensures AllPrefixed(out, DecAll(s, n, dec)) == match dec(s)
      case None => None
      case Some((x, rest)) => AllPrefixed(out + [x], DecAll(rest, n - 1, dec))
  {
    match dec(s)
    case None =>
    case Some((x, rest)) =>
      if DecAll(rest, n - 1, dec).Some? { Assoc(out, [x], DecAll(rest, n - 1, dec).value.0); }
  }

  lemma AllDone<T>(out: seq<T>, s: Units, dec: Units -> Option<(T, Units)>)
    ensures AllPrefixed(out, DecAll(s, 0, dec)) == Some((out, s))
  {
    assert out + [] == out;
  }

  lemma TreesStep(c: Carrier, limits: Limits, out: seq<LocatedTree>, es: seq<Expr>, s: Units, depth: nat)
    requires es != []
    ensures AllPrefixed(out, DecTrees(c, limits, es, s, depth)) == match DecTree(c, limits, es[0], s, depth)
      case None => None
      case Some((t, rest)) => AllPrefixed(out + [t], DecTrees(c, limits, es[1..], rest, depth))
  {
    hide DecTree;
    match DecTree(c, limits, es[0], s, depth)
    case None =>
    case Some((t, rest)) =>
      if DecTrees(c, limits, es[1..], rest, depth).Some? { Assoc(out, [t], DecTrees(c, limits, es[1..], rest, depth).value.0); }
  }

  lemma TreesDone(c: Carrier, limits: Limits, out: seq<LocatedTree>, es: seq<Expr>, s: Units, depth: nat)
    requires es == []
    ensures AllPrefixed(out, DecTrees(c, limits, es, s, depth)) == Some((out, s))
  {
    assert out + [] == out;
  }

  /** The part of a node after its first child, when it has a counted tail. */
  ghost function TailRead(f: Format, limits: Limits, head: Head, kids: seq<Expr>, s: Units, slot: nat, depth: nat, r: RState): Option<Read<Expr>>
    requires depth <= limits.maxDepth
  {
    match DecCount(f.carrier, s, limits.maxTableEntries)
    case None => None
    case Some((n, rest)) =>
      match DecKids(f, limits, head.Annotated?, rest, n, depth + 1, r)
      case None => None
      case Some(tail) =>
        var e := Expr(if head.Annotated? then Annotated(tail.value.0) else head, kids + tail.value.1);
        Some(Read(e, tail.rest, CloseSlot(f, tail.state, slot, e)))
  }

  /** How a node is put together. */
  lemma NodeRead(f: Format, limits: Limits, kind: nat, s: Units, depth: nat, r: RState)
    requires depth <= limits.maxDepth
    ensures DecNode(f, limits, kind, s, depth, r) == match Bump(limits, OpenSlot(f, r), 1)
      case None => None
      case Some(r1) => match DecFields(f.carrier, limits, f.tables, kind, s)
        case None => None
        case Some(h) => match DecKids(f, limits, false, h.rest, h.front, depth + 1, r1)
          case None => None
          case Some(front) =>
            if HasTail(h.head) then TailRead(f, limits, h.head, front.value.1, front.rest, |r.slots|, depth, front.state)
            else Some(Read(Expr(h.head, front.value.1), front.rest, CloseSlot(f, front.state, |r.slots|, Expr(h.head, front.value.1))))
  {
    hide DecFields, DecKids, DecCount, Bump, OpenSlot, CloseSlot;
  }

  function FirstByte(s: Units): Option<(nat, Units)> {
    if |s| == 0 then None else Some((s[0], s[1..]))
  }

  /** Magnitude bits as they stand in the frame, without a leading zero. */
  function DecMagnitudeBits(s: Units, limits: Limits): Option<(Units, Units)> {
    match DecCount(Bitwise, s, MagnitudeLimit(limits))
    case None => None
    case Some((n, rest)) =>
      if |rest| < n then None
      else if n > 0 && rest[0] == 0 then None
      else Some((rest[..n], rest[n..]))
  }

  lemma MagnitudeSplit(s: Units, limits: Limits, negative: bool)
    ensures var text, bits := DecMagnitude(Bitwise, s, limits, negative), DecMagnitudeBits(s, limits);
      (text.Some? <==> bits.Some?)
      && (bits.Some? ==> text.value.0 == IntegerText(negative, bits.value.0) && text.value.1 == bits.value.1)
  {
    hide DecCount, IntegerText, IsUtf8;
  }

  ghost function KidsPrefixed(names: seq<Symbol>, items: seq<Expr>, r: Option<Read<(seq<Symbol>, seq<Expr>)>>)
    : Option<Read<(seq<Symbol>, seq<Expr>)>>
  {
    match r
    case None => None
    case Some(d) => Some(Read((names + d.value.0, items + d.value.1), d.rest, d.state))
  }

  lemma KidsPrefixedNothing(r: Option<Read<(seq<Symbol>, seq<Expr>)>>)
    ensures KidsPrefixed([], [], r) == r
  {
    if r.Some? { assert [] + r.value.value.0 == r.value.value.0 && [] + r.value.value.1 == r.value.value.1; }
  }

  lemma KidsReadStep(f: Format, limits: Limits, named: bool, names: seq<Symbol>, items: seq<Expr>, s: Units, n: nat, depth: nat, r: RState)
    requires n > 0
    ensures KidsPrefixed(names, items, DecKids(f, limits, named, s, n, depth, r)) == match DecName(f, named, s)
      case None => None
      case Some((name, rest)) => match Dec(f, limits, rest, depth, r)
        case None => None
        case Some(first) => KidsPrefixed(names + name, items + [first.value], DecKids(f, limits, named, first.rest, n - 1, depth, first.state))
  {
    hide Dec, DecName;
    match DecName(f, named, s)
    case None =>
    case Some((name, rest)) =>
      match Dec(f, limits, rest, depth, r)
      case None =>
      case Some(first) =>
        match DecKids(f, limits, named, first.rest, n - 1, depth, first.state)
        case None =>
        case Some(d) =>
          Assoc(names, name, d.value.0);
          Assoc(items, [first.value], d.value.1);
  }

  lemma KidsReadDone(f: Format, limits: Limits, named: bool, names: seq<Symbol>, items: seq<Expr>, s: Units, depth: nat, r: RState)
    ensures KidsPrefixed(names, items, DecKids(f, limits, named, s, 0, depth, r)) == Some(Read((names, items), s, r))
  {
    assert names + [] == names && items + [] == items;
  }
}
