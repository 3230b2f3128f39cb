/** Small frames, byte for byte. */
module Literals {
  import opened Exprs
  import opened Bits
  import opened Canonical
  import opened Atoms
  import opened Body
  import opened SideTables
  import opened Origins
  import opened Wire
  import opened Frames
  import opened Codecs
  import opened Delimiting
  import opened Layout
  import opened Misplaced

  const EMPTY_TABLES: Tables := Tables([], [], [])

  lemma NoTables(c: Carrier)
    ensures EncTables(c, EMPTY_TABLES) == EncUInt(c, 0) + (EncUInt(c, 0) + EncUInt(c, 0))
  {
    hide EncUInt;
    assert EncUInt(c, 0) + [] == EncUInt(c, 0);
  }

  lemma PackIs(bits: Units, frame: bytes)
    requires IsBits(bits) && Payload(Bitwise, frame) == bits + Zeros(Pad(|bits|))
    ensures Pack(bits) == frame
  {
    hide Payload, Pad;
    UnpackPack(bits);
    PayloadLength(Bitwise, frame);
    PayloadLength(Bitwise, Pack(bits));
    PayloadInjective(Bitwise, frame, Pack(bits));
  }

  lemma NextByte(b: byte, bits: Units, rest: bytes)
    requires bits == [b / 128, b / 64 % 2, b / 32 % 2, b / 16 % 2, b / 8 % 2, b / 4 % 2, b / 2 % 2, b % 2]
    ensures Payload(Bitwise, [b] + rest) == bits + Payload(Bitwise, rest)
  {
    hide Payload;
    EightBits(b);
    PayloadAppend(Bitwise, [b], rest);
  }

  // ---- nil -----------------------------------------------------------------------------------

  lemma NilTables()
    ensures TablesOf(Expr(Nil, [])) == EMPTY_TABLES && Canon(Expr(Nil, [])) == Expr(Nil, [])
  {
    hide TablesOf;
    LeafCanon(Nil);
    LeafMentions(Nil);
    NothingTabled(TablesOf(Expr(Nil, [])), Expr(Nil, []));
  }

  lemma NilUnits(c: Carrier)
    ensures FrameUnits(c, PLAIN, EMPTY_TABLES, Expr(Nil, []), []) ==
      if c.Binary? then [0x53, 0x4C, 0x42, 0x38, 1, 0, 0, 0, 0, 0x00] else [0, 1, 0, 1, 1, 1, 1, 1, 0, 1, 0, 0, 0, 0]
  {
    hide EncHeader, EncTables, Enc, EncNode, VBits, VarUint;
    var f := FormatOf(c, PLAIN, EMPTY_TABLES);
    NewNode(f, Expr(Nil, []), FRESH_WRITER);
    ConstantNode(f, Nil, FRESH_WRITER);
    NoTables(c);
    ByteHeader(PLAIN, EMPTY_TABLES);
    BitHeader(PLAIN, EMPTY_TABLES);
    FlagBits();
    SmallVarUint(0);
  }

  lemma SmallVarUint(n: nat)
    requires n < 128
    ensures VarUint(n) == [n]
  {
  }

  /** Nil in ten bytes, or in two. */
  lemma NilFrames()
    ensures EncodeFrame(Binary, Expr(Nil, [])) == [0x53, 0x4C, 0x42, 0x38, 1, 0, 0, 0, 0, 0x00]
    ensures EncodeFrame(Bitwise, Expr(Nil, [])) == [0x5F, 0x40]
  {
    hide FrameUnits, TablesOf, Canon, Pack, Payload;
    NilTables();
    NilUnits(Binary);
    NilUnits(Bitwise);
    var bits: Units := [0, 1, 0, 1, 1, 1, 1, 1, 0, 1, 0, 0, 0, 0];
    NextByte(0x5F, [0, 1, 0, 1, 1, 1, 1, 1], [0x40]);
    NextByte(0x40, [0, 1, 0, 0, 0, 0, 0, 0], []);
    PayloadNothing();
    assert [0x5F] + [0x40] == [0x5F, 0x40] && [0x40] + [] == [0x40];
    assert Pad(14) == 2 && Zeros(2) == [0, 0];
    PackIs(bits, [0x5F, 0x40]);
  }

  lemma NilBytes(last: byte)
    requires 0x40 <= last < 0x44
    ensures [0, 1, 0, 1, 1, 1, 1, 1, 0, 1, 0, 0, 0, 0] <= Payload(Bitwise, [0x5F, last])
  {
    hide Payload;
    NextByte(0x5F, [0, 1, 0, 1, 1, 1, 1, 1], [last]);
    NextByte(last, [0, 1, 0, 0, 0, 0, last / 2 % 2, last % 2], []);
    assert [0x5F] + [last] == [0x5F, last] && [last] + [] == [last];
  }

  /** Any of its two padding bits set, and the two bytes are refused. */
  lemma NilPadding(limits: Limits, last: byte)
    requires 2 <= limits.maxFrameBytes && 1 <= limits.maxExprNodes && 0x40 < last < 0x44
    ensures Decode(Bitwise, limits, [0x5F, last]).None?
  {
    hide Decode, EncodeFrame, FrameUnits, Payload, TablesOf, Canon;
    NilTables();
    NilFrames();
    NilUnits(Bitwise);
    NilBytes(last);
    NilDecodable(Bitwise, limits);
    hide Decodable;
    PlainExactly(Bitwise, limits, Expr(Nil, []), [0x5F, last]);
    assert [0x5F, last][1] != [0x5F, 0x40][1];
  }

  lemma NilDecodable(c: Carrier, limits: Limits)
    requires 1 <= limits.maxExprNodes
    ensures Decodable(c, limits, Expr(Nil, []))
  {
    hide TablesOf;
    NilTables();
  }

  // ---- sharing ---------------------------------------------------------------------------------

  function NilTwice(): Expr {
    Expr(Vector, [Expr(Nil, []), Expr(Nil, [])])
  }

  lemma NilTwiceFacts()
    ensures TablesOf(NilTwice()) == EMPTY_TABLES && Canon(NilTwice()) == NilTwice()
  {
    hide TablesOf, Canon, SymbolsOf, DomainsOf;
    NilTwiceCanon();
    NilTwiceMentions();
    NothingTabled(TablesOf(NilTwice()), NilTwice());
  }

  lemma NilTwiceCanon()
    ensures Canon(NilTwice()) == NilTwice()
  {
    var nil := Expr(Nil, []);
    LeafCanon(Nil);
    assert [nil, nil][1..] == [nil] && [nil][1..] == [];
    assert CanonAll([nil]) == [nil] + CanonAll([]) && CanonAll([nil, nil]) == [nil] + CanonAll([nil]);
  }

  lemma NilTwiceMentions()
    ensures SymbolsOf(NilTwice()) == {} && DomainsOf(NilTwice()) == {}
  {
    hide SymbolsOf, DomainsOf;
    LeafMentions(Nil);
    var e := NilTwice();
    forall x | x in SymbolsOf(e) ensures false { var k := SymbolMentioned(e, x); }
    forall x | x in DomainsOf(e) ensures false { var k := DomainMentioned(e, x); }
  }

  lemma SharedBody(f: Format)
    requires f.carrier == Bitwise && f.dense
    ensures var (units, w) := Enc(f, NilTwice(), FRESH_WRITER);
      units == [0, 1, 1, 0, 0, 1] + [0, 1, 1, 1, 0] + ([0, 1, 0, 0, 0, 0] + ([1, 0, 0, 1, 0, 0] + [0, 1, 0, 1]))
      && w.next == 2 && w.seen[Expr(Nil, [])] == 1
  {
    hide Enc, EncNode, EncKids, VBits, EncTag;
    var nil, e := Expr(Nil, []), NilTwice();
    var w1 := WState(map[e := 0], 1);
    var w2 := WState(w1.seen[nil := 1], 2);
    FlagBits();
    ReferenceTag();
    NewNode(f, e, FRESH_WRITER);
    CountedNode(f, Vector, [nil, nil], w1);
    NewNode(f, nil, w1);
    ConstantNode(f, Nil, w2);
    Sharing.KnownIsReference(f, nil, w2);
    NextKid(f, nil, [nil], w1);
    NextKid(f, nil, [], w2);
    NoKids(f, [], w2);
    assert [nil] + [nil] == [nil, nil] && [nil] + [] == [nil];
    assert EncKids(f, [], [nil, nil], w1).1 == w2;
    var ref := [1, 0, 0, 1, 0, 0] + [0, 1, 0, 1];
    assert ref + [] == ref;
  }

  /** Twelve bits of header and thirty of body, in six bytes. */
  function SharedBits(): Units {
    [0, 1, 0, 1, 0, 0, 1, 0] + ([0, 1, 0, 0, 1, 1, 1, 0] + ([1, 1, 0, 0, 1, 0, 1, 1] + ([1, 0, 0, 1, 0, 0, 0, 0]
    + ([1, 0, 0, 1, 0, 0, 0, 1] + [0, 1]))))
  }

  lemma SharedHeader()
    ensures EncHeader(Bitwise, DENSE, EMPTY_TABLES) == [0, 1, 0, 1] + ([0, 0, 1, 0, 0, 1, 0, 0] + ([1] + ([1] + [1])))
  {
    hide EncHeader, EncTables, VBits;
    NoTables(Bitwise);
    BitHeader(DENSE, EMPTY_TABLES);
    FlagBits();
  }

  lemma SharedUnits()
    ensures FrameUnits(Bitwise, DENSE, EMPTY_TABLES, NilTwice(), []) == SharedBits()
  {
    hide Enc, EncHeader, EncTables, VBits, SharedBits;
    SharedHeader();
    SharedBody(FormatOf(Bitwise, DENSE, EMPTY_TABLES));
    SharedRuns();
  }

  lemma SharedRuns()
    ensures [0, 1, 0, 1] + ([0, 0, 1, 0, 0, 1, 0, 0] + ([1] + ([1] + [1])))
      + ([0, 1, 1, 0, 0, 1] + [0, 1, 1, 1, 0] + ([0, 1, 0, 0, 0, 0] + ([1, 0, 0, 1, 0, 0] + [0, 1, 0, 1])) + []) == SharedBits()
  {
  }

  lemma SharedBytes()
    ensures Payload(Bitwise, [0x52, 0x4E, 0xCB, 0x90, 0x91, 0x40]) == SharedBits() + [0, 0, 0, 0, 0, 0]
  {
    hide Payload, SharedBits;
    PayloadNothing();
    NextByte(0x40, [0, 1, 0, 0, 0, 0, 0, 0], []);
    NextByte(0x91, [1, 0, 0, 1, 0, 0, 0, 1], [0x40]);
    NextByte(0x90, [1, 0, 0, 1, 0, 0, 0, 0], [0x91, 0x40]);
    NextByte(0xCB, [1, 1, 0, 0, 1, 0, 1, 1], [0x90, 0x91, 0x40]);
    NextByte(0x4E, [0, 1, 0, 0, 1, 1, 1, 0], [0xCB, 0x90, 0x91, 0x40]);
    NextByte(0x52, [0, 1, 0, 1, 0, 0, 1, 0], [0x4E, 0xCB, 0x90, 0x91, 0x40]);
    Joins();
    SharedPieces();
  }

  lemma Joins()
    ensures [0x40] + [] == [0x40] && [0x91] + [0x40] == [0x91, 0x40] && [0x90] + [0x91, 0x40] == [0x90, 0x91, 0x40]
    ensures [0xCB] + [0x90, 0x91, 0x40] == [0xCB, 0x90, 0x91, 0x40]
    ensures [0x4E] + [0xCB, 0x90, 0x91, 0x40] == [0x4E, 0xCB, 0x90, 0x91, 0x40]
    ensures [0x52] + [0x4E, 0xCB, 0x90, 0x91, 0x40] == [0x52, 0x4E, 0xCB, 0x90, 0x91, 0x40]
  {
  }

  lemma SharedPieces()
    ensures SharedBits() + [0, 0, 0, 0, 0, 0] ==
      [0, 1, 0, 1, 0, 0, 1, 0] + ([0, 1, 0, 0, 1, 1, 1, 0] + ([1, 1, 0, 0, 1, 0, 1, 1] + ([1, 0, 0, 1, 0, 0, 0, 0]
      + ([1, 0, 0, 1, 0, 0, 0, 1] + ([0, 1, 0, 0, 0, 0, 0, 0] + [])))))
  {
  }

  /** The second of two nils is a reference to the first, and takes no number of its own. */
  lemma SharedFrame()
    ensures EncodeDense(NilTwice()) == [0x52, 0x4E, 0xCB, 0x90, 0x91, 0x40]
  {
    hide FrameUnits, TablesOf, Canon, Pack, Payload, SharedBits;
    NilTwiceFacts();
    CleanFrame(Bitwise, DENSE, EMPTY_TABLES, NilTwice(), []);
    SharedUnits();
    SharedBytes();
    SharedCount();
    PackIs(SharedBits(), [0x52, 0x4E, 0xCB, 0x90, 0x91, 0x40]);
  }

  lemma SharedCount()
    ensures Pad(|SharedBits()|) == 6 && Zeros(6) == [0, 0, 0, 0, 0, 0] && IsBits(SharedBits())
  {
  }

  // ---- tables, fields and an origin ------------------------------------------------------------

  /** A call of `m/f` with the number 16 and the string "a". */
  function SampleCall(): Expr {
    Expr(Call, [Expr(Sym(SampleSymbol()), []), Expr(Number(NumberLiteral(SampleDomain(), SampleText())), []), Expr(Str(LetterText(97)), [])])
  }

  function LetterText(b: byte): (r: Text)
    requires b < 128
    ensures r == [b]
  {
    assert IsUtf8([b]) by { assert [b][1..] == []; }
    [b]
  }

  function SampleText(): (r: Text)
    ensures r == [49, 54]
  {
    assert IsUtf8([49, 54]) by { AsciiIsUtf8([49, 54]); }
    [49, 54]
  }

  function SampleSymbol(): Symbol {
    Symbol(Some(LetterText(109)), LetterText(102))
  }

  function SampleDomain(): Symbol {
    Symbol(None, LetterText(100))
  }

  function SampleTables(): Tables {
    Tables([LetterText(109)], [SampleSymbol()], [SampleDomain()])
  }

  function SampleOrigin(): Origin {
    Origin(7, LetterText(115), 1, 2, [Trivia(LineComment, LetterText(99))])
  }

  lemma SampleMentions()
    ensures SymbolsOf(SampleCall()) == {SampleSymbol()} && DomainsOf(SampleCall()) == {SampleDomain()}
  {
    hide SymbolsOf, DomainsOf, LetterText, SampleText, SampleSymbol, SampleDomain;
    var ks := SampleCall().kids;
    LeafSymbols(ks[0]);
    LeafSymbols(ks[1]);
    LeafSymbols(ks[2]);
    KidSymbols(SampleCall(), ks[0], ks[1], ks[2]);
  }

  lemma LeafSymbols(e: Expr)
    requires e.kids == []
    ensures SymbolsOf(e) == HeadSymbols(e.head) && DomainsOf(e) == HeadDomains(e.head)
  {
  }

  lemma MentionedBy(e: Expr, k: Expr)
    requires k in e.kids
    ensures SymbolsOf(k) <= SymbolsOf(e) && DomainsOf(k) <= DomainsOf(e)
  {
    hide HeadSymbols, HeadDomains;
  }

  lemma SymbolMentioned(e: Expr, x: Symbol) returns (k: Expr)
    requires x in SymbolsOf(e) && HeadSymbols(e.head) == {}
    ensures k in e.kids && x in SymbolsOf(k)
  {
    hide HeadSymbols, DomainsOf;
    k :| k in e.kids && x in SymbolsOf(k);
  }

  lemma DomainMentioned(e: Expr, x: Symbol) returns (k: Expr)
    requires x in DomainsOf(e) && HeadDomains(e.head) == {}
    ensures k in e.kids && x in DomainsOf(k)
  {
    hide HeadDomains, SymbolsOf;
    k :| k in e.kids && x in DomainsOf(k);
  }

  lemma KidSymbols(e: Expr, a: Expr, b: Expr, d: Expr)
    requires e.head == Call && e.kids == [a, b, d]
    ensures SymbolsOf(e) == SymbolsOf(a) + SymbolsOf(b) + SymbolsOf(d) && DomainsOf(e) == DomainsOf(a) + DomainsOf(b) + DomainsOf(d)
  {
    hide SymbolsOf, DomainsOf;
    assert a in e.kids && b in e.kids && d in e.kids && forall k | k in e.kids :: k == a || k == b || k == d;
    MentionedBy(e, a);
    MentionedBy(e, b);
    MentionedBy(e, d);
    forall x | x in SymbolsOf(e) ensures x in SymbolsOf(a) + SymbolsOf(b) + SymbolsOf(d) { var k := SymbolMentioned(e, x); }
    forall x | x in DomainsOf(e) ensures x in DomainsOf(a) + DomainsOf(b) + DomainsOf(d) { var k := DomainMentioned(e, x); }
  }

  lemma SampleTabled()
    ensures TablesOf(SampleCall()) == SampleTables()
  {
    SampleMentions();
    hide SymbolsOf, DomainsOf, SampleCall, LetterText, IsUtf8;
    var x, d, m := SampleSymbol(), SampleDomain(), LetterText(109);
    assert Namespaces({x} + {d}) == {m};
    SymbolTableUnique([SymbolItem(x)], {x});
    SymbolTableUnique([SymbolItem(d)], {d});
    TextTableUnique([TextItem(m)], {m});
  }

  lemma SampleCanon()
    ensures Canon(SampleCall()) == SampleCall()
  {
    hide LetterText, SampleText, SampleSymbol, SampleDomain;
    var ks := SampleCall().kids;
    assert CanonAll([]) == [];
    assert Canon(ks[0]) == ks[0] && Canon(ks[1]) == ks[1] && Canon(ks[2]) == ks[2];
    assert ks[1..] == [ks[1], ks[2]] && ks[1..][1..] == [ks[2]] && [ks[2]][1..] == [];
    assert CanonAll([ks[2]]) == [ks[2]] && CanonAll(ks[1..]) == [ks[1]] + CanonAll([ks[2]]);
    assert CanonAll(ks) == [ks[0]] + CanonAll(ks[1..]);
  }

  lemma SampleLeaves(f: Format, w: WState)
    requires f.carrier == Binary && !f.dense && f.tables == SampleTables()
    ensures var ks := SampleCall().kids;
      Enc(f, ks[0], w) == ([0x04, 0], w) && Enc(f, ks[1], w) == ([0x03, 0, 2, 49, 54], w) && Enc(f, ks[2], w) == ([0x05, 1, 97], w)
  {
    hide Enc, EncNode, IsUtf8, VarUint, LetterText, SampleText, NumberBits;
    var ks := SampleCall().kids;
    NewNode(f, ks[0], w);
    NewNode(f, ks[1], w);
    NewNode(f, ks[2], w);
    SmallVarUint(0);
    SmallVarUint(1);
    SmallVarUint(2);
    SymbolNode(f, Sym(SampleSymbol()), SampleSymbol(), w);
    NumberNode(f, SampleDomain(), SampleText(), w);
    BytesNode(f, Str(LetterText(97)), [97], w);
    assert [0x04] + [0] == [0x04, 0] && [0x03] + ([0] + ([2] + [49, 54])) == [0x03, 0, 2, 49, 54] && [0x05] + ([1] + [97]) == [0x05, 1, 97];
  }

  lemma SampleBody(f: Format)
    requires f.carrier == Binary && !f.dense && f.tables == SampleTables()
    ensures Enc(f, SampleCall(), FRESH_WRITER).0 == [0x0B, 0x04, 0, 2, 0x03, 0, 2, 49, 54, 0x05, 1, 97]
  {
    hide Enc, EncNode, EncKids, VarUint, LetterText, SampleText, SampleSymbol, SampleDomain;
    var w, e := FRESH_WRITER, SampleCall();
    var a, b, d := e.kids[0], e.kids[1], e.kids[2];
    SampleLeaves(f, w);
    NewNode(f, e, w);
    SmallVarUint(2);
    NextKid(f, b, [d], w);
    NextKid(f, d, [], w);
    NoKids(f, [], w);
    assert [b] + [d] == [b, d] && [d] + [] == [d];
    CallNode(f, a, [b, d], w);
    assert [a] + [b, d] == e.kids;
  }

  lemma SampleLists()
    ensures EncAll(SampleTables().libs, x => EncUInt(Binary, |x|) + Payload(Binary, x)) == [1, 109]
    ensures EncAll(SampleTables().symbols, x => EncRecord(Binary, SampleTables().libs, x)) == [1, 1, 102]
    ensures EncAll(SampleTables().domains, x => EncRecord(Binary, SampleTables().libs, x)) == [0, 1, 100]
  {
    hide EncAll, VarUint, LetterText, IsUtf8, EncRecord;
    SmallVarUint(0);
    SmallVarUint(1);
    RecordLayout(Binary, [LetterText(109)], LetterText(102), 0);
    RecordLayout(Binary, [LetterText(109)], LetterText(100), 0);
    OneOf(SampleTables().libs, LetterText(109), x => EncUInt(Binary, |x|) + Payload(Binary, x));
    OneOf(SampleTables().symbols, SampleSymbol(), x => EncRecord(Binary, SampleTables().libs, x));
    OneOf(SampleTables().domains, SampleDomain(), x => EncRecord(Binary, SampleTables().libs, x));
  }

  lemma SampleHeader()
    ensures EncHeader(Binary, ORIGIN, SampleTables()) ==
      [0x53, 0x4C, 0x42, 0x38, 1, 1] + ([1, 1, 109] + ([1, 1, 1, 102] + [1, 0, 1, 100]))
  {
    hide EncHeader, EncTables, EncAll, VarUint, LetterText, IsUtf8, EncRecord;
    ByteHeader(ORIGIN, SampleTables());
    TablesLayout(Binary, SampleTables());
    SmallVarUint(1);
    SampleLists();
    HeaderRuns();
  }

  lemma HeaderRuns()
    ensures [1] + [1, 109] == [1, 1, 109] && [1] + [1, 1, 102] == [1, 1, 1, 102] && [1] + [0, 1, 100] == [1, 0, 1, 100]
  {
  }

  lemma OneOf<T>(xs: seq<T>, x: T, enc: T -> Units)
    requires xs == [x]
    ensures EncAll(xs, enc) == enc(x)
  {
    assert xs[1..] == [] && enc(x) + [] == enc(x);
  }

  lemma SampleTrivia()
    ensures EncAll(SampleOrigin().trivia, x => EncTrivia(Binary, x)) == [1, 1, 99]
  {
    hide VarUint, LetterText, IsUtf8, EncTrivia;
    SmallVarUint(1);
    TriviaLayout(Binary, LineComment, LetterText(99));
    OneOf(SampleOrigin().trivia, Trivia(LineComment, LetterText(99)), x => EncTrivia(Binary, x));
  }

  lemma SampleTrailer()
    ensures EncOrigin(Binary, SampleOrigin()) == [7, 1, 115, 1, 2, 1, 1, 1, 99]
  {
    hide VarUint, LetterText, IsUtf8, EncOrigin, EncTrivia, EncAll;
    SmallVarUint(1);
    SmallVarUint(2);
    SmallVarUint(7);
    SampleTrivia();
    OriginLayout(Binary, SampleOrigin());
    TrailerRuns();
  }

  lemma TrailerRuns()
    ensures [7] + (([1] + [115]) + ([1] + ([2] + ([1] + [1, 1, 99])))) == [7, 1, 115, 1, 2, 1, 1, 1, 99]
  {
  }

  /** Letters, version and flags; namespaces, symbols and domains; the call; and its origin. */
  lemma SampleFrame()
    ensures EncodeLocated(Binary, SampleCall(), Some(SampleOrigin()), true) ==
      [0x53, 0x4C, 0x42, 0x38, 1, 1] + ([1, 1, 109] + ([1, 1, 1, 102] + [1, 0, 1, 100]))
      + ([0x0B, 0x04, 0, 2, 0x03, 0, 2, 49, 54, 0x05, 1, 97] + [7, 1, 115, 1, 2, 1, 1, 1, 99])
  {
    hide EncHeader, Enc, EncOrigin, TablesOf, Canon, SampleCall, SampleTables;
    SampleTabled();
    SampleCanon();
    SampleHeader();
    SampleBody(FormatOf(Binary, ORIGIN, SampleTables()));
    SampleTrailer();
    CleanOrigin(Binary, SampleOrigin());
  }
}
