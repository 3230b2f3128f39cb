/** The fields of a frame: unsigned integers, byte fields, table indices, tags and node heads. */
module Atoms {
  import opened Exprs
  import opened Bits
  import opened Numbers

  /** The two frame formats share one body grammar over different unit alphabets. */
  datatype Carrier = Bitwise | Binary

  type usize = n: nat | n <= USIZE_MAX

  datatype Limits = Limits(
    maxFrameBytes: usize,
    maxStringBytes: usize,
    maxBlobBytes: usize,
    maxTableEntries: usize,
    maxExprNodes: usize,
    maxDepth: usize,
    maxTriviaItems: usize)

  /** Side tables: namespaces, symbols and number domains. */
  datatype Tables = Tables(libs: seq<Text>, symbols: seq<Symbol>, domains: seq<Symbol>)

  // ---- integers and byte fields ---------------------------------------------------

  function EncUInt(c: Carrier, n: nat): Units {
    if c.Bitwise? then VBits(n) else VarUint(n)
  }

  function DecUInt(c: Carrier, s: Units): Option<(nat, Units)> {
    if c.Bitwise? then ReadVBits(s) else ReadVarUint(s)
  }

  /** An unsigned integer bounded by `limit`; every limit fits a `usize`. */
  function DecCount(c: Carrier, s: Units, limit: usize): (r: Option<(nat, Units)>)
    ensures r.Some? ==> r.value.0 <= limit
  {
    match DecUInt(c, s)
    case None => None
    case Some((n, rest)) => if n > limit then None else Some((n, rest))
  }

  lemma DecCountOf(c: Carrier, n: nat, limit: usize, rest: Units)
    requires n <= limit
    ensures DecCount(c, EncUInt(c, n) + rest, limit) == Some((n, rest))
  {
    if c.Bitwise? {
      Pow64();
      Pow2Monotone(64, 128);
      ReadVBitsOf(n, rest);
    } else {
      ReadVarUintOf(n, rest);
    }
  }

  /** The bytes themselves: eight bits each in a bit frame. */
  function Payload(c: Carrier, bs: bytes): Units {
    if c.Binary? then bs
    else if bs == [] then [] else BitsOf(bs[0], 8) + Payload(c, bs[1..])
  }

  function TakePayload(c: Carrier, s: Units, n: nat): Option<(bytes, Units)>
    decreases n
  {
    if c.Binary? then
      if |s| < n then None else Some((s[..n], s[n..]))
    else if n == 0 then Some(([], s))
    else
      match ReadBits(s, 8)
      case None => None
      case Some((b, rest)) =>
        match TakePayload(c, rest, n - 1)
        case None => None
        case Some((bs, tail)) => Some(([b % 256] + bs, tail))
  }

  lemma ReadBitsOf(v: nat, w: nat, rest: Units)
    requires v < Pow2(w)
    ensures ReadBits(BitsOf(v, w) + rest, w) == Some((v, rest))
  {
    FromBitsOf(v, w);
    assert (BitsOf(v, w) + rest)[..w] == BitsOf(v, w);
    assert (BitsOf(v, w) + rest)[w..] == rest;
  }

  lemma {:induction false} TakePayloadOf(c: Carrier, bs: bytes, rest: Units)
    ensures TakePayload(c, Payload(c, bs) + rest, |bs|) == Some((bs, rest))
    decreases |bs|
  {
    hide BitsOf, ReadBits, Pow2;
    if c.Binary? {
      assert (bs + rest)[..|bs|] == bs && (bs + rest)[|bs|..] == rest;
    } else if bs == [] {
      assert [] + rest == rest;
    } else {
      var tail := Payload(c, bs[1..]) + rest;
      Assoc(BitsOf(bs[0], 8), Payload(c, bs[1..]), rest);
      ReadByteOf(bs[0], tail);
      TakePayloadOf(c, bs[1..], rest);
      assert bs == [bs[0]] + bs[1..];
    }
  }

  lemma ReadByteOf(b: byte, rest: Units)
    ensures ReadBits(BitsOf(b, 8) + rest, 8) == Some((b, rest))
  {
    hide BitsOf, ReadBits;
    assert Pow2(8) == 256;
    ReadBitsOf(b, 8, rest);
  }

  function EncBytes(c: Carrier, bs: bytes): Units {
    EncUInt(c, |bs|) + Payload(c, bs)
  }

  function DecBytes(c: Carrier, s: Units, limit: usize): Option<(bytes, Units)> {
    match DecCount(c, s, limit)
    case None => None
    case Some((n, rest)) => TakePayload(c, rest, n)
  }

  lemma DecBytesOf(c: Carrier, bs: bytes, limit: usize, rest: Units)
    requires |bs| <= limit
    ensures DecBytes(c, EncBytes(c, bs) + rest, limit) == Some((bs, rest))
  {
    Assoc(EncUInt(c, |bs|), Payload(c, bs), rest);
    DecCountOf(c, |bs|, limit, Payload(c, bs) + rest);
    TakePayloadOf(c, bs, rest);
  }

  function DecText(c: Carrier, s: Units, limit: usize): Option<(Text, Units)> {
    match DecBytes(c, s, limit)
    case None => None
    case Some((bs, rest)) => if IsUtf8(bs) then Some((bs, rest)) else None
  }

  lemma DecTextOf(c: Carrier, t: Text, limit: usize, rest: Units)
    requires |t| <= limit
    ensures DecText(c, EncBytes(c, t) + rest, limit) == Some((t, rest))
  {
    DecBytesOf(c, t, limit, rest);
  }

  // ---- table indices --------------------------------------------------------------

  /** The place of `x` in a table; the table's length when it is missing. */
  function IndexOf<T(==)>(xs: seq<T>, x: T): (i: nat)
    ensures i <= |xs|
    ensures i < |xs| ==> xs[i] == x
    ensures x in xs <==> i < |xs|
  {
    if xs == [] then 0 else if xs[0] == x then 0 else 1 + IndexOf(xs[1..], x)
  }

  function DecEntry<T>(c: Carrier, s: Units, table: seq<T>): Option<(T, Units)> {
    match DecCount(c, s, USIZE_MAX)
    case None => None
    case Some((i, rest)) => if i < |table| then Some((table[i], rest)) else None
  }

  function EncEntry<T(==)>(c: Carrier, table: seq<T>, x: T): Units {
    EncUInt(c, IndexOf(table, x))
  }

  lemma DecEntryOf<T>(c: Carrier, table: seq<T>, x: T, rest: Units)
    requires x in table && |table| <= USIZE_MAX
    ensures DecEntry(c, EncEntry(c, table, x) + rest, table) == Some((x, rest))
  {
    DecCountOf(c, IndexOf(table, x), USIZE_MAX, rest);
  }

  // ---- tags -----------------------------------------------------------------------

  const REF: nat := 36

  /** The byte tag of a node kind; kinds are numbered as the bit tags are. */
  function BinaryTag(kind: nat): byte
    requires 16 <= kind < REF
  {
    if kind <= 20 then kind - 16 else if kind == 21 then 0x13 else kind - 17
  }

  function BinaryKind(tag: byte): Option<nat> {
    if tag <= 4 then Some(tag + 16)
    else if tag <= 0x12 then Some(tag + 17)
    else if tag == 0x13 then Some(21)
    else None
  }

  predicate HasTag(c: Carrier, kind: nat) {
    kind <= REF && (c.Binary? ==> 16 <= kind < REF)
  }

  function EncTag(c: Carrier, kind: nat): Units
    requires HasTag(c, kind)
  {
    if c.Bitwise? then BitsOf(kind, 6) else [BinaryTag(kind)]
  }

  function DecTag(c: Carrier, s: Units): Option<(nat, Units)> {
    if c.Bitwise? then
      match ReadBits(s, 6)
      case None => None
      case Some((kind, rest)) => if kind <= REF then Some((kind, rest)) else None
    else if |s| == 0 then None
    else
      match BinaryKind(s[0])
      case None => None
      case Some(kind) => Some((kind, s[1..]))
  }

  lemma DecTagOf(c: Carrier, kind: nat, rest: Units)
    requires HasTag(c, kind)
    ensures DecTag(c, EncTag(c, kind) + rest) == Some((kind, rest))
  {
    if c.Bitwise? {
      assert Pow2(6) == 64;
      ReadBitsOf(kind, 6, rest);
    } else {
      assert ([BinaryTag(kind)] + rest)[1..] == rest;
    }
  }

  // ---- numbers ----------------------------------------------------------------------

  function Bit(b: bool): byte {
    if b then 1 else 0
  }

  /** A number's text after its domain: sign and magnitude bits where the text is an integer. */
  function EncNumberText(c: Carrier, text: bytes): Units {
    if c.Binary? then EncBytes(c, text) else
    match IntegerBits(text)
    case Some((negative, bits)) => [1, Bit(negative)] + EncUInt(c, |bits|) + bits
    case None => [0] + EncBytes(c, text)
  }

  /** Eight bits for every byte of the string limit, saturating. */
  function MagnitudeLimit(limits: Limits): usize {
    if 8 * limits.maxStringBytes > USIZE_MAX then USIZE_MAX else 8 * limits.maxStringBytes
  }

  function DecMagnitude(c: Carrier, s: Units, limits: Limits, negative: bool): Option<(Text, Units)> {
    match DecCount(c, s, MagnitudeLimit(limits))
    case None => None
    case Some((n, rest)) =>
      if |rest| < n then None
      else if n > 0 && rest[0] == 0 then None
      else
        IntegerTextIsAscii(negative, rest[..n]);
        Some((IntegerText(negative, rest[..n]), rest[n..]))
  }

  function DecNumberText(c: Carrier, s: Units, limits: Limits): Option<(Text, Units)> {
    if c.Binary? then DecText(c, s, limits.maxStringBytes)
    else if |s| == 0 then None
    else if s[0] == 0 then DecText(c, s[1..], limits.maxStringBytes)
    else if |s| == 1 then None
    else DecMagnitude(c, s[2..], limits, s[1] != 0)
  }

  lemma IntegerTextIsAscii(negative: bool, bits: Units)
    ensures IsUtf8(IntegerText(negative, bits))
  {
    AsciiIsUtf8(IntegerText(negative, bits));
  }

  /** What the decoder's limits ask of a number's text. */
  predicate NumberFits(c: Carrier, limits: Limits, text: bytes) {
    if c.Bitwise? && SmallUint(text).Some? then true
    else if c.Bitwise? && IntegerBits(text).Some? then |IntegerBits(text).value.1| <= MagnitudeLimit(limits)
    else |text| <= limits.maxStringBytes
  }

  lemma DecNumberTextOf(c: Carrier, text: Text, limits: Limits, rest: Units)
    requires NumberFits(c, limits, text) && (c.Bitwise? ==> SmallUint(text).None?)
    ensures DecNumberText(c, EncNumberText(c, text) + rest, limits) == Some((text, rest))
  {
    hide DecText, DecMagnitude, EncUInt, EncBytes, IntegerBits, IntegerText, SmallUint;
    if c.Binary? {
      DecTextOf(c, text, limits.maxStringBytes, rest);
    } else if IntegerBits(text).None? {
      var body := EncBytes(c, text);
      FirstOff(0, body, rest);
      DecTextOf(c, text, limits.maxStringBytes, rest);
    } else {
      var (negative, bits) := IntegerBits(text).value;
      FirstTwoOff(1, Bit(negative), EncUInt(c, |bits|), bits, rest);
      DecMagnitudeOf(c, text, limits, rest);
    }
  }

  lemma FirstOff(x: byte, a: Units, rest: Units)
    ensures var s := [x] + a + rest; s[0] == x && s[1..] == a + rest
  {
  }

  lemma FirstTwoOff(x: byte, y: byte, a: Units, b: Units, rest: Units)
    ensures var s := [x, y] + a + b + rest; s[0] == x && s[1] == y && s[2..] == a + (b + rest)
  {
  }

  lemma DecMagnitudeOf(c: Carrier, text: Text, limits: Limits, rest: Units)
    requires IntegerBits(text).Some? && |IntegerBits(text).value.1| <= MagnitudeLimit(limits)
    ensures var (negative, bits) := IntegerBits(text).value;
      DecMagnitude(c, EncUInt(c, |bits|) + (bits + rest), limits, negative) == Some((text, rest))
  {
    hide DecCount, EncUInt, IntegerBits, IntegerText, MagnitudeLimit;
    var (negative, bits) := IntegerBits(text).value;
    IntegerRoundTrip(text);
    DecCountOf(c, |bits|, MagnitudeLimit(limits), bits + rest);
    assert (bits + rest)[..|bits|] == bits && (bits + rest)[|bits|..] == rest;
  }

  // ---- node heads ---------------------------------------------------------------------

  /** The kind number of a node; a bit frame gives small integers kinds of their own. */
  function KindOf(c: Carrier, h: Head): (kind: nat)
    ensures HasTag(c, kind) && kind < REF
  {
    match h
    case Nil => 16
    case Bool(b) => if b then 18 else 17
    case Number(n) => if c.Bitwise? && SmallUint(n.canonical).Some? then SmallUint(n.canonical).value else 19
    case Sym(_) => 20
    case Local(_) => 21
    case Str(_) => 22
    case Blob(_) => 23
    case List => 24
    case Vector => 25
    case Map => 26
    case Set => 27
    case Call => 28
    case Infix(_) => 29
    case Prefix(_) => 30
    case Postfix(_) => 31
    case Block => 32
    case Quote(_) => 33
    case Annotated(_) => 34
    case Extension(_) => 35
  }

  function EncMode(c: Carrier, m: QuoteMode): Units {
    if c.Bitwise? then BitsOf(ModeCode(m), 3) else [ModeCode(m)]
  }

  function ModeFromCode(n: nat): Option<QuoteMode> {
    match n
    case 0 => Some(Quoted)
    case 1 => Some(QuasiQuoted)
    case 2 => Some(Unquoted)
    case 3 => Some(Spliced)
    case 4 => Some(SyntaxQuoted)
    case _ => None
  }

  function DecMode(c: Carrier, s: Units): Option<(QuoteMode, Units)> {
    match (if c.Bitwise? then ReadBits(s, 3) else if |s| == 0 then None else Some((s[0], s[1..])))
    case None => None
    case Some((n, rest)) =>
      match ModeFromCode(n)
      case None => None
      case Some(m) => Some((m, rest))
  }

  lemma DecModeOf(c: Carrier, m: QuoteMode, rest: Units)
    ensures DecMode(c, EncMode(c, m) + rest) == Some((m, rest))
  {
    if c.Bitwise? {
      assert Pow2(3) == 8;
      ReadBitsOf(ModeCode(m), 3, rest);
    } else {
      assert ([ModeCode(m)] + rest)[1..] == rest;
    }
  }

  /** The fields between the tag and the first child of a node with `n` children. */
  function EncFields(c: Carrier, t: Tables, h: Head, n: nat): Units {
    match h
    case Number(x) =>
      EncEntry(c, t.domains, x.domain)
      + (if c.Bitwise? && SmallUint(x.canonical).Some? then [] else EncNumberText(c, x.canonical))
    case Sym(x) => EncEntry(c, t.symbols, x)
    case Local(x) => EncEntry(c, t.symbols, x)
    case Str(x) => EncBytes(c, x)
    case Blob(x) => EncBytes(c, x)
    case List => EncUInt(c, n)
    case Vector => EncUInt(c, n)
    case Set => EncUInt(c, n)
    case Block => EncUInt(c, n)
    case Map => EncUInt(c, n / 2)
    case Infix(x) => EncEntry(c, t.symbols, x)
    case Prefix(x) => EncEntry(c, t.symbols, x)
    case Postfix(x) => EncEntry(c, t.symbols, x)
    case Extension(x) => EncEntry(c, t.symbols, x)
    case Quote(m) => EncMode(c, m)
    case _ => []
  }

  /** A head and the number of children that follow it at once. */
  datatype HeadRead = HeadRead(head: Head, front: nat, rest: Units)

  function DecSymbolHead(c: Carrier, t: Tables, s: Units, front: nat, make: Symbol -> Head): Option<HeadRead> {
    match DecEntry(c, s, t.symbols)
    case None => None
    case Some((x, rest)) => Some(HeadRead(make(x), front, rest))
  }

  function DecCounted(c: Carrier, limits: Limits, s: Units, head: Head, paired: bool): Option<HeadRead> {
    match DecCount(c, s, limits.maxTableEntries)
    case None => None
    case Some((n, rest)) => Some(HeadRead(head, if paired then 2 * n else n, rest))
  }

  function DecNumber(c: Carrier, limits: Limits, t: Tables, kind: nat, s: Units): Option<HeadRead> {
    match DecEntry(c, s, t.domains)
    case None => None
    case Some((domain, rest)) =>
      if kind < 16 then
        DigitTextIsAscii(kind);
        Some(HeadRead(Number(NumberLiteral(domain, DecimalText(kind))), 0, rest))
      else
        match DecNumberText(c, rest, limits)
        case None => None
        case Some((text, tail)) => Some(HeadRead(Number(NumberLiteral(domain, text)), 0, tail))
  }

  lemma DigitTextIsAscii(v: nat)
    ensures IsUtf8(DecimalText(v))
  {
    AsciiIsUtf8(DecimalText(v));
  }

  function DecFields(c: Carrier, limits: Limits, t: Tables, kind: nat, s: Units): Option<HeadRead> {
    if kind < 16 || kind == 19 then DecNumber(c, limits, t, kind, s) else
    match kind
    case 16 => Some(HeadRead(Nil, 0, s))
    case 17 => Some(HeadRead(Bool(false), 0, s))
    case 18 => Some(HeadRead(Bool(true), 0, s))
    case 20 => DecSymbolHead(c, t, s, 0, x => Sym(x))
    case 21 => DecSymbolHead(c, t, s, 0, x => Local(x))
    case 22 => (match DecText(c, s, limits.maxStringBytes)
                case None => None
                case Some((x, rest)) => Some(HeadRead(Str(x), 0, rest)))
    case 23 => (match DecBytes(c, s, limits.maxBlobBytes)
                case None => None
                case Some((x, rest)) => Some(HeadRead(Blob(x), 0, rest)))
    case 24 => DecCounted(c, limits, s, List, false)
    case 25 => DecCounted(c, limits, s, Vector, false)
    case 26 => DecCounted(c, limits, s, Map, true)
    case 27 => DecCounted(c, limits, s, Set, false)
    case 28 => Some(HeadRead(Call, 1, s))
    case 29 => DecSymbolHead(c, t, s, 2, x => Infix(x))
    case 30 => DecSymbolHead(c, t, s, 1, x => Prefix(x))
    case 31 => DecSymbolHead(c, t, s, 1, x => Postfix(x))
    case 32 => DecCounted(c, limits, s, Block, false)
    case 33 => (match DecMode(c, s)
                case None => None
                case Some((m, rest)) => Some(HeadRead(Quote(m), 1, rest)))
    case 34 => Some(HeadRead(Annotated([]), 1, s))
    case 35 => DecSymbolHead(c, t, s, 1, x => Extension(x))
    case _ => None
  }

  /** Calls and annotated nodes count the children after the first. */
  predicate HasTail(h: Head) {
    h.Call? || h.Annotated?
  }

  /** The head as the tag announces it: annotation names come with the children. */
  function Announced(h: Head): Head {
    if h.Annotated? then Annotated([]) else h
  }

  function FrontCount(h: Head, n: nat): nat {
    if HasTail(h) then 1 else n
  }

  predicate HeadClosed(t: Tables, h: Head) {
    match h
    case Number(x) => x.domain in t.domains
    case Sym(x) => x in t.symbols
    case Local(x) => x in t.symbols
    case Infix(x) => x in t.symbols
    case Prefix(x) => x in t.symbols
    case Postfix(x) => x in t.symbols
    case Extension(x) => x in t.symbols
    case Annotated(names) => forall x | x in names :: x in t.symbols
    case _ => true
  }

  /** What the decoder's limits ask of one node. */
  predicate HeadFits(c: Carrier, limits: Limits, h: Head, n: nat) {
    match h
    case Number(x) => NumberFits(c, limits, x.canonical)
    case Str(x) => |x| <= limits.maxStringBytes
    case Blob(x) => |x| <= limits.maxBlobBytes
    case Map => n / 2 <= limits.maxTableEntries
    case List => n <= limits.maxTableEntries
    case Vector => n <= limits.maxTableEntries
    case Set => n <= limits.maxTableEntries
    case Block => n <= limits.maxTableEntries
    case Call => n <= 1 + limits.maxTableEntries
    case Annotated(_) => n <= 1 + limits.maxTableEntries
    case _ => true
  }

  predicate TablesFit(t: Tables) {
    |t.libs| <= USIZE_MAX && |t.symbols| <= USIZE_MAX && |t.domains| <= USIZE_MAX
  }

  lemma DecNumberOf(c: Carrier, limits: Limits, t: Tables, x: NumberLiteral, rest: Units)
    requires TablesFit(t) && x.domain in t.domains && NumberFits(c, limits, x.canonical)
    ensures DecNumber(c, limits, t, KindOf(c, Number(x)), EncFields(c, t, Number(x), 0) + rest)
         == Some(HeadRead(Number(x), 0, rest))
  {
    var small := c.Bitwise? && SmallUint(x.canonical).Some?;
    var text := if small then [] else EncNumberText(c, x.canonical);
    Assoc(EncEntry(c, t.domains, x.domain), text, rest);
    DecEntryOf(c, t.domains, x.domain, text + rest);
    if small {
      SmallUintText(x.canonical);
      assert [] + rest == rest;
    } else {
      DecNumberTextOf(c, x.canonical, limits, rest);
    }
  }

  /** Reading the fields of a head gives the head back and the children that come next. */
  lemma DecFieldsOf(c: Carrier, limits: Limits, t: Tables, h: Head, n: nat, rest: Units)
    requires TablesFit(t) && HeadClosed(t, h) && HeadFits(c, limits, h, n) && Arity(h, n)
    ensures DecFields(c, limits, t, KindOf(c, h), EncFields(c, t, h, n) + rest)
         == Some(HeadRead(Announced(h), FrontCount(h, n), rest))
  {
    if HeadSymbol(h).Some? {
      DecSymbolFieldOf(c, limits, t, h, n, rest);
    } else if h in {List, Vector, Set, Block, Map} {
      DecCountFieldOf(c, limits, t, h, n, rest);
    } else {
      DecOtherFieldOf(c, limits, t, h, n, rest);
    }
  }

  function HeadSymbol(h: Head): Option<Symbol> {
    match h
    case Sym(x) => Some(x)
    case Local(x) => Some(x)
    case Infix(x) => Some(x)
    case Prefix(x) => Some(x)
    case Postfix(x) => Some(x)
    case Extension(x) => Some(x)
    case _ => None
  }

  lemma DecSymbolFieldOf(c: Carrier, limits: Limits, t: Tables, h: Head, n: nat, rest: Units)
    requires TablesFit(t) && HeadClosed(t, h) && Arity(h, n) && HeadSymbol(h).Some?
    ensures DecFields(c, limits, t, KindOf(c, h), EncFields(c, t, h, n) + rest)
         == Some(HeadRead(Announced(h), FrontCount(h, n), rest))
  {
    hide DecNumber, DecEntry, DecCount, DecText, DecBytes, DecMode, EncEntry, EncUInt, EncBytes, EncMode, EncNumberText;
    DecEntryOf(c, t.symbols, HeadSymbol(h).value, rest);
  }

  lemma DecCountFieldOf(c: Carrier, limits: Limits, t: Tables, h: Head, n: nat, rest: Units)
    requires HeadFits(c, limits, h, n) && Arity(h, n) && h in {List, Vector, Set, Block, Map}
    ensures DecFields(c, limits, t, KindOf(c, h), EncFields(c, t, h, n) + rest)
         == Some(HeadRead(Announced(h), FrontCount(h, n), rest))
  {
    hide DecNumber, DecEntry, DecCount, DecText, DecBytes, DecMode, EncEntry, EncUInt, EncBytes, EncMode, EncNumberText;
    DecCountOf(c, if h.Map? then n / 2 else n, limits.maxTableEntries, rest);
  }

  lemma DecOtherFieldOf(c: Carrier, limits: Limits, t: Tables, h: Head, n: nat, rest: Units)
    requires TablesFit(t) && HeadClosed(t, h) && HeadFits(c, limits, h, n) && Arity(h, n)
    requires HeadSymbol(h).None? && h !in {List, Vector, Set, Block, Map}
    ensures DecFields(c, limits, t, KindOf(c, h), EncFields(c, t, h, n) + rest)
         == Some(HeadRead(Announced(h), FrontCount(h, n), rest))
  {
    hide DecNumber, DecEntry, DecCount, DecText, DecBytes, DecMode, EncEntry, EncUInt, EncBytes, EncMode, EncNumberText;
    assert [] + rest == rest;
    match h
    case Number(x) => DecNumberOf(c, limits, t, x, rest);
    case Str(x) => DecTextOf(c, x, limits.maxStringBytes, rest);
    case Blob(x) => DecBytesOf(c, x, limits.maxBlobBytes, rest);
    case Quote(m) => DecModeOf(c, m, rest);
    case _ =>
  }
}
