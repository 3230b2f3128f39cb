/** What the decoders refuse, one cause at a time, whatever surrounds it. */
module Refusals {
  import opened Exprs
  import opened Bits
  import opened Numbers
  import opened Atoms
  import opened Body
  import opened SideTables
  import opened Origins
  import opened Wire
  import opened Frames
  import opened Codecs
  import opened Layout

  // ---- tags ----------------------------------------------------------------------------------

  /** Bit tags end at 36 and byte tags at 0x13. */
  lemma TagRefused(f: Format, limits: Limits, s: Units, depth: nat, r: RState)
    requires if f.carrier.Bitwise? then |s| < 6 || FromBits(s[..6]) > 36 else s == [] || s[0] > 0x13
    ensures Dec(f, limits, s, depth, r) == None
  {
  }

  /** Any node once the levels or the nodes are used up. */
  lemma NoRoomRefused(f: Format, limits: Limits, s: Units, depth: nat, r: RState)
    requires depth > limits.maxDepth || (!f.dense && r.nodes >= limits.maxExprNodes)
    ensures Dec(f, limits, s, depth, r) == None
  {
    hide DecTag, DecFields, DecKids;
  }

  lemma TagThen(f: Format, limits: Limits, h: Head, s: Units, depth: nat, r: RState)
    requires depth <= limits.maxDepth && DecFields(f.carrier, limits, f.tables, KindOf(f.carrier, h), s) == None
    ensures Dec(f, limits, Tag(f.carrier, h) + s, depth, r) == None
  {
    hide DecTag, EncTag, Tag, DecFields, KindOf, Bump;
    TagOf(f.carrier, h);
    DecTagOf(f.carrier, KindOf(f.carrier, h), s);
  }

  // ---- fields ----------------------------------------------------------------------------------

  /** A symbol's place beyond the table. */
  lemma SymbolRefused(f: Format, limits: Limits, h: Head, i: usize, rest: Units, depth: nat, r: RState)
    requires HeadSymbol(h).Some? && i >= |f.tables.symbols| && depth <= limits.maxDepth
    ensures Dec(f, limits, Tag(f.carrier, h) + (EncUInt(f.carrier, i) + rest), depth, r) == None
  {
    hide Dec, DecCount, EncUInt, Tag;
    DecCountOf(f.carrier, i, USIZE_MAX, rest);
    TagThen(f, limits, h, EncUInt(f.carrier, i) + rest, depth, r);
  }

  /** A number's domain beyond the table. */
  lemma DomainRefused(f: Format, limits: Limits, x: NumberLiteral, i: usize, rest: Units, depth: nat, r: RState)
    requires i >= |f.tables.domains| && depth <= limits.maxDepth
    ensures Dec(f, limits, Tag(f.carrier, Number(x)) + (EncUInt(f.carrier, i) + rest), depth, r) == None
  {
    NumberKind(f.carrier, x);
    hide Dec, DecCount, EncUInt, Tag, KindOf;
    DecCountOf(f.carrier, i, USIZE_MAX, rest);
    TagThen(f, limits, Number(x), EncUInt(f.carrier, i) + rest, depth, r);
  }

  lemma NumberKind(c: Carrier, x: NumberLiteral)
    ensures KindOf(c, Number(x)) < 16 || KindOf(c, Number(x)) == 19
  {
    hide IsNormalizedUnsigned, DecValue;
  }

  /** More children than the limit, in lists, vectors, sets, blocks and maps. */
  lemma CountRefused(f: Format, limits: Limits, h: Head, n: usize, rest: Units, depth: nat, r: RState)
    requires h in {List, Vector, Set, Block, Map} && n > limits.maxTableEntries && depth <= limits.maxDepth
    ensures Dec(f, limits, Tag(f.carrier, h) + (EncUInt(f.carrier, n) + rest), depth, r) == None
  {
    hide Dec, EncUInt, DecUInt, Tag;
    DecUIntOf(f.carrier, n, rest);
    TagThen(f, limits, h, EncUInt(f.carrier, n) + rest, depth, r);
  }

  /** Strings and bytes longer than their limits, and strings that are not UTF-8. */
  lemma BytesRefused(f: Format, limits: Limits, h: Head, data: bytes, rest: Units, depth: nat, r: RState)
    requires |data| <= USIZE_MAX && depth <= limits.maxDepth
    requires (h.Str? && (|data| > limits.maxStringBytes || !IsUtf8(data))) || (h.Blob? && |data| > limits.maxBlobBytes)
    ensures Dec(f, limits, Tag(f.carrier, h) + (EncUInt(f.carrier, |data|) + (Payload(f.carrier, data) + rest)), depth, r) == None
  {
    hide Dec, EncUInt, DecUInt, Tag, Payload, TakePayload, IsUtf8;
    var tail := Payload(f.carrier, data) + rest;
    DecUIntOf(f.carrier, |data|, tail);
    TakePayloadOf(f.carrier, data, rest);
    TagThen(f, limits, h, EncUInt(f.carrier, |data|) + tail, depth, r);
  }

  /** Quote modes end at four. */
  lemma ModeRefused(f: Format, limits: Limits, m: QuoteMode, s: Units, depth: nat, r: RState)
    requires depth <= limits.maxDepth
    requires if f.carrier.Bitwise? then |s| < 3 || FromBits(s[..3]) > 4 else s == [] || s[0] > 4
    ensures Dec(f, limits, Tag(f.carrier, Quote(m)) + s, depth, r) == None
  {
    hide Dec, Tag, FromBits;
    TagThen(f, limits, Quote(m), s, depth, r);
  }

  /** In a bit frame a magnitude of at most eight bits for every byte of the string limit, without a leading zero. */
  lemma MagnitudeExactly(limits: Limits, sign: byte, n: usize, bits: Units)
    ensures DecNumberText(Bitwise, [1, sign] + (VBits(n) + bits), limits) ==
      if n <= 8 * limits.maxStringBytes && n <= |bits| && (n > 0 ==> bits[0] != 0)
      then (IntegerTextIsAscii(sign != 0, bits[..n]); Some((IntegerText(sign != 0, bits[..n]), bits[n..]))) else None
  {
    assert EncUInt(Bitwise, n) == VBits(n);
    hide DecUInt, EncUInt, VBits, IntegerText;
    var s := [1, sign] + (VBits(n) + bits);
    DecUIntOf(Bitwise, n, bits);
    assert s[2..] == VBits(n) + bits && s[0] == 1;
  }

  /** What the writer writes for a number's text is read back exactly when the text is within the limit of its kind. */
  lemma NumberTextExactly(c: Carrier, limits: Limits, text: Text, rest: Units)
    requires 8 * |text| <= USIZE_MAX && (c.Bitwise? ==> SmallUint(text).None?)
    ensures DecNumberText(c, EncNumberText(c, text) + rest, limits).Some? <==> NumberFits(c, limits, text)
  {
    hide DecText, DecMagnitude, EncBytes, IntegerBits, SmallUint, NumberFits;
    if c.Binary? {
      TextExactly(c, limits, text, rest);
      BinaryFits(limits, text);
    } else if IntegerBits(text).None? {
      FirstOff(0, EncBytes(c, text), rest);
      TextExactly(c, limits, text, rest);
      TextFits(limits, text);
    } else {
      hide DecNumberText;
      IntegerExactly(limits, text, rest);
    }
  }

  lemma IntegerExactly(limits: Limits, text: Text, rest: Units)
    requires 8 * |text| <= USIZE_MAX && SmallUint(text).None? && IntegerBits(text).Some?
    ensures DecNumberText(Bitwise, EncNumberText(Bitwise, text) + rest, limits).Some? <==> NumberFits(Bitwise, limits, text)
  {
    hide DecNumberText, IntegerBits, IntegerText, SmallUint, VBits, NumberFits;
    var (negative, bits) := IntegerBits(text).value;
    IntegerRoundTrip(text);
    IntegerBitsLength(text);
    BitsFit(limits, text);
    MagnitudeExactly(limits, Bit(negative), |bits|, bits + rest);
    assert bits != [] ==> (bits + rest)[0] == bits[0];
    IntegerUnits(text, rest);
  }

  lemma IntegerUnits(text: Text, rest: Units)
    requires IntegerBits(text).Some?
    ensures var (negative, bits) := IntegerBits(text).value;
      EncNumberText(Bitwise, text) + rest == [1, Bit(negative)] + (VBits(|bits|) + (bits + rest))
  {
    hide IntegerBits, VBits;
    var (negative, bits) := IntegerBits(text).value;
    Assoc([1, Bit(negative)], VBits(|bits|), bits);
    Assoc([1, Bit(negative)], VBits(|bits|) + bits, rest);
    Assoc(VBits(|bits|), bits, rest);
  }

  lemma BinaryFits(limits: Limits, text: bytes)
    ensures NumberFits(Binary, limits, text) <==> |text| <= limits.maxStringBytes
  {
  }

  lemma TextFits(limits: Limits, text: bytes)
    requires SmallUint(text).None? && IntegerBits(text).None?
    ensures NumberFits(Bitwise, limits, text) <==> |text| <= limits.maxStringBytes
  {
  }

  lemma BitsFit(limits: Limits, text: bytes)
    requires SmallUint(text).None? && IntegerBits(text).Some? && |IntegerBits(text).value.1| <= USIZE_MAX
    ensures NumberFits(Bitwise, limits, text) <==> |IntegerBits(text).value.1| <= 8 * limits.maxStringBytes
  {
  }

  lemma TextExactly(c: Carrier, limits: Limits, text: Text, rest: Units)
    requires |text| <= USIZE_MAX
    ensures DecText(c, EncBytes(c, text) + rest, limits.maxStringBytes).Some? <==> |text| <= limits.maxStringBytes
  {
    hide EncUInt, DecUInt, Payload, TakePayload, IsUtf8;
    Assoc(EncUInt(c, |text|), Payload(c, text), rest);
    DecUIntOf(c, |text|, Payload(c, text) + rest);
    TakePayloadOf(c, text, rest);
  }

  /** Everything a node carries is small enough for the machine. */
  predicate Addressable(h: Head, n: nat) {
    n < USIZE_MAX &&
    match h
    case Str(x) => |x| <= USIZE_MAX
    case Blob(x) => |x| <= USIZE_MAX
    case Number(x) => 8 * |x.canonical| <= USIZE_MAX
    case _ => true
  }

  /** The fields a writer writes are read back exactly when they are within the limits. */
  lemma FieldsExactly(c: Carrier, limits: Limits, t: Tables, h: Head, n: nat, rest: Units)
    requires TablesFit(t) && HeadClosed(t, h) && Arity(h, n) && !HasTail(h) && Addressable(h, n)
    ensures DecFields(c, limits, t, KindOf(c, h), EncFields(c, t, h, n) + rest).Some? <==> HeadFits(c, limits, h, n)
  {
    if HeadFits(c, limits, h, n) {
      DecFieldsOf(c, limits, t, h, n, rest);
    } else if h.Number? {
      NumberKind(c, h.literal);
      hide EncFields, KindOf, HeadFits, DecNumber;
      NumberOver(c, limits, t, h.literal, rest);
    } else if h.Str? || h.Blob? {
      BytesOver(c, limits, t, h, rest);
    } else {
      CountOver(c, limits, t, h, n, rest);
    }
  }

  lemma BytesOver(c: Carrier, limits: Limits, t: Tables, h: Head, rest: Units)
    requires (h.Str? || h.Blob?) && Addressable(h, 0) && !HeadFits(c, limits, h, 0)
    ensures DecFields(c, limits, t, KindOf(c, h), EncFields(c, t, h, 0) + rest) == None
  {
    hide EncUInt, DecUInt, Payload, TakePayload, IsUtf8;
    var data := if h.Str? then h.text else h.data;
    Assoc(EncUInt(c, |data|), Payload(c, data), rest);
    DecUIntOf(c, |data|, Payload(c, data) + rest);
  }

  lemma CountOver(c: Carrier, limits: Limits, t: Tables, h: Head, n: nat, rest: Units)
    requires h in {List, Vector, Set, Block, Map} && n <= USIZE_MAX && !HeadFits(c, limits, h, n)
    ensures DecFields(c, limits, t, KindOf(c, h), EncFields(c, t, h, n) + rest) == None
  {
    hide EncUInt, DecUInt;
    DecUIntOf(c, if h.Map? then n / 2 else n, rest);
  }

  lemma NumberOver(c: Carrier, limits: Limits, t: Tables, x: NumberLiteral, rest: Units)
    requires TablesFit(t) && x.domain in t.domains && 8 * |x.canonical| <= USIZE_MAX && !NumberFits(c, limits, x.canonical)
    ensures DecNumber(c, limits, t, KindOf(c, Number(x)), EncFields(c, t, Number(x), 0) + rest) == None
  {
    NeverSmall(c, limits, x.canonical);
    hide DecEntry, EncEntry, EncNumberText, DecNumberText, NumberFits, SmallUint;
    var text := EncNumberText(c, x.canonical);
    Assoc(EncEntry(c, t.domains, x.domain), text, rest);
    DecEntryOf(c, t.domains, x.domain, text + rest);
    NumberTextExactly(c, limits, x.canonical, rest);
  }

  lemma NeverSmall(c: Carrier, limits: Limits, text: bytes)
    requires !NumberFits(c, limits, text)
    ensures c.Bitwise? ==> SmallUint(text).None?
  {
    hide SmallUint, IntegerBits;
  }

  // ---- headers -----------------------------------------------------------------------------------

  /** A byte frame without its four letters. */
  lemma LettersRefused(limits: Limits, frame: bytes)
    requires !([0x53, 0x4C, 0x42, 0x38] <= frame)
    ensures Decode(Binary, limits, frame) == None
  {
    hide DecUInt, DecTables;
  }

  function Letters(c: Carrier): Units {
    if c.Binary? then [0x53, 0x4C, 0x42, 0x38] else []
  }

  /** Every version but the first. */
  lemma VersionRefused(c: Carrier, limits: Limits, frame: bytes, version: usize, rest: Units)
    requires version != 1 && Payload(c, frame) == Letters(c) + (EncUInt(c, version) + rest)
    ensures Decode(c, limits, frame) == None
  {
    hide EncUInt, DecUInt, DecTables, Dec, DecOrigins, Payload;
    DecUIntOf(c, version, rest);
    assert Payload(c, frame)[|Letters(c)|..] == EncUInt(c, version) + rest;
  }

  /** Flags beyond the origin and tree flags of a byte frame, and the sharing flag of a bit frame. */
  lemma FlagsRefused(c: Carrier, limits: Limits, frame: bytes, flags: usize, rest: Units)
    requires flags > (if c.Bitwise? then 7 else 3) && Payload(c, frame) == Letters(c) + (EncUInt(c, 1) + (EncUInt(c, flags) + rest))
    ensures Decode(c, limits, frame) == None
  {
    hide EncUInt, DecUInt, DecTables, Dec, DecOrigins, Payload;
    DecUIntOf(c, 1, EncUInt(c, flags) + rest);
    DecUIntOf(c, flags, rest);
    assert Payload(c, frame)[|Letters(c)|..] == EncUInt(c, 1) + (EncUInt(c, flags) + rest);
  }

  /** Frames longer than the limit. */
  lemma LengthRefused(c: Carrier, limits: Limits, frame: bytes)
    requires |frame| > limits.maxFrameBytes
    ensures Decode(c, limits, frame) == None
  {
    hide DecHeader, Dec, DecOrigins;
  }

  /** Tables longer than the limit. */
  lemma TableRefused<T>(c: Carrier, limits: Limits, n: usize, rest: Units, dec: Units -> Option<(T, Units)>)
    requires n > limits.maxTableEntries
    ensures DecTable(c, EncUInt(c, n) + rest, limits.maxTableEntries, dec) == None
  {
    hide EncUInt, DecUInt;
    DecUIntOf(c, n, rest);
  }

  /** A symbol whose namespace is beyond the table. */
  lemma NamespaceRefused(c: Carrier, limits: Limits, libs: seq<Text>, slot: usize, rest: Units)
    requires slot > |libs|
    ensures DecRecord(c, limits, libs, EncUInt(c, slot) + rest) == None
  {
    hide EncUInt, DecUInt, DecText;
    DecUIntOf(c, slot, rest);
  }

  // ---- origins --------------------------------------------------------------------------------------

  /** Trivia kinds end at two. */
  lemma TriviaRefused(c: Carrier, limits: Limits, s: Units)
    requires if c.Bitwise? then |s| < 2 || FromBits(s[..2]) > 2 else s == [] || s[0] > 2
    ensures DecTrivia(c, limits, s) == None
  {
    hide DecText, FromBits;
  }

  /** More trivia than the limit. */
  lemma TriviasRefused(c: Carrier, limits: Limits, n: usize, rest: Units, dec: Units -> Option<(Trivia, Units)>)
    requires n > limits.maxTriviaItems
    ensures DecTable(c, EncUInt(c, n) + rest, limits.maxTriviaItems, dec) == None
  {
    hide EncUInt, DecUInt;
    DecUIntOf(c, n, rest);
  }

  /** A codec number of more than 32 bits, in a bit frame; a byte frame keeps its low 32 bits. */
  lemma CodecNumber(c: Carrier, limits: Limits, n: usize, rest: Units)
    requires n >= 0x1_0000_0000
    ensures c.Bitwise? ==> DecOrigin(c, limits, EncUInt(c, n) + rest) == None
    ensures c.Binary? && DecOrigin(c, limits, EncUInt(c, n) + rest).Some? ==>
      DecOrigin(c, limits, EncUInt(c, n) + rest).value.0.codec == n % 0x1_0000_0000
  {
    hide EncUInt, DecUInt, DecText, DecCount, DecTable;
    DecUIntOf(c, n, rest);
  }

  /** A byte before an origin that is neither zero nor one. */
  lemma PresenceRefused(limits: Limits, s: Units)
    requires s == [] || s[0] > 1
    ensures DecMaybe(Binary, limits, s) == None
  {
    hide DecOrigin;
  }

  /** Origins deeper than the limit. */
  lemma DeepOriginRefused(c: Carrier, limits: Limits, e: Expr, s: Units, depth: nat)
    requires depth > limits.maxDepth
    ensures DecTree(c, limits, e, s, depth) == None
  {
    hide DecMaybe, DecTrees;
  }

  // ---- text -------------------------------------------------------------------------------------------

  /** A Unicode scalar value: no surrogate, and nothing beyond the last plane. */
  predicate IsScalarValue(c: nat) {
    c < 0xD800 || 0xE000 <= c < 0x11_0000
  }

  /** Its bytes, as section 3 of RFC 3629 lays them out. */
  function Utf8(c: nat): bytes
    requires IsScalarValue(c)
  {
    if c < 0x80 then [c]
    else if c < 0x800 then [0xC0 + c / 64, 0x80 + c % 64]
    else if c < 0x1_0000 then [0xE0 + c / 4096, 0x80 + c / 64 % 64, 0x80 + c % 64]
    else [0xF0 + c / 0x4_0000, 0x80 + c / 4096 % 64, 0x80 + c / 64 % 64, 0x80 + c % 64]
  }

  predicate AllScalarValues(cs: seq<nat>) {
    forall c | c in cs :: IsScalarValue(c)
  }

  function Utf8All(cs: seq<nat>): bytes
    requires AllScalarValues(cs)
  {
    if cs == [] then [] else
      assert cs[0] in cs && forall c | c in cs[1..] :: c in cs;
      Utf8(cs[0]) + Utf8All(cs[1..])
  }

  /** The value of one encoded character, by its length. */
  function CharValue(s: bytes): nat
    requires 1 <= |s| <= 4
  {
    if |s| == 1 then s[0]
    else if |s| == 2 then (s[0] as nat) % 32 * 64 + s[1] % 64
    else if |s| == 3 then (s[0] as nat) % 16 * 4096 + (s[1] as nat) % 64 * 64 + s[2] % 64
    else (s[0] as nat) % 8 * 0x4_0000 + (s[1] as nat) % 64 * 4096 + (s[2] as nat) % 64 * 64 + s[3] % 64
  }

  /** How many bytes the first character takes. */
  function FirstLength(s: bytes): nat
    requires s != []
  {
    if s[0] < 0x80 then 1 else if s[0] < 0xE0 then 2 else if s[0] < 0xF0 then 3 else 4
  }

  lemma SplitSixes(a: nat, b: nat, c: nat, d: nat)
    requires b < 64 && c < 64 && d < 64
    ensures (a * 64 + d) / 64 == a && (a * 64 + d) % 64 == d
    ensures var v := a * 4096 + c * 64 + d; v / 4096 == a && v / 64 % 64 == c && v % 64 == d
    ensures var v := a * 0x4_0000 + b * 4096 + c * 64 + d;
      v / 0x4_0000 == a && v / 4096 % 64 == b && v / 64 % 64 == c && v % 64 == d
  {
    var w := a * 64 + c;
    var v := w * 64 + d;
    assert v / 64 == w && w / 64 == a && v / 4096 == a;
    var x := a * 64 + b;
    var y := x * 64 + c;
    var z := y * 64 + d;
    assert z / 64 == y && y / 64 == x && x / 64 == a && z / 4096 == x && z / 0x4_0000 == a;
  }

  predicate TwoShape(t: bytes) {
    |t| == 2 && 0xC2 <= t[0] < 0xE0 && Continuation(t[1])
  }

  predicate ThreeShape(t: bytes) {
    |t| == 3 && 0xE0 <= t[0] < 0xF0 && Continuation(t[1]) && Continuation(t[2])
    && (t[0] == 0xE0 ==> t[1] >= 0xA0) && (t[0] == 0xED ==> t[1] < 0xA0)
  }

  predicate FourShape(t: bytes) {
    |t| == 4 && 0xF0 <= t[0] < 0xF5 && Continuation(t[1]) && Continuation(t[2]) && Continuation(t[3])
    && (t[0] == 0xF0 ==> t[1] >= 0x90) && (t[0] == 0xF4 ==> t[1] < 0x90)
  }

  lemma TwoBytes(t: bytes)
    requires TwoShape(t)
    ensures IsScalarValue(CharValue(t)) && Utf8(CharValue(t)) == t
  {
    SplitSixes(t[0] % 32, 0, 0, t[1] % 64);
  }

  lemma ThreeForm(a: nat, b: nat, d: nat)
    requires a < 16 && b < 64 && d < 64 && (a == 0 ==> b >= 0x20) && (a == 13 ==> b < 0x20)
    ensures var v := a * 4096 + b * 64 + d; IsScalarValue(v) && Utf8(v) == [0xE0 + a, 0x80 + b, 0x80 + d]
  {
    SplitSixes(a, 0, b, d);
  }

  lemma ThreeBytes(t: bytes)
    requires ThreeShape(t)
    ensures IsScalarValue(CharValue(t)) && Utf8(CharValue(t)) == t
  {
    hide Utf8, IsScalarValue;
    ThreeForm(t[0] - 0xE0, t[1] - 0x80, t[2] - 0x80);
    assert t[0] % 16 == t[0] - 0xE0 && t[1] % 64 == t[1] - 0x80 && t[2] % 64 == t[2] - 0x80;
    assert t == [t[0], t[1], t[2]];
  }

  lemma FourForm(a: nat, b: nat, c: nat, d: nat)
    requires a < 5 && b < 64 && c < 64 && d < 64 && (a == 0 ==> b >= 0x10) && (a == 4 ==> b < 0x10)
    ensures var v := a * 0x4_0000 + b * 4096 + c * 64 + d;
      IsScalarValue(v) && Utf8(v) == [0xF0 + a, 0x80 + b, 0x80 + c, 0x80 + d]
  {
    SplitSixes(a, b, c, d);
  }

  lemma FourBytes(t: bytes)
    requires FourShape(t)
    ensures IsScalarValue(CharValue(t)) && Utf8(CharValue(t)) == t
  {
    hide Utf8, IsScalarValue;
    FourForm(t[0] - 0xF0, t[1] - 0x80, t[2] - 0x80, t[3] - 0x80);
    assert t[0] % 8 == t[0] - 0xF0 && t[1] % 64 == t[1] - 0x80 && t[2] % 64 == t[2] - 0x80 && t[3] % 64 == t[3] - 0x80;
    assert t == [t[0], t[1], t[2], t[3]];
  }

  lemma FirstChar(s: bytes)
    requires s != [] && IsUtf8(s)
    ensures var n := FirstLength(s);
      n <= |s| && IsScalarValue(CharValue(s[..n])) && Utf8(CharValue(s[..n])) == s[..n] && IsUtf8(s[n..])
  {
    hide IsScalarValue, Utf8, CharValue;
    var n := FirstLength(s);
    if n == 1 {
      OneByteChar(s[..1]);
    } else if n == 2 {
      TwoBytes(s[..2]);
    } else if n == 3 {
      ThreeBytes(s[..3]);
    } else {
      FourBytes(s[..4]);
    }
  }

  lemma OneByteChar(t: bytes)
    requires |t| == 1 && t[0] < 0x80
    ensures IsScalarValue(CharValue(t)) && Utf8(CharValue(t)) == t
  {
  }

  lemma OneMoreChar(c: nat, cs: seq<nat>)
    requires IsScalarValue(c) && AllScalarValues(cs)
    ensures AllScalarValues([c] + cs) && Utf8All([c] + cs) == Utf8(c) + Utf8All(cs)
  {
    hide IsScalarValue, Utf8;
    assert ([c] + cs)[1..] == cs;
  }

  lemma {:induction false} Utf8Chars(s: bytes) returns (cs: seq<nat>)
    requires IsUtf8(s)
    ensures AllScalarValues(cs) && Utf8All(cs) == s
    decreases |s|
  {
    if s == [] {
      cs := [];
    } else {
      hide IsUtf8, Utf8, Utf8All, CharValue, IsScalarValue, AllScalarValues;
      FirstChar(s);
      var n := FirstLength(s);
      var rest := Utf8Chars(s[n..]);
      cs := [CharValue(s[..n])] + rest;
      OneMoreChar(CharValue(s[..n]), rest);
      assert s == s[..n] + s[n..];
    }
  }

  lemma Sixes(c: nat, high: nat, higher: nat, highest: nat)
    requires high == c / 64 && higher == c / 4096 && highest == c / 0x4_0000
    ensures c == high * 64 + c % 64 && high == higher * 64 + high % 64 && higher == highest * 64 + higher % 64
  {
  }

  lemma TwoShaped(c: nat)
    requires 0x80 <= c < 0x800
    ensures TwoShape(Utf8(c))
  {
    Sixes(c, c / 64, c / 4096, c / 0x4_0000);
  }

  lemma ThreeShaped(c: nat)
    requires 0x800 <= c < 0x1_0000 && IsScalarValue(c)
    ensures ThreeShape(Utf8(c))
  {
    Sixes(c, c / 64, c / 4096, c / 0x4_0000);
  }

  lemma FourShaped(c: nat)
    requires 0x1_0000 <= c && IsScalarValue(c)
    ensures FourShape(Utf8(c))
  {
    Sixes(c, c / 64, c / 4096, c / 0x4_0000);
  }

  lemma ShapeThen(t: bytes, rest: bytes)
    requires (|t| == 1 && t[0] < 0x80) || TwoShape(t) || ThreeShape(t) || FourShape(t)
    ensures IsUtf8(t + rest) <==> IsUtf8(rest)
  {
    var s := t + rest;
    assert s[|t|..] == rest && forall i | 0 <= i < |t| :: s[i] == t[i];
  }

  lemma Utf8One(c: nat, rest: bytes)
    requires IsScalarValue(c)
    ensures IsUtf8(Utf8(c) + rest) <==> IsUtf8(rest)
  {
    hide IsUtf8, TwoShape, ThreeShape, FourShape;
    if c < 0x80 {
    } else if c < 0x800 {
      TwoShaped(c);
    } else if c < 0x1_0000 {
      ThreeShaped(c);
    } else {
      FourShaped(c);
    }
    ShapeThen(Utf8(c), rest);
  }

  lemma {:induction false} Utf8AllIsUtf8(cs: seq<nat>)
    requires AllScalarValues(cs)
    ensures IsUtf8(Utf8All(cs))
  {
    if cs != [] {
      hide Utf8, IsUtf8, IsScalarValue;
      assert cs[0] in cs && forall c | c in cs[1..] :: c in cs;
      Utf8AllIsUtf8(cs[1..]);
      Utf8One(cs[0], Utf8All(cs[1..]));
    }
  }

  /** Text is accepted exactly when it is the encoding of some scalar values. */
  lemma Utf8Exactly(s: bytes)
    ensures IsUtf8(s) <==> exists cs: seq<nat> :: AllScalarValues(cs) && Utf8All(cs) == s
  {
    hide IsUtf8, Utf8All, AllScalarValues;
    if IsUtf8(s) {
      var cs := Utf8Chars(s);
    }
    if cs: seq<nat> :| AllScalarValues(cs) && Utf8All(cs) == s {
      Utf8AllIsUtf8(cs);
    }
  }
}
