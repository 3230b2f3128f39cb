/** The units of a frame, field by field, as they stand on the wire. */
module Layout {
  import Order
  import opened Exprs
  import opened Bits
  import opened Numbers
  import opened Canonical
  import opened Atoms
  import opened Body
  import opened RoundTrips
  import opened SideTables
  import opened Sharing
  import opened Origins
  import opened Wire

  // ---- unsigned integers ---------------------------------------------------------------------

  /**
    * A number in a bit frame is three runs: zeros, the number of its bits plus
    * one, and its bits. Both numbers start with a one bit, and the zeros are one
    * fewer than the bits of the first number.
    */
  lemma VBitsShape(v: nat) returns (length: Units, magnitude: Units)
    ensures length != [] && VBits(v) == Zeros(|length| - 1) + length + magnitude
    ensures IsBits(length) && length[0] == 1 && FromBits(length) == |magnitude| + 1
    ensures IsBits(magnitude) && (magnitude != [] ==> magnitude[0] == 1) && FromBits(magnitude) == v
  {
    hide BitsOf, FromBits, Pow2, BitLength;
    var n := BitLength(v);
    length, magnitude := BitsOf(n + 1, BitLength(n + 1)), BitsOf(v, n);
    OwnBits(v);
    OwnBits(n + 1);
  }

  lemma OwnBits(v: nat)
    ensures var bits := BitsOf(v, BitLength(v)); FromBits(bits) == v && (bits == [] <==> v == 0) && (v > 0 ==> bits[0] == 1)
  {
    BitLengthBounds(v);
    FromBitsOf(v, BitLength(v));
    if v > 0 { BitsOfPositive(v); }
  }

  /** Seven bits to a byte, least significant first. */
  function Sevens(s: Units): nat {
    if s == [] then 0 else s[0] % 128 + 128 * Sevens(s[1..])
  }

  /** A number in a byte frame: every byte but the last has its top bit set, and the last is zero only alone. */
  lemma {:induction false} VarUintShape(v: nat)
    ensures var s := VarUint(v);
      |s| > 0 && Sevens(s) == v && s[|s| - 1] < 128 && (v > 0 ==> s[|s| - 1] > 0) && (v == 0 ==> |s| == 1)
      && forall i | 0 <= i < |s| - 1 :: s[i] >= 128
    decreases v
  {
    if v < 128 {
      assert VarUint(v) == [v] && [v][1..] == [];
      assert Sevens([v]) == v % 128 + 128 * Sevens([]);
    } else {
      VarUintShape(v / 128);
      var t := VarUint(v / 128);
      assert VarUint(v) == [v % 128 + 128] + t;
      hide VarUint;
      MarkedFirst(v, t);
    }
  }

  lemma MarkedFirst(v: nat, t: Units)
    requires v >= 128 && t != [] && Sevens(t) == v / 128
    ensures var s := [v % 128 + 128] + t; Sevens(s) == v && s[|s| - 1] == t[|t| - 1]
  {
    assert ([v % 128 + 128] + t)[1..] == t;
  }

  // ---- tags -------------------------------------------------------------------------------------

  function ByteTag(h: Head): byte {
    match h
    case Nil => 0x00
    case Bool(on) => if on then 0x02 else 0x01
    case Number(_) => 0x03
    case Sym(_) => 0x04
    case Str(_) => 0x05
    case Blob(_) => 0x06
    case List => 0x07
    case Vector => 0x08
    case Map => 0x09
    case Set => 0x0A
    case Call => 0x0B
    case Infix(_) => 0x0C
    case Prefix(_) => 0x0D
    case Postfix(_) => 0x0E
    case Block => 0x0F
    case Quote(_) => 0x10
    case Annotated(_) => 0x11
    case Extension(_) => 0x12
    case Local(_) => 0x13
  }

  /** Six bits; the numbers zero to fifteen are their own tags. */
  function BitTag(h: Head): Units {
    match h
    case Nil => [0, 1, 0, 0, 0, 0]
    case Bool(on) => if on then [0, 1, 0, 0, 1, 0] else [0, 1, 0, 0, 0, 1]
    case Number(x) =>
      (match SmallUint(x.canonical)
       case None => [0, 1, 0, 0, 1, 1]
       case Some(v) => [0, 0, v / 8 % 2, v / 4 % 2, v / 2 % 2, v % 2])
    case Sym(_) => [0, 1, 0, 1, 0, 0]
    case Local(_) => [0, 1, 0, 1, 0, 1]
    case Str(_) => [0, 1, 0, 1, 1, 0]
    case Blob(_) => [0, 1, 0, 1, 1, 1]
    case List => [0, 1, 1, 0, 0, 0]
    case Vector => [0, 1, 1, 0, 0, 1]
    case Map => [0, 1, 1, 0, 1, 0]
    case Set => [0, 1, 1, 0, 1, 1]
    case Call => [0, 1, 1, 1, 0, 0]
    case Infix(_) => [0, 1, 1, 1, 0, 1]
    case Prefix(_) => [0, 1, 1, 1, 1, 0]
    case Postfix(_) => [0, 1, 1, 1, 1, 1]
    case Block => [1, 0, 0, 0, 0, 0]
    case Quote(_) => [1, 0, 0, 0, 0, 1]
    case Annotated(_) => [1, 0, 0, 0, 1, 0]
    case Extension(_) => [1, 0, 0, 0, 1, 1]
  }

  function Tag(c: Carrier, h: Head): Units {
    if c.Binary? then [ByteTag(h)] else BitTag(h)
  }

  lemma SixBits(n: nat)
    ensures BitsOf(n, 6) == [n / 32 % 2, n / 16 % 2, n / 8 % 2, n / 4 % 2, n / 2 % 2, n % 2]
  {
    assert BitsOf(n / 32, 1) == BitsOf(n / 32 / 2, 0) + [n / 32 % 2];
    assert BitsOf(n / 16, 2) == BitsOf(n / 16 / 2, 1) + [n / 16 % 2];
    assert BitsOf(n / 8, 3) == BitsOf(n / 8 / 2, 2) + [n / 8 % 2];
    assert BitsOf(n / 4, 4) == BitsOf(n / 4 / 2, 3) + [n / 4 % 2];
    assert BitsOf(n / 2, 5) == BitsOf(n / 2 / 2, 4) + [n / 2 % 2];
    assert n / 16 / 2 == n / 32 && n / 8 / 2 == n / 16 && n / 4 / 2 == n / 8 && n / 2 / 2 == n / 4;
  }

  lemma SmallTag(h: Head)
    requires h.Number? && SmallUint(h.literal.canonical).Some?
    ensures EncTag(Bitwise, KindOf(Bitwise, h)) == BitTag(h)
  {
    hide BitsOf, SmallUint;
    var v := SmallUint(h.literal.canonical).value;
    SmallUintExactly(h.literal.canonical, v);
    SixBits(v);
  }

  lemma BitTagOf(h: Head)
    requires h.Number? ==> SmallUint(h.literal.canonical).None?
    ensures EncTag(Bitwise, KindOf(Bitwise, h)) == BitTag(h)
  {
    hide BitsOf, SmallUint;
    SixBits(KindOf(Bitwise, h));
  }

  /** Every kind of node has the tag the formats give it. */
  lemma TagOf(c: Carrier, h: Head)
    ensures EncTag(c, KindOf(c, h)) == Tag(c, h)
  {
    if c.Bitwise? {
      hide SmallUint, EncTag, BitTag, KindOf;
      if h.Number? && SmallUint(h.literal.canonical).Some? { SmallTag(h); } else { BitTagOf(h); }
    }
  }

  /** A back-reference is the last bit tag. */
  lemma ReferenceTag()
    ensures EncTag(Bitwise, REF) == [1, 0, 0, 1, 0, 0]
  {
    hide BitsOf;
    SixBits(36);
  }

  // ---- nodes ---------------------------------------------------------------------------------------

  /** Where a symbol stands in its table. */
  lemma EntryAt<T>(c: Carrier, table: seq<T>, i: nat)
    requires i < |table| && forall j | 0 <= j < i :: table[j] != table[i]
    ensures EncEntry(c, table, table[i]) == EncUInt(c, i)
  {
    hide VBits, VarUint;
    IndexAt(table, i);
  }

  lemma {:induction false} IndexAt<T>(table: seq<T>, i: nat)
    requires i < |table| && forall j | 0 <= j < i :: table[j] != table[i]
    ensures IndexOf(table, table[i]) == i
    decreases i
  {
    if i > 0 {
      assert forall j | 0 <= j < i - 1 :: table[1..][j] == table[j + 1];
      IndexAt(table[1..], i - 1);
    }
  }

  /** The node a writer writes for a value it has not met, whatever it does to remember it. */
  lemma NewNode(f: Format, e: Expr, w: WState)
    requires Legal(f) && (f.dense ==> e !in w.seen)
    ensures Enc(f, e, w) == EncNode(f, e, if f.dense then WState(w.seen[e := w.next], w.next + 1) else w)
  {
    hide EncNode;
  }

  lemma UnnamedNode(f: Format, e: Expr, w: WState, field: Units)
    requires Legal(f) && !HasTail(e.head) && EncFields(f.carrier, f.tables, e.head, |e.kids|) == field
    ensures EncNode(f, e, w) == (Tag(f.carrier, e.head) + field + EncKids(f, [], e.kids, w).0, EncKids(f, [], e.kids, w).1)
  {
    hide EncTag, EncFields, EncKids, KindOf, Tag;
    TagOf(f.carrier, e.head);
  }

  /** Nil and the truth values are their tags. */
  lemma ConstantNode(f: Format, h: Head, w: WState)
    requires Legal(f) && h in {Nil, Bool(false), Bool(true)}
    ensures EncNode(f, Expr(h, []), w) == (Tag(f.carrier, h), w)
  {
    hide Tag;
    UnnamedNode(f, Expr(h, []), w, []);
    NoKids(f, [], w);
    assert Tag(f.carrier, h) + [] + [] == Tag(f.carrier, h);
  }

  lemma NoKids(f: Format, names: seq<Symbol>, w: WState)
    requires Legal(f)
    ensures EncKids(f, names, [], w) == ([], w)
  {
  }

  /** Symbols and locals: the place in the symbol table. */
  lemma SymbolNode(f: Format, h: Head, x: Symbol, w: WState)
    requires Legal(f) && h in {Sym(x), Local(x)}
    ensures EncNode(f, Expr(h, []), w) == (Tag(f.carrier, h) + EncUInt(f.carrier, IndexOf(f.tables.symbols, x)), w)
  {
    hide Tag, VBits, VarUint;
    var field := EncUInt(f.carrier, IndexOf(f.tables.symbols, x));
    UnnamedNode(f, Expr(h, []), w, field);
    NoKids(f, [], w);
    assert Tag(f.carrier, h) + field + [] == Tag(f.carrier, h) + field;
  }

  /** Strings and bytes: a length and the bytes. */
  lemma BytesNode(f: Format, h: Head, data: bytes, w: WState)
    requires Legal(f) && ((h.Str? && h.text == data) || h == Blob(data))
    ensures EncNode(f, Expr(h, []), w) == (Tag(f.carrier, h) + (EncUInt(f.carrier, |data|) + Payload(f.carrier, data)), w)
  {
    hide Tag, VBits, VarUint, Payload;
    var field := EncUInt(f.carrier, |data|) + Payload(f.carrier, data);
    UnnamedNode(f, Expr(h, []), w, field);
    NoKids(f, [], w);
    assert Tag(f.carrier, h) + field + [] == Tag(f.carrier, h) + field;
  }

  /** Eight bits to a byte, most significant first. */
  lemma EightBits(b: byte)
    ensures Payload(Bitwise, [b]) ==
      [b / 128, b / 64 % 2, b / 32 % 2, b / 16 % 2, b / 8 % 2, b / 4 % 2, b / 2 % 2, b % 2]
    ensures Payload(Binary, [b]) == [b]
  {
    SixBits(b / 4);
    assert BitsOf(b / 2, 7) == BitsOf(b / 4, 6) + [b / 2 % 2] by { assert b / 2 / 2 == b / 4; }
    assert BitsOf(b, 8) == BitsOf(b / 2, 7) + [b % 2];
    hide BitsOf;
    EighthParts(b);
    assert [b][1..] == [];
    assert Payload(Bitwise, [b]) == BitsOf(b, 8) + [];
  }

  lemma EighthParts(b: byte)
    ensures b / 4 / 32 % 2 == b / 128 && b / 4 / 16 % 2 == b / 64 % 2 && b / 4 / 8 % 2 == b / 32 % 2
    ensures b / 4 / 4 % 2 == b / 16 % 2 && b / 4 / 2 % 2 == b / 8 % 2
  {
  }

  /** Lists, vectors, sets and blocks: a count and the children. */
  lemma CountedNode(f: Format, h: Head, ks: seq<Expr>, w: WState)
    requires Legal(f) && h in {List, Vector, Set, Block}
    ensures EncNode(f, Expr(h, ks), w) == (Tag(f.carrier, h) + EncUInt(f.carrier, |ks|) + EncKids(f, [], ks, w).0, EncKids(f, [], ks, w).1)
  {
    hide Tag, VBits, VarUint, EncKids;
    UnnamedNode(f, Expr(h, ks), w, EncUInt(f.carrier, |ks|));
  }

  /** Maps: the number of pairs, then key and value of each. */
  lemma MapNode(f: Format, ks: seq<Expr>, w: WState)
    requires Legal(f) && |ks| % 2 == 0
    ensures EncNode(f, Expr(Map, ks), w) == (Tag(f.carrier, Map) + EncUInt(f.carrier, |ks| / 2) + EncKids(f, [], ks, w).0, EncKids(f, [], ks, w).1)
  {
    hide Tag, VBits, VarUint, EncKids;
    UnnamedNode(f, Expr(Map, ks), w, EncUInt(f.carrier, |ks| / 2));
  }

  /** Operators and extensions: the place of their symbol, then the children. */
  lemma OperatorNode(f: Format, h: Head, x: Symbol, ks: seq<Expr>, w: WState)
    requires Legal(f) && h in {Infix(x), Prefix(x), Postfix(x), Extension(x)}
    ensures EncNode(f, Expr(h, ks), w) ==
      (Tag(f.carrier, h) + EncUInt(f.carrier, IndexOf(f.tables.symbols, x)) + EncKids(f, [], ks, w).0, EncKids(f, [], ks, w).1)
  {
    hide Tag, VBits, VarUint, EncKids;
    UnnamedNode(f, Expr(h, ks), w, EncUInt(f.carrier, IndexOf(f.tables.symbols, x)));
  }

  /** Quotes: the mode in a byte or three bits, then the quoted node. */
  lemma QuoteNode(f: Format, m: QuoteMode, ks: seq<Expr>, w: WState)
    requires Legal(f)
    ensures var n := match m case Quoted => 0 case QuasiQuoted => 1 case Unquoted => 2 case Spliced => 3 case SyntaxQuoted => 4;
      EncNode(f, Expr(Quote(m), ks), w) ==
      (Tag(f.carrier, Quote(m)) + (if f.carrier.Binary? then [n] else [n / 4, n / 2 % 2, n % 2]) + EncKids(f, [], ks, w).0,
       EncKids(f, [], ks, w).1)
  {
    hide Tag, EncNode, EncKids, BitsOf;
    var n := ModeCode(m);
    ThreeBits(n);
    UnnamedNode(f, Expr(Quote(m), ks), w, if f.carrier.Binary? then [n] else [n / 4, n / 2 % 2, n % 2]);
  }

  lemma ThreeBits(n: nat)
    requires n < 8
    ensures BitsOf(n, 3) == [n / 4, n / 2 % 2, n % 2]
  {
    assert BitsOf(n / 4, 1) == BitsOf(n / 4 / 2, 0) + [n / 4 % 2];
    assert BitsOf(n / 2, 2) == BitsOf(n / 2 / 2, 1) + [n / 2 % 2];
    assert n / 2 / 2 == n / 4;
  }

  lemma TailedNode(f: Format, h: Head, first: Expr, others: seq<Expr>, w: WState)
    requires Legal(f) && HasTail(h)
    ensures var (a, w1) := Enc(f, first, w);
      var (b, w2) := EncKids(f, NamesOf(h), others, w1);
      EncNode(f, Expr(h, [first] + others), w) == (Tag(f.carrier, h) + (a + (EncUInt(f.carrier, |others|) + b)), w2)
  {
    hide Tag, EncTag, KindOf, EncUInt, Enc, EncKids, EncNode, NamesOf;
    TagOf(f.carrier, h);
    var e := Expr(h, [first] + others);
    NodeSplit(f, e, w);
    assert e.kids[1..] == others && |e.kids| - 1 == |others|;
    var (a, w1) := Enc(f, first, w);
    var tail := a + (EncUInt(f.carrier, |others|) + EncKids(f, NamesOf(h), others, w1).0);
    assert [] + tail == tail;
  }

  /** Calls: the operator, the number of arguments, and the arguments. */
  lemma CallNode(f: Format, op: Expr, args: seq<Expr>, w: WState)
    requires Legal(f)
    ensures var (first, w1) := Enc(f, op, w);
      var (others, w2) := EncKids(f, [], args, w1);
      EncNode(f, Expr(Call, [op] + args), w) == (Tag(f.carrier, Call) + (first + (EncUInt(f.carrier, |args|) + others)), w2)
  {
    hide Tag, EncUInt, EncNode, Enc, EncKids;
    TailedNode(f, Call, op, args, w);
  }

  /** Annotated nodes: the inner node, the number of annotations, and each name's place before its value. */
  lemma AnnotatedNode(f: Format, names: seq<Symbol>, inner: Expr, values: seq<Expr>, w: WState)
    requires Legal(f)
    ensures var (first, w1) := Enc(f, inner, w);
      var (others, w2) := EncKids(f, names, values, w1);
      EncNode(f, Expr(Annotated(names), [inner] + values), w) ==
      (Tag(f.carrier, Annotated(names)) + (first + (EncUInt(f.carrier, |values|) + others)), w2)
  {
    hide Tag, EncUInt, EncNode, Enc, EncKids;
    TailedNode(f, Annotated(names), inner, values, w);
  }

  /** Children one after the other. */
  lemma NextKid(f: Format, k: Expr, ks: seq<Expr>, w: WState)
    requires Legal(f)
    ensures var (first, w1) := Enc(f, k, w); var (others, w2) := EncKids(f, [], ks, w1);
      EncKids(f, [], [k] + ks, w) == (first + others, w2)
  {
    hide Enc;
    assert ([k] + ks)[1..] == ks;
    var (first, w1) := Enc(f, k, w);
    assert [] + (first + EncKids(f, [], ks, w1).0) == first + EncKids(f, [], ks, w1).0;
  }

  lemma NextNamedKid(f: Format, x: Symbol, names: seq<Symbol>, k: Expr, ks: seq<Expr>, w: WState)
    requires Legal(f)
    ensures var (first, w1) := Enc(f, k, w); var (others, w2) := EncKids(f, names, ks, w1);
      EncKids(f, [x] + names, [k] + ks, w) == (EncUInt(f.carrier, IndexOf(f.tables.symbols, x)) + (first + others), w2)
  {
    hide Enc, VBits, VarUint;
    assert ([k] + ks)[1..] == ks && ([x] + names)[1..] == names;
  }

  /** Numbers: the place of their domain; then, in a byte frame, their text. */
  lemma NumberNode(f: Format, domain: Symbol, text: Text, w: WState)
    requires Legal(f)
    ensures EncNode(f, Expr(Number(NumberLiteral(domain, text)), []), w) ==
      (Tag(f.carrier, Number(NumberLiteral(domain, text)))
       + (EncUInt(f.carrier, IndexOf(f.tables.domains, domain))
          + if f.carrier.Binary? then VarUint(|text|) + text else NumberBits(text)), w)
  {
    hide Tag, VBits, VarUint, SmallUint, NumberBits;
    var h := Number(NumberLiteral(domain, text));
    NumberBitsAre(text);
    var field := EncFields(f.carrier, f.tables, h, 0);
    UnnamedNode(f, Expr(h, []), w, field);
    NoKids(f, [], w);
    assert Tag(f.carrier, h) + field + [] == Tag(f.carrier, h) + field;
  }

  /**
    * In a bit frame zero to fifteen need nothing more than their tag; other
    * integers are a one bit, their sign, and the bits of their magnitude after
    * how many there are; and everything else is a zero bit and text.
    */
  ghost function NumberBits(text: bytes): Units {
    if exists v: nat :: v < 16 && text == DecimalText(v) then []
    else if exists v :: text == SignedText(v) then
      var v :| text == SignedText(v);
      var bits := BinaryForm(if v < 0 then -v else v);
      [1, if v < 0 then 1 else 0] + VBits(|bits|) + bits
    else [0] + (VBits(|text|) + Payload(Bitwise, text))
  }

  lemma NumberBitsAre(text: bytes)
    ensures NumberBits(text) == if SmallUint(text).Some? then [] else EncNumberText(Bitwise, text)
  {
    hide SmallUint, IntegerBits, VBits, BinaryForm, Payload, DecimalText, SignedText;
    forall v: nat ensures SmallUint(text) == Some(v) <==> v < 16 && text == DecimalText(v) { SmallUintExactly(text, v); }
    IntegerBitsOnly(text);
    if v :| text == SignedText(v) {
      forall v | text == SignedText(v)
        ensures IntegerBits(text) == Some((v < 0, BinaryForm(if v < 0 then -v else v))) { IntegerBitsOf(v); }
    }
  }

  // ---- tables --------------------------------------------------------------------------------------

  /** A symbol a node carries itself, not through its children. */
  predicate Carries(h: Head, x: Symbol) {
    HeadSymbol(h) == Some(x) || (h.Annotated? && x in h.names)
  }

  predicate HasDomain(h: Head, x: Symbol) {
    h.Number? && h.literal.domain == x
  }

  lemma {:induction false} SymbolsAreCarried(e: Expr, x: Symbol)
    ensures x in SymbolsOf(e) <==> exists s :: s in Subvalues(e) && Carries(s.head, x)
    ensures x in DomainsOf(e) <==> exists s :: s in Subvalues(e) && HasDomain(s.head, x)
    decreases e
  {
    assert x in HeadSymbols(e.head) <==> Carries(e.head, x);
    assert x in HeadDomains(e.head) <==> HasDomain(e.head, x);
    hide HeadSymbols, HeadDomains, Carries, HasDomain;
    forall k | k in e.kids
      ensures x in SymbolsOf(k) <==> exists s :: s in Subvalues(k) && Carries(s.head, x)
      ensures x in DomainsOf(k) <==> exists s :: s in Subvalues(k) && HasDomain(s.head, x)
    {
      SymbolsAreCarried(k, x);
    }
    forall s ensures s in Subvalues(e) <==> s == e || exists k :: k in e.kids && s in Subvalues(k) { SubvaluesAreKids(e.kids, s); }
  }

  lemma {:induction false} SubvaluesAreKids(ks: seq<Expr>, s: Expr)
    ensures s in SubvaluesOf(ks) <==> exists k :: k in ks && s in Subvalues(k)
  {
    hide Subvalues;
    if s in SubvaluesOf(ks) { var k := KidHolding(ks, s); }
    if k :| k in ks && s in Subvalues(k) { HeldByKid(ks, k, s); }
  }

  lemma {:induction false} KidHolding(ks: seq<Expr>, s: Expr) returns (k: Expr)
    requires s in SubvaluesOf(ks)
    ensures k in ks && s in Subvalues(k)
  {
    hide Subvalues;
    if s in Subvalues(ks[0]) { k := ks[0]; } else { k := KidHolding(ks[1..], s); }
  }

  lemma {:induction false} HeldByKid(ks: seq<Expr>, k: Expr, s: Expr)
    requires k in ks && s in Subvalues(k)
    ensures s in SubvaluesOf(ks)
  {
    hide Subvalues;
    if k != ks[0] {
      assert k in ks[1..];
      HeldByKid(ks[1..], k, s);
    }
  }

  /** The tables list exactly the symbols nodes carry, the domains of numbers, and the namespaces of both. */
  lemma TablesExactly(e: Expr)
    ensures forall x :: x in TablesOf(e).symbols <==> exists s :: s in Subvalues(e) && Carries(s.head, x)
    ensures forall x :: x in TablesOf(e).domains <==> exists s :: s in Subvalues(e) && HasDomain(s.head, x)
    ensures forall n :: n in TablesOf(e).libs <==>
      exists x :: (x in TablesOf(e).symbols || x in TablesOf(e).domains) && x.namespace == Some(n)
  {
    var t, all := TablesOf(e), SymbolsOf(e) + DomainsOf(e);
    forall x ensures x in t.symbols <==> exists s :: s in Subvalues(e) && Carries(s.head, x) {
      SymbolTableMembers(SymbolsOf(e), x);
      SymbolsAreCarried(e, x);
    }
    forall x ensures x in t.domains <==> exists s :: s in Subvalues(e) && HasDomain(s.head, x) {
      SymbolTableMembers(DomainsOf(e), x);
      SymbolsAreCarried(e, x);
    }
    forall n ensures n in t.libs <==> exists x :: (x in t.symbols || x in t.domains) && x.namespace == Some(n) {
      NamespacesExactly(e, n);
    }
  }

  lemma NamespacesExactly(e: Expr, n: Text)
    ensures n in TablesOf(e).libs <==> exists x :: (x in TablesOf(e).symbols || x in TablesOf(e).domains) && x.namespace == Some(n)
  {
    hide SymbolsOf, DomainsOf, SymbolTable, TextTable, Values;
    var t, all := TablesOf(e), SymbolsOf(e) + DomainsOf(e);
    TextTableMembers(Namespaces(all), n);
    forall x ensures x in all <==> x in t.symbols || x in t.domains {
      SymbolTableMembers(SymbolsOf(e), x);
      SymbolTableMembers(DomainsOf(e), x);
    }
    assert n in Namespaces(all) <==> exists x :: x in all && x.namespace == Some(n);
  }

  /** No namespace comes before every namespace; then namespaces, and then names, in byte order. */
  predicate Before(a: Symbol, b: Symbol) {
    match (a.namespace, b.namespace)
    case (None, None) => Order.Less(a.name, b.name)
    case (None, Some(_)) => true
    case (Some(_), None) => false
    case (Some(m), Some(n)) => Order.Less(m, n) || (m == n && Order.Less(a.name, b.name))
  }

  lemma {:induction false} LessRaised(m: bytes, n: bytes, x: bytes, y: bytes)
    ensures Order.Less(Raised(m) + ([0] + x), Raised(n) + ([0] + y)) <==> Order.Less(m, n) || (m == n && Order.Less(x, y))
    decreases |m|
  {
    var a, b := Raised(m) + ([0] + x), Raised(n) + ([0] + y);
    if m == [] || n == [] {
      assert m == [] ==> a[0] == 0 && a[1..] == x;
      assert n == [] ==> b[0] == 0 && b[1..] == y;
    } else {
      assert a[1..] == Raised(m[1..]) + ([0] + x) && b[1..] == Raised(n[1..]) + ([0] + y);
      assert m == n <==> m[0] == n[0] && m[1..] == n[1..] by {
        assert m == [m[0]] + m[1..] && n == [n[0]] + n[1..];
      }
      LessRaised(m[1..], n[1..], x, y);
    }
  }

  lemma SymbolOrderIsBefore(a: Symbol, b: Symbol)
    ensures Order.Less(SymbolOrder(a), SymbolOrder(b)) <==> Before(a, b)
  {
    var p, q := SymbolOrder(a), SymbolOrder(b);
    assert p[1..] == if a.namespace.None? then a.name else Raised(a.namespace.value) + ([0] + a.name);
    assert q[1..] == if b.namespace.None? then b.name else Raised(b.namespace.value) + ([0] + b.name);
    if a.namespace.Some? && b.namespace.Some? { LessRaised(a.namespace.value, b.namespace.value, a.name, b.name); }
  }

  /** Every table is in strictly increasing order, so each entry stands in it once. */
  lemma TablesOrdered(e: Expr)
    ensures var t := TablesOf(e);
      (forall i, j | 0 <= i < j < |t.libs| :: Order.Less(t.libs[i], t.libs[j]))
      && (forall i, j | 0 <= i < j < |t.symbols| :: Before(t.symbols[i], t.symbols[j]))
      && (forall i, j | 0 <= i < j < |t.domains| :: Before(t.domains[i], t.domains[j]))
  {
    hide Before, SymbolOrder, Order.Less;
    SymbolsOrdered(SymbolsOf(e));
    SymbolsOrdered(DomainsOf(e));
    TextsOrdered(Namespaces(SymbolsOf(e) + DomainsOf(e)));
  }

  lemma SymbolsOrdered(ss: set<Symbol>)
    ensures var xs := Values(SymbolTable(ss)); forall i, j | 0 <= i < j < |xs| :: Before(xs[i], xs[j])
  {
    hide Before, SymbolOrder, Order.Less;
    var xs := SymbolTable(ss);
    forall i, j | 0 <= i < j < |xs| ensures Before(xs[i].value, xs[j].value) {
      assert xs[i] in xs && xs[j] in xs;
      SymbolOrderIsBefore(xs[i].value, xs[j].value);
    }
  }

  lemma TextsOrdered(ts: set<Text>)
    ensures var xs := Values(TextTable(ts)); forall i, j | 0 <= i < j < |xs| :: Order.Less(xs[i], xs[j])
  {
    hide Order.Less;
    var xs := TextTable(ts);
    forall i, j | 0 <= i < j < |xs| ensures Order.Less(xs[i].value, xs[j].value) {
      assert xs[i] in xs && xs[j] in xs;
    }
  }

  // ---- headers ----------------------------------------------------------------------------------------

  lemma SmallVBits(v: nat, n: nat, k: nat, length: Units, magnitude: Units)
    requires BitLength(v) == n && BitLength(n + 1) == k && BitsOf(n + 1, k) == length && BitsOf(v, n) == magnitude && k > 0
    ensures VBits(v) == Zeros(k - 1) + length + magnitude
  {
    hide BitLength, BitsOf;
  }

  /** The flags in bits: none, an origin, a tree of origins, and sharing. */
  lemma FlagBits()
    ensures VBits(0) == [1] && VBits(1) == [0, 1, 0, 1] && VBits(2) == [0, 1, 1, 1, 0] && VBits(4) == [0, 0, 1, 0, 0, 1, 0, 0]
  {
    SmallNumbers();
    hide BitLength, BitsOf, VBits;
    SmallVBits(0, 0, 1, [1], []);
    SmallVBits(1, 1, 2, [1, 0], [1]);
    SmallVBits(2, 2, 2, [1, 1], [1, 0]);
    SmallVBits(4, 3, 3, [1, 0, 0], [1, 0, 0]);
    assert Zeros(0) == [] && Zeros(1) == [0] && Zeros(2) == [0, 0];
  }

  lemma SmallNumbers()
    ensures BitLength(0) == 0 && BitLength(1) == 1 && BitLength(2) == 2 && BitLength(3) == 2 && BitLength(4) == 3
    ensures BitsOf(0, 0) == [] && BitsOf(1, 1) == [1] && BitsOf(2, 2) == [1, 0] && BitsOf(3, 2) == [1, 1] && BitsOf(4, 3) == [1, 0, 0]
  {
    assert BitsOf(4, 3) == BitsOf(2, 2) + [0];
  }

  /** A byte frame starts with four letters, its version and its flags. */
  lemma ByteHeader(flags: nat, t: Tables)
    requires flags < 128
    ensures EncHeader(Binary, flags, t) == [0x53, 0x4C, 0x42, 0x38, 0x01, flags] + EncTables(Binary, t)
  {
    assert VarUint(1) == [1] && VarUint(flags) == [flags];
    hide EncTables, VarUint;
  }

  /** A bit frame starts with its version and its flags. */
  lemma BitHeader(flags: nat, t: Tables)
    ensures EncHeader(Bitwise, flags, t) == [0, 1, 0, 1] + (VBits(flags) + EncTables(Bitwise, t))
  {
    FlagBits();
    hide EncTables, VBits;
    var tail := VBits(flags) + EncTables(Bitwise, t);
    assert [] + (VBits(1) + tail) == VBits(1) + tail;
  }

  /** A symbol record: zero or one more than its namespace's place, then its name. */
  lemma RecordLayout(c: Carrier, libs: seq<Text>, name: Text, i: nat)
    requires i < |libs| && forall j | 0 <= j < i :: libs[j] != libs[i]
    ensures EncRecord(c, libs, Symbol(None, name)) == EncUInt(c, 0) + (EncUInt(c, |name|) + Payload(c, name))
    ensures EncRecord(c, libs, Symbol(Some(libs[i]), name)) == EncUInt(c, i + 1) + (EncUInt(c, |name|) + Payload(c, name))
  {
    hide VBits, VarUint;
    IndexAt(libs, i);
  }

  /** Namespaces, symbols and domains, each list after its length. */
  lemma TablesLayout(c: Carrier, t: Tables)
    ensures EncTables(c, t) ==
      (EncUInt(c, |t.libs|) + EncAll(t.libs, x => EncUInt(c, |x|) + Payload(c, x)))
      + ((EncUInt(c, |t.symbols|) + EncAll(t.symbols, x => EncRecord(c, t.libs, x)))
        + (EncUInt(c, |t.domains|) + EncAll(t.domains, x => EncRecord(c, t.libs, x))))
  {
    hide EncUInt, EncAll, EncRecord, Payload;
    EncAllSame(t.libs, x => EncBytes(c, x), x => EncUInt(c, |x|) + Payload(c, x));
  }

  lemma {:induction false} EncAllSame<T(!new)>(xs: seq<T>, a: T -> Units, b: T -> Units)
    requires forall x :: a(x) == b(x)
    ensures EncAll(xs, a) == EncAll(xs, b)
  {
    if xs != [] { EncAllSame(xs[1..], a, b); }
  }

  // ---- origins ------------------------------------------------------------------------------------------

  /** One trivia item: its kind in a byte or two bits, then its text. */
  lemma TriviaLayout(c: Carrier, k: TriviaKind, text: Text)
    ensures var n := match k case Whitespace => 0 case LineComment => 1 case BlockComment => 2;
      EncTrivia(c, Trivia(k, text)) == (if c.Binary? then [n] else [n / 2, n % 2]) + (EncUInt(c, |text|) + Payload(c, text))
  {
    hide EncUInt, Payload;
    var n := KindCode(k);
    assert BitsOf(n, 2) == BitsOf(n / 2, 1) + [n % 2];
  }

  /** An origin: codec number, source, start, end, and counted trivia. */
  lemma OriginLayout(c: Carrier, o: Origin)
    ensures EncOrigin(c, o) == EncUInt(c, o.codec) + ((EncUInt(c, |o.source|) + Payload(c, o.source))
      + (EncUInt(c, o.start) + (EncUInt(c, o.end) + (EncUInt(c, |o.trivia|) + EncAll(o.trivia, x => EncTrivia(c, x))))))
  {
    hide EncUInt, Payload, EncAll, EncTrivia;
  }

  /** An origin in a tree is a one and the origin, or a zero. */
  lemma MaybeLayout(c: Carrier, o: Origin)
    ensures EncMaybe(c, None) == [0] && EncMaybe(c, Some(o)) == [1] + EncOrigin(c, o)
  {
    hide EncOrigin;
  }
}
