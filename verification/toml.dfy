/** Config text: the quote automaton its lexers share, scalar values, lines and headers. */
module TomlText {
  import opened Exprs
  import opened Numbers

  const NEWLINE: byte := 10
  const RETURN: byte := 13
  const TAB: byte := 9
  const SPACE: byte := 32
  const QUOTE: byte := 34
  const HASH: byte := 35
  const COMMA: byte := 44
  const DOT: byte := 46
  const EQUALS: byte := 61
  const OPEN: byte := 91
  const BACKSLASH: byte := 92
  const CLOSE: byte := 93

  // ---- the quote automaton ----------------------------------------------------------

  datatype Lex = Outside | Inside | Escaped

  function Step(st: Lex, ch: byte): Lex {
    match st
    case Outside => if ch == QUOTE then Inside else Outside
    case Inside => if ch == BACKSLASH then Escaped else if ch == QUOTE then Outside else Inside
    case Escaped => Inside
  }

  function End(s: bytes, st: Lex): Lex {
    if s == [] then st else End(s[1..], Step(st, s[0]))
  }

  /** The first `stop` outside string literals; the length when there is none. */
  function Find(s: bytes, st: Lex, stop: byte): (i: nat)
    ensures i <= |s|
  {
    if s == [] then 0
    else if st.Outside? && s[0] != QUOTE && s[0] == stop then 0
    else 1 + Find(s[1..], Step(st, s[0]), stop)
  }

  lemma {:induction false} EndAppend(a: bytes, b: bytes, st: Lex)
    ensures End(a + b, st) == End(b, End(a, st))
  {
    if a == [] {
      assert a + b == b;
    } else {
      assert (a + b)[1..] == a[1..] + b;
      EndAppend(a[1..], b, Step(st, a[0]));
    }
  }

  lemma {:induction false} FindAppend(a: bytes, b: bytes, st: Lex, stop: byte)
    requires Find(a, st, stop) == |a|
    ensures Find(a + b, st, stop) == |a| + Find(b, End(a, st), stop)
  {
    if a == [] {
      assert a + b == b;
    } else {
      assert (a + b)[1..] == a[1..] + b;
      FindAppend(a[1..], b, Step(st, a[0]), stop);
    }
  }

  /** No `stop` outside strings, and every string closed. */
  predicate Quiet(s: bytes, stop: byte) {
    Find(s, Outside, stop) == |s| && End(s, Outside) == Outside
  }

  lemma QuietAppend(a: bytes, b: bytes, stop: byte)
    requires Quiet(a, stop) && Quiet(b, stop)
    ensures Quiet(a + b, stop)
  {
    FindAppend(a, b, Outside, stop);
    EndAppend(a, b, Outside);
  }

  lemma {:induction false} PlainIsQuiet(s: bytes, stop: byte)
    requires QUOTE !in s && stop !in s
    ensures Quiet(s, stop)
  {
    if s != [] {
      assert s[0] in s && forall x | x in s[1..] :: x in s;
      PlainIsQuiet(s[1..], stop);
    }
  }

  /** A stop right after a quiet piece is the first one. */
  lemma FindAfter(a: bytes, b: bytes, stop: byte)
    requires Quiet(a, stop) && b != [] && b[0] == stop && stop != QUOTE
    ensures Find(a + b, Outside, stop) == |a|
  {
    FindAppend(a, b, Outside, stop);
  }

  // ---- trimming -----------------------------------------------------------------------

  predicate IsSpace(b: byte) {
    9 <= b <= 13 || b == SPACE
  }

  function TrimStart(s: bytes): bytes {
    if s != [] && IsSpace(s[0]) then TrimStart(s[1..]) else s
  }

  function TrimEnd(s: bytes): bytes {
    if s != [] && IsSpace(s[|s| - 1]) then TrimEnd(s[..|s| - 1]) else s
  }

  function Trim(s: bytes): bytes {
    TrimEnd(TrimStart(s))
  }

  /** Starts and ends with something that is not blank. */
  predicate Solid(s: bytes) {
    s != [] && !IsSpace(s[0]) && !IsSpace(s[|s| - 1])
  }

  lemma TrimSolid(s: bytes)
    requires Solid(s)
    ensures Trim(s) == s && Trim([SPACE] + s) == s && Trim(s + [SPACE]) == s
  {
    assert ([SPACE] + s)[1..] == s;
    assert (s + [SPACE])[..|s|] == s;
  }

  // ---- strings --------------------------------------------------------------------------

  function EscapeByte(b: byte): bytes {
    if b == BACKSLASH then [BACKSLASH, BACKSLASH]
    else if b == QUOTE then [BACKSLASH, QUOTE]
    else if b == NEWLINE then [BACKSLASH, 110]
    else if b == RETURN then [BACKSLASH, 114]
    else if b == TAB then [BACKSLASH, 116]
    else [b]
  }

  function Escape(t: bytes): bytes {
    if t == [] then [] else EscapeByte(t[0]) + Escape(t[1..])
  }

  function UnescapeByte(b: byte): Option<byte> {
    if b == QUOTE then Some(QUOTE)
    else if b == BACKSLASH then Some(BACKSLASH)
    else if b == 110 then Some(NEWLINE)
    else if b == 114 then Some(RETURN)
    else if b == 116 then Some(TAB)
    else None
  }

  /** The rest of a string literal up to its closing quote, after which only blanks may follow. */
  function Unescape(s: bytes, escaped: bool): Option<bytes> {
    if s == [] then None
    else if escaped then
      match UnescapeByte(s[0])
      case None => None
      case Some(b) =>
        (match Unescape(s[1..], false)
         case None => None
         case Some(rest) => Some([b] + rest))
    else if s[0] == BACKSLASH then Unescape(s[1..], true)
    else if s[0] == QUOTE then (if Trim(s[1..]) == [] then Some([]) else None)
    else
      match Unescape(s[1..], false)
      case None => None
      case Some(rest) => Some([s[0]] + rest)
  }

  function ParseString(s: bytes): Option<bytes> {
    if s == [] || s[0] != QUOTE then None else Unescape(s[1..], false)
  }

  function Quoted(t: bytes): bytes {
    [QUOTE] + Escape(t) + [QUOTE]
  }

  lemma UnescapeOne(b: byte, rest: bytes)
    ensures Unescape(EscapeByte(b) + rest, false) == match Unescape(rest, false)
      case None => None
      case Some(t) => Some([b] + t)
  {
    var e := EscapeByte(b);
    var s := e + rest;
    if |e| == 2 {
      assert s[1..] == [e[1]] + rest && s[1..][1..] == rest;
      assert Unescape(s, false) == Unescape(s[1..], true);
    } else {
      assert s[1..] == rest;
    }
  }

  /** Parsing inverts escaping. */
  lemma {:induction false} UnescapeOf(t: bytes)
    ensures Unescape(Escape(t) + [QUOTE], false) == Some(t)
  {
    if t == [] {
      var s: bytes := [] + [QUOTE];
      assert s == [QUOTE] && s[1..] == [] && Trim([]) == [];
    } else {
      Assoc(EscapeByte(t[0]), Escape(t[1..]), [QUOTE]);
      UnescapeOne(t[0], Escape(t[1..]) + [QUOTE]);
      UnescapeOf(t[1..]);
      assert t == [t[0]] + t[1..];
    }
  }

  lemma ParseQuoted(t: bytes)
    ensures ParseString(Quoted(t)) == Some(t)
  {
    assert Quoted(t)[1..] == Escape(t) + [QUOTE];
    UnescapeOf(t);
  }

  lemma {:induction false} EscapeInside(t: bytes, stop: byte)
    ensures Find(Escape(t), Inside, stop) == |Escape(t)| && End(Escape(t), Inside) == Inside
  {
    if t != [] {
      EscapeByteInside(t[0], stop);
      EscapeInside(t[1..], stop);
      FindAppend(EscapeByte(t[0]), Escape(t[1..]), Inside, stop);
      EndAppend(EscapeByte(t[0]), Escape(t[1..]), Inside);
    }
  }

  lemma EscapeByteInside(b: byte, stop: byte)
    ensures Find(EscapeByte(b), Inside, stop) == |EscapeByte(b)| && End(EscapeByte(b), Inside) == Inside
  {
    var e := EscapeByte(b);
    if |e| == 2 {
      assert e[1..] == [e[1]] && e[1..][1..] == [];
      assert End(e, Inside) == End(e[1..], Escaped) == End([], Inside);
      assert Find(e, Inside, stop) == 1 + Find(e[1..], Escaped, stop);
    } else {
      assert e[1..] == [];
      assert End(e, Inside) == End([], Inside);
      assert Find(e, Inside, stop) == 1 + Find([], Inside, stop);
    }
  }

  /** A quoted literal hides whatever it contains. */
  lemma QuotedIsQuiet(t: bytes, stop: byte)
    requires stop != QUOTE
    ensures Quiet(Quoted(t), stop)
  {
    EscapeInside(t, stop);
    var body := Escape(t) + [QUOTE];
    assert [QUOTE][1..] == [];
    FindAppend(Escape(t), [QUOTE], Inside, stop);
    EndAppend(Escape(t), [QUOTE], Inside);
    assert Quoted(t)[1..] == body && Quoted(t)[0] == QUOTE;
  }

  /** One line, and nothing but bytes below 128. */
  predicate OneLine(s: bytes) {
    NEWLINE !in s && IsAscii(s)
  }

  lemma {:induction false} EscapeOneLine(t: bytes)
    requires IsAscii(t)
    ensures OneLine(Escape(t))
  {
    if t != [] {
      assert t[0] in t && forall b | b in t[1..] :: b in t;
      EscapeOneLine(t[1..]);
      EscapeByteOneLine(t[0]);
      hide EscapeByte;
      OneLineAppend(EscapeByte(t[0]), Escape(t[1..]));
    }
  }

  lemma EscapeByteOneLine(b: byte)
    requires b < 0x80
    ensures OneLine(EscapeByte(b))
  {
  }

  lemma OneLineAppend(a: bytes, b: bytes)
    requires OneLine(a) && OneLine(b)
    ensures OneLine(a + b)
  {
  }

  // ---- integers ---------------------------------------------------------------------------

  const I64_MAX: int := 0x7FFF_FFFF_FFFF_FFFF

  predicate IsIntegerText(s: bytes) {
    var digits := if s != [] && s[0] == MINUS then s[1..] else s;
    digits != [] && IsDigitText(digits)
  }

  function ParseI64(s: bytes): Option<int> {
    if !IsIntegerText(s) then None else
    var v := if s[0] == MINUS then -(DecValue(TextDigits(s[1..])) as int) else DecValue(TextDigits(s));
    if -I64_MAX - 1 <= v <= I64_MAX then Some(v) else None
  }

  /** The text of a 64-bit integer, as printed from its value. */
  predicate CanonicalInt(s: bytes) {
    ParseI64(s).Some? && SignedText(ParseI64(s).value) == s
  }

  // ---- scalar values ------------------------------------------------------------------------

  /** What config text can say; anything else an expression holds is `Opaque`. */
  datatype Value =
    | Str(text: bytes)
    | Flag(on: bool)
    | Num(canonical: bytes)
    | Arr(items: seq<Value>)
    | Tab(entries: seq<Entry>)
    | Opaque

  datatype Entry = Entry(key: bytes, value: Value)

  function TrueText(): bytes { [116, 114, 117, 101] }
  function FalseText(): bytes { [102, 97, 108, 115, 101] }

  function EncodeAtom(v: Value): Option<bytes> {
    match v
    case Str(t) => Some(Quoted(t))
    case Flag(on) => Some(if on then TrueText() else FalseText())
    case Num(n) => if IsIntegerText(n) then Some(n) else None
    case _ => None
  }

  function ParseAtom(s: bytes): Option<Value> {
    if s != [] && s[0] == QUOTE then
      match ParseString(s)
      case None => None
      case Some(t) => Some(Value.Str(t))
    else if s == TrueText() then Some(Flag(true))
    else if s == FalseText() then Some(Flag(false))
    else
      match ParseI64(s)
      case None => None
      case Some(v) => Some(Num(SignedText(v)))
  }

  /** A leaf that survives printing and parsing. */
  predicate GoodAtom(v: Value) {
    match v
    case Str(t) => IsAscii(t)
    case Flag(_) => true
    case Num(n) => CanonicalInt(n)
    case _ => false
  }

  lemma IntegerBytes(s: bytes)
    requires IsIntegerText(s)
    ensures forall b | b in s :: b == MINUS || 48 <= b < 58
    ensures Solid(s)
  {
    forall b | b in s ensures b == MINUS || 48 <= b < 58 {
      var i :| 0 <= i < |s| && s[i] == b;
      if s[0] == MINUS && i > 0 { assert s[1..][i - 1] == b; }
    }
    assert s[0] in s && s[|s| - 1] in s;
  }

  /** Good leaves print to one solid, quiet line and parse back. */
  lemma AtomRoundTrip(v: Value)
    requires GoodAtom(v)
    ensures EncodeAtom(v).Some?
    ensures var s := EncodeAtom(v).value; ParseAtom(s) == Some(v) && Solid(s) && OneLine(s) && s[0] != OPEN
  {
    hide Escape, Unescape, IsIntegerText, ParseI64, SignedText, OneLine, CanonicalInt;
    match v
    case Str(t) =>
      ParseQuoted(t);
      QuotedOneLine(t);
    case Flag(on) => FlagLine(on);
    case Num(n) => IntegerLine(n);
  }

  lemma QuotedOneLine(t: bytes)
    requires IsAscii(t)
    ensures OneLine(Quoted(t))
  {
    hide Escape;
    EscapeOneLine(t);
  }

  lemma FlagLine(on: bool)
    ensures var s := if on then TrueText() else FalseText(); Solid(s) && OneLine(s) && s[0] != OPEN && s[0] != QUOTE
  {
  }

  lemma IntegerLine(n: bytes)
    requires CanonicalInt(n)
    ensures IsIntegerText(n) && ParseI64(n).Some? && SignedText(ParseI64(n).value) == n
    ensures Solid(n) && OneLine(n) && n[0] != OPEN && n[0] != QUOTE && n != TrueText() && n != FalseText()
  {
    hide SignedText;
    IntegerBytes(n);
    assert n[0] in n;
    assert TrueText()[0] == 116 && FalseText()[0] == 102;
  }

  lemma AtomIsQuiet(v: Value, stop: byte)
    requires GoodAtom(v) && stop in {HASH, COMMA, EQUALS}
    ensures EncodeAtom(v).Some? && Quiet(EncodeAtom(v).value, stop)
  {
    match v
    case Str(t) => QuotedIsQuiet(t, stop);
    case Flag(on) => PlainIsQuiet(if on then TrueText() else FalseText(), stop);
    case Num(n) =>
      IntegerBytes(n);
      PlainIsQuiet(n, stop);
  }

  // ---- arrays -----------------------------------------------------------------------------

  function JoinValues(vs: seq<Value>): Option<bytes>
    decreases vs
  {
    if vs == [] then Some([]) else
    match EncodeValue(vs[0])
    case None => None
    case Some(first) =>
      if |vs| == 1 then Some(first) else
      match JoinValues(vs[1..])
      case None => None
      case Some(rest) => Some(first + ([COMMA, SPACE] + rest))
  }

  /** Scalars and arrays; a table inside an array is refused. Nested arrays print, although they do not parse. */
  function EncodeValue(v: Value): Option<bytes>
    decreases v
  {
    if v.Arr? then
      match JoinValues(v.items)
      case None => None
      case Some(inner) => Some([OPEN] + inner + [CLOSE])
    else EncodeAtom(v)
  }

  lemma TableDoesNotEncode(v: Value)
    ensures v.Tab? ==> EncodeValue(v) == None
  {
  }

  lemma AtomValue(v: Value)
    requires GoodAtom(v)
    ensures EncodeValue(v) == EncodeAtom(v)
  {
  }

  /** Array items between commas outside strings; no item may be blank. */
  function SplitItems(s: bytes): Option<seq<bytes>>
    decreases |s|
  {
    var i := Find(s, Outside, COMMA);
    var item := Trim(s[..i]);
    if item == [] then None
    else if i == |s| then (if End(s, Outside) != Outside then None else Some([item]))
    else
      match SplitItems(s[i + 1..])
      case None => None
      case Some(rest) => Some([item] + rest)
  }

  function ParseItems(items: seq<bytes>): Option<seq<Value>> {
    if items == [] then Some([]) else
    match ParseAtom(Trim(items[0]))
    case None => None
    case Some(v) =>
      match ParseItems(items[1..])
      case None => None
      case Some(rest) => Some([v] + rest)
  }

  function ParseArray(s: bytes): Option<Value> {
    if |s| < 2 || s[0] != OPEN || s[|s| - 1] != CLOSE then None else
    var inner := s[1..|s| - 1];
    if Trim(inner) == [] then Some(Arr([])) else
    match SplitItems(inner)
    case None => None
    case Some(items) =>
      match ParseItems(items)
      case None => None
      case Some(vs) => Some(Arr(vs))
  }

  function ParseValue(s: bytes): Option<Value> {
    if s != [] && s[0] == OPEN then ParseArray(s) else ParseAtom(s)
  }

  predicate GoodScalar(v: Value) {
    GoodAtom(v) || (v.Arr? && forall x | x in v.items :: GoodAtom(x))
  }

  lemma {:induction false} JoinedAtoms(vs: seq<Value>)
    requires vs != [] && forall x | x in vs :: GoodAtom(x)
    ensures JoinValues(vs).Some?
    ensures var s := JoinValues(vs).value; Solid(s) && OneLine(s)
    decreases |vs|
  {
    hide GoodAtom, EncodeAtom, ParseAtom, EncodeValue;
    assert vs[0] in vs;
    AtomValue(vs[0]);
    AtomRoundTrip(vs[0]);
    if |vs| > 1 {
      assert forall x | x in vs[1..] :: x in vs;
      JoinedAtoms(vs[1..]);
    }
  }

  lemma {:induction false} JoinedIsQuiet(vs: seq<Value>, stop: byte)
    requires vs != [] && (forall x | x in vs :: GoodAtom(x)) && stop in {HASH, EQUALS}
    ensures JoinValues(vs).Some? && Quiet(JoinValues(vs).value, stop)
    decreases |vs|
  {
    hide GoodAtom, EncodeAtom, Quiet, EncodeValue;
    assert vs[0] in vs;
    AtomValue(vs[0]);
    AtomIsQuiet(vs[0], stop);
    if |vs| > 1 {
      assert forall x | x in vs[1..] :: x in vs;
      JoinedIsQuiet(vs[1..], stop);
      var first, rest := EncodeAtom(vs[0]).value, JoinValues(vs[1..]).value;
      PlainIsQuiet([COMMA, SPACE], stop);
      QuietAppend([COMMA, SPACE], rest, stop);
      QuietAppend(first, [COMMA, SPACE] + rest, stop);
    }
  }

  /** A space after a comma changes nothing: items are trimmed. */
  lemma SplitSpaced(s: bytes)
    requires Solid(s)
    ensures SplitItems([SPACE] + s) == SplitItems(s)
  {
    var t := [SPACE] + s;
    var i := Find(s, Outside, COMMA);
    assert t[1..] == s;
    assert Find(t, Outside, COMMA) == 1 + i;
    assert End(t, Outside) == End(s, Outside);
    assert t[..1 + i] == [SPACE] + s[..i];
    assert ([SPACE] + s[..i])[1..] == s[..i];
    assert TrimStart([SPACE] + s[..i]) == TrimStart(s[..i]);
    if i < |s| { assert t[2 + i..] == s[i + 1..]; }
  }

  lemma SplitOne(first: bytes)
    requires Quiet(first, COMMA) && Solid(first)
    ensures SplitItems(first) == Some([first])
  {
    TrimSolid(first);
    assert first[..|first|] == first;
  }

  lemma SplitComma(first: bytes, rest: bytes)
    requires Quiet(first, COMMA) && Solid(first) && Solid(rest)
    ensures SplitItems(first + ([COMMA, SPACE] + rest)) == match SplitItems(rest)
      case None => None
      case Some(items) => Some([first] + items)
  {
    TrimSolid(first);
    FindAfter(first, [COMMA, SPACE] + rest, COMMA);
    SplitSpaced(rest);
    hide Trim, Solid;
    var s := first + ([COMMA, SPACE] + rest);
    assert s[..|first|] == first && s[|first| + 1..] == [SPACE] + rest;
    assert first != [] by { SolidIsSome(first); }
  }

  /** Splitting and parsing invert joining. */
  lemma {:induction false} SplitJoined(vs: seq<Value>)
    requires vs != [] && forall x | x in vs :: GoodAtom(x)
    ensures JoinValues(vs).Some? && SplitItems(JoinValues(vs).value).Some?
    ensures ParseItems(SplitItems(JoinValues(vs).value).value) == Some(vs)
    decreases |vs|
  {
    hide GoodAtom, EncodeAtom, ParseAtom, Trim, Solid, SplitItems, ParseItems, Quiet, EncodeValue;
    assert vs[0] in vs;
    AtomValue(vs[0]);
    AtomRoundTrip(vs[0]);
    AtomIsQuiet(vs[0], COMMA);
    var first := EncodeAtom(vs[0]).value;
    TrimSolid(first);
    if |vs| == 1 {
      SplitOne(first);
      ParseOne(first, vs[0]);
      assert vs == [vs[0]];
    } else {
      assert forall x | x in vs[1..] :: x in vs;
      JoinedAtoms(vs[1..]);
      SplitJoined(vs[1..]);
      var rest := JoinValues(vs[1..]).value;
      SplitComma(first, rest);
      ParseMore(first, SplitItems(rest).value, vs[0], vs[1..]);
      assert vs == [vs[0]] + vs[1..];
    }
  }

  lemma SolidIsSome(s: bytes)
    requires Solid(s)
    ensures s != []
  {
  }

  lemma ParseOne(item: bytes, v: Value)
    requires Trim(item) == item && ParseAtom(item) == Some(v)
    ensures ParseItems([item]) == Some([v])
  {
    hide Trim, ParseAtom;
    assert [item][1..] == [] && [v] + [] == [v];
  }

  lemma ParseMore(item: bytes, items: seq<bytes>, v: Value, vs: seq<Value>)
    requires Trim(item) == item && ParseAtom(item) == Some(v) && ParseItems(items) == Some(vs)
    ensures ParseItems([item] + items) == Some([v] + vs)
  {
    hide Trim, ParseAtom;
    assert ([item] + items)[1..] == items;
  }

  /** Every good scalar prints to one solid line without comment or assignment marks, and parses back. */
  lemma ScalarRoundTrip(v: Value)
    requires GoodScalar(v)
    ensures EncodeValue(v).Some?
    ensures var s := EncodeValue(v).value; ParseValue(s) == Some(v) && Solid(s) && OneLine(s)
  {
    hide GoodAtom, ParseAtom, SplitItems, ParseItems, EncodeAtom, JoinValues;
    if v.Arr? {
      NotAtom(v);
      if v.items == [] {
        NothingJoined();
        assert ([OPEN] + [] + [CLOSE])[1..1] == [] && Trim([]) == [];
      } else {
        JoinedAtoms(v.items);
        SplitJoined(v.items);
        var inner := JoinValues(v.items).value;
        var s := [OPEN] + inner + [CLOSE];
        assert s[1..|s| - 1] == inner;
        TrimSolid(inner);
      }
    } else {
      AtomRoundTrip(v);
    }
  }

  lemma NotAtom(v: Value)
    requires v.Arr?
    ensures !GoodAtom(v)
  {
  }

  lemma NothingJoined()
    ensures JoinValues([]) == Some([])
  {
  }

  lemma ScalarIsQuiet(v: Value, stop: byte)
    requires GoodScalar(v) && stop in {HASH, EQUALS}
    ensures EncodeValue(v).Some? && Quiet(EncodeValue(v).value, stop)
  {
    hide GoodAtom, EncodeAtom, JoinValues, Quiet;
    if v.Arr? {
      NotAtom(v);
      PlainIsQuiet([OPEN], stop);
      PlainIsQuiet([CLOSE], stop);
      if v.items == [] {
        NothingJoined();
        PlainIsQuiet([], stop);
      } else {
        JoinedIsQuiet(v.items, stop);
      }
      QuietAppend([OPEN], JoinValues(v.items).value, stop);
      QuietAppend([OPEN] + JoinValues(v.items).value, [CLOSE], stop);
    } else {
      AtomIsQuiet(v, stop);
    }
  }

  // ---- keys and section names -----------------------------------------------------------------

  predicate IsKeyByte(b: byte) {
    48 <= b < 58 || 65 <= b < 91 || 97 <= b < 123 || b == 95 || b == 45 || b == 47
  }

  predicate ValidKey(key: bytes) {
    key != [] && forall b | b in key :: IsKeyByte(b)
  }

  predicate ValidPath(path: seq<bytes>) {
    path != [] && forall k | k in path :: ValidKey(k)
  }

  function Join(path: seq<bytes>): bytes {
    if path == [] then [] else if |path| == 1 then path[0] else path[0] + ([DOT] + Join(path[1..]))
  }

  function IndexOfByte(s: bytes, b: byte): (i: nat)
    ensures i <= |s| && (i < |s| ==> s[i] == b)
  {
    if s == [] || s[0] == b then 0 else 1 + IndexOfByte(s[1..], b)
  }

  function SplitDots(s: bytes): seq<bytes>
    decreases |s|
  {
    var i := IndexOfByte(s, DOT);
    if i == |s| then [s] else [s[..i]] + SplitDots(s[i + 1..])
  }

  lemma {:induction false} IndexAfter(a: bytes, b: byte, rest: bytes)
    requires b !in a
    ensures IndexOfByte(a + rest, b) == |a| + IndexOfByte(rest, b)
  {
    if a == [] {
      assert a + rest == rest;
    } else {
      assert a[0] in a && forall x | x in a[1..] :: x in a;
      assert (a + rest)[1..] == a[1..] + rest;
      IndexAfter(a[1..], b, rest);
    }
  }

  lemma SplitFirst(a: bytes, rest: bytes)
    requires DOT !in a
    ensures SplitDots(a) == [a] && SplitDots(a + ([DOT] + rest)) == [a] + SplitDots(rest)
  {
    IndexAfter(a, DOT, []);
    assert a + [] == a;
    IndexAfter(a, DOT, [DOT] + rest);
    var s := a + ([DOT] + rest);
    assert s[..|a|] == a && s[|a| + 1..] == rest;
  }

  lemma KeyHasNoDot(key: bytes)
    requires ValidKey(key)
    ensures DOT !in key
  {
  }

  /** Splitting inverts joining, so distinct paths have distinct names. */
  lemma {:induction false} SplitOfJoin(path: seq<bytes>)
    requires ValidPath(path)
    ensures SplitDots(Join(path)) == path
    decreases |path|
  {
    hide SplitDots, ValidKey;
    assert path[0] in path;
    KeyHasNoDot(path[0]);
    if |path| == 1 {
      SplitFirst(path[0], []);
      assert path == [path[0]];
    } else {
      assert forall k | k in path[1..] :: k in path;
      SplitOfJoin(path[1..]);
      SplitFirst(path[0], Join(path[1..]));
      assert path == [path[0]] + path[1..];
    }
  }

  /** Key bytes and dots only. */
  predicate IsNameText(s: bytes) {
    s != [] && forall b | b in s :: IsKeyByte(b) || b == DOT
  }

  lemma {:induction false} JoinBytes(path: seq<bytes>)
    requires ValidPath(path)
    ensures IsNameText(Join(path)) && IsKeyByte(Join(path)[0])
    decreases |path|
  {
    assert path[0] in path && path[0][0] in path[0];
    if |path| > 1 {
      assert forall k | k in path[1..] :: k in path;
      JoinBytes(path[1..]);
    }
  }

  lemma NameIsPlain(s: bytes, stop: byte)
    requires IsNameText(s) && stop in {HASH, EQUALS}
    ensures Quiet(s, stop) && Solid(s) && OneLine(s)
  {
    PlainIsQuiet(s, stop);
    assert s[0] in s && s[|s| - 1] in s;
  }

  function ParseSegments(name: bytes): Option<seq<bytes>> {
    var path := SplitDots(name);
    if Trim(name) != name || name == [] || exists k | k in path :: !ValidKey(k) then None else Some(path)
  }

  /** A section header: its path, and whether it repeats. */
  function ParseHeader(line: bytes): Option<(seq<bytes>, bool)> {
    var repeated := |line| >= 2 && line[0] == OPEN && line[1] == OPEN;
    var n := if repeated then 2 else 1;
    if |line| < 2 * n || line[|line| - 1] != CLOSE || (repeated && line[|line| - 2] != CLOSE) || line[0] != OPEN then None else
    match ParseSegments(line[n..|line| - n])
    case None => None
    case Some(path) => Some((path, repeated))
  }

  function HeaderText(path: seq<bytes>, repeated: bool): bytes {
    if repeated then [OPEN, OPEN] + Join(path) + [CLOSE, CLOSE] else [OPEN] + Join(path) + [CLOSE]
  }

  /** A printed header is one solid line without comment marks, and parses back. */
  lemma HeaderRoundTrip(path: seq<bytes>, repeated: bool)
    requires ValidPath(path)
    ensures var h := HeaderText(path, repeated);
      ParseHeader(h) == Some((path, repeated)) && Solid(h) && OneLine(h) && Quiet(h, HASH) && h[0] == OPEN
  {
    hide Join, SplitDots, Quiet, IsNameText, ValidKey, Trim;
    var name := Join(path);
    JoinBytes(path);
    NameIsPlain(name, HASH);
    SplitOfJoin(path);
    TrimSolid(name);
    SegmentsOf(path);
    if repeated {
      Bracketed([OPEN, OPEN], name, [CLOSE, CLOSE]);
    } else {
      Bracketed([OPEN], name, [CLOSE]);
      assert IsKeyByte(name[0]) && name[0] != OPEN;
    }
  }

  lemma SegmentsOf(path: seq<bytes>)
    requires ValidPath(path) && SplitDots(Join(path)) == path && Trim(Join(path)) == Join(path) && Join(path) != []
    ensures ParseSegments(Join(path)) == Some(path)
  {
    hide Join, SplitDots, Trim;
  }

  lemma Bracketed(open: bytes, name: bytes, close: bytes)
    requires (open == [OPEN] && close == [CLOSE]) || (open == [OPEN, OPEN] && close == [CLOSE, CLOSE])
    requires Solid(name) && OneLine(name) && Quiet(name, HASH)
    ensures var h := open + name + close;
      Solid(h) && OneLine(h) && Quiet(h, HASH) && h[0] == OPEN && h[|open|..|h| - |open|] == name
  {
    hide Quiet;
    PlainIsQuiet(open, HASH);
    PlainIsQuiet(close, HASH);
    QuietAppend(open, name, HASH);
    QuietAppend(open + name, close, HASH);
  }

  // ---- assignments ----------------------------------------------------------------------------

  function ParseAssignment(line: bytes): Option<Entry> {
    var p := Find(line, Outside, EQUALS);
    if p == |line| then None else
    var key, value := Trim(line[..p]), Trim(line[p + 1..]);
    if !ValidKey(key) || value == [] then None else
    match ParseValue(value)
    case None => None
    case Some(v) => Some(Entry(key, v))
  }

  function AssignmentText(key: bytes, value: bytes): bytes {
    key + ([SPACE, EQUALS, SPACE] + value)
  }

  lemma KeyIsPlain(key: bytes, stop: byte)
    requires ValidKey(key) && stop in {HASH, EQUALS}
    ensures Quiet(key, stop) && Solid(key) && OneLine(key) && key[0] != OPEN
  {
    assert key[0] in key && key[|key| - 1] in key;
    PlainIsQuiet(key, stop);
  }

  /** A printed assignment is one solid line without comment marks, and parses back. */
  lemma AssignmentRoundTrip(e: Entry)
    requires ValidKey(e.key) && GoodScalar(e.value)
    ensures EncodeValue(e.value).Some?
    ensures var line := AssignmentText(e.key, EncodeValue(e.value).value);
      ParseAssignment(line) == Some(e) && Solid(line) && OneLine(line) && Quiet(line, HASH) && line[0] != OPEN
  {
    hide GoodScalar, EncodeValue, ParseValue, ValidKey, Trim, Find, Quiet, AssignmentText, Solid, OneLine;
    ScalarRoundTrip(e.value);
    ScalarIsQuiet(e.value, HASH);
    var value := EncodeValue(e.value).value;
    KeyIsPlain(e.key, HASH);
    KeyIsPlain(e.key, EQUALS);
    AssignmentLine(e.key, value);
    AssignmentParts(e.key, value);
    TrimSolid(e.key);
    TrimSolid(value);
  }

  lemma AssignmentLine(key: bytes, value: bytes)
    requires Quiet(key, HASH) && Quiet(value, HASH) && Solid(key) && Solid(value) && OneLine(key) && OneLine(value)
    ensures var line := AssignmentText(key, value); Solid(line) && OneLine(line) && Quiet(line, HASH) && line[0] == key[0]
  {
    hide Quiet;
    PlainIsQuiet([SPACE, EQUALS, SPACE], HASH);
    QuietAppend([SPACE, EQUALS, SPACE], value, HASH);
    QuietAppend(key, [SPACE, EQUALS, SPACE] + value, HASH);
  }

  /** The assignment mark splits the line into the padded key and the padded value. */
  lemma AssignmentParts(key: bytes, value: bytes)
    requires Quiet(key, EQUALS) && Solid(key) && Solid(value)
    ensures var line, p := AssignmentText(key, value), |key| + 1;
      Find(line, Outside, EQUALS) == p < |line| && line[..p] == key + [SPACE] && line[p + 1..] == [SPACE] + value && value != []
  {
    hide Find, Quiet;
    PlainIsQuiet([SPACE], EQUALS);
    QuietAppend(key, [SPACE], EQUALS);
    var line, p := AssignmentText(key, value), |key| + 1;
    assert line == (key + [SPACE]) + ([EQUALS, SPACE] + value);
    FindAfter(key + [SPACE], [EQUALS, SPACE] + value, EQUALS);
    assert line[..p] == key + [SPACE] && line[p + 1..] == [SPACE] + value;
  }
}
