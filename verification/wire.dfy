/** Frame headers and origins on the wire, for both carriers. */
module Wire {
  import opened Exprs
  import opened Bits
  import opened Atoms
  import opened Body
  import opened SideTables
  import opened Origins

  const VERSION: nat := 1
  const MAGIC: bytes := [0x53, 0x4C, 0x42, 0x38]

  /** Origin and origin-tree flags; bit frames also know the dense flag. */
  function KnownFlags(c: Carrier): nat {
    if c.Bitwise? then 7 else 3
  }

  function Magic(c: Carrier): Units {
    if c.Bitwise? then [] else MAGIC
  }

  lemma DecUIntOf(c: Carrier, n: nat, rest: Units)
    requires n <= USIZE_MAX
    ensures DecUInt(c, EncUInt(c, n) + rest) == Some((n, rest))
  {
    hide EncUInt, DecUInt;
    DecCountOf(c, n, USIZE_MAX, rest);
  }

  // ---- counted lists ----------------------------------------------------------------

  function EncAll<T>(xs: seq<T>, enc: T -> Units): Units {
    if xs == [] then [] else enc(xs[0]) + EncAll(xs[1..], enc)
  }

  function DecAll<T>(s: Units, n: nat, dec: Units -> Option<(T, Units)>): Option<(seq<T>, Units)>
    decreases n
  {
    if n == 0 then Some(([], s)) else
    match dec(s)
    case None => None
    case Some((x, rest)) =>
      match DecAll(rest, n - 1, dec)
      case None => None
      case Some((xs, tail)) => Some(([x] + xs, tail))
  }

  lemma {:induction false} DecAllOf<T(!new)>(xs: seq<T>, enc: T -> Units, dec: Units -> Option<(T, Units)>, rest: Units)
    requires forall x, s | x in xs :: dec(enc(x) + s) == Some((x, s))
    ensures DecAll(EncAll(xs, enc) + rest, |xs|, dec) == Some((xs, rest))
    decreases |xs|
  {
    if xs == [] {
      assert [] + rest == rest;
    } else {
      Assoc(enc(xs[0]), EncAll(xs[1..], enc), rest);
      DecAllOf(xs[1..], enc, dec, rest);
      assert xs == [xs[0]] + xs[1..];
    }
  }

  lemma EncAllFrom<T>(xs: seq<T>, i: nat, enc: T -> Units, before: Units)
    requires i <= |xs|
    ensures before + EncAll(xs[i..], enc) == if i < |xs| then before + enc(xs[i]) + EncAll(xs[i + 1..], enc) else before
  {
    if i < |xs| {
      assert xs[i..][1..] == xs[i + 1..];
      Assoc(before, enc(xs[i]), EncAll(xs[i + 1..], enc));
    } else {
      assert before + [] == before;
    }
  }

  function EncTable<T>(c: Carrier, xs: seq<T>, enc: T -> Units): Units {
    EncUInt(c, |xs|) + EncAll(xs, enc)
  }

  function DecTable<T>(c: Carrier, s: Units, limit: usize, dec: Units -> Option<(T, Units)>): Option<(seq<T>, Units)> {
    match DecCount(c, s, limit)
    case None => None
    case Some((n, rest)) => DecAll(rest, n, dec)
  }

  lemma DecTableOf<T(!new)>(c: Carrier, xs: seq<T>, limit: usize, enc: T -> Units, dec: Units -> Option<(T, Units)>, rest: Units)
    requires |xs| <= limit
    requires forall x, s | x in xs :: dec(enc(x) + s) == Some((x, s))
    ensures DecTable(c, EncTable(c, xs, enc) + rest, limit, dec) == Some((xs, rest))
  {
    hide EncUInt, DecCount, EncAll, DecAll;
    Assoc(EncUInt(c, |xs|), EncAll(xs, enc), rest);
    DecCountOf(c, |xs|, limit, EncAll(xs, enc) + rest);
    DecAllOf(xs, enc, dec, rest);
  }

  // ---- symbol records ---------------------------------------------------------------

  /** Zero for no namespace, otherwise one more than its table index. */
  function NamespaceSlot(libs: seq<Text>, x: Symbol): nat {
    match x.namespace
    case None => 0
    case Some(ns) => IndexOf(libs, ns) + 1
  }

  function EncRecord(c: Carrier, libs: seq<Text>, x: Symbol): Units {
    EncUInt(c, NamespaceSlot(libs, x)) + EncBytes(c, x.name)
  }

  function DecRecord(c: Carrier, limits: Limits, libs: seq<Text>, s: Units): Option<(Symbol, Units)> {
    match DecUInt(c, s)
    case None => None
    case Some((slot, rest)) =>
      match DecText(c, rest, limits.maxStringBytes)
      case None => None
      case Some((name, tail)) =>
        if slot == 0 then Some((Symbol(None, name), tail))
        else if slot - 1 < |libs| then Some((Symbol(Some(libs[slot - 1]), name), tail))
        else None
  }

  lemma DecRecordOf(c: Carrier, limits: Limits, libs: seq<Text>, x: Symbol, rest: Units)
    requires x.namespace.Some? ==> x.namespace.value in libs
    requires |libs| <= USIZE_MAX && |x.name| <= limits.maxStringBytes
    ensures DecRecord(c, limits, libs, EncRecord(c, libs, x) + rest) == Some((x, rest))
  {
    hide EncUInt, DecUInt, EncBytes, DecText;
    var slot, name := NamespaceSlot(libs, x), EncBytes(c, x.name);
    Assoc(EncUInt(c, slot), name, rest);
    DecUIntOf(c, slot, name + rest);
    DecTextOf(c, x.name, limits.maxStringBytes, rest);
  }

  // ---- headers ------------------------------------------------------------------------

  predicate NamesWithin(limits: Limits, xs: seq<Symbol>) {
    |xs| <= limits.maxTableEntries && forall x | x in xs :: |x.name| <= limits.maxStringBytes
  }

  predicate TextsWithin(limits: Limits, xs: seq<Text>) {
    |xs| <= limits.maxTableEntries && forall x | x in xs :: |x| <= limits.maxStringBytes
  }

  predicate TablesWithin(limits: Limits, t: Tables) {
    TextsWithin(limits, t.libs) && NamesWithin(limits, t.symbols) && NamesWithin(limits, t.domains)
  }

  function EncTables(c: Carrier, t: Tables): Units {
    EncTable(c, t.libs, x => EncBytes(c, x))
    + (EncTable(c, t.symbols, x => EncRecord(c, t.libs, x)) + EncTable(c, t.domains, x => EncRecord(c, t.libs, x)))
  }

  function DecTables(c: Carrier, limits: Limits, s: Units): Option<(Tables, Units)> {
    match DecTable(c, s, limits.maxTableEntries, x => DecText(c, x, limits.maxStringBytes))
    case None => None
    case Some((libs, s1)) =>
      match DecTable(c, s1, limits.maxTableEntries, x => DecRecord(c, limits, libs, x))
      case None => None
      case Some((symbols, s2)) =>
        match DecTable(c, s2, limits.maxTableEntries, x => DecRecord(c, limits, libs, x))
        case None => None
        case Some((domains, s3)) => Some((Tables(libs, symbols, domains), s3))
  }

  lemma DecLibsOf(c: Carrier, limits: Limits, libs: seq<Text>, rest: Units)
    requires TextsWithin(limits, libs)
    ensures DecTable(c, EncTable(c, libs, x => EncBytes(c, x)) + rest, limits.maxTableEntries, x => DecText(c, x, limits.maxStringBytes))
         == Some((libs, rest))
  {
    hide EncBytes, DecText, EncTable, DecTable;
    forall x: Text, s: Units | x in libs ensures DecText(c, EncBytes(c, x) + s, limits.maxStringBytes) == Some((x, s)) {
      DecTextOf(c, x, limits.maxStringBytes, s);
    }
    DecTableOf(c, libs, limits.maxTableEntries, x => EncBytes(c, x), x => DecText(c, x, limits.maxStringBytes), rest);
  }

  lemma DecRecordsOf(c: Carrier, limits: Limits, libs: seq<Text>, xs: seq<Symbol>, rest: Units)
    requires NamesWithin(limits, xs) && |libs| <= USIZE_MAX
    requires forall x | x in xs && x.namespace.Some? :: x.namespace.value in libs
    ensures DecTable(c, EncTable(c, xs, x => EncRecord(c, libs, x)) + rest, limits.maxTableEntries, x => DecRecord(c, limits, libs, x))
         == Some((xs, rest))
  {
    hide EncRecord, DecRecord, EncTable, DecTable;
    forall x: Symbol, s: Units | x in xs ensures DecRecord(c, limits, libs, EncRecord(c, libs, x) + s) == Some((x, s)) {
      DecRecordOf(c, limits, libs, x, s);
    }
    DecTableOf(c, xs, limits.maxTableEntries, x => EncRecord(c, libs, x), x => DecRecord(c, limits, libs, x), rest);
  }

  lemma DecTablesOf(c: Carrier, limits: Limits, t: Tables, rest: Units)
    requires TablesWithin(limits, t) && NamespacesListed(t)
    ensures DecTables(c, limits, EncTables(c, t) + rest) == Some((t, rest))
  {
    hide EncTable, DecTable;
    var a := EncTable(c, t.libs, x => EncBytes(c, x));
    var b, d := EncTable(c, t.symbols, x => EncRecord(c, t.libs, x)), EncTable(c, t.domains, x => EncRecord(c, t.libs, x));
    Assoc(a, b + d, rest);
    Assoc(b, d, rest);
    DecLibsOf(c, limits, t.libs, b + (d + rest));
    DecRecordsOf(c, limits, t.libs, t.symbols, d + rest);
    DecRecordsOf(c, limits, t.libs, t.domains, rest);
  }

  function EncHeader(c: Carrier, flags: nat, t: Tables): Units {
    Magic(c) + (EncUInt(c, VERSION) + (EncUInt(c, flags) + EncTables(c, t)))
  }

  datatype Header = Header(flags: nat, tables: Tables, rest: Units)

  function DecHeader(c: Carrier, limits: Limits, s: Units): (r: Option<Header>)
    ensures r.Some? ==> r.value.flags <= KnownFlags(c)
  {
    var m := Magic(c);
    if !(m <= s) then None else
    match DecUInt(c, s[|m|..])
    case None => None
    case Some((version, s1)) =>
      if version != VERSION then None else
      match DecUInt(c, s1)
      case None => None
      case Some((flags, s2)) =>
        if flags > KnownFlags(c) then None else
        match DecTables(c, limits, s2)
        case None => None
        case Some((t, rest)) => Some(Header(flags, t, rest))
  }

  /** A header reads back, whatever follows it. */
  lemma DecHeaderOf(c: Carrier, limits: Limits, flags: nat, t: Tables, rest: Units)
    requires flags <= KnownFlags(c) && TablesWithin(limits, t) && NamespacesListed(t)
    ensures DecHeader(c, limits, EncHeader(c, flags, t) + rest) == Some(Header(flags, t, rest))
  {
    hide EncUInt, DecUInt, EncTables, DecTables, Magic, TablesWithin, NamespacesListed;
    var afterFlags := EncTables(c, t) + rest;
    var afterVersion := EncUInt(c, flags) + afterFlags;
    HeaderParts(c, flags, t, rest);
    DecUIntOf(c, VERSION, afterVersion);
    DecUIntOf(c, flags, afterFlags);
    DecTablesOf(c, limits, t, rest);
  }

  lemma HeaderParts(c: Carrier, flags: nat, t: Tables, rest: Units)
    ensures var s, m := EncHeader(c, flags, t) + rest, Magic(c);
      m <= s && s[|m|..] == EncUInt(c, VERSION) + (EncUInt(c, flags) + (EncTables(c, t) + rest))
  {
    hide EncUInt, EncTables, Magic;
    var m, v, g, tables := Magic(c), EncUInt(c, VERSION), EncUInt(c, flags), EncTables(c, t);
    Assoc(m, v + (g + tables), rest);
    Assoc(v, g + tables, rest);
    Assoc(g, tables, rest);
  }

  // ---- origins ------------------------------------------------------------------------

  function KindCode(k: TriviaKind): nat {
    match k
    case Whitespace => 0
    case LineComment => 1
    case BlockComment => 2
  }

  function KindFromCode(n: nat): Option<TriviaKind> {
    match n
    case 0 => Some(Whitespace)
    case 1 => Some(LineComment)
    case 2 => Some(BlockComment)
    case _ => None
  }

  function EncKind(c: Carrier, k: TriviaKind): Units {
    if c.Bitwise? then BitsOf(KindCode(k), 2) else [KindCode(k)]
  }

  function DecKind(c: Carrier, s: Units): Option<(nat, Units)> {
    if c.Bitwise? then ReadBits(s, 2) else if |s| == 0 then None else Some((s[0], s[1..]))
  }

  lemma DecKindOf(c: Carrier, k: TriviaKind, rest: Units)
    ensures DecKind(c, EncKind(c, k) + rest) == Some((KindCode(k), rest))
  {
    if c.Bitwise? {
      assert Pow2(2) == 4;
      ReadBitsOf(KindCode(k), 2, rest);
    } else {
      assert ([KindCode(k)] + rest)[1..] == rest;
    }
  }

  function EncTrivia(c: Carrier, x: Trivia): Units {
    EncKind(c, x.kind) + EncBytes(c, x.text)
  }

  function DecTrivia(c: Carrier, limits: Limits, s: Units): Option<(Trivia, Units)> {
    match DecKind(c, s)
    case None => None
    case Some((code, rest)) =>
      match DecText(c, rest, limits.maxStringBytes)
      case None => None
      case Some((text, tail)) =>
        match KindFromCode(code)
        case None => None
        case Some(k) => Some((Trivia(k, text), tail))
  }

  lemma DecTriviaOf(c: Carrier, limits: Limits, x: Trivia, rest: Units)
    requires |x.text| <= limits.maxStringBytes
    ensures DecTrivia(c, limits, EncTrivia(c, x) + rest) == Some((x, rest))
  {
    hide EncKind, DecKind, EncBytes, DecText;
    Assoc(EncKind(c, x.kind), EncBytes(c, x.text), rest);
    DecKindOf(c, x.kind, EncBytes(c, x.text) + rest);
    DecTextOf(c, x.text, limits.maxStringBytes, rest);
  }

  function EncOrigin(c: Carrier, o: Origin): Units {
    EncUInt(c, o.codec) + (EncBytes(c, o.source) + (EncUInt(c, o.start) + (EncUInt(c, o.end)
    + EncTable(c, o.trivia, x => EncTrivia(c, x)))))
  }

  /** A byte frame narrows the codec number to 32 bits; a bit frame refuses a wider one. */
  function NarrowCodec(c: Carrier, n: nat): Option<u32> {
    if c.Binary? then Some(n % 0x1_0000_0000) else if n < 0x1_0000_0000 then Some(n) else None
  }

  function DecOrigin(c: Carrier, limits: Limits, s: Units): Option<(Origin, Units)> {
    match DecUInt(c, s)
    case None => None
    case Some((wide, s1)) =>
      match NarrowCodec(c, wide)
      case None => None
      case Some(codec) =>
        match DecText(c, s1, limits.maxStringBytes)
        case None => None
        case Some((source, s2)) =>
          match DecCount(c, s2, USIZE_MAX)
          case None => None
          case Some((start, s3)) =>
            match DecCount(c, s3, USIZE_MAX)
            case None => None
            case Some((end, s4)) =>
              match DecTable(c, s4, limits.maxTriviaItems, x => DecTrivia(c, limits, x))
              case None => None
              case Some((trivia, s5)) => Some((Origin(codec, source, start, end, trivia), s5))
  }

  predicate OriginWithin(limits: Limits, o: Origin) {
    |o.source| <= limits.maxStringBytes && |o.trivia| <= limits.maxTriviaItems
    && forall x | x in o.trivia :: |x.text| <= limits.maxStringBytes
  }

  lemma DecTriviasOf(c: Carrier, limits: Limits, xs: seq<Trivia>, rest: Units)
    requires |xs| <= limits.maxTriviaItems && forall x | x in xs :: |x.text| <= limits.maxStringBytes
    ensures DecTable(c, EncTable(c, xs, x => EncTrivia(c, x)) + rest, limits.maxTriviaItems, x => DecTrivia(c, limits, x))
         == Some((xs, rest))
  {
    hide EncTrivia, DecTrivia, EncTable, DecTable;
    forall x: Trivia, s: Units | x in xs ensures DecTrivia(c, limits, EncTrivia(c, x) + s) == Some((x, s)) {
      DecTriviaOf(c, limits, x, s);
    }
    DecTableOf(c, xs, limits.maxTriviaItems, x => EncTrivia(c, x), x => DecTrivia(c, limits, x), rest);
  }

  /** An origin reads back, whatever follows it. */
  lemma DecOriginOf(c: Carrier, limits: Limits, o: Origin, rest: Units)
    requires OriginWithin(limits, o)
    ensures DecOrigin(c, limits, EncOrigin(c, o) + rest) == Some((o, rest))
  {
    hide EncUInt, DecUInt, DecCount, EncBytes, DecText, EncTable, DecTable;
    var s5 := EncTable(c, o.trivia, x => EncTrivia(c, x)) + rest;
    var s4 := EncUInt(c, o.end) + s5;
    var s3 := EncUInt(c, o.start) + s4;
    var s2 := EncBytes(c, o.source) + s3;
    assert EncOrigin(c, o) + rest == EncUInt(c, o.codec) + s2;
    DecUIntOf(c, o.codec, s2);
    DecTextOf(c, o.source, limits.maxStringBytes, s3);
    DecCountOf(c, o.start, USIZE_MAX, s4);
    DecCountOf(c, o.end, USIZE_MAX, s5);
    DecTriviasOf(c, limits, o.trivia, rest);
  }

  // ---- origin trees -------------------------------------------------------------------

  function DecFlag(c: Carrier, s: Units): Option<(bool, Units)> {
    if |s| == 0 then None
    else if s[0] == 0 then Some((false, s[1..]))
    else if c.Bitwise? || s[0] == 1 then Some((true, s[1..]))
    else None
  }

  function EncMaybe(c: Carrier, o: Option<Origin>): Units {
    match o
    case None => [0]
    case Some(x) => [1] + EncOrigin(c, x)
  }

  function DecMaybe(c: Carrier, limits: Limits, s: Units): Option<(Option<Origin>, Units)> {
    match DecFlag(c, s)
    case None => None
    case Some((present, rest)) =>
      if !present then Some((None, rest)) else
      match DecOrigin(c, limits, rest)
      case None => None
      case Some((o, tail)) => Some((Some(o), tail))
  }

  predicate MaybeWithin(limits: Limits, o: Option<Origin>) {
    o.Some? ==> OriginWithin(limits, o.value)
  }

  lemma DecMaybeOf(c: Carrier, limits: Limits, o: Option<Origin>, rest: Units)
    requires MaybeWithin(limits, o)
    ensures DecMaybe(c, limits, EncMaybe(c, o) + rest) == Some((o, rest))
  {
    hide EncOrigin, DecOrigin;
    match o
    case None => assert ([0] + rest)[1..] == rest;
    case Some(x) =>
      var body := EncOrigin(c, x);
      assert ([1] + body + rest)[1..] == body + rest;
      DecOriginOf(c, limits, x, rest);
  }

  /** Origins of a tree, parents before children. */
  function EncTree(c: Carrier, t: LocatedTree): Units
    decreases t
  {
    EncMaybe(c, t.origin) + EncTrees(c, t.children)
  }

  function EncTrees(c: Carrier, ts: seq<LocatedTree>): Units
    decreases ts
  {
    if ts == [] then [] else EncTree(c, ts[0]) + EncTrees(c, ts[1..])
  }

  /** Rebuilds a tree over an expression already read, in the order of its children. */
  function DecTree(c: Carrier, limits: Limits, e: Expr, s: Units, depth: nat): Option<(LocatedTree, Units)>
    decreases e
  {
    if depth > limits.maxDepth then None else
    match DecMaybe(c, limits, s)
    case None => None
    case Some((origin, rest)) =>
      match DecTrees(c, limits, e.kids, rest, depth + 1)
      case None => None
      case Some((children, tail)) => Some((LocatedTree(Expr(e.head, Roots(children)), origin, children), tail))
  }

  function DecTrees(c: Carrier, limits: Limits, es: seq<Expr>, s: Units, depth: nat): Option<(seq<LocatedTree>, Units)>
    decreases es
  {
    if es == [] then Some(([], s)) else
    match DecTree(c, limits, es[0], s, depth)
    case None => None
    case Some((first, rest)) =>
      match DecTrees(c, limits, es[1..], rest, depth)
      case None => None
      case Some((others, tail)) => Some(([first] + others, tail))
  }

  function EncMaybes(c: Carrier, os: seq<Option<Origin>>): Units {
    if os == [] then [] else EncMaybe(c, os[0]) + EncMaybes(c, os[1..])
  }

  lemma {:induction false} EncMaybesAppend(c: Carrier, a: seq<Option<Origin>>, b: seq<Option<Origin>>)
    ensures EncMaybes(c, a + b) == EncMaybes(c, a) + EncMaybes(c, b)
  {
    hide EncMaybe;
    if a == [] {
      assert a + b == b;
    } else {
      assert (a + b)[1..] == a[1..] + b;
      EncMaybesAppend(c, a[1..], b);
      Assoc(EncMaybe(c, a[0]), EncMaybes(c, a[1..]), EncMaybes(c, b));
    }
  }

  /** What is written is the origins in pre-order, nothing of the shape. */
  lemma {:induction false} EncTreeIsPreorder(c: Carrier, t: LocatedTree)
    ensures EncTree(c, t) == EncMaybes(c, Preorder(t))
    decreases t
  {
    hide EncMaybe;
    EncTreesArePreorder(c, t.children);
    assert Preorder(t)[1..] == PreorderAll(t.children);
  }

  lemma {:induction false} EncTreesArePreorder(c: Carrier, ts: seq<LocatedTree>)
    ensures EncTrees(c, ts) == EncMaybes(c, PreorderAll(ts))
    decreases ts
  {
    if ts != [] {
      EncTreeIsPreorder(c, ts[0]);
      EncTreesArePreorder(c, ts[1..]);
      EncMaybesAppend(c, Preorder(ts[0]), PreorderAll(ts[1..]));
    }
  }

  predicate AllWithin(limits: Limits, os: seq<Option<Origin>>) {
    forall o | o in os :: MaybeWithin(limits, o)
  }

  /** Reading origins over an expression deals them out to its nodes in pre-order. */
  lemma {:induction false} DecTreeDeals(c: Carrier, limits: Limits, e: Expr, os: seq<Option<Origin>>, rest: Units, depth: nat)
    requires |os| == NodeCount(e) && AllWithin(limits, os)
    requires depth + Height(e) <= limits.maxDepth
    ensures DecTree(c, limits, e, EncMaybes(c, os) + rest, depth) == Some((Deal(e, os), rest))
    decreases e
  {
    hide EncMaybe, DecMaybe, MaybeWithin;
    var others := EncMaybes(c, os[1..]);
    Assoc(EncMaybe(c, os[0]), others, rest);
    DecMaybeOf(c, limits, os[0], others + rest);
    DecTreesDeal(c, limits, e.kids, os[1..], rest, depth + 1);
  }

  lemma {:induction false} DecTreesDeal(c: Carrier, limits: Limits, es: seq<Expr>, os: seq<Option<Origin>>, rest: Units, depth: nat)
    requires |os| == SumNodes(es) && AllWithin(limits, os)
    requires depth + HeightAll(es) <= limits.maxDepth + 1
    ensures DecTrees(c, limits, es, EncMaybes(c, os) + rest, depth) == Some((DealAll(es, os), rest))
    decreases es
  {
    hide MaybeWithin, Height, NodeCount, Deal;
    if es == [] {
      assert [] + rest == rest;
    } else {
      var n := NodeCount(es[0]);
      var a, b := os[..n], os[n..];
      assert os == a + b;
      EncMaybesAppend(c, a, b);
      Assoc(EncMaybes(c, a), EncMaybes(c, b), rest);
      DecTreeDeals(c, limits, es[0], a, EncMaybes(c, b) + rest, depth);
      DecTreesDeal(c, limits, es[1..], b, rest, depth);
    }
  }
}
