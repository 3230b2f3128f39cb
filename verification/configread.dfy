/** What config text can be read as, and when that can be printed again. */
module ConfigReading {
  import opened Exprs
  import opened Numbers
  import opened TomlText
  import opened Config
  import opened Nesting
  import opened ConfigRoundTrip

  // ---- what values and lines read as -------------------------------------------------------

  predicate LeafTable(es: seq<Entry>) {
    Distinct(es) && forall i | 0 <= i < |es| :: ValidKey(es[i].key) && GoodScalar(es[i].value)
  }

  predicate LeafItem(v: Value) {
    GoodAtom(v) || (v.Tab? && LeafTable(v.entries))
  }

  /** Tables with distinct valid keys, lists of leaves and leaf tables, in any mixture, and leaves. */
  predicate Readable(v: Value)
    decreases v
  {
    if v.Tab? then ReadableEntries(v.entries)
    else if v.Arr? then forall i | 0 <= i < |v.items| :: LeafItem(v.items[i])
    else GoodAtom(v)
  }

  predicate ReadableEntries(es: seq<Entry>)
    decreases es
  {
    Distinct(es) && forall i | 0 <= i < |es| :: ValidKey(es[i].key) && Readable(es[i].value)
  }

  lemma {:induction false} UnescapeAscii(s: bytes, escaped: bool)
    requires IsAscii(s) && Unescape(s, escaped).Some?
    ensures IsAscii(Unescape(s, escaped).value)
    decreases |s|
  {
    assert s[0] in s && forall b | b in s[1..] :: b in s;
    if escaped {
      UnescapeAscii(s[1..], false);
    } else if s[0] == BACKSLASH {
      UnescapeAscii(s[1..], true);
    } else if s[0] != QUOTE {
      UnescapeAscii(s[1..], false);
    }
  }

  lemma NaturalText(n: nat)
    ensures IsIntegerText(DecimalText(n)) && DecimalText(n)[0] != MINUS
    ensures DecValue(TextDigits(DecimalText(n))) == n
  {
    DigitTextDigits(Decimal(n));
    DecValueOfDecimal(n);
  }

  /** The printed form of a 64-bit integer is canonical. */
  lemma IntTextCanonical(v: int)
    requires -I64_MAX - 1 <= v <= I64_MAX
    ensures ParseI64(SignedText(v)) == Some(v)
  {
    hide DecimalText, DecValue;
    var n := if v < 0 then -v else v;
    NaturalText(n);
    if v < 0 {
      assert SignedText(v)[1..] == DecimalText(n);
    }
  }

  lemma ParsedInRange(s: bytes)
    ensures ParseI64(s).Some? ==> -I64_MAX - 1 <= ParseI64(s).value <= I64_MAX
  {
    hide DecValue;
  }

  lemma AtomReads(s: bytes)
    requires IsAscii(s) && ParseAtom(s).Some?
    ensures GoodAtom(ParseAtom(s).value)
  {
    hide ParseI64, SignedText, Unescape;
    if s != [] && s[0] == QUOTE {
      assert forall b | b in s[1..] :: b in s;
      UnescapeAscii(s[1..], false);
    } else if s != TrueText() && s != FalseText() {
      var v := ParseI64(s).value;
      ParsedInRange(s);
      IntTextCanonical(v);
    }
  }

  lemma {:induction false} TrimStartWithin(s: bytes)
    ensures forall b | b in TrimStart(s) :: b in s
    decreases |s|
  {
    if s != [] && IsSpace(s[0]) {
      TrimStartWithin(s[1..]);
      assert forall b | b in s[1..] :: b in s;
    }
  }

  lemma {:induction false} TrimEndWithin(s: bytes)
    ensures forall b | b in TrimEnd(s) :: b in s
    decreases |s|
  {
    if s != [] && IsSpace(s[|s| - 1]) {
      TrimEndWithin(s[..|s| - 1]);
      assert forall b | b in s[..|s| - 1] :: b in s;
    }
  }

  lemma TrimAscii(s: bytes)
    requires IsAscii(s)
    ensures IsAscii(Trim(s))
  {
    TrimStartWithin(s);
    TrimEndWithin(TrimStart(s));
  }

  lemma SliceAscii(s: bytes, i: nat, j: nat)
    requires IsAscii(s) && i <= j <= |s|
    ensures IsAscii(s[i..j]) && IsAscii(s[i..]) && IsAscii(s[..j])
  {
    assert forall b | b in s[i..j] :: b in s;
    assert forall b | b in s[i..] :: b in s;
    assert forall b | b in s[..j] :: b in s;
  }

  lemma {:induction false} SplitItemsAscii(s: bytes)
    requires IsAscii(s) && SplitItems(s).Some?
    ensures forall i | 0 <= i < |SplitItems(s).value| :: IsAscii(SplitItems(s).value[i])
    decreases |s|
  {
    hide Trim, IsAscii, Find;
    var i := Find(s, Outside, COMMA);
    SliceAscii(s, 0, i);
    TrimAscii(s[..i]);
    if i < |s| {
      SliceAscii(s, i + 1, |s|);
      SplitItemsAscii(s[i + 1..]);
    }
  }

  lemma {:induction false} ItemsParsed(items: seq<bytes>)
    requires (forall i | 0 <= i < |items| :: IsAscii(items[i])) && ParseItems(items).Some?
    ensures forall x | x in ParseItems(items).value :: GoodAtom(x)
  {
    hide Trim, IsAscii, ParseAtom, GoodAtom;
    if items != [] {
      TrimAscii(items[0]);
      AtomReads(Trim(items[0]));
      assert forall i | 0 <= i < |items[1..]| :: items[1..][i] == items[i + 1];
      ItemsParsed(items[1..]);
    }
  }

  lemma ValueReads(s: bytes)
    requires IsAscii(s) && ParseValue(s).Some?
    ensures GoodScalar(ParseValue(s).value)
  {
    hide Trim, IsAscii, ParseAtom, GoodAtom, SplitItems, ParseItems;
    if s != [] && s[0] == OPEN {
      var inner := s[1..|s| - 1];
      SliceAscii(s, 1, |s| - 1);
      if Trim(inner) != [] {
        SplitItemsAscii(inner);
        ItemsParsed(SplitItems(inner).value);
      }
    } else {
      AtomReads(s);
    }
  }

  lemma AssignmentParsed(line: bytes)
    requires IsAscii(line) && ParseAssignment(line).Some?
    ensures var e := ParseAssignment(line).value; ValidKey(e.key) && GoodScalar(e.value)
  {
    hide Trim, IsAscii, ParseValue, GoodScalar, Find, ValidKey;
    var p := Find(line, Outside, EQUALS);
    SliceAscii(line, p + 1, |line|);
    TrimAscii(line[p + 1..]);
    ValueReads(Trim(line[p + 1..]));
  }

  lemma SplitDotsSome(s: bytes)
    ensures SplitDots(s) != []
  {
  }

  lemma HeaderParsed(line: bytes)
    requires ParseHeader(line).Some?
    ensures ValidPath(ParseHeader(line).value.0)
  {
    hide SplitDots, Trim, ValidKey;
    var n := if line[1] == OPEN then 2 else 1;
    SplitDotsSome(line[n..|line| - n]);
  }

  // ---- documents ----------------------------------------------------------------------------

  /** Tables of scalars under valid paths. */
  predicate GoodDoc(d: Doc) {
    LeafTable(d.root) && forall i | 0 <= i < |d.sections| :: ValidPath(d.sections[i].path) && LeafTable(d.sections[i].entries)
  }

  lemma LeafPush(es: seq<Entry>, e: Entry)
    requires LeafTable(es) && ValidKey(e.key) && GoodScalar(e.value) && !HasKey(es, e.key)
    ensures LeafTable(es + [e])
  {
    hide ValidKey, GoodScalar;
    forall i | 0 <= i < |es| ensures es[i].key != e.key {
      assert es[i] in es;
    }
  }

  lemma ContentReads(d: Doc, line: bytes)
    requires GoodDoc(d) && IsAscii(line) && ParseContent(d, line).Some?
    ensures GoodDoc(ParseContent(d, line).value)
  {
    assert LeafTable([]);
    hide IsAscii, ParseHeader, ParseAssignment, LeafTable, ValidPath, ValidKey, GoodScalar, HasKey;
    if line != [] && line[0] == OPEN {
      HeaderParsed(line);
    } else if line != [] {
      AssignmentParsed(line);
      LeafPush(Current(d), ParseAssignment(line).value);
    }
  }

  lemma {:induction false} LinesRead(d: Doc, lines: seq<bytes>)
    requires GoodDoc(d) && forall i | 0 <= i < |lines| :: IsAscii(lines[i])
    ensures ParseLines(Some(d), lines).Some? ==> GoodDoc(ParseLines(Some(d), lines).value)
    decreases |lines|
  {
    hide GoodDoc, IsAscii, ParseContent, Trim, Find, End;
    if lines != [] {
      var i := Find(lines[0], Outside, HASH);
      SliceAscii(lines[0], 0, i);
      var next := ParseLine(d, lines[0]);
      if next.Some? {
        var stripped := StripComment(lines[0]).value;
        TrimAscii(stripped);
        ContentReads(d, Trim(stripped));
        assert forall i | 0 <= i < |lines[1..]| :: lines[1..][i] == lines[i + 1];
        LinesRead(next.value, lines[1..]);
      }
    }
  }

  lemma {:induction false} LinesAscii(s: bytes)
    requires IsAscii(s)
    ensures forall i | 0 <= i < |Lines(s)| :: IsAscii(Lines(s)[i])
    decreases |s|
  {
    hide IsAscii, IndexOfByte;
    if s != [] {
      var i := IndexOfByte(s, NEWLINE);
      SliceAscii(s, 0, i);
      SliceAscii(s[..i], 0, if i == 0 then 0 else i - 1);
      if i < |s| {
        SliceAscii(s, i + 1, |s|);
        LinesAscii(s[i + 1..]);
      }
    }
  }

  lemma ParsedIsGood(s: bytes)
    requires Parse(s).Some?
    ensures GoodDoc(Parse(s).value)
  {
    hide Lines, IsAscii, ParseLines;
    LinesAscii(s);
    LinesRead(EMPTY, Lines(s));
  }

  // ---- rebuilding keeps trees readable --------------------------------------------------------

  lemma ScalarIsReadable(v: Value)
    requires GoodScalar(v)
    ensures Readable(v)
  {
    if v.Arr? {
      forall i | 0 <= i < |v.items| ensures LeafItem(v.items[i]) {
        assert v.items[i] in v.items;
      }
    }
  }

  lemma LeafIsReadable(es: seq<Entry>)
    requires LeafTable(es)
    ensures ReadableEntries(es)
  {
    hide ValidKey, GoodScalar, Readable;
    forall i | 0 <= i < |es| ensures Readable(es[i].value) {
      ScalarIsReadable(es[i].value);
    }
  }

  lemma ReadablePush(es: seq<Entry>, e: Entry)
    requires ReadableEntries(es) && ValidKey(e.key) && Readable(e.value) && !HasKey(es, e.key)
    ensures ReadableEntries(es + [e])
  {
    hide ValidKey, Readable;
    forall i | 0 <= i < |es| ensures es[i].key != e.key {
      assert es[i] in es;
    }
  }

  lemma ReadableAt(es: seq<Entry>, i: nat)
    requires ReadableEntries(es) && i < |es|
    ensures Readable(es[i].value)
  {
    hide Readable;
  }

  lemma ReadableUpdate(es: seq<Entry>, i: nat, v: Value)
    requires ReadableEntries(es) && i < |es| && Readable(v)
    ensures ReadableEntries(es[i := Entry(es[i].key, v)])
  {
    hide ValidKey, Readable;
  }

  lemma {:induction false} MergeReadable(target: seq<Entry>, source: seq<Entry>)
    requires ReadableEntries(target) && ReadableEntries(source) && Merge(target, source).Some?
    ensures ReadableEntries(Merge(target, source).value)
    decreases |source|
  {
    hide ValidKey, Readable, HasKey;
    if source != [] {
      ReadablePush(target, source[0]);
      MergeReadable(target + [source[0]], source[1..]);
    }
  }

  lemma RegularReadable(es: seq<Entry>, key: bytes, table: seq<Entry>)
    requires ReadableEntries(es) && ValidKey(key) && LeafTable(table) && InsertRegular(es, key, table).Some?
    ensures ReadableEntries(InsertRegular(es, key, table).value)
  {
    hide ValidKey, HasKey, KeyIndex, LeafTable, ReadableEntries, Merge;
    LeafIsReadable(table);
    var i := KeyIndex(es, key);
    if i == |es| {
      ReadablePush(es, Entry(key, Tab(table)));
    } else {
      ReadableAt(es, i);
      MergeReadable(es[i].value.entries, table);
      ReadableUpdate(es, i, Tab(Merge(es[i].value.entries, table).value));
    }
  }

  lemma RepeatedReadable(es: seq<Entry>, key: bytes, table: seq<Entry>)
    requires ReadableEntries(es) && ValidKey(key) && LeafTable(table) && InsertRepeated(es, key, table).Some?
    ensures ReadableEntries(InsertRepeated(es, key, table).value)
  {
    hide ValidKey, HasKey, KeyIndex, LeafTable, ReadableEntries, GoodAtom;
    var i := KeyIndex(es, key);
    if i == |es| {
      ReadablePush(es, Entry(key, Arr([Tab(table)])));
    } else {
      ReadableAt(es, i);
      ReadableUpdate(es, i, Arr(es[i].value.items + [Tab(table)]));
    }
  }

  lemma {:induction false} InsertReadable(es: seq<Entry>, path: seq<bytes>, table: seq<Entry>, repeated: bool)
    requires ReadableEntries(es) && ValidPath(path) && LeafTable(table) && Insert(es, path, table, repeated).Some?
    ensures ReadableEntries(Insert(es, path, table, repeated).value)
    decreases |path|
  {
    assert ReadableEntries([]);
    hide ValidKey, HasKey, KeyIndex, LeafTable, ReadableEntries, InsertRegular, InsertRepeated;
    assert path[0] in path;
    if |path| == 1 {
      if repeated { RepeatedReadable(es, path[0], table); } else { RegularReadable(es, path[0], table); }
    } else {
      assert forall k | k in path[1..] :: k in path;
      var i := KeyIndex(es, path[0]);
      if i == |es| {
        InsertReadable([], path[1..], table, repeated);
        ReadablePush(es, Entry(path[0], Tab(Insert([], path[1..], table, repeated).value)));
      } else {
        ReadableAt(es, i);
        InsertReadable(es[i].value.entries, path[1..], table, repeated);
        ReadableUpdate(es, i, Tab(Insert(es[i].value.entries, path[1..], table, repeated).value));
      }
    }
  }

  lemma {:induction false} InsertAllReadable(es: seq<Entry>, sections: seq<Section>)
    requires ReadableEntries(es) && InsertAll(Some(es), sections).Some?
    requires forall i | 0 <= i < |sections| :: ValidPath(sections[i].path) && LeafTable(sections[i].entries)
    ensures ReadableEntries(InsertAll(Some(es), sections).value)
    decreases |sections|
  {
    hide ReadableEntries, ValidPath, LeafTable, Insert;
    if sections != [] {
      var s := sections[0];
      InsertAllNone(sections[1..]);
      InsertReadable(es, s.path, s.entries, s.repeated);
      assert forall i | 0 <= i < |sections[1..]| :: sections[1..][i] == sections[i + 1];
      InsertAllReadable(Insert(es, s.path, s.entries, s.repeated).value, sections[1..]);
    }
  }

  /** Whatever text decodes to is a readable tree. */
  lemma DecodedIsReadable(s: bytes)
    requires Decode(s).Some?
    ensures Decode(s).value.Tab? && Readable(Decode(s).value)
  {
    hide Parse, InsertAll, ReadableEntries, LeafTable, ValidPath;
    ParsedIsGood(s);
    var d := Parse(s).value;
    LeafIsReadable(d.root);
    InsertAllReadable(d.root, d.sections);
  }

  // ---- printing what was read ----------------------------------------------------------------

  lemma {:induction false} JoinedHaveNoTable(vs: seq<Value>)
    requires JoinValues(vs).Some?
    ensures forall i | 0 <= i < |vs| :: !vs[i].Tab?
    decreases |vs|
  {
    hide EncodeValue;
    if vs != [] {
      TableDoesNotEncode(vs[0]);
      if |vs| > 1 { JoinedHaveNoTable(vs[1..]); }
      forall i | 0 <= i < |vs| ensures !vs[i].Tab? {
        if i > 0 { assert vs[i] == vs[1..][i - 1]; }
      }
    }
  }

  lemma ScalarPrints(v: Value)
    requires Readable(v) && IsScalar(v) && EncodeValue(v).Some?
    ensures GoodScalar(v)
  {
    hide GoodAtom, LeafTable, JoinValues, EncodeAtom;
    if v.Arr? {
      JoinedHaveNoTable(v.items);
      forall x | x in v.items ensures GoodAtom(x) {
        var i :| 0 <= i < |v.items| && v.items[i] == x;
        assert LeafItem(v.items[i]);
      }
    }
  }

  lemma LeafTableGood(es: seq<Entry>)
    requires LeafTable(es)
    ensures GoodEntries(es) && AllScalar(es)
  {
    hide ValidKey, GoodScalar;
    forall i | 0 <= i < |es| ensures Good(es[i].value) && IsScalar(es[i].value) {
      GoodScalarIsScalar(es[i].value);
    }
  }

  lemma GoodScalarIsScalar(v: Value)
    requires GoodScalar(v)
    ensures IsScalar(v) && Good(v)
  {
    if v.Arr? && v.items != [] { assert v.items[0] in v.items; }
  }

  lemma ItemsGood(items: seq<Value>)
    requires forall i | 0 <= i < |items| :: LeafItem(items[i])
    requires forall x | x in items :: x.Tab?
    ensures FlatItems(items) && forall i | 0 <= i < |items| :: Good(items[i])
  {
    hide LeafTable, GoodEntries, AllScalar;
    forall i | 0 <= i < |items| ensures items[i].Tab? && AllScalar(items[i].entries) && Good(items[i]) {
      assert items[i] in items;
      assert LeafTable(items[i].entries);
      LeafTableGood(items[i].entries);
    }
  }

  lemma {:induction false} NoneStaysPrinted(es: seq<Entry>, path: seq<bytes>, out: bytes)
    requires es != [] && PrintEntries(es, path, out).Some?
    ensures PrintEntry(es[0], path, out).Some?
    ensures PrintEntries(es[1..], path, PrintEntry(es[0], path, out).value).Some?
  {
  }

  /** Readable entries that print are good and flat. */
  lemma {:induction false} ReadablePrints(es: seq<Entry>, path: seq<bytes>, out: bytes)
    requires ReadableEntries(es) && PrintEntries(es, path, out).Some?
    ensures GoodEntries(es) && FlatEntries(es)
    decreases es, 0
  {
    hide ValidKey, Good, Flat, Readable, PrintEntry, PrintEntries;
    if es != [] {
      NoneStaysPrinted(es, path, out);
      assert forall i | 0 <= i < |es[1..]| :: es[1..][i] == es[i + 1];
      ReadablePrints(es[1..], path, PrintEntry(es[0], path, out).value);
      ReadableEntryPrints(es[0], path, out);
      forall i | 0 <= i < |es| ensures Good(es[i].value) && Flat(es[i].value) {
        if i > 0 { assert es[i] == es[1..][i - 1]; }
      }
    }
  }

  lemma {:induction false} ReadableEntryPrints(e: Entry, path: seq<bytes>, out: bytes)
    requires Readable(e.value) && PrintEntry(e, path, out).Some?
    ensures Good(e.value) && Flat(e.value)
    decreases e
  {
    hide ReadableEntries, GoodEntries, FlatEntries, PrintEntries, PrintItems, LeafItem, Line, Break, HeaderText,
      AssignmentText, EncodeValue, GoodScalar, GoodAtom;
    if e.value.Tab? {
      ReadablePrints(e.value.entries, path + [e.key], Line(Break(out), HeaderText(path + [e.key], false)));
    } else if IsRepeated(e.value) {
      ItemsGood(e.value.items);
    } else {
      ScalarPrints(e.value);
    }
  }

  // ---- the exact round trip --------------------------------------------------------------------

  /** Printing and reading restores a tree, with arranged entries, exactly when it is good and flat. */
  lemma RoundTripExactly(v: Value)
    requires v.Tab?
    ensures (Print(v).Some? && Decode(Print(v).value) == Some(ArrangeValue(v))) <==> Good(v) && Flat(v)
  {
    hide Decode, PrintEntries, Arrange, GoodEntries, FlatEntries, ReadableEntries;
    if Good(v) { PrintedDecodes(v); }
    if Print(v).Some? && Decode(Print(v).value) == Some(ArrangeValue(v)) {
      DecodedIsReadable(Print(v).value);
      ReadablePrints(Arrange(v.entries), [], []);
      ArrangeKeeps(v);
    }
  }

  lemma ArrangedReadable(v: Value)
    requires v.Tab? && Readable(v) && Print(v).Some?
    ensures ReadableEntries(Arrange(v.entries))
  {
    assert ReadableEntries(v.entries);
    hide ValidKey, Readable, Arrange, PrintEntries, Distinct, ArrangeValue;
    ArrangeDistinct(v.entries);
    var es, fs := v.entries, Arrange(v.entries);
    forall j | 0 <= j < |fs| ensures ValidKey(fs[j].key) && Readable(fs[j].value) {
      var i := ArrangedFrom(es, j);
      ArrangeReadable(es[i].value);
    }
  }

  lemma {:induction false} ArrangeReadable(v: Value)
    requires Readable(v)
    ensures Readable(ArrangeValue(v))
    decreases v
  {
    hide ValidKey, Arrange, GoodAtom, Distinct, LeafItem;
    if v.Tab? {
      var es, fs := v.entries, Arrange(v.entries);
      ArrangeDistinct(es);
      forall j | 0 <= j < |fs| ensures ValidKey(fs[j].key) && Readable(fs[j].value) {
        var i := ArrangedFrom(es, j);
        ArrangeReadable(es[i].value);
      }
    } else if IsRepeated(v) {
      var r := ArrangeItems(v.items);
      forall i | 0 <= i < |v.items| ensures LeafItem(r[i]) {
        ItemArranged(v.items, i);
        assert LeafItem(v.items[i]) && v.items[i] in v.items;
        ArrangeLeaf(v.items[i].entries);
      }
    }
  }

  lemma ArrangeLeaf(es: seq<Entry>)
    requires LeafItem(Tab(es))
    ensures LeafItem(ArrangeValue(Tab(es)))
  {
    hide ValidKey, Arrange, GoodScalar, Distinct;
    assert !GoodAtom(Tab(es));
    var fs := Arrange(es);
    ArrangeDistinct(es);
    forall j | 0 <= j < |fs| ensures ValidKey(fs[j].key) && GoodScalar(fs[j].value) {
      var i := ArrangedFrom(es, j);
      GoodScalarIsScalar(es[i].value);
    }
  }

  /** What was read and prints again reads as the same tree, and printing that gives the same text. */
  lemma ReadPrintRead(s: bytes, v: Value)
    requires Decode(s) == Some(v) && Print(v).Some?
    ensures Decode(Print(v).value) == Some(ArrangeValue(v))
    ensures Print(ArrangeValue(v)) == Print(v)
  {
    hide Decode, PrintEntries, Arrange, GoodEntries, FlatEntries, ReadableEntries, ArrangeValue;
    DecodedIsReadable(s);
    ArrangeTable(v);
    ArrangedReadable(v);
    ReadablePrints(Arrange(v.entries), [], []);
    assert Good(Tab(Arrange(v.entries))) && Flat(Tab(Arrange(v.entries)));
    ArrangeKeeps(v);
    PrintedDecodes(v);
    ArrangedTwice(v);
    PrintArranges(ArrangeValue(v), v);
  }

  // ---- when what was read prints ------------------------------------------------------------------

  /** No list, at any level, holds both a table and something else. */
  predicate NoMixedList(v: Value)
    decreases v
  {
    match v
    case Tab(es) => forall i | 0 <= i < |es| :: NoMixedList(es[i].value)
    case Arr(items) =>
      (IsRepeated(v) || forall i | 0 <= i < |items| :: !items[i].Tab?) &&
      forall i | 0 <= i < |items| :: NoMixedList(items[i])
    case _ => true
  }

  lemma {:induction false} GoodIsUnmixed(v: Value)
    requires Good(v)
    ensures NoMixedList(v)
    decreases v
  {
    hide ValidKey, Distinct;
    if v.Tab? {
      forall i | 0 <= i < |v.entries| ensures NoMixedList(v.entries[i].value) { GoodIsUnmixed(v.entries[i].value); }
    } else if IsRepeated(v) {
      forall i | 0 <= i < |v.items| ensures NoMixedList(v.items[i]) { GoodIsUnmixed(v.items[i]); }
    } else if v.Arr? {
      forall i | 0 <= i < |v.items| ensures !v.items[i].Tab? && NoMixedList(v.items[i]) {
        assert v.items[i] in v.items && GoodAtom(v.items[i]);
      }
    }
  }

  /** A readable tree without mixed lists is good, and its lists of tables are flat. */
  lemma {:induction false} UnmixedIsGood(v: Value)
    requires Readable(v) && NoMixedList(v)
    ensures Good(v) && Flat(v)
    decreases v
  {
    hide ValidKey, Distinct, LeafItem, GoodAtom;
    if v.Tab? {
      forall i | 0 <= i < |v.entries| ensures Good(v.entries[i].value) && Flat(v.entries[i].value) {
        UnmixedIsGood(v.entries[i].value);
      }
    } else if IsRepeated(v) {
      ItemsGood(v.items);
    } else if v.Arr? {
      UnmixedLeaves(v.items);
    }
  }

  lemma UnmixedLeaves(items: seq<Value>)
    requires forall i | 0 <= i < |items| :: LeafItem(items[i]) && !items[i].Tab?
    ensures GoodScalar(Arr(items))
  {
    hide GoodAtom, LeafTable;
    forall x | x in items ensures GoodAtom(x) {
      var i :| 0 <= i < |items| && items[i] == x;
    }
  }

  /** What was decoded prints exactly when it has no mixed list. */
  lemma DecodedPrintsExactly(s: bytes)
    requires Decode(s).Some?
    ensures Print(Decode(s).value).Some? <==> NoMixedList(Decode(s).value)
  {
    hide Decode, PrintEntries, Arrange, GoodEntries, FlatEntries, ReadableEntries, ArrangeValue, NoMixedList;
    var v := Decode(s).value;
    DecodedIsReadable(s);
    if Print(v).Some? {
      ArrangedReadable(v);
      ReadablePrints(Arrange(v.entries), [], []);
      ArrangeTable(v);
      assert Good(Tab(Arrange(v.entries)));
      ArrangeKeeps(v);
      GoodIsUnmixed(v);
    }
    if NoMixedList(v) {
      UnmixedIsGood(v);
      PrintedDecodes(v);
    }
  }

  /** Printing what was decoded and decoding that restores the tree, and the text is then a fixed point, exactly without mixed lists. */
  lemma ReprintsExactly(s: bytes, v: Value)
    requires Decode(s) == Some(v)
    ensures (Print(v).Some? && Decode(Print(v).value) == Some(ArrangeValue(v)) && Print(ArrangeValue(v)) == Print(v)) <==> NoMixedList(v)
  {
    hide Decode, Print, ArrangeValue, NoMixedList;
    DecodedPrintsExactly(s);
    if Print(v).Some? { ReadPrintRead(s, v); }
  }

  // ---- what reads but does not print ------------------------------------------------------------

  /** `a = [1]`, then a repeated section `a`. */
  function MixedText(): bytes {
    var a: bytes := [97];
    Line(Break(Line([], AssignmentText(a, [OPEN, 49, CLOSE]))), HeaderText([a], true))
  }

  function MixedTree(): Value {
    Tab([Entry([97], Arr([Num([49]), Tab([])]))])
  }

  lemma OneIsCanonical()
    ensures GoodAtom(Num([49]))
  {
    assert [49][..0] == [] && TextDigits([49]) == [1] && [1][..0] == [];
    assert DecValue([1]) == 10 * DecValue([]) + 1 == 1;
    assert Decimal(1) == [1] && DigitText([1]) == [49];
    assert IsIntegerText([49]);
  }

  /** A repeated section appends a table to a list of scalars; the mixed list reads, but no text prints for it. */
  lemma MixedListReads()
    ensures Decode(MixedText()) == Some(MixedTree()) && Print(MixedTree()) == None
  {
    var a: bytes := [97];
    var one := Arr([Num([49])]);
    OneIsCanonical();
    MixedSteps(a, one);
    MixedBuilds(a);
    MixedDoesNotPrint();
  }

  lemma MixedSteps(a: bytes, one: Value)
    requires a == [97] && one == Arr([Num([49])]) && GoodAtom(Num([49]))
    ensures Reads(MixedText(), Some(Doc([Entry(a, one)], [Section([a], true, [])], {})))
  {
    assert Reads([], Some(EMPTY));
    assert JoinValues([Num([49])]) == Some([49]);
    hide Reads, Line, Break, HeaderText, AssignmentText, GoodAtom;
    var e := Entry(a, one);
    assert ValidKey(a) && GoodScalar(one);
    assert EncodeValue(one) == Some([OPEN, 49, CLOSE]) by {
      assert [OPEN] + [49] + [CLOSE] == [OPEN, 49, CLOSE];
    }
    AssignmentReads([], Some(EMPTY), e);
    assert Push(Some(EMPTY), e) == Some(Doc([e], [], {})) by { assert [] + [e] == [e]; }
    HeaderReads(Line([], AssignmentText(a, [OPEN, 49, CLOSE])), Some(Doc([e], [], {})), [a], true);
    assert [] + [Section([a], true, [])] == [Section([a], true, [])];
  }

  lemma MixedBuilds(a: bytes)
    requires a == [97]
    ensures Build(Doc([Entry(a, Arr([Num([49])]))], [Section([a], true, [])], {})) == Some(MixedTree().entries)
  {
    var es := [Entry(a, Arr([Num([49])]))];
    assert KeyIndex(es, a) == 0;
    assert [Num([49])] + [Tab([])] == [Num([49]), Tab([])];
    assert es[0 := Entry(a, Arr([Num([49]), Tab([])]))] == MixedTree().entries;
    var s := Section([a], true, []);
    assert [s][1..] == [];
    assert InsertAll(Some(es), [s]) == InsertAll(Insert(es, [a], [], true), []);
  }

  lemma MixedDoesNotPrint()
    ensures Print(MixedTree()) == None
  {
    hide Readable, Decode;
    var v := MixedTree();
    if Print(v).Some? {
      var es := Arrange(v.entries);
      ArrangeMember(v.entries, 0);
      var j :| 0 <= j < |es| && es[j] == ArrangedEntry(v.entries[0]);
      MixedRefused(es, j, [], []);
    }
  }

  lemma MixedEntryRefused(e: Entry, path: seq<bytes>, out: bytes)
    requires e.value == Arr([Num([49]), Tab([])])
    ensures PrintEntry(e, path, out) == None
  {
    var v := e.value;
    assert v.items[0] in v.items && v.items[1].Tab?;
    if JoinValues(v.items).Some? { JoinedHaveNoTable(v.items); }
  }

  lemma {:induction false} MixedRefused(es: seq<Entry>, j: nat, path: seq<bytes>, out: bytes)
    requires j < |es| && es[j].value == Arr([Num([49]), Tab([])])
    ensures PrintEntries(es, path, out) == None
    decreases es
  {
    hide PrintEntry;
    if j == 0 {
      MixedEntryRefused(es[0], path, out);
    } else if PrintEntry(es[0], path, out).Some? {
      MixedRefused(es[1..], j - 1, path, PrintEntry(es[0], path, out).value);
    }
  }
}
