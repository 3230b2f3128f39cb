/** Config documents: printing nested tables as sections, parsing lines, and rebuilding the nesting. */
module Config {
  import opened Order
  import opened Exprs
  import opened TomlText

  // ---- documents ------------------------------------------------------------------------

  datatype Section = Section(path: seq<bytes>, repeated: bool, entries: seq<Entry>)

  /** Root entries, sections in order, and the regular section paths seen so far. */
  datatype Doc = Doc(root: seq<Entry>, sections: seq<Section>, seen: set<seq<bytes>>)

  const EMPTY: Doc := Doc([], [], {})

  predicate HasKey(es: seq<Entry>, key: bytes) {
    exists e | e in es :: e.key == key
  }

  function Current(d: Doc): seq<Entry> {
    if d.sections == [] then d.root else d.sections[|d.sections| - 1].entries
  }

  function WithCurrent(d: Doc, es: seq<Entry>): Doc {
    if d.sections == [] then d.(root := es)
    else d.(sections := d.sections[|d.sections| - 1 := d.sections[|d.sections| - 1].(entries := es)])
  }

  /** A table refuses a key it already has. */
  function PushEntry(d: Doc, e: Entry): Option<Doc> {
    if HasKey(Current(d), e.key) then None else Some(WithCurrent(d, Current(d) + [e]))
  }

  /** A regular section may open once; repeated ones any number of times. */
  function OpenSection(d: Doc, path: seq<bytes>, repeated: bool): Option<Doc> {
    if !repeated && path in d.seen then None
    else Some(Doc(d.root, d.sections + [Section(path, repeated, [])], if repeated then d.seen else d.seen + {path}))
  }

  /** The line up to a comment mark outside strings; strings must close. */
  function StripComment(line: bytes): Option<bytes> {
    var i := Find(line, Outside, HASH);
    if i < |line| then Some(line[..i]) else if End(line, Outside) != Outside then None else Some(line)
  }

  /** One line without its comment: blank, a header or an assignment. */
  function ParseContent(d: Doc, line: bytes): Option<Doc> {
    if line == [] then Some(d)
    else if line[0] == OPEN then
      match ParseHeader(line)
      case None => None
      case Some((path, repeated)) => OpenSection(d, path, repeated)
    else
      match ParseAssignment(line)
      case None => None
      case Some(e) => PushEntry(d, e)
  }

  function ParseLine(d: Doc, raw: bytes): Option<Doc> {
    match StripComment(raw)
    case None => None
    case Some(stripped) => ParseContent(d, Trim(stripped))
  }

  function ParseLines(d: Option<Doc>, lines: seq<bytes>): Option<Doc>
    decreases |lines|
  {
    if d.None? then None
    else if lines == [] then d
    else ParseLines(ParseLine(d.value, lines[0]), lines[1..])
  }

  function StripReturn(s: bytes): bytes {
    if s != [] && s[|s| - 1] == RETURN then s[..|s| - 1] else s
  }

  /** Lines end at a newline, which a carriage return may precede; the last one needs none. */
  function Lines(s: bytes): seq<bytes>
    decreases |s|
  {
    if s == [] then [] else
    var i := IndexOfByte(s, NEWLINE);
    if i == |s| then [s] else [StripReturn(s[..i])] + Lines(s[i + 1..])
  }

  function ParseText(s: bytes): Option<Doc> {
    ParseLines(Some(EMPTY), Lines(s))
  }

  function Parse(s: bytes): Option<Doc> {
    if IsAscii(s) then ParseText(s) else None
  }

  // ---- printing ---------------------------------------------------------------------------

  predicate IsRepeated(v: Value) {
    v.Arr? && v.items != [] && forall x | x in v.items :: x.Tab?
  }

  predicate IsScalar(v: Value) {
    !v.Tab? && !IsRepeated(v)
  }

  /** A blank line before a section, except at the start. */
  function Break(out: bytes): bytes {
    if out == [] then out
    else if |out| >= 2 && out[|out| - 1] == NEWLINE && out[|out| - 2] == NEWLINE then out
    else if out[|out| - 1] == NEWLINE then out + [NEWLINE]
    else out + [NEWLINE, NEWLINE]
  }

  function Line(out: bytes, line: bytes): bytes {
    out + line + [NEWLINE]
  }

  /** Entries in the order given; nested tables become dotted sections. */
  function PrintEntries(es: seq<Entry>, path: seq<bytes>, out: bytes): Option<bytes>
    decreases es
  {
    if es == [] then Some(out) else
    match PrintEntry(es[0], path, out)
    case None => None
    case Some(out1) => PrintEntries(es[1..], path, out1)
  }

  function PrintEntry(e: Entry, path: seq<bytes>, out: bytes): Option<bytes>
    decreases e
  {
    if !ValidKey(e.key) then None
    else if e.value.Tab? then
      PrintEntries(e.value.entries, path + [e.key], Line(Break(out), HeaderText(path + [e.key], false)))
    else if IsRepeated(e.value) then PrintItems(e.value.items, path + [e.key], out)
    else
      match EncodeValue(e.value)
      case None => None
      case Some(text) => Some(Line(out, AssignmentText(e.key, text)))
  }

  function PrintItems(items: seq<Value>, path: seq<bytes>, out: bytes): Option<bytes>
    requires forall x | x in items :: x.Tab?
    decreases items
  {
    if items == [] then Some(out) else
    assert items[0] in items;
    match PrintEntries(items[0].entries, path, Line(Break(out), HeaderText(path, true)))
    case None => None
    case Some(out1) => PrintItems(items[1..], path, out1)
  }

  // ---- the order of entries -----------------------------------------------------------------

  /** Tables and their items with entries in printing order, at every level. */
  function ArrangeValue(v: Value): (r: Value)
    ensures r.Tab? == v.Tab? && IsRepeated(r) == IsRepeated(v)
    ensures IsScalar(v) ==> r == v
    decreases v
  {
    if v.Tab? then Tab(Arrange(v.entries))
    else if IsRepeated(v) then Arr(ArrangeItems(v.items))
    else v
  }

  function ArrangeItems(items: seq<Value>): (r: seq<Value>)
    requires forall x | x in items :: x.Tab?
    ensures |r| == |items| && forall x | x in r :: x.Tab?
    decreases items
  {
    if items == [] then [] else
    assert items[0] in items;
    [ArrangeValue(items[0])] + ArrangeItems(items[1..])
  }

  function ArrangeEach(es: seq<Entry>): (r: seq<Entry>)
    ensures |r| == |es|
    decreases es, 0
  {
    if es == [] then [] else [Entry(es[0].key, ArrangeValue(es[0].value))] + ArrangeEach(es[1..])
  }

  function Arrange(es: seq<Entry>): seq<Entry>
    decreases es, 1
  {
    Grouped(ArrangeEach(es))
  }

  datatype Kind = Scalar | Repeated | Table

  function KindOf(e: Entry): Kind {
    if e.value.Tab? then Table else if IsRepeated(e.value) then Repeated else Scalar
  }

  function Only(es: seq<Entry>, k: Kind): (r: seq<Entry>)
    ensures forall e | e in r :: e in es && KindOf(e) == k
  {
    if es == [] then []
    else if KindOf(es[0]) == k then [es[0]] + Only(es[1..], k)
    else Only(es[1..], k)
  }

  function Keyed(es: seq<Entry>): (r: seq<Item<Entry>>)
    ensures |r| == |es| && forall i | 0 <= i < |es| :: r[i] == Item(es[i].key, es[i])
  {
    seq(|es|, i requires 0 <= i < |es| => Item(es[i].key, es[i]))
  }

  function Unkeyed(xs: seq<Item<Entry>>): (r: seq<Entry>)
    ensures |r| == |xs| && forall i | 0 <= i < |xs| :: r[i] == xs[i].value
  {
    seq(|xs|, i requires 0 <= i < |xs| => xs[i].value)
  }

  function ByKey(es: seq<Entry>): seq<Entry> {
    Unkeyed(Sort(Keyed(es)))
  }

  /** Scalars, then repeated tables, then tables, each by key. */
  function Grouped(es: seq<Entry>): seq<Entry> {
    ByKey(Only(es, Scalar)) + (ByKey(Only(es, Repeated)) + ByKey(Only(es, Table)))
  }

  /** Only maps encode. */
  function Print(v: Value): Option<bytes> {
    if v.Tab? then PrintEntries(Arrange(v.entries), [], []) else None
  }

  // ---- rebuilding -----------------------------------------------------------------------------

  function KeyIndex(es: seq<Entry>, key: bytes): (i: nat)
    ensures i <= |es| && (i < |es| ==> es[i].key == key)
    ensures i == |es| <==> !HasKey(es, key)
  {
    if es == [] then 0
    else if es[0].key == key then assert es[0] in es; 0
    else
      assert forall e :: e in es <==> e == es[0] || e in es[1..];
      1 + KeyIndex(es[1..], key)
  }

  function Merge(target: seq<Entry>, source: seq<Entry>): Option<seq<Entry>>
    decreases |source|
  {
    if source == [] then Some(target)
    else if HasKey(target, source[0].key) then None
    else Merge(target + [source[0]], source[1..])
  }

  function InsertRegular(es: seq<Entry>, key: bytes, table: seq<Entry>): Option<seq<Entry>> {
    var i := KeyIndex(es, key);
    if i == |es| then Some(es + [Entry(key, Tab(table))])
    else if !es[i].value.Tab? then None
    else
      match Merge(es[i].value.entries, table)
      case None => None
      case Some(merged) => Some(es[i := Entry(key, Tab(merged))])
  }

  function InsertRepeated(es: seq<Entry>, key: bytes, table: seq<Entry>): Option<seq<Entry>> {
    var i := KeyIndex(es, key);
    if i == |es| then Some(es + [Entry(key, Arr([Tab(table)]))])
    else if !es[i].value.Arr? then None
    else Some(es[i := Entry(key, Arr(es[i].value.items + [Tab(table)]))])
  }

  function Insert(es: seq<Entry>, path: seq<bytes>, table: seq<Entry>, repeated: bool): Option<seq<Entry>>
    decreases |path|
  {
    if path == [] then None
    else if |path| == 1 then
      if repeated then InsertRepeated(es, path[0], table) else InsertRegular(es, path[0], table)
    else
      var i := KeyIndex(es, path[0]);
      if i < |es| && !es[i].value.Tab? then None else
      match Insert(if i < |es| then es[i].value.entries else [], path[1..], table, repeated)
      case None => None
      case Some(inner) =>
        Some(if i < |es| then es[i := Entry(path[0], Tab(inner))] else es + [Entry(path[0], Tab(inner))])
  }

  function InsertAll(es: Option<seq<Entry>>, sections: seq<Section>): Option<seq<Entry>>
    decreases |sections|
  {
    if es.None? then None
    else if sections == [] then es
    else InsertAll(Insert(es.value, sections[0].path, sections[0].entries, sections[0].repeated), sections[1..])
  }

  function Build(d: Doc): Option<seq<Entry>> {
    InsertAll(Some(d.root), d.sections)
  }

  function Decode(s: bytes): Option<Value> {
    match Parse(s)
    case None => None
    case Some(d) =>
      match Build(d)
      case None => None
      case Some(es) => Some(Tab(es))
  }

  // ---- what printed text reads as ---------------------------------------------------------------

  /** Text whose last line is ended. */
  predicate Flush(s: bytes) {
    s == [] || s[|s| - 1] == NEWLINE
  }

  lemma {:induction false} IndexInside(a: bytes, b: byte, rest: bytes)
    requires b in a
    ensures IndexOfByte(a, b) < |a| && IndexOfByte(a + rest, b) == IndexOfByte(a, b)
  {
    if a[0] != b {
      assert (a + rest)[1..] == a[1..] + rest;
      IndexInside(a[1..], b, rest);
    }
  }

  lemma {:induction false} LinesAppend(a: bytes, b: bytes)
    requires Flush(a)
    ensures Lines(a + b) == Lines(a) + Lines(b)
    decreases |a|
  {
    hide IndexOfByte;
    if a == [] {
      assert a + b == b && [] + Lines(b) == Lines(b);
    } else {
      IndexInside(a, NEWLINE, b);
      var i := IndexOfByte(a, NEWLINE);
      var first := StripReturn(a[..i]);
      assert (a + b)[..i] == a[..i] && (a + b)[i + 1..] == a[i + 1..] + b;
      LinesAppend(a[i + 1..], b);
      Assoc([first], Lines(a[i + 1..]), Lines(b));
    }
  }

  lemma LinesOne(line: bytes)
    requires NEWLINE !in line && (line == [] || line[|line| - 1] != RETURN)
    ensures Lines(line + [NEWLINE]) == [line]
  {
    IndexAfter(line, NEWLINE, [NEWLINE]);
    assert (line + [NEWLINE])[..|line|] == line && (line + [NEWLINE])[|line| + 1..] == [];
  }

  lemma {:induction false} ParseLinesAppend(d: Option<Doc>, a: seq<bytes>, b: seq<bytes>)
    ensures ParseLines(d, a + b) == ParseLines(ParseLines(d, a), b)
    decreases |a|
  {
    hide ParseLine;
    if a == [] || d.None? {
      assert a == [] ==> a + b == b;
    } else {
      assert (a + b)[1..] == a[1..] + b;
      ParseLinesAppend(ParseLine(d.value, a[0]), a[1..], b);
    }
  }

  /** Ended ASCII text that reads as `d`. */
  predicate Reads(s: bytes, d: Option<Doc>) {
    Flush(s) && IsAscii(s) && ParseText(s) == d
  }

  lemma LineReads(out: bytes, d: Option<Doc>, line: bytes)
    requires Reads(out, d) && OneLine(line) && (line == [] || Solid(line)) && Quiet(line, HASH)
    ensures Reads(Line(out, line), if d.None? then None else ParseContent(d.value, line))
  {
    hide Lines, Trim, Quiet, ParseContent;
    LinesOne(line);
    LinesAppend(out, line + [NEWLINE]);
    Assoc(out, line, [NEWLINE]);
    ParseLinesAppend(Some(EMPTY), Lines(out), [line]);
    assert [line][1..] == [];
    if d.Some? {
      QuietLine(line);
      assert ParseLine(d.value, line) == ParseContent(d.value, line);
      assert ParseLines(d, [line]) == ParseLines(ParseLine(d.value, line), []);
    }
  }

  lemma QuietLine(line: bytes)
    requires Quiet(line, HASH) && (line == [] || Solid(line))
    ensures StripComment(line) == Some(line) && Trim(line) == line
  {
    if line != [] { TrimSolid(line); }
  }

  lemma BreakReads(out: bytes, d: Option<Doc>)
    requires Reads(out, d)
    ensures Reads(Break(out), d)
  {
    hide ParseText;
    if Break(out) != out {
      assert Break(out) == Line(out, []);
      PlainIsQuiet([], HASH);
      LineReads(out, d, []);
    }
  }

  function Open(d: Option<Doc>, path: seq<bytes>, repeated: bool): Option<Doc> {
    if d.None? then None else OpenSection(d.value, path, repeated)
  }

  function Push(d: Option<Doc>, e: Entry): Option<Doc> {
    if d.None? then None else PushEntry(d.value, e)
  }

  /** A printed header opens its section. */
  lemma HeaderReads(out: bytes, d: Option<Doc>, path: seq<bytes>, repeated: bool)
    requires Reads(out, d) && ValidPath(path)
    ensures Reads(Line(Break(out), HeaderText(path, repeated)), Open(d, path, repeated))
  {
    hide Reads, HeaderText, ParseHeader, Quiet, Line, Break, OpenSection;
    BreakReads(out, d);
    HeaderRoundTrip(path, repeated);
    LineReads(Break(out), d, HeaderText(path, repeated));
  }

  /** A printed assignment adds its entry. */
  lemma AssignmentReads(out: bytes, d: Option<Doc>, e: Entry)
    requires Reads(out, d) && ValidKey(e.key) && GoodScalar(e.value)
    ensures EncodeValue(e.value).Some?
    ensures Reads(Line(out, AssignmentText(e.key, EncodeValue(e.value).value)), Push(d, e))
  {
    hide Reads, ParseAssignment, Quiet, Line, AssignmentText, GoodScalar, EncodeValue, PushEntry, ValidKey;
    AssignmentRoundTrip(e);
    LineReads(out, d, AssignmentText(e.key, EncodeValue(e.value).value));
  }

  // ---- good trees -------------------------------------------------------------------------------

  predicate Distinct(es: seq<Entry>) {
    forall i, j | 0 <= i < j < |es| :: es[i].key != es[j].key
  }

  /** Tables with distinct valid keys whose leaves are good scalars or non-empty lists of tables. */
  predicate Good(v: Value)
    decreases v
  {
    if v.Tab? then GoodEntries(v.entries)
    else if IsRepeated(v) then forall i | 0 <= i < |v.items| :: Good(v.items[i])
    else GoodScalar(v)
  }

  predicate GoodEntries(es: seq<Entry>)
    decreases es
  {
    Distinct(es) && forall i | 0 <= i < |es| :: ValidKey(es[i].key) && Good(es[i].value)
  }

  /** What the printed lines of entries do to a document. */
  function AddEntries(d: Option<Doc>, es: seq<Entry>, path: seq<bytes>): Option<Doc>
    decreases es
  {
    if es == [] then d else AddEntries(AddEntry(d, es[0], path), es[1..], path)
  }

  function AddEntry(d: Option<Doc>, e: Entry, path: seq<bytes>): Option<Doc>
    decreases e
  {
    if e.value.Tab? then AddEntries(Open(d, path + [e.key], false), e.value.entries, path + [e.key])
    else if IsRepeated(e.value) then AddItems(d, e.value.items, path + [e.key])
    else Push(d, e)
  }

  function AddItems(d: Option<Doc>, items: seq<Value>, path: seq<bytes>): Option<Doc>
    requires forall x | x in items :: x.Tab?
    decreases items
  {
    if items == [] then d else
    assert items[0] in items;
    AddItems(AddEntries(Open(d, path, true), items[0].entries, path), items[1..], path)
  }

  lemma GoodTail(es: seq<Entry>)
    requires GoodEntries(es) && es != []
    ensures ValidKey(es[0].key) && Good(es[0].value) && GoodEntries(es[1..]) && Distinct(es)
  {
    hide Good, ValidKey;
  }

  lemma PathExtends(path: seq<bytes>, key: bytes)
    requires (path == [] || ValidPath(path)) && ValidKey(key)
    ensures ValidPath(path + [key])
  {
  }

  /** Printing good entries never fails, and the text reads as the entries added one by one. */
  lemma {:induction false} EntriesRead(es: seq<Entry>, path: seq<bytes>, out: bytes, d: Option<Doc>)
    requires GoodEntries(es) && (path == [] || ValidPath(path)) && Reads(out, d)
    ensures PrintEntries(es, path, out).Some?
    ensures Reads(PrintEntries(es, path, out).value, AddEntries(d, es, path))
    decreases es
  {
    hide Reads, PrintEntry, AddEntry, GoodEntries, ValidPath, ValidKey, Good;
    if es != [] {
      GoodTail(es);
      EntryReads(es[0], path, out, d);
      EntriesRead(es[1..], path, PrintEntry(es[0], path, out).value, AddEntry(d, es[0], path));
    }
  }

  lemma {:induction false} EntryReads(e: Entry, path: seq<bytes>, out: bytes, d: Option<Doc>)
    requires ValidKey(e.key) && Good(e.value) && (path == [] || ValidPath(path)) && Reads(out, d)
    ensures PrintEntry(e, path, out).Some?
    ensures Reads(PrintEntry(e, path, out).value, AddEntry(d, e, path))
    decreases e
  {
    hide Reads, PrintEntries, AddEntries, GoodEntries, ValidPath, ValidKey, GoodScalar, EncodeValue, Line, Break, HeaderText,
      AssignmentText, Push, Open;
    var inner := path + [e.key];
    PathExtends(path, e.key);
    if e.value.Tab? {
      HeaderReads(out, d, inner, false);
      EntriesRead(e.value.entries, inner, Line(Break(out), HeaderText(inner, false)), Open(d, inner, false));
    } else if IsRepeated(e.value) {
      ItemsRead(e.value.items, inner, out, d);
    } else {
      AssignmentReads(out, d, e);
    }
  }

  lemma {:induction false} ItemsRead(items: seq<Value>, path: seq<bytes>, out: bytes, d: Option<Doc>)
    requires (forall x | x in items :: x.Tab?) && (forall i | 0 <= i < |items| :: Good(items[i]))
    requires ValidPath(path) && Reads(out, d)
    ensures PrintItems(items, path, out).Some?
    ensures Reads(PrintItems(items, path, out).value, AddItems(d, items, path))
    decreases items
  {
    hide Reads, PrintEntries, AddEntries, GoodEntries, ValidPath, Line, Break, HeaderText, Open;
    if items != [] {
      assert items[0] in items;
      HeaderReads(out, d, path, true);
      var head, d1 := Line(Break(out), HeaderText(path, true)), Open(d, path, true);
      EntriesRead(items[0].entries, path, head, d1);
      ItemsRead(items[1..], path, PrintEntries(items[0].entries, path, head).value,
                AddEntries(d1, items[0].entries, path));
    }
  }
}
