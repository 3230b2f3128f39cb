/** The loops of the config text codec, proved against what `TomlText` and `Config` specify. */
module ConfigRun {
  import opened Order
  import opened Exprs
  import opened Numbers
  import opened TomlText
  import opened Config
  import opened ConfigRoundTrip
  import opened ConfigDirs

  // ---- scanners -----------------------------------------------------------------------------

  function LexOf(inString: bool, escaped: bool): Lex {
    if !inString then Outside else if escaped then Escaped else Inside
  }

  method StripCommentLoop(line: bytes) returns (r: Option<bytes>)
    ensures r == StripComment(line)
  {
    var inString, escaped := false, false;
    var i := 0;
    while i < |line|
      invariant 0 <= i <= |line| && (escaped ==> inString)
      invariant Find(line, Outside, HASH) == i + Find(line[i..], LexOf(inString, escaped), HASH)
      invariant End(line, Outside) == End(line[i..], LexOf(inString, escaped))
    {
      var ch := line[i];
      assert line[i..][1..] == line[i + 1..];
      if inString {
        if escaped {
          escaped := false;
        } else if ch == BACKSLASH {
          escaped := true;
        } else if ch == QUOTE {
          inString := false;
        }
      } else if ch == QUOTE {
        inString := true;
      } else if ch == HASH {
        return Some(line[..i]);
      }
      i := i + 1;
    }
    r := if inString then None else Some(line);
  }

  method FindAssignment(line: bytes) returns (r: Option<nat>)
    ensures r == if Find(line, Outside, EQUALS) == |line| then None else Some(Find(line, Outside, EQUALS))
  {
    var inString, escaped := false, false;
    var i := 0;
    while i < |line|
      invariant 0 <= i <= |line| && (escaped ==> inString)
      invariant Find(line, Outside, EQUALS) == i + Find(line[i..], LexOf(inString, escaped), EQUALS)
    {
      var ch := line[i];
      assert line[i..][1..] == line[i + 1..];
      if inString {
        if escaped {
          escaped := false;
        } else if ch == BACKSLASH {
          escaped := true;
        } else if ch == QUOTE {
          inString := false;
        }
      } else if ch == QUOTE {
        inString := true;
      } else if ch == EQUALS {
        return Some(i);
      }
      i := i + 1;
    }
    r := None;
  }

  function After<T>(done: seq<T>, rest: Option<seq<T>>): Option<seq<T>> {
    if rest.None? then None else Some(done + rest.value)
  }

  method SplitArrayItems(inner: bytes) returns (r: Option<seq<bytes>>)
    ensures r == SplitItems(inner)
  {
    hide Trim, End, Find, SplitItems;
    var items: seq<bytes> := [];
    var start, i := 0, 0;
    var inString, escaped := false, false;
    assert [] + inner[0..] == inner[0..] == inner;
    AfterNothing(SplitItems(inner));
    while i < |inner|
      invariant 0 <= start <= i <= |inner| && (escaped ==> inString)
      invariant SplitItems(inner) == After(items, SplitItems(inner[start..]))
      invariant Find(inner[start..], Outside, COMMA) == i - start + Find(inner[i..], LexOf(inString, escaped), COMMA)
      invariant End(inner[start..], Outside) == End(inner[i..], LexOf(inString, escaped))
    {
      var ch := inner[i];
      ScanStep(inner, i, LexOf(inString, escaped), COMMA);
      if inString {
        if escaped {
          escaped := false;
        } else if ch == BACKSLASH {
          escaped := true;
        } else if ch == QUOTE {
          inString := false;
        }
      } else if ch == QUOTE {
        inString := true;
      } else if ch == COMMA {
        var item := Trim(inner[start..i]);
        SplitsHere(inner, start, i);
        if item == [] {
          return None;
        }
        AfterItem(items, item, SplitItems(inner[i + 1..]));
        items := items + [item];
        start := i + 1;
      }
      i := i + 1;
    }
    ScanDone(inner, LexOf(inString, escaped), COMMA);
    SplitsLast(inner[start..]);
    if inString {
      return None;
    }
    var item := Trim(inner[start..]);
    r := if item == [] then None else Some(items + [item]);
  }

  lemma SplitsHere(inner: bytes, start: nat, i: nat)
    requires start <= i < |inner| && Find(inner[start..], Outside, COMMA) == i - start
    ensures SplitItems(inner[start..]) ==
      if Trim(inner[start..i]) == [] then None else After([Trim(inner[start..i])], SplitItems(inner[i + 1..]))
  {
    hide Trim, End, Find;
    assert inner[start..][..i - start] == inner[start..i];
    assert inner[start..][i - start + 1..] == inner[i + 1..];
  }

  lemma SplitsLast(s: bytes)
    requires Find(s, Outside, COMMA) == |s|
    ensures SplitItems(s) == if Trim(s) == [] || End(s, Outside) != Outside then None else Some([Trim(s)])
  {
    hide Trim, End, Find;
    assert s[..|s|] == s;
  }

  lemma AfterNothing<T>(o: Option<seq<T>>)
    ensures After([], o) == o
  {
    if o.Some? { assert [] + o.value == o.value; }
  }

  lemma AfterItem<T>(done: seq<T>, x: T, o: Option<seq<T>>)
    ensures After(done, After([x], o)) == After(done + [x], o)
  {
    if o.Some? { Assoc(done, [x], o.value); }
  }

  lemma ScanStep(s: bytes, i: nat, st: Lex, stop: byte)
    requires i < |s|
    ensures Find(s[i..], st, stop) ==
      if st.Outside? && s[i] != QUOTE && s[i] == stop then 0 else 1 + Find(s[i + 1..], Step(st, s[i]), stop)
    ensures End(s[i..], st) == End(s[i + 1..], Step(st, s[i]))
  {
    assert s[i..][1..] == s[i + 1..];
  }

  lemma ScanDone(s: bytes, st: Lex, stop: byte)
    ensures Find(s[|s|..], st, stop) == 0 && End(s[|s|..], st) == st
  {
  }

  // ---- strings ----------------------------------------------------------------------------------

  method EscapeString(value: bytes) returns (escaped: bytes)
    ensures escaped == Escape(value)
  {
    escaped := [];
    assert value[0..] == value && [] + Escape(value) == Escape(value);
    for i := 0 to |value|
      invariant Escape(value) == escaped + Escape(value[i..])
    {
      var ch := value[i];
      assert value[i..][1..] == value[i + 1..];
      Assoc(escaped, EscapeByte(ch), Escape(value[i + 1..]));
      if ch == BACKSLASH {
        escaped := escaped + [BACKSLASH, BACKSLASH];
      } else if ch == QUOTE {
        escaped := escaped + [BACKSLASH, QUOTE];
      } else if ch == NEWLINE {
        escaped := escaped + [BACKSLASH, 110];
      } else if ch == RETURN {
        escaped := escaped + [BACKSLASH, 114];
      } else if ch == TAB {
        escaped := escaped + [BACKSLASH, 116];
      } else {
        escaped := escaped + [ch];
      }
    }
  }

  method ParseStringLoop(value: bytes) returns (r: Option<bytes>)
    ensures r == ParseString(value)
  {
    hide Trim;
    if value == [] || value[0] != QUOTE {
      return None;
    }
    var output: bytes := [];
    var escaped := false;
    AfterNothing(Unescape(value[1..], false));
    var i := 1;
    while i < |value|
      invariant 1 <= i <= |value|
      invariant ParseString(value) == After(output, Unescape(value[i..], escaped))
    {
      var ch := value[i];
      assert value[i..][1..] == value[i + 1..];
      if escaped {
        var plain := UnescapeByte(ch);
        if plain.None? {
          return None;
        }
        AfterItem(output, plain.value, Unescape(value[i + 1..], false));
        output := output + [plain.value];
        escaped := false;
      } else if ch == BACKSLASH {
        escaped := true;
      } else if ch == QUOTE {
        assert output + [] == output;
        return if Trim(value[i + 1..]) == [] then Some(output) else None;
      } else {
        AfterItem(output, ch, Unescape(value[i + 1..], false));
        output := output + [ch];
      }
      i := i + 1;
    }
    r := None;
  }

  // ---- values ---------------------------------------------------------------------------------

  lemma {:induction false} TrimShort(s: bytes)
    ensures |Trim(s)| <= |s|
  {
    TrimStartShort(s);
    TrimEndShort(TrimStart(s));
  }

  lemma {:induction false} TrimStartShort(s: bytes)
    ensures |TrimStart(s)| <= |s|
  {
    if s != [] && IsSpace(s[0]) { TrimStartShort(s[1..]); }
  }

  lemma {:induction false} TrimEndShort(s: bytes)
    ensures |TrimEnd(s)| <= |s|
  {
    if s != [] && IsSpace(s[|s| - 1]) { TrimEndShort(s[..|s| - 1]); }
  }

  lemma {:induction false} SplitItemsShort(s: bytes)
    ensures SplitItems(s).Some? ==> forall i | 0 <= i < |SplitItems(s).value| :: |SplitItems(s).value[i]| <= |s|
    decreases |s|
  {
    hide Trim, Find, End;
    var i := Find(s, Outside, COMMA);
    TrimShort(s[..i]);
    if i < |s| { SplitItemsShort(s[i + 1..]); }
  }

  lemma OpenIsNoAtom(s: bytes)
    requires s != [] && s[0] == OPEN
    ensures ParseAtom(s) == None
  {
    assert TrueText()[0] == 116 && FalseText()[0] == 102;
  }

  method ParseValueText(value: bytes) returns (r: Option<Value>)
    ensures r == ParseValue(value)
    decreases |value|, 1
  {
    hide ParseArray, ParseI64, Unescape, SignedText;
    if value != [] && value[0] == QUOTE {
      var text := ParseStringLoop(value);
      r := if text.None? then None else Some(Value.Str(text.value));
    } else if value == TrueText() {
      r := Some(Flag(true));
    } else if value == FalseText() {
      r := Some(Flag(false));
    } else if value != [] && value[0] == OPEN {
      r := ParseArrayText(value);
    } else {
      var number := ParseI64(value);
      r := if number.None? then None else Some(Num(SignedText(number.value)));
    }
  }

  /** A nested array is parsed, then refused. */
  method ParseArrayText(value: bytes) returns (r: Option<Value>)
    requires value != [] && value[0] == OPEN
    ensures r == ParseArray(value)
    decreases |value|, 0
  {
    hide Trim, ParseAtom, SplitItems;
    if |value| < 2 || value[|value| - 1] != CLOSE {
      return None;
    }
    var inner := value[1..|value| - 1];
    if Trim(inner) == [] {
      return Some(Arr([]));
    }
    var texts := SplitArrayItems(inner);
    if texts.None? {
      return None;
    }
    SplitItemsShort(inner);
    var items: seq<Value> := [];
    var i := 0;
    assert texts.value[0..] == texts.value;
    AfterNothing(ParseItems(texts.value));
    while i < |texts.value|
      invariant 0 <= i <= |texts.value|
      invariant ParseItems(texts.value) == After(items, ParseItems(texts.value[i..]))
    {
      var item := Trim(texts.value[i]);
      TrimShort(texts.value[i]);
      assert texts.value[i..][1..] == texts.value[i + 1..];
      var parsed := ParseValueText(item);
      ItemIsAtom(item);
      if parsed.None? || parsed.value.Arr? {
        return None;
      }
      AfterItem(items, parsed.value, ParseItems(texts.value[i + 1..]));
      items := items + [parsed.value];
      i := i + 1;
    }
    assert items + [] == items;
    r := Some(Arr(items));
  }

  lemma ItemIsAtom(item: bytes)
    ensures ParseAtom(item) == if ParseValue(item).None? || ParseValue(item).value.Arr? then None else ParseValue(item)
  {
    hide Unescape, ParseI64, SignedText, SplitItems, ParseItems, Trim;
    if item != [] && item[0] == OPEN { OpenIsNoAtom(item); }
  }

  method ParseAssignmentText(line: bytes) returns (r: Option<Entry>)
    ensures r == ParseAssignment(line)
  {
    hide ParseValue, Trim, Find, ValidKey;
    var position := FindAssignment(line);
    if position.None? {
      return None;
    }
    var key := Trim(line[..position.value]);
    var value := Trim(line[position.value + 1..]);
    if !ValidKey(key) || value == [] {
      return None;
    }
    var parsed := ParseValueText(value);
    r := if parsed.None? then None else Some(Entry(key, parsed.value));
  }

  // ---- reading lines --------------------------------------------------------------------------

  class Document {
    var root: seq<Entry>
    var sections: seq<Section>
    var regular: set<seq<bytes>>
    var current: Option<nat>

    ghost predicate Valid()
      reads this
    {
      current == if sections == [] then None else Some(|sections| - 1)
    }

    ghost function View(): Doc
      reads this
    {
      Doc(root, sections, regular)
    }

    constructor ()
      ensures Valid() && View() == EMPTY
    {
      root, sections, regular, current := [], [], {}, None;
    }

    method OpenHeader(path: seq<bytes>, repeated: bool) returns (ok: bool)
      requires Valid()
      modifies this
      ensures Valid()
      ensures ok <==> OpenSection(old(View()), path, repeated).Some?
      ensures View() == if ok then OpenSection(old(View()), path, repeated).value else old(View())
    {
      if !repeated {
        if path in regular {
          return false;
        }
        regular := regular + {path};
      }
      sections := sections + [Section(path, repeated, [])];
      current := Some(|sections| - 1);
      return true;
    }

    method PushAssignment(e: Entry) returns (ok: bool)
      requires Valid()
      modifies this
      ensures Valid()
      ensures ok <==> PushEntry(old(View()), e).Some?
      ensures View() == if ok then PushEntry(old(View()), e).value else old(View())
    {
      var table := if current.Some? then sections[current.value].entries else root;
      var i := 0;
      while i < |table|
        invariant 0 <= i <= |table|
        invariant forall k | 0 <= k < i :: table[k].key != e.key
      {
        if table[i].key == e.key {
          assert table[i] in table;
          return false;
        }
        i := i + 1;
      }
      if current.Some? {
        sections := sections[current.value := sections[current.value].(entries := table + [e])];
      } else {
        root := table + [e];
      }
      return true;
    }

    method ReadLine(raw: bytes) returns (ok: bool)
      requires Valid()
      modifies this
      ensures Valid()
      ensures ok <==> ParseLine(old(View()), raw).Some?
      ensures View() == if ok then ParseLine(old(View()), raw).value else old(View())
    {
      var stripped := StripCommentLoop(raw);
      if stripped.None? {
        return false;
      }
      var line := Trim(stripped.value);
      if line == [] {
        return true;
      }
      if line[0] == OPEN {
        var header := ParseHeader(line);
        if header.None? {
          return false;
        }
        ok := OpenHeader(header.value.0, header.value.1);
      } else {
        var e := ParseAssignmentText(line);
        if e.None? {
          return false;
        }
        ok := PushAssignment(e.value);
      }
    }

    method ReadText(source: bytes) returns (ok: bool)
      requires Valid() && View() == EMPTY
      modifies this
      ensures Valid()
      ensures ok <==> Parse(source).Some?
      ensures ok ==> View() == Parse(source).value
    {
      hide ParseLine, Lines;
      if exists b | b in source :: b >= 0x80 {
        return false;
      }
      var lines := Lines(source);
      var i := 0;
      assert lines[0..] == lines;
      while i < |lines|
        invariant 0 <= i <= |lines| && Valid()
        invariant Parse(source) == ParseLines(Some(View()), lines[i..])
      {
        assert lines[i..][1..] == lines[i + 1..];
        ghost var was := View();
        ok := ReadLine(lines[i]);
        if !ok {
          return false;
        }
        i := i + 1;
      }
      return true;
    }
  }

  // ---- rebuilding ---------------------------------------------------------------------------------

  method MergeEntries(target: seq<Entry>, source: seq<Entry>) returns (r: Option<seq<Entry>>)
    ensures r == Merge(target, source)
  {
    var merged := target;
    assert source[0..] == source;
    for i := 0 to |source|
      invariant Merge(target, source) == Merge(merged, source[i..])
    {
      assert source[i..][1..] == source[i + 1..];
      if HasKey(merged, source[i].key) {
        return None;
      }
      merged := merged + [source[i]];
    }
    r := Some(merged);
  }

  method DocumentToTable(d: Doc) returns (r: Option<Value>)
    ensures r == match Build(d)
      case None => None
      case Some(es) => Some(Tab(es))
  {
    hide Config.Insert;
    var entries := d.root;
    assert d.sections[0..] == d.sections;
    for i := 0 to |d.sections|
      invariant Build(d) == InsertAll(Some(entries), d.sections[i..])
    {
      var s := d.sections[i];
      assert d.sections[i..][1..] == d.sections[i + 1..];
      var inserted := Config.Insert(entries, s.path, s.entries, s.repeated);
      if inserted.None? {
        return None;
      }
      entries := inserted.value;
    }
    r := Some(Tab(entries));
  }

  method DocumentToDir(d: Doc) returns (r: Option<Value>)
    ensures r == match BuildDir(d)
      case None => None
      case Some(es) => Some(Tab(es))
  {
    hide Config.Insert, InsertRegular;
    if d.root != [] {
      return None;
    }
    var entries: seq<Entry> := [];
    assert d.sections[0..] == d.sections;
    for i := 0 to |d.sections|
      invariant BuildDir(d) == DirInsertAll(Some(entries), d.sections[i..])
    {
      var s := d.sections[i];
      assert d.sections[i..][1..] == d.sections[i + 1..];
      if s.path == [] || (s.repeated && |s.path| == 1) {
        return None;
      }
      var inserted := if |s.path| == 1 then InsertRegular(entries, s.path[0], s.entries)
                      else Config.Insert(entries, s.path, s.entries, s.repeated);
      if inserted.None? {
        return None;
      }
      entries := inserted.value;
    }
    r := Some(Tab(entries));
  }

  /** The decoder: text to tree. */
  method DecodeText(source: bytes) returns (r: Option<Value>)
    ensures r == Decode(source)
  {
    hide Parse, Build;
    var document := new Document();
    var ok := document.ReadText(source);
    if !ok {
      return None;
    }
    r := DocumentToTable(Doc(document.root, document.sections, document.regular));
  }

  // ---- printing -----------------------------------------------------------------------------------

  function EncodeAll(vs: seq<Value>): Option<seq<bytes>>
    decreases |vs|
  {
    if vs == [] then Some([])
    else if EncodeValue(vs[0]).None? then None
    else After([EncodeValue(vs[0]).value], EncodeAll(vs[1..]))
  }

  function JoinTexts(texts: seq<bytes>): bytes {
    if texts == [] then [] else if |texts| == 1 then texts[0] else texts[0] + ([COMMA, SPACE] + JoinTexts(texts[1..]))
  }

  lemma {:induction false} JoinsTexts(vs: seq<Value>)
    ensures JoinValues(vs) == if EncodeAll(vs).None? then None else Some(JoinTexts(EncodeAll(vs).value))
    ensures EncodeAll(vs).Some? ==> |EncodeAll(vs).value| == |vs|
    decreases |vs|
  {
    hide EncodeValue;
    if vs != [] {
      JoinsTexts(vs[1..]);
      if EncodeAll(vs).Some? {
        assert EncodeAll(vs).value[1..] == EncodeAll(vs[1..]).value;
      }
    }
  }

  method EncodeValueText(v: Value) returns (r: Option<bytes>)
    ensures r == EncodeValue(v)
    decreases v
  {
    match v
    case Str(t) =>
      var escaped := EscapeString(t);
      r := Some([QUOTE] + escaped + [QUOTE]);
    case Flag(on) => r := Some(if on then TrueText() else FalseText());
    case Num(n) => r := if IsIntegerText(n) then Some(n) else None;
    case Arr(items) =>
      assert EncodeValue(v) == if JoinValues(items).None? then None else Some([OPEN] + JoinValues(items).value + [CLOSE]);
      hide EncodeValue, JoinValues;
      var texts: seq<bytes> := [];
      JoinsTexts(items);
      assert items[0..] == items;
      AfterNothing(EncodeAll(items));
      for i := 0 to |items|
        invariant EncodeAll(items) == After(texts, EncodeAll(items[i..]))
      {
        assert items[i..][1..] == items[i + 1..];
        if items[i].Tab? {
          TableDoesNotEncode(items[i]);
          return None;
        }
        var text := EncodeValueText(items[i]);
        if text.None? {
          return None;
        }
        AfterItem(texts, text.value, EncodeAll(items[i + 1..]));
        texts := texts + [text.value];
      }
      assert texts + [] == texts;
      r := Some([OPEN] + JoinTexts(texts) + [CLOSE]);
    case _ => r := None;
  }

  lemma {:induction false} OnlyAppend(a: seq<Entry>, b: seq<Entry>, k: Kind)
    ensures Only(a + b, k) == Only(a, k) + Only(b, k)
  {
    if a == [] {
      assert a + b == b;
    } else {
      assert (a + b)[1..] == a[1..] + b;
      OnlyAppend(a[1..], b, k);
    }
  }

  lemma OnlyStep(es: seq<Entry>, i: nat, k: Kind)
    requires i < |es|
    ensures Only(es[..i + 1], k) == Only(es[..i], k) + if KindOf(es[i]) == k then [es[i]] else []
  {
    assert es[..i + 1] == es[..i] + [es[i]];
    OnlyAppend(es[..i], [es[i]], k);
    assert [es[i]][1..] == [];
  }

  lemma OnlySteps(es: seq<Entry>, i: nat)
    requires i < |es|
    ensures var table, repeated := es[i].value.Tab?, !es[i].value.Tab? && IsRepeated(es[i].value);
      Only(es[..i + 1], Scalar) == (if table || repeated then Only(es[..i], Scalar) else Only(es[..i], Scalar) + [es[i]]) &&
      Only(es[..i + 1], Repeated) == (if repeated then Only(es[..i], Repeated) + [es[i]] else Only(es[..i], Repeated)) &&
      Only(es[..i + 1], Table) == (if table then Only(es[..i], Table) + [es[i]] else Only(es[..i], Table))
  {
    hide Only, IsRepeated;
    OnlyStep(es, i, Scalar);
    OnlyStep(es, i, Repeated);
    OnlyStep(es, i, Table);
  }

  lemma {:induction false} EachAppend(a: seq<Entry>, b: seq<Entry>)
    ensures ArrangeEach(a + b) == ArrangeEach(a) + ArrangeEach(b)
    decreases |a|
  {
    hide ArrangeValue;
    if a == [] {
      assert a + b == b;
    } else {
      assert (a + b)[1..] == a[1..] + b;
      EachAppend(a[1..], b);
    }
  }

  lemma {:induction false} EachOnly(es: seq<Entry>, k: Kind)
    ensures Only(ArrangeEach(es), k) == ArrangeEach(Only(es, k))
    decreases |es|
  {
    hide ArrangeValue;
    if es != [] {
      EachOnly(es[1..], k);
      assert ArrangeEach(es)[1..] == ArrangeEach(es[1..]);
      if KindOf(es[0]) == k {
        assert ([es[0]] + Only(es[1..], k))[1..] == Only(es[1..], k);
      }
    }
  }

  lemma EachByKey(es: seq<Entry>)
    ensures ByKey(ArrangeEach(es)) == ArrangeEach(ByKey(es))
  {
    hide ArrangedEntry, ArrangeEach;
    EachIsMap(es);
    assert Keyed(ArrangeEach(es)) == MapItems(Keyed(es), ArrangedEntry) by {
      forall i | 0 <= i < |es| ensures ArrangeEach(es)[i].key == es[i].key {
        ArrangedKey(es[i]);
      }
    }
    SortMap(Keyed(es), ArrangedEntry);
    EachIsMap(ByKey(es));
    assert |Sort(Keyed(es))| == |es|;
  }

  lemma ArrangedKey(e: Entry)
    ensures ArrangedEntry(e).key == e.key
  {
  }

  lemma EachIsMap(es: seq<Entry>)
    ensures forall i | 0 <= i < |es| :: ArrangeEach(es)[i] == ArrangedEntry(es[i])
  {
    hide ArrangedEntry;
    forall i | 0 <= i < |es| ensures ArrangeEach(es)[i] == ArrangedEntry(es[i]) {
      EachArranged(es, i);
    }
  }

  /** Sorting the entries of each kind and arranging what they hold is arranging the table. */
  lemma ArrangeByParts(es: seq<Entry>)
    ensures Arrange(es) ==
      ArrangeEach(ByKey(Only(es, Scalar)) + (ByKey(Only(es, Repeated)) + ByKey(Only(es, Table))))
  {
    hide ByKey, Only, ArrangeEach;
    var s, r, t := Only(es, Scalar), Only(es, Repeated), Only(es, Table);
    EachOnly(es, Scalar);
    EachOnly(es, Repeated);
    EachOnly(es, Table);
    EachByKey(s);
    EachByKey(r);
    EachByKey(t);
    EachAppend(ByKey(r), ByKey(t));
    EachAppend(ByKey(s), ByKey(r) + ByKey(t));
  }

  lemma InvalidKeyRefused(e: Entry, path: seq<bytes>, out: bytes)
    requires !ValidKey(e.key)
    ensures PrintEntry(e, path, out) == None
  {
  }

  lemma {:induction false} InvalidKeyFails(es: seq<Entry>, j: nat, path: seq<bytes>, out: bytes)
    requires j < |es| && !ValidKey(es[j].key)
    ensures PrintEntries(es, path, out) == None
    decreases es
  {
    hide ValidKey, PrintEntry;
    if j == 0 {
      InvalidKeyRefused(es[0], path, out);
    } else if PrintEntry(es[0], path, out).Some? {
      InvalidKeyFails(es[1..], j - 1, path, PrintEntry(es[0], path, out).value);
    }
  }

  lemma InvalidKeyArranged(es: seq<Entry>, i: nat, path: seq<bytes>, out: bytes)
    requires i < |es| && !ValidKey(es[i].key)
    ensures PrintEntries(Arrange(es), path, out) == None
  {
    hide ValidKey, PrintEntries, Arrange, ArrangeValue;
    ArrangeMember(es, i);
    var j :| 0 <= j < |Arrange(es)| && Arrange(es)[j] == ArrangedEntry(es[i]);
    InvalidKeyFails(Arrange(es), j, path, out);
  }

  lemma {:induction false} PrintAppend(a: seq<Entry>, b: seq<Entry>, path: seq<bytes>, out: bytes)
    ensures PrintEntries(a + b, path, out) == match PrintEntries(a, path, out)
      case None => None
      case Some(out1) => PrintEntries(b, path, out1)
    decreases |a|
  {
    hide PrintEntry;
    if a == [] {
      assert a + b == b;
    } else {
      assert (a + b)[1..] == a[1..] + b;
      if PrintEntry(a[0], path, out).Some? {
        PrintAppend(a[1..], b, path, PrintEntry(a[0], path, out).value);
      }
    }
  }

  /** Valid entries of one kind. */
  predicate Part(es: seq<Entry>, k: Kind) {
    forall e | e in es :: KindOf(e) == k && ValidKey(e.key)
  }

  lemma PartOf(es: seq<Entry>, k: Kind)
    requires forall i | 0 <= i < |es| :: ValidKey(es[i].key)
    ensures Part(ByKey(Only(es, k)), k) && forall e | e in ByKey(Only(es, k)) :: e in es
  {
    hide ByKey, Only, KindOf, ValidKey;
    ByKeyKinds(es, k);
  }

  predicate Parted(es: seq<Entry>, s: seq<Entry>, r: seq<Entry>, t: seq<Entry>) {
    s == Only(es, Scalar) && r == Only(es, Repeated) && t == Only(es, Table)
  }

  lemma PartedStep(es: seq<Entry>, i: nat, s: seq<Entry>, r: seq<Entry>, t: seq<Entry>)
    requires i < |es| && Parted(es[..i], s, r, t)
    ensures es[i].value.Tab? ==> Parted(es[..i + 1], s, r, t + [es[i]])
    ensures !es[i].value.Tab? && IsRepeated(es[i].value) ==> Parted(es[..i + 1], s, r + [es[i]], t)
    ensures !es[i].value.Tab? && !IsRepeated(es[i].value) ==> Parted(es[..i + 1], s + [es[i]], r, t)
  {
    hide Only, IsRepeated;
    OnlySteps(es, i);
  }

  /** Sorts entries into kinds; no part when a key is invalid. */
  method Partition(es: seq<Entry>) returns (ok: bool, s: seq<Entry>, r: seq<Entry>, t: seq<Entry>)
    ensures ok <==> forall i | 0 <= i < |es| :: ValidKey(es[i].key)
    ensures ok ==> Parted(es, s, r, t)
  {
    assert Parted(es[..0], [], [], []);
    hide ValidKey, Parted, IsRepeated;
    s, r, t := [], [], [];
    for i := 0 to |es|
      invariant Parted(es[..i], s, r, t)
      invariant forall k | 0 <= k < i :: ValidKey(es[k].key)
    {
      if !ValidKey(es[i].key) {
        return false, s, r, t;
      }
      PartedStep(es, i, s, r, t);
      if es[i].value.Tab? {
        t := t + [es[i]];
      } else if IsRepeated(es[i].value) {
        r := r + [es[i]];
      } else {
        s := s + [es[i]];
      }
    }
    assert es[..|es|] == es;
    ok := true;
  }

  lemma NothingPrints(path: seq<bytes>, out: bytes)
    ensures PrintEntries([], path, out) == Some(out) && PrintItems([], path, out) == Some(out)
  {
  }

  class TextOut {
    var text: bytes

    constructor ()
      ensures text == []
    {
      text := [];
    }

    method SectionBreak()
      modifies this
      ensures text == Break(old(text))
    {
      if text == [] {
        return;
      }
      if |text| >= 2 && text[|text| - 1] == NEWLINE && text[|text| - 2] == NEWLINE {
        return;
      }
      if text[|text| - 1] == NEWLINE {
        text := text + [NEWLINE];
      } else {
        text := text + [NEWLINE, NEWLINE];
      }
    }

    method WriteHeader(path: seq<bytes>, repeated: bool)
      modifies this
      ensures text == Line(Break(old(text)), HeaderText(path, repeated))
    {
      hide Break;
      SectionBreak();
      text := text + (if repeated then [OPEN, OPEN] + Join(path) + [CLOSE, CLOSE] else [OPEN] + Join(path) + [CLOSE]);
      text := text + [NEWLINE];
    }

    method WriteAssignment(key: bytes, value: bytes)
      modifies this
      ensures text == Line(old(text), AssignmentText(key, value))
    {
      ghost var was := text;
      text := text + key;
      text := text + [SPACE, EQUALS, SPACE];
      text := text + value;
      text := text + [NEWLINE];
      assert was + key + [SPACE, EQUALS, SPACE] + value == was + (key + ([SPACE, EQUALS, SPACE] + value));
    }

    /** One table: its scalars, its lists of tables, then its tables, each part by key. */
    method EncodeTable(es: seq<Entry>, path: seq<bytes>) returns (ok: bool)
      modifies this
      ensures PrintEntries(Arrange(es), path, old(text)) == if ok then Some(text) else None
      decreases es, 1
    {
      hide ValidKey, Arrange, PrintEntries, ByKey, Only, ArrangeEach, Part;
      var valid, s, r, t := Partition(es);
      if !valid {
        ghost var i :| 0 <= i < |es| && !ValidKey(es[i].key);
        InvalidKeyArranged(es, i, path, text);
        return false;
      }
      s, r, t := ByKey(s), ByKey(r), ByKey(t);
      PartOf(es, Scalar);
      PartOf(es, Repeated);
      PartOf(es, Table);
      ArrangeByParts(es);
      EachAppend(s, r + t);
      EachAppend(r, t);
      PrintAppend(ArrangeEach(s), ArrangeEach(r) + ArrangeEach(t), path, text);
      ok := EncodeScalars(s, path);
      if !ok {
        return;
      }
      PrintAppend(ArrangeEach(r), ArrangeEach(t), path, text);
      ok := EncodeRepeated(r, path, es);
      if !ok {
        return;
      }
      ok := EncodeTables(t, path, es);
    }

    method EncodeScalars(s: seq<Entry>, path: seq<bytes>) returns (ok: bool)
      requires Part(s, Scalar)
      modifies this
      ensures PrintEntries(ArrangeEach(s), path, old(text)) == if ok then Some(text) else None
    {
      hide ValidKey, PrintEntries, ArrangeEach, KindOf, ArrangedEntry;
      ghost var printed := ArrangeEach(s);
      EachIsMap(s);
      assert printed[0..] == printed;
      for i := 0 to |s|
        invariant PrintEntries(printed, path, old(text)) == PrintEntries(printed[i..], path, text)
      {
        assert s[i] in s;
        PrintStep(printed, i, path, text);
        ScalarStep(s[i], path, text);
        var value := EncodeValueText(s[i].value);
        if value.None? {
          return false;
        }
        WriteAssignment(s[i].key, value.value);
      }
      assert printed[|s|..] == [];
      NothingPrints(path, text);
      ok := true;
    }

    method EncodeRepeated(r: seq<Entry>, path: seq<bytes>, ghost es: seq<Entry>) returns (ok: bool)
      requires Part(r, Repeated) && forall e | e in r :: e in es
      modifies this
      ensures PrintEntries(ArrangeEach(r), path, old(text)) == if ok then Some(text) else None
      decreases es, 0
    {
      hide ValidKey, PrintEntries, ArrangeEach, KindOf, ArrangedEntry;
      ghost var printed := ArrangeEach(r);
      EachIsMap(r);
      assert printed[0..] == printed;
      for i := 0 to |r|
        invariant PrintEntries(printed, path, old(text)) == PrintEntries(printed[i..], path, text)
      {
        assert r[i] in r;
        PrintStep(printed, i, path, text);
        RepeatedStep(r[i], path, text);
        ghost var k :| 0 <= k < |es| && es[k] == r[i];
        ok := EncodeItems(r[i].value.items, path + [r[i].key]);
        if !ok {
          return false;
        }
      }
      assert printed[|r|..] == [];
      NothingPrints(path, text);
      ok := true;
    }

    method EncodeTables(t: seq<Entry>, path: seq<bytes>, ghost es: seq<Entry>) returns (ok: bool)
      requires Part(t, Table) && forall e | e in t :: e in es
      modifies this
      ensures PrintEntries(ArrangeEach(t), path, old(text)) == if ok then Some(text) else None
      decreases es, 0
    {
      hide ValidKey, PrintEntries, ArrangeEach, KindOf, ArrangedEntry, Arrange;
      ghost var printed := ArrangeEach(t);
      EachIsMap(t);
      assert printed[0..] == printed;
      for i := 0 to |t|
        invariant PrintEntries(printed, path, old(text)) == PrintEntries(printed[i..], path, text)
      {
        assert t[i] in t;
        PrintStep(printed, i, path, text);
        TableStep(t[i], path, text);
        ghost var k :| 0 <= k < |es| && es[k] == t[i];
        WriteHeader(path + [t[i].key], false);
        ok := EncodeTable(t[i].value.entries, path + [t[i].key]);
        if !ok {
          return false;
        }
      }
      assert printed[|t|..] == [];
      NothingPrints(path, text);
      ok := true;
    }

    /** A list of tables: one repeated section each. */
    method EncodeItems(items: seq<Value>, path: seq<bytes>) returns (ok: bool)
      requires forall x | x in items :: x.Tab?
      modifies this
      ensures PrintItems(ArrangeItems(items), path, old(text)) == if ok then Some(text) else None
      decreases items
    {
      hide Arrange, PrintEntries, PrintItems, ArrangeItems, ArrangeValue;
      ghost var printed := ArrangeItems(items);
      assert printed[0..] == printed;
      for i := 0 to |items|
        invariant PrintItems(printed, path, old(text)) == PrintItems(printed[i..], path, text)
      {
        ItemStep(items, i, path, text);
        assert items[i] in items;
        WriteHeader(path, true);
        ok := EncodeTable(items[i].entries, path);
        if !ok {
          return false;
        }
      }
      assert printed[|items|..] == [];
      NothingPrints(path, text);
      ok := true;
    }
  }

  lemma ScalarStep(e: Entry, path: seq<bytes>, out: bytes)
    requires KindOf(e) == Scalar && ValidKey(e.key)
    ensures PrintEntry(ArrangedEntry(e), path, out) ==
      if EncodeValue(e.value).None? then None else Some(Line(out, AssignmentText(e.key, EncodeValue(e.value).value)))
  {
    hide EncodeValue, ValidKey, Arrange, Line, AssignmentText;
  }

  lemma RepeatedStep(e: Entry, path: seq<bytes>, out: bytes)
    requires KindOf(e) == Repeated && ValidKey(e.key)
    ensures !e.value.Tab? && e.value.Arr? && forall x | x in e.value.items :: x.Tab?
    ensures PrintEntry(ArrangedEntry(e), path, out) == PrintItems(ArrangeItems(e.value.items), path + [e.key], out)
  {
    hide EncodeValue, ValidKey, Arrange, PrintItems, ArrangeItems;
  }

  lemma TableStep(e: Entry, path: seq<bytes>, out: bytes)
    requires KindOf(e) == Table && ValidKey(e.key)
    ensures e.value.Tab?
    ensures var inner := path + [e.key];
      PrintEntry(ArrangedEntry(e), path, out) ==
      PrintEntries(Arrange(e.value.entries), inner, Line(Break(out), HeaderText(inner, false)))
  {
    hide EncodeValue, ValidKey, Arrange, PrintEntries, Line, Break, HeaderText;
  }

  lemma ItemStep(items: seq<Value>, i: nat, path: seq<bytes>, out: bytes)
    requires i < |items| && forall x | x in items :: x.Tab?
    ensures forall k | 0 <= k <= |items| :: forall x | x in ArrangeItems(items)[k..] :: x.Tab?
    ensures items[i] in items
    ensures PrintItems(ArrangeItems(items)[i..], path, out) ==
      match PrintEntries(Arrange(items[i].entries), path, Line(Break(out), HeaderText(path, true)))
      case None => None
      case Some(out1) => PrintItems(ArrangeItems(items)[i + 1..], path, out1)
  {
    hide Arrange, PrintEntries, ArrangeItems, Line, Break, HeaderText;
    var r := ArrangeItems(items);
    assert |r| == |items| && forall x | x in r :: x.Tab?;
    forall k, x | 0 <= k <= |items| && x in r[k..] ensures x.Tab? {
      assert x in r;
    }
    ItemArranged(items, i);
    assert items[i] in items;
    assert r[i..][1..] == r[i + 1..] && r[i..][0] == r[i];
  }

  lemma PrintStep(es: seq<Entry>, i: nat, path: seq<bytes>, out: bytes)
    requires i < |es|
    ensures PrintEntries(es[i..], path, out) == match PrintEntry(es[i], path, out)
      case None => None
      case Some(out1) => PrintEntries(es[i + 1..], path, out1)
  {
    hide PrintEntry;
    assert es[i..][1..] == es[i + 1..];
  }

  /** The encoder: only a table prints. */
  method EncodeText(v: Value) returns (r: Option<bytes>)
    ensures r == Print(v)
  {
    hide PrintEntries, Arrange;
    if !v.Tab? {
      return None;
    }
    var out := new TextOut();
    var ok := out.EncodeTable(v.entries, []);
    r := if ok then Some(out.text) else None;
  }
}
