/** The order and the spacing of printed config text. */
module ConfigPrinted {
  import opened Order
  import opened Exprs
  import opened TomlText
  import opened Config
  import opened ConfigRoundTrip

  // ---- the order of entries --------------------------------------------------------------------

  /** Scalars come before lists of tables, which come before tables. */
  function Rank(e: Entry): nat {
    if e.value.Tab? then 2 else if IsRepeated(e.value) then 1 else 0
  }

  predicate NotAfter(a: Entry, b: Entry) {
    Rank(a) < Rank(b) || (Rank(a) == Rank(b) && (a.key == b.key || Less(a.key, b.key)))
  }

  lemma ByKeyOrdered(es: seq<Entry>, rank: nat)
    requires forall e | e in es :: Rank(e) == rank
    ensures var r := ByKey(es); forall i, j | 0 <= i < j < |r| :: NotAfter(r[i], r[j])
  {
    hide Less, Rank;
    var xs := Sort(Keyed(es));
    SortProperties(Keyed(es));
    forall i | 0 <= i < |xs| ensures xs[i].key == xs[i].value.key && Rank(xs[i].value) == rank {
      assert xs[i] in Keyed(es);
      var k :| 0 <= k < |es| && Keyed(es)[k] == xs[i];
      assert es[k] in es;
    }
    forall i, j | 0 <= i < j < |xs| ensures NotAfter(xs[i].value, xs[j].value) {
      assert LessEq(xs[i].key, xs[j].key);
      LessTotal(xs[i].key, xs[j].key);
    }
  }

  lemma ByKeyRank(es: seq<Entry>, k: Kind)
    ensures forall e | e in ByKey(Only(es, k)) :: Rank(e) == match k case Scalar => 0 case Repeated => 1 case Table => 2
  {
    ByKeyKinds(es, k);
  }

  lemma OnlyRank(es: seq<Entry>, k: Kind)
    ensures forall e | e in Only(es, k) :: Rank(e) == match k case Scalar => 0 case Repeated => 1 case Table => 2
  {
    assert forall e | e in Only(es, k) :: KindOf(e) == k;
  }

  /** Printed entries go by kind, and by key in byte order within a kind. */
  lemma GroupedByRank(es: seq<Entry>)
    ensures var r := Grouped(es); forall i, j | 0 <= i < j < |r| :: NotAfter(r[i], r[j])
  {
    hide ByKey, Only, Less, Rank;
    OnlyRank(es, Scalar);
    OnlyRank(es, Repeated);
    OnlyRank(es, Table);
    ByKeyRank(es, Scalar);
    ByKeyRank(es, Repeated);
    ByKeyRank(es, Table);
    ByKeyOrdered(Only(es, Scalar), 0);
    ByKeyOrdered(Only(es, Repeated), 1);
    ByKeyOrdered(Only(es, Table), 2);
    var a, b, c := ByKey(Only(es, Scalar)), ByKey(Only(es, Repeated)), ByKey(Only(es, Table));
    var r := a + (b + c);
    forall i, j | 0 <= i < j < |r| ensures NotAfter(r[i], r[j]) {
      if j < |a| {
        assert r[i] == a[i] && r[j] == a[j];
      } else if i < |a| {
        assert a[i] in a && (b + c)[j - |a|] in b + c;
        assert r[j] in b || r[j] in c;
      } else {
        var p, q := i - |a|, j - |a|;
        assert r[i] == (b + c)[p] && r[j] == (b + c)[q];
        if q >= |b| && p < |b| { assert b[p] in b && c[q - |b|] in c; }
      }
    }
  }

  // ---- spacing ------------------------------------------------------------------------------------

  /** The codes of ASCII characters. */
  function Codes(s: string): (r: bytes)
    ensures |r| == |s| && forall i | 0 <= i < |r| && s[i] < 128 as char :: r[i] == s[i] as int
  {
    seq(|s|, i requires 0 <= i < |s| => if s[i] < 128 as char then s[i] as int else 0)
  }

  /** Five characters are written with a backslash, and every other as it is. */
  lemma EscapesWritten(b: byte, rest: bytes)
    ensures Escape([b] + rest) ==
      (match b case 92 => [92, 92] case 34 => [92, 34] case 10 => [92, 110] case 13 => [92, 114] case 9 => [92, 116] case _ => [b]) + Escape(rest)
  {
    assert ([b] + rest)[1..] == rest;
  }

  function SampleEntries(): seq<Entry> {
    [Entry([97], Num([49])), Entry([108], Arr([Num([49]), Flag(true)])),
     Entry([116], Arr([Tab([Entry([120], Value.Str([113]))])])),
     Entry([122], Tab([Entry([121], Flag(false))]))]
  }

  lemma ScalarLine(e: Entry, path: seq<bytes>, out: bytes, text: bytes)
    requires ValidKey(e.key) && !e.value.Tab? && !IsRepeated(e.value) && EncodeValue(e.value) == Some(text)
    ensures PrintEntry(e, path, out) == Some(out + (e.key + ([32, 61, 32] + (text + [10]))))
  {
    hide ValidKey, EncodeValue;
    assert out + (e.key + ([SPACE, EQUALS, SPACE] + text)) + [NEWLINE] == out + (e.key + ([32, 61, 32] + (text + [10])));
  }

  /** A section's header stands after a blank line, which is not written twice, and not at the start. */
  lemma HeaderLine(out: bytes, header: bytes)
    ensures Line(Break(out), header) ==
      if out == [] then header + [10]
      else if |out| >= 2 && out[|out| - 2..] == [10, 10] then out + (header + [10])
      else if out[|out| - 1] == 10 then out + ([10] + (header + [10]))
      else out + ([10, 10] + (header + [10]))
  {
    assert |out| >= 2 ==> out[|out| - 2..] == [out[|out| - 2], out[|out| - 1]];
    assert [] + header + [NEWLINE] == header + [10];
    assert out + [NEWLINE] + header + [NEWLINE] == out + ([10] + (header + [10]));
    assert out + [NEWLINE, NEWLINE] + header + [NEWLINE] == out + ([10, 10] + (header + [10]));
    assert out + header + [NEWLINE] == out + (header + [10]);
  }

  lemma NextEntry(es: seq<Entry>, path: seq<bytes>, out: bytes, out1: bytes)
    requires es != [] && PrintEntry(es[0], path, out) == Some(out1)
    ensures PrintEntries(es, path, out) == PrintEntries(es[1..], path, out1)
  {
    hide PrintEntry;
  }

  lemma NoEntries(path: seq<bytes>, out: bytes)
    ensures PrintEntries([], path, out) == Some(out)
  {
  }

  lemma SampleArray()
    ensures EncodeValue(Arr([Num([49]), Flag(true)])) == Some(Codes("[1, true]"))
  {
    var vs := [Num([49]), Flag(true)];
    assert vs[1..] == [Flag(true)] && JoinValues([Flag(true)]) == Some(TrueText());
    assert EncodeValue(Num([49])) == Some([49]);
    assert JoinValues(vs) == Some([49] + ([COMMA, SPACE] + TrueText()));
    hide JoinValues;
    assert [OPEN] + ([49] + ([COMMA, SPACE] + TrueText())) + [CLOSE] == Codes("[1, true]");
  }

  lemma SampleScalars()
    ensures EncodeValue(Num([49])) == Some([49]) && EncodeValue(Flag(false)) == Some(Codes("false"))
    ensures EncodeValue(Value.Str([113])) == Some([34, 113, 34])
  {
    assert [113][1..] == [] && Escape([113]) == EscapeByte(113) + Escape([]) == [113];
    assert [QUOTE] + [113] + [QUOTE] == [34, 113, 34];
    assert FalseText() == Codes("false");
  }

  lemma SampleKinds()
    ensures IsScalar(Num([49])) && IsScalar(Flag(false)) && IsScalar(Value.Str([113])) && IsScalar(Arr([Num([49]), Flag(true)]))
    ensures IsRepeated(Arr([Tab([Entry([120], Value.Str([113]))])]))
    ensures ValidKey([97]) && ValidKey([108]) && ValidKey([116]) && ValidKey([120]) && ValidKey([121]) && ValidKey([122])
  {
    var vs := [Num([49]), Flag(true)];
    assert vs[0] in vs && !vs[0].Tab?;
  }

  function AfterScalars(): bytes { Codes("a = 1\nl = [1, true]\n") }
  function AfterList(): bytes { Codes("a = 1\nl = [1, true]\n\n[[t]]\nx = \"q\"\n") }
  function AfterTable(): bytes { Codes("a = 1\nl = [1, true]\n\n[[t]]\nx = \"q\"\n\n[z]\ny = false\n") }

  lemma FirstLine()
    ensures PrintEntry(SampleEntries()[0], [], []) == Some(Codes("a = 1\n"))
  {
    hide EncodeValue, PrintEntry, ValidKey, IsScalar;
    SampleKinds();
    SampleScalars();
    Scalars(SampleEntries()[0]);
    ScalarLine(SampleEntries()[0], [], [], [49]);
    assert [] + ([97] + ([32, 61, 32] + ([49] + [10]))) == Codes("a = 1\n");
  }

  lemma SecondLine()
    ensures PrintEntry(SampleEntries()[1], [], Codes("a = 1\n")) == Some(AfterScalars())
  {
    hide EncodeValue, PrintEntry, ValidKey, IsScalar;
    SampleKinds();
    SampleArray();
    Scalars(SampleEntries()[1]);
    ScalarLine(SampleEntries()[1], [], Codes("a = 1\n"), Codes("[1, true]"));
    hide SampleEntries;
    assert Codes("a = 1\n") + ([108] + ([32, 61, 32] + (Codes("[1, true]") + [10]))) == AfterScalars();
  }

  lemma Scalars(e: Entry)
    requires IsScalar(e.value)
    ensures !e.value.Tab? && !IsRepeated(e.value)
  {
  }

  lemma BeforeList()
    ensures var o := AfterScalars(); o[|o| - 1] == 10 && o[|o| - 2..] != [10, 10] && o != []
  {
    var o := AfterScalars();
    assert o[|o| - 2] == 93 && o[|o| - 2..][0] == 93;
  }

  lemma BeforeTable()
    ensures var o := AfterList(); o[|o| - 1] == 10 && o[|o| - 2..] != [10, 10] && o != []
  {
    var o := AfterList();
    assert o[|o| - 2] == 34 && o[|o| - 2..][0] == 34;
  }

  lemma ListText()
    ensures AfterScalars() + ([10] + ([91, 91, 116, 93, 93] + [10])) + ([120] + ([32, 61, 32] + ([34, 113, 34] + [10]))) == AfterList()
  {
  }

  lemma TableText()
    ensures AfterList() + ([10] + ([91, 122, 93] + [10])) + ([121] + ([32, 61, 32] + (Codes("false") + [10]))) == AfterTable()
  {
  }

  lemma SampleListLines()
    ensures PrintEntry(SampleEntries()[2], [], AfterScalars()) == Some(AfterList())
  {
    hide EncodeValue, PrintEntries, ValidKey, IsScalar, Break, Line, HeaderText, AfterScalars, AfterList;
    SampleKinds();
    SampleScalars();
    var x := Entry([120], Value.Str([113]));
    var items := SampleEntries()[2].value.items;
    assert items[0] == Tab([x]) && items[1..] == [] && [] + [[116]] == [[116]];
    HeaderLine(AfterScalars(), [91, 91, 116, 93, 93]);
    HeaderIs([[116]]);
    var head := Line(Break(AfterScalars()), HeaderText([[116]], true));
    BeforeList();
    assert [91, 91] + [116] + [93, 93] == [91, 91, 116, 93, 93];
    assert head == AfterScalars() + ([10] + ([91, 91, 116, 93, 93] + [10]));
    Scalars(x);
    ScalarLine(x, [[116]], head, [34, 113, 34]);
    ListText();
    hide PrintEntry;
    NextEntry([x], [[116]], head, AfterList());
    NoEntries([[116]], AfterList());
    assert [x][1..] == [];
    ListOfOne(items, [[116]], AfterScalars(), AfterList());
    SampleListEntry();
  }

  lemma HeaderIs(path: seq<bytes>)
    requires |path| == 1
    ensures HeaderText(path, true) == [91, 91] + path[0] + [93, 93] && HeaderText(path, false) == [91] + path[0] + [93]
  {
  }

  lemma ListOfOne(items: seq<Value>, path: seq<bytes>, out: bytes, out1: bytes)
    requires |items| == 1 && items[0].Tab?
    requires PrintEntries(items[0].entries, path, Line(Break(out), HeaderText(path, true))) == Some(out1)
    ensures (forall x | x in items :: x.Tab?) && PrintItems(items, path, out) == Some(out1)
  {
    hide PrintEntries, Break, HeaderText, Line;
    assert items[1..] == [];
  }

  lemma SampleListEntry()
    ensures var e := SampleEntries()[2];
      (forall x | x in e.value.items :: x.Tab?) && forall out :: PrintEntry(e, [], out) == PrintItems(e.value.items, [[116]], out)
  {
    SampleKinds();
    hide PrintItems, ValidKey;
    assert [] + [[116]] == [[116]];
  }

  lemma SampleTableLines()
    ensures PrintEntry(SampleEntries()[3], [], AfterList()) == Some(AfterTable())
  {
    hide EncodeValue, ValidKey, IsScalar, Break, Line, HeaderText, PrintEntries, AfterList, AfterTable;
    SampleKinds();
    SampleScalars();
    var y := Entry([121], Flag(false));
    assert [] + [[122]] == [[122]];
    HeaderLine(AfterList(), [91, 122, 93]);
    HeaderIs([[122]]);
    var head := Line(Break(AfterList()), HeaderText([[122]], false));
    BeforeTable();
    assert [91] + [122] + [93] == [91, 122, 93];
    assert head == AfterList() + ([10] + ([91, 122, 93] + [10]));
    Scalars(y);
    ScalarLine(y, [[122]], head, Codes("false"));
    TableText();
    NextEntry([y], [[122]], head, AfterTable());
    NoEntries([[122]], AfterTable());
    assert [y][1..] == [];
  }

  /** A scalar, an array, a list of one table, and a table. */
  lemma SamplePrinted()
    ensures PrintEntries(SampleEntries(), [], []) == Some(AfterTable())
  {
    hide PrintEntry, PrintEntries;
    var es := SampleEntries();
    FirstLine();
    SecondLine();
    SampleListLines();
    SampleTableLines();
    NextEntry(es, [], [], Codes("a = 1\n"));
    NextEntry(es[1..], [], Codes("a = 1\n"), AfterScalars());
    NextEntry(es[2..], [], AfterScalars(), AfterList());
    NextEntry(es[3..], [], AfterList(), AfterTable());
    NoEntries([], AfterTable());
    assert es[1..][1..] == es[2..] && es[2..][1..] == es[3..] && es[3..][1..] == [];
  }
}
