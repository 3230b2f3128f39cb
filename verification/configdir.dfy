/** Directory files: the decoder that picks a mode from the shape of the document. */
module ConfigDirs {
  import opened Exprs
  import opened TomlText
  import opened Config
  import opened Nesting
  import opened ConfigRoundTrip
  import opened ConfigReading

  const SLASH: byte := 47

  /** A directory takes every section below a library; a library itself cannot be repeated. */
  function DirInsert(es: seq<Entry>, s: Section): Option<seq<Entry>> {
    if s.path == [] || (s.repeated && |s.path| == 1) then None
    else if |s.path| == 1 then InsertRegular(es, s.path[0], s.entries)
    else Insert(es, s.path, s.entries, s.repeated)
  }

  function DirInsertAll(es: Option<seq<Entry>>, sections: seq<Section>): Option<seq<Entry>>
    decreases |sections|
  {
    if es.None? then None
    else if sections == [] then es
    else DirInsertAll(DirInsert(es.value, sections[0]), sections[1..])
  }

  function BuildDir(d: Doc): Option<seq<Entry>> {
    if d.root != [] then None else DirInsertAll(Some([]), d.sections)
  }

  predicate LooksLikeDir(d: Doc) {
    d.root == [] && d.sections != [] && SlashHeads(d.sections)
  }

  predicate SlashHeads(sections: seq<Section>) {
    forall i | 0 <= i < |sections| :: sections[i].path != [] && SLASH in sections[i].path[0]
  }

  predicate TopRepeated(sections: seq<Section>) {
    exists i :: 0 <= i < |sections| && sections[i].repeated && |sections[i].path| == 1
  }

  function BuildAuto(d: Doc): Option<seq<Entry>> {
    if LooksLikeDir(d) then BuildDir(d) else Build(d)
  }

  function DecodeAuto(s: bytes): Option<Value> {
    match Parse(s)
    case None => None
    case Some(d) =>
      match BuildAuto(d)
      case None => None
      case Some(es) => Some(Tab(es))
  }

  lemma LibraryNotRepeated(es: seq<Entry>, s: Section)
    requires s.repeated && |s.path| == 1
    ensures DirInsert(es, s) == None
  {
  }

  lemma OthersAgree(es: seq<Entry>, s: Section)
    requires !(s.repeated && |s.path| == 1)
    ensures DirInsert(es, s) == Insert(es, s.path, s.entries, s.repeated)
  {
  }

  lemma {:induction false} DirRefuses(es: Option<seq<Entry>>, sections: seq<Section>)
    requires TopRepeated(sections)
    ensures DirInsertAll(es, sections) == None
    decreases |sections|
  {
    hide DirInsert;
    if es.Some? {
      if sections[0].repeated && |sections[0].path| == 1 {
        LibraryNotRepeated(es.value, sections[0]);
      } else {
        var i :| 0 <= i < |sections| && sections[i].repeated && |sections[i].path| == 1;
        assert sections[1..][i - 1] == sections[i];
        DirRefuses(DirInsert(es.value, sections[0]), sections[1..]);
      }
    }
  }

  lemma {:induction false} DirAgrees(es: Option<seq<Entry>>, sections: seq<Section>)
    requires !TopRepeated(sections)
    ensures DirInsertAll(es, sections) == InsertAll(es, sections)
    decreases |sections|
  {
    hide Insert;
    if es.Some? && sections != [] {
      var s := sections[0];
      OthersAgree(es.value, s);
      assert forall i | 0 <= i < |sections[1..]| :: sections[1..][i] == sections[i + 1];
      DirAgrees(DirInsert(es.value, s), sections[1..]);
    }
  }

  /** A directory is the table of its text, when nothing stands before its sections and no library is a list. */
  lemma DirExactly(d: Doc)
    ensures BuildDir(d) == if d.root != [] || TopRepeated(d.sections) then None else Build(d)
  {
    hide DirInsertAll, InsertAll, TopRepeated;
    if TopRepeated(d.sections) {
      DirRefuses(Some([]), d.sections);
    } else {
      DirAgrees(Some([]), d.sections);
    }
  }

  /** Picking the mode changes nothing, except that a directory with a repeated library is refused. */
  lemma AutoExactly(d: Doc)
    ensures BuildAuto(d) == if LooksLikeDir(d) && TopRepeated(d.sections) then None else Build(d)
  {
    hide DirInsertAll, InsertAll, SlashHeads, TopRepeated;
    if TopRepeated(d.sections) {
      DirRefuses(Some([]), d.sections);
    } else {
      DirAgrees(Some([]), d.sections);
    }
  }

  // ---- what directories look like before they are printed -----------------------------------------

  /** Nothing but tables and lists of tables, all under library keys. */
  predicate DirTree(es: seq<Entry>) {
    es != [] && forall i | 0 <= i < |es| :: DirEntry(es[i])
  }

  predicate DirEntry(e: Entry) {
    !IsScalar(e.value) && SLASH in e.key
  }

  predicate HasList(es: seq<Entry>) {
    exists i :: 0 <= i < |es| && IsRepeated(es[i].value)
  }

  lemma {:induction false} UnderHeads(key: bytes, sections: seq<Section>)
    requires Deep(sections)
    ensures forall i | 0 <= i < |sections| :: var p := Under([key], sections)[i].path; |p| >= 2 && p[0] == key
  {
    if sections != [] {
      assert sections[0].path != [];
      assert forall i | 0 <= i < |sections[1..]| :: sections[1..][i] == sections[i + 1];
      UnderHeads(key, sections[1..]);
      assert Under([key], sections)[1..] == Under([key], sections[1..]);
      forall i | 0 <= i < |sections| ensures var p := Under([key], sections)[i].path; |p| >= 2 && p[0] == key {
        if i > 0 { assert Under([key], sections)[i] == Under([key], sections[1..])[i - 1]; }
      }
    }
  }

  predicate Headed(sections: seq<Section>, key: bytes) {
    forall i | 0 <= i < |sections| :: sections[i].path != [] && sections[i].path[0] == key
  }

  lemma {:induction false} ItemHeads(items: seq<Value>, key: bytes)
    requires forall x | x in items :: x.Tab?
    ensures Headed(ItemSections(items, key), key)
    decreases |items|
  {
    hide SectionsOf, Scalars, Under;
    if items != [] {
      assert items[0] in items;
      SectionsDeep(items[0].entries);
      UnderHeads(key, SectionsOf(items[0].entries));
      ItemHeads(items[1..], key);
    }
  }

  /** The sections of a nested entry all lie under its key, and the first is the entry itself. */
  lemma EntryHeads(e: Entry)
    requires !IsScalar(e.value)
    ensures EntrySections(e) != [] && Headed(EntrySections(e), e.key)
    ensures TopRepeated(EntrySections(e)) <==> IsRepeated(e.value)
  {
    hide SectionsOf, Scalars, Under;
    if e.value.Tab? {
      SectionsDeep(e.value.entries);
      UnderHeads(e.key, SectionsOf(e.value.entries));
    } else {
      ItemHeads(e.value.items, e.key);
      assert EntrySections(e)[0].repeated && EntrySections(e)[0].path == [e.key];
    }
  }

  lemma HeadsAppend(a: seq<Section>, b: seq<Section>)
    ensures SlashHeads(a + b) <==> SlashHeads(a) && SlashHeads(b)
    ensures TopRepeated(a + b) <==> TopRepeated(a) || TopRepeated(b)
  {
    assert forall i | 0 <= i < |a| :: (a + b)[i] == a[i];
    assert forall i | 0 <= i < |b| :: (a + b)[|a| + i] == b[i];
  }

  lemma HasListHead(es: seq<Entry>)
    requires es != []
    ensures HasList(es) <==> IsRepeated(es[0].value) || HasList(es[1..])
    ensures NoScalar(es) <==> !IsScalar(es[0].value) && NoScalar(es[1..])
  {
    hide IsRepeated, IsScalar;
    assert forall i | 0 <= i < |es[1..]| :: es[1..][i] == es[i + 1];
    assert forall i | 1 <= i < |es| :: es[i] == es[1..][i - 1];
  }

  lemma {:induction false} TreeHeads(es: seq<Entry>)
    requires NoScalar(es)
    ensures SectionsOf(es) == [] <==> es == []
    ensures SlashHeads(SectionsOf(es)) <==> AllSlash(es)
    ensures TopRepeated(SectionsOf(es)) <==> HasList(es)
    decreases |es|
  {
    assert !TopRepeated([]);
    hide EntrySections, IsScalar, IsRepeated, TopRepeated, SlashHeads, AllSlash, Headed, HasList, NoScalar;
    NothingHeads();
    if es != [] {
      HasListHead(es);
      EntryHeads(es[0]);
      TreeHeads(es[1..]);
      HeadsAppend(EntrySections(es[0]), SectionsOf(es[1..]));
      HeadedSlash(EntrySections(es[0]), es[0].key);
      AllSlashHead(es);
    }
  }

  lemma NothingHeads()
    ensures SlashHeads([]) && AllSlash([]) && !HasList([])
  {
  }

  predicate AllSlash(es: seq<Entry>) {
    forall i | 0 <= i < |es| :: SLASH in es[i].key
  }

  lemma AllSlashHead(es: seq<Entry>)
    requires es != []
    ensures AllSlash(es) <==> SLASH in es[0].key && AllSlash(es[1..])
  {
    assert forall i | 0 <= i < |es[1..]| :: es[1..][i] == es[i + 1];
    assert forall i | 1 <= i < |es| :: es[i] == es[1..][i - 1];
  }

  lemma HeadedSlash(sections: seq<Section>, key: bytes)
    requires sections != [] && Headed(sections, key)
    ensures SlashHeads(sections) <==> SLASH in key
  {
    assert sections[0].path[0] == key;
  }

  lemma {:induction false} ScalarsNone(es: seq<Entry>)
    ensures Scalars(es) == [] <==> NoScalar(es)
    decreases |es|
  {
    if es != [] {
      ScalarsNone(es[1..]);
      HasListHead(es);
    }
  }

  lemma ArrangedAt(es: seq<Entry>, i: nat) returns (j: nat)
    requires i < |es|
    ensures j < |Arrange(es)| && DirEntry(Arrange(es)[j]) == DirEntry(es[i])
    ensures IsRepeated(Arrange(es)[j].value) == IsRepeated(es[i].value)
  {
    hide ArrangeValue, Arrange, IsScalar, IsRepeated;
    ArrangeMember(es, i);
    j :| 0 <= j < |Arrange(es)| && Arrange(es)[j] == ArrangedEntry(es[i]);
    ArrangeKeepsKind(es[i].value);
  }

  lemma ArrangedSource(es: seq<Entry>, j: nat) returns (i: nat)
    requires j < |Arrange(es)|
    ensures i < |es| && DirEntry(Arrange(es)[j]) == DirEntry(es[i])
    ensures IsRepeated(Arrange(es)[j].value) == IsRepeated(es[i].value)
  {
    hide ArrangeValue, Arrange, IsScalar, IsRepeated;
    i := ArrangedFrom(es, j);
    ArrangeKeepsKind(es[i].value);
  }

  lemma ArrangeDirTree(es: seq<Entry>)
    ensures DirTree(Arrange(es)) <==> DirTree(es)
    ensures HasList(Arrange(es)) <==> HasList(es)
  {
    hide Arrange, DirEntry, IsRepeated;
    var fs := Arrange(es);
    if es != [] { var j := ArrangedAt(es, 0); }
    if fs != [] { var i := ArrangedSource(es, 0); }
    if DirTree(es) {
      forall j | 0 <= j < |fs| ensures DirEntry(fs[j]) { var i := ArrangedSource(es, j); }
    }
    if DirTree(fs) {
      forall i | 0 <= i < |es| ensures DirEntry(es[i]) { var j := ArrangedAt(es, i); }
    }
    if HasList(es) {
      var i :| 0 <= i < |es| && IsRepeated(es[i].value);
      var j := ArrangedAt(es, i);
    }
    if HasList(fs) {
      var j :| 0 <= j < |fs| && IsRepeated(fs[j].value);
      var i := ArrangedSource(es, j);
    }
  }

  predicate SameKind(v: Value, w: Value) {
    IsScalar(v) == IsScalar(w) && IsRepeated(v) == IsRepeated(w)
  }

  lemma ArrangeKeepsKind(v: Value)
    ensures SameKind(ArrangeValue(v), v)
  {
    hide ArrangeValue;
  }

  lemma AutoOfFlat(v: Value)
    requires v.Tab? && Good(v) && Flat(v)
    ensures Print(v).Some?
    ensures DecodeAuto(Print(v).value) == if DirTree(v.entries) && HasList(v.entries) then None else Some(ArrangeValue(v))
  {
    assert Reads([], Some(EMPTY));
    hide GoodEntries, FlatEntries, Arrange, PrintEntries, AddEntries, ParseText, OrderedEntries, IsAscii, Flush, Build, BuildAuto,
      SectionsOf, Scalars, TopRepeated, SlashHeads, HasList;
    var es := Arrange(v.entries);
    PrintedDecodes(v);
    ArrangeKeepsEntries(v.entries);
    ArrangeOrdersEntries(v.entries);
    EntriesRead(es, [], [], Some(EMPTY));
    DocumentShape(es);
    AutoExactly(AddEntries(Some(EMPTY), es, []).value);
    ArrangeDirTree(v.entries);
    ScalarsNone(es);
    if NoScalar(es) { TreeHeads(es); }
  }

  lemma AutoDecodes(s: bytes)
    ensures DecodeAuto(s).Some? ==> DecodeAuto(s) == Decode(s)
  {
    hide BuildAuto, Build, Parse;
    if Parse(s).Some? { AutoExactly(Parse(s).value); }
  }

  /** The decoder that picks its mode restores a table exactly when it is good, flat, and not a directory with a list at the top. */
  lemma AutoRoundTrip(v: Value)
    requires v.Tab?
    ensures (Print(v).Some? && DecodeAuto(Print(v).value) == Some(ArrangeValue(v))) <==>
      Good(v) && Flat(v) && !(DirTree(v.entries) && HasList(v.entries))
  {
    hide Print, Decode, DecodeAuto, Good, Flat, DirTree, HasList, ArrangeValue;
    if Good(v) && Flat(v) { AutoOfFlat(v); }
    if Print(v).Some? { AutoDecodes(Print(v).value); }
    RoundTripExactly(v);
  }

  // ---- trees that do not survive ------------------------------------------------------------------

  /** `k` holding a list of one table, which holds the given entries. */
  function ListUnder(key: bytes, inner: seq<Entry>): Value {
    Tab([Entry(key, Arr([Tab(inner)]))])
  }

  lemma ListUnderGood(key: bytes, inner: seq<Entry>)
    requires ValidKey(key) && GoodEntries(inner)
    ensures Good(ListUnder(key, inner)) && (Flat(ListUnder(key, inner)) <==> AllScalar(inner))
  {
    hide ValidKey;
    var list := Arr([Tab(inner)]);
    assert IsRepeated(list) && Good(Tab(inner));
    assert Good(list);
    assert Flat(list) <==> AllScalar(inner) by { assert list.items[0] == Tab(inner); }
    var es := ListUnder(key, inner).entries;
    assert es[0] == Entry(key, list);
  }

  /** A table inside a list of tables prints, and neither decoder reads the text back. */
  lemma NestedListIsRefused()
    ensures var v := ListUnder([97], [Entry([98], Tab([]))]); Good(v) && Print(v).Some? && Decode(Print(v).value) == None
  {
    hide Print, Decode, ArrangeValue;
    var inner := [Entry([98], Tab([]))];
    assert GoodEntries([]);
    assert Good(inner[0].value) && ValidKey(inner[0].key);
    assert GoodEntries(inner);
    assert !IsScalar(inner[0].value);
    ListUnderGood([97], inner);
    PrintedDecodes(ListUnder([97], inner));
  }

  lemma ListUnderDir(key: bytes)
    requires SLASH in key
    ensures var es := ListUnder(key, []).entries; DirTree(es) && HasList(es)
  {
    var es := ListUnder(key, []).entries;
    assert IsRepeated(es[0].value);
  }

  /** A list of tables under a library key reads back as a table, but the decoder that picks its mode refuses it. */
  lemma ListedLibraryIsRefused(key: bytes)
    requires ValidKey(key) && SLASH in key
    ensures var v := ListUnder(key, []);
      Print(v).Some? && Decode(Print(v).value) == Some(v) && DecodeAuto(Print(v).value) == None
  {
    assert GoodEntries([]) && AllScalar([]);
    hide Print, Decode, DecodeAuto, Good, Flat, ValidKey, ListUnder, DirTree, HasList;
    ListUnderGood(key, []);
    ListUnderArranged(key);
    ListUnderTable(key);
    PrintedDecodes(ListUnder(key, []));
    AutoOfFlat(ListUnder(key, []));
    ListUnderDir(key);
  }

  lemma ListUnderTable(key: bytes)
    ensures ListUnder(key, []).Tab?
  {
  }

  lemma ListUnderArranged(key: bytes)
    ensures ArrangeValue(ListUnder(key, [])) == ListUnder(key, [])
  {
    var list := Arr([Tab([])]);
    var e := Entry(key, list);
    assert ArrangeEach([]) == [] && Grouped([]) == [] by {
      assert Only([], Scalar) == [] && ByKey([]) == [];
    }
    assert ArrangeValue(Tab([])) == Tab([]);
    assert ArrangeItems([Tab([])]) == [Tab([])] + ArrangeItems([]);
    assert ArrangeValue(list) == list;
    GroupedMoves([e]);
    ArrangeMember([e], 0);
    assert ArrangeEach([e]) == [e] + ArrangeEach([]);
    OnlyOneEntry(Grouped([e]), e);
  }

  lemma OnlyOneEntry(es: seq<Entry>, e: Entry)
    requires multiset(es) == multiset([e])
    ensures es == [e]
  {
    assert |multiset(es)| == 1;
    assert es[0] in multiset(es);
  }
}
