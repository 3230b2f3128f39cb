/** Printed config text reads back as the tree it was printed from, up to entry order, exactly when the tree is flat. */
module ConfigRoundTrip {
  import opened Order
  import opened Exprs
  import opened TomlText
  import opened Config
  import opened Nesting

  // ---- printing order only moves entries ----------------------------------------------------

  lemma UnkeyedHead(x: Item<Entry>, xs: seq<Item<Entry>>)
    ensures Unkeyed([x] + xs) == [x.value] + Unkeyed(xs)
    ensures multiset(Unkeyed([x] + xs)) == multiset{x.value} + multiset(Unkeyed(xs))
  {
    assert Unkeyed([x] + xs) == [x.value] + Unkeyed(xs);
  }

  lemma {:induction false} InsertMoves(x: Item<Entry>, xs: seq<Item<Entry>>)
    ensures multiset(Unkeyed(Order.Insert(x, xs))) == multiset{x.value} + multiset(Unkeyed(xs))
    decreases |xs|
  {
    hide Unkeyed;
    UnkeyedHead(x, xs);
    if xs != [] && Order.Insert(x, xs) != [x] + xs {
      InsertMoves(x, xs[1..]);
      UnkeyedHead(xs[0], Order.Insert(x, xs[1..]));
      UnkeyedHead(xs[0], xs[1..]);
      assert xs == [xs[0]] + xs[1..];
    }
  }

  lemma {:induction false} SortMoves(xs: seq<Item<Entry>>)
    ensures multiset(Unkeyed(Sort(xs))) == multiset(Unkeyed(xs))
    decreases |xs|
  {
    hide Unkeyed;
    if xs != [] {
      SortMoves(xs[1..]);
      InsertMoves(xs[0], Sort(xs[1..]));
      UnkeyedHead(xs[0], xs[1..]);
      assert xs == [xs[0]] + xs[1..];
    }
  }

  lemma ByKeyMoves(es: seq<Entry>)
    ensures multiset(ByKey(es)) == multiset(es)
  {
    SortMoves(Keyed(es));
    assert Unkeyed(Keyed(es)) == es;
  }

  lemma {:induction false} OnlyParts(es: seq<Entry>)
    ensures multiset(es) == multiset(Only(es, Scalar)) + multiset(Only(es, Repeated)) + multiset(Only(es, Table))
  {
    if es != [] {
      OnlyParts(es[1..]);
      assert es == [es[0]] + es[1..];
    }
  }

  /** Grouping and sorting a table's entries is a permutation. */
  lemma GroupedMoves(es: seq<Entry>)
    ensures multiset(Grouped(es)) == multiset(es)
    ensures forall e :: e in Grouped(es) <==> e in es
  {
    hide ByKey, Only;
    OnlyParts(es);
    ByKeyMoves(Only(es, Scalar));
    ByKeyMoves(Only(es, Repeated));
    ByKeyMoves(Only(es, Table));
    forall e ensures e in Grouped(es) <==> e in es {
      assert e in Grouped(es) <==> e in multiset(Grouped(es));
      assert e in es <==> e in multiset(es);
    }
  }

  // ---- what arranging keeps -------------------------------------------------------------------

  lemma {:induction false} DistinctCount(es: seq<Entry>, e: Entry)
    requires Distinct(es)
    ensures multiset(es)[e] == if e in es then 1 else 0
  {
    if es != [] {
      assert es == [es[0]] + es[1..];
      DistinctCount(es[1..], e);
      if e in es[1..] {
        var k :| 0 <= k < |es[1..]| && es[1..][k] == e;
        assert es[k + 1] == e;
      }
    }
  }

  lemma TwiceCounted(es: seq<Entry>, i: nat, j: nat)
    requires i < j < |es| && es[i] == es[j]
    ensures multiset(es)[es[i]] >= 2
  {
    assert es == es[..j] + es[j..];
    assert es[..j][i] == es[i] && es[j..][0] == es[i];
    assert es[i] in multiset(es[..j]) && es[i] in multiset(es[j..]);
  }

  lemma DistinctMoves(es: seq<Entry>, fs: seq<Entry>)
    requires Distinct(es) && multiset(es) == multiset(fs)
    ensures Distinct(fs)
  {
    forall i, j | 0 <= i < j < |fs| ensures fs[i].key != fs[j].key {
      assert fs[i] in multiset(fs) && fs[j] in multiset(fs);
      assert fs[i] in es && fs[j] in es;
      var a :| 0 <= a < |es| && es[a] == fs[i];
      var b :| 0 <= b < |es| && es[b] == fs[j];
      DistinctCount(es, fs[i]);
      if fs[i] == fs[j] {
        TwiceCounted(fs, i, j);
        assert false;
      }
      assert a < b || b < a;
    }
  }

  function ArrangedEntry(e: Entry): Entry {
    Entry(e.key, ArrangeValue(e.value))
  }

  ghost predicate Arises(es: seq<Entry>, e: Entry) {
    exists i :: 0 <= i < |es| && e == ArrangedEntry(es[i])
  }

  lemma {:induction false} EachArranged(es: seq<Entry>, i: nat)
    requires i < |es|
    ensures ArrangeEach(es)[i] == ArrangedEntry(es[i])
    decreases |es|
  {
    hide ArrangeValue;
    if i > 0 { EachArranged(es[1..], i - 1); }
  }

  lemma {:induction false} ItemArranged(items: seq<Value>, i: nat)
    requires i < |items| && forall x | x in items :: x.Tab?
    ensures ArrangeItems(items)[i] == ArrangeValue(items[i])
    decreases |items|
  {
    hide ArrangeValue;
    assert items[0] in items;
    if i > 0 { ItemArranged(items[1..], i - 1); }
  }

  /** An entry of an arranged table is an arranged entry of the table, and the other way round. */
  lemma ArrangeMembers(es: seq<Entry>, e: Entry)
    ensures e in Arrange(es) <==> Arises(es, e)
  {
    hide ArrangeValue, Grouped, ArrangeEach;
    var each := ArrangeEach(es);
    GroupedMoves(each);
    forall i | 0 <= i < |es| ensures each[i] == ArrangedEntry(es[i]) {
      EachArranged(es, i);
    }
  }

  lemma ArrangeMember(es: seq<Entry>, i: nat)
    requires i < |es|
    ensures ArrangedEntry(es[i]) in Arrange(es)
  {
    hide ArrangeValue, Arrange;
    ArrangeMembers(es, ArrangedEntry(es[i]));
  }

  lemma ArrangedFrom(es: seq<Entry>, j: nat) returns (i: nat)
    requires j < |Arrange(es)|
    ensures i < |es| && Arrange(es)[j] == ArrangedEntry(es[i])
  {
    hide ArrangeValue, Arrange;
    assert Arrange(es)[j] in Arrange(es);
    ArrangeMembers(es, Arrange(es)[j]);
    i :| 0 <= i < |es| && Arrange(es)[j] == ArrangedEntry(es[i]);
  }

  lemma ArrangeDistinct(es: seq<Entry>)
    ensures Distinct(Arrange(es)) <==> Distinct(es)
  {
    hide ArrangeValue, Grouped, ArrangeEach;
    var each := ArrangeEach(es);
    forall i | 0 <= i < |es| ensures each[i].key == es[i].key {
      EachArranged(es, i);
    }
    assert Distinct(each) <==> Distinct(es) by {
      if Distinct(each) { forall i, j | 0 <= i < j < |es| ensures es[i].key != es[j].key { assert each[i].key != each[j].key; } }
    }
    GroupedMoves(each);
    if Distinct(each) { DistinctMoves(each, Grouped(each)); }
    if Distinct(Grouped(each)) { DistinctMoves(Grouped(each), each); }
  }

  lemma ArrangeScalars(es: seq<Entry>)
    ensures AllScalar(Arrange(es)) <==> AllScalar(es)
  {
    hide ArrangeValue, Arrange, IsScalar;
    var fs := Arrange(es);
    if AllScalar(es) {
      forall j | 0 <= j < |fs| ensures IsScalar(fs[j].value) {
        var i := ArrangedFrom(es, j);
        ArrangeKeepsScalar(es[i].value);
      }
    }
    if AllScalar(fs) {
      forall i | 0 <= i < |es| ensures IsScalar(es[i].value) {
        ArrangeMember(es, i);
        var j :| 0 <= j < |fs| && fs[j] == ArrangedEntry(es[i]);
        ArrangeKeepsScalar(es[i].value);
      }
    }
  }

  lemma ArrangeKeepsScalar(v: Value)
    ensures IsScalar(ArrangeValue(v)) <==> IsScalar(v)
  {
    hide ArrangeValue;
  }

  /** Arranging keeps goodness and flatness. */
  lemma {:induction false} ArrangeKeeps(v: Value)
    ensures Good(ArrangeValue(v)) <==> Good(v)
    ensures Flat(ArrangeValue(v)) <==> Flat(v)
    decreases v
  {
    hide Arrange, GoodEntries, FlatEntries, AllScalar;
    if v.Tab? {
      ArrangeKeepsEntries(v.entries);
    } else if IsRepeated(v) {
      ArrangeKeepsItems(v.items);
    }
  }

  lemma ArrangeTable(v: Value)
    requires v.Tab?
    ensures ArrangeValue(v) == Tab(Arrange(v.entries))
  {
  }

  lemma {:induction false} ArrangeKeepsItems(items: seq<Value>)
    requires forall x | x in items :: x.Tab?
    ensures (forall i | 0 <= i < |items| :: Good(ArrangeItems(items)[i])) <==> (forall i | 0 <= i < |items| :: Good(items[i]))
    ensures FlatItems(ArrangeItems(items)) <==> FlatItems(items)
    decreases items
  {
    hide ArrangeValue, Good, AllScalar, ArrangeItems, Arrange;
    var r := ArrangeItems(items);
    assert |r| == |items|;
    forall i | 0 <= i < |items|
      ensures r[i] == ArrangeValue(items[i]) && (Good(r[i]) <==> Good(items[i]))
      ensures r[i].Tab? && items[i].Tab? && (AllScalar(r[i].entries) <==> AllScalar(items[i].entries))
    {
      ItemArranged(items, i);
      ArrangeKeeps(items[i]);
      assert items[i] in items;
      ArrangeScalars(items[i].entries);
      ArrangeTable(items[i]);
    }
    if forall i | 0 <= i < |items| :: Good(r[i]) {
      assert forall i | 0 <= i < |items| :: Good(items[i]) by {
        forall i | 0 <= i < |items| ensures Good(items[i]) { assert Good(r[i]); }
      }
    }
  }

  lemma {:induction false} ArrangeKeepsEntries(es: seq<Entry>)
    ensures GoodEntries(Arrange(es)) <==> GoodEntries(es)
    ensures FlatEntries(Arrange(es)) <==> FlatEntries(es)
    decreases es, 0
  {
    hide Arrange, ArrangeValue, Good, Flat, ValidKey, Distinct;
    var fs := Arrange(es);
    ArrangeDistinct(es);
    forall i | 0 <= i < |es|
      ensures Good(ArrangeValue(es[i].value)) <==> Good(es[i].value)
      ensures Flat(ArrangeValue(es[i].value)) <==> Flat(es[i].value)
    {
      ArrangeKeeps(es[i].value);
    }
    forall j | 0 <= j < |fs|
      ensures exists i :: 0 <= i < |es| && fs[j] == ArrangedEntry(es[i])
    {
      var i := ArrangedFrom(es, j);
    }
    forall i | 0 <= i < |es|
      ensures exists j :: 0 <= j < |fs| && fs[j] == ArrangedEntry(es[i])
    {
      ArrangeMember(es, i);
    }
  }

  // ---- arranged tables are ordered ----------------------------------------------------------

  lemma ByKeyKinds(es: seq<Entry>, k: Kind)
    ensures forall e | e in ByKey(Only(es, k)) :: KindOf(e) == k && e in es
  {
    hide ByKey, KindOf;
    ByKeyMoves(Only(es, k));
    forall e | e in ByKey(Only(es, k)) ensures KindOf(e) == k && e in es {
      assert e in multiset(ByKey(Only(es, k)));
      assert e in Only(es, k);
    }
  }

  lemma {:induction false} OrderedConcat(s: seq<Entry>, o: seq<Entry>)
    requires AllScalar(s) && NoScalar(o) && forall e | e in s + o :: Ordered(e.value)
    ensures OrderedEntries(s + o)
    decreases |s + o|
  {
    hide Ordered, IsScalar;
    if s == [] {
      assert s + o == o;
      if o != [] {
        assert o[0] in o;
        assert forall e | e in o[1..] :: e in o;
        assert [] + o[1..] == o[1..];
        OrderedConcat([], o[1..]);
      }
    } else {
      assert (s + o)[1..] == s[1..] + o && s[0] in s + o;
      assert forall e | e in s[1..] + o :: e in s + o;
      OrderedConcat(s[1..], o);
    }
  }

  lemma GroupedOrdered(es: seq<Entry>)
    requires forall e | e in es :: Ordered(e.value)
    ensures OrderedEntries(Grouped(es))
  {
    hide Ordered, ByKey, Only;
    ByKeyKinds(es, Scalar);
    ByKeyKinds(es, Repeated);
    ByKeyKinds(es, Table);
    var s, r, t := ByKey(Only(es, Scalar)), ByKey(Only(es, Repeated)), ByKey(Only(es, Table));
    forall i | 0 <= i < |s| ensures IsScalar(s[i].value) {
      assert s[i] in s && KindOf(s[i]) == Scalar;
    }
    var o := r + t;
    forall i | 0 <= i < |o| ensures !IsScalar(o[i].value) {
      var e := o[i];
      assert e in r || e in t;
      assert KindOf(e) != Scalar;
    }
    OrderedConcat(s, o);
  }

  lemma {:induction false} ArrangeOrders(v: Value)
    ensures Ordered(ArrangeValue(v))
    decreases v
  {
    hide Arrange, OrderedEntries, ArrangeItems;
    if v.Tab? {
      ArrangeOrdersEntries(v.entries);
    } else if IsRepeated(v) {
      forall i | 0 <= i < |v.items| ensures Ordered(ArrangeItems(v.items)[i]) {
        ItemArranged(v.items, i);
        ArrangeOrders(v.items[i]);
      }
    }
  }

  lemma {:induction false} ArrangeOrdersEntries(es: seq<Entry>)
    ensures OrderedEntries(Arrange(es))
    decreases es, 0
  {
    hide Grouped, ArrangeEach, ArrangeValue, Ordered, OrderedEntries;
    var each := ArrangeEach(es);
    forall e | e in each ensures Ordered(e.value) {
      var i :| 0 <= i < |each| && each[i] == e;
        EachArranged(es, i);
      ArrangeOrders(es[i].value);
    }
    GroupedOrdered(each);
  }

  // ---- the round trip ---------------------------------------------------------------------------

  /** A good tree prints, and its text reads as the tree with arranged entries when it is flat, not at all otherwise. */
  lemma PrintedDecodes(v: Value)
    requires v.Tab? && Good(v)
    ensures Print(v).Some?
    ensures Decode(Print(v).value) == if Flat(v) then Some(ArrangeValue(v)) else None
  {
    assert Reads([], Some(EMPTY));
    hide GoodEntries, FlatEntries, Arrange, PrintEntries, AddEntries, ParseText, OrderedEntries, IsAscii, Flush, Build;
    var es := Arrange(v.entries);
    ArrangeKeepsEntries(v.entries);
    ArrangeOrdersEntries(v.entries);
    EntriesRead(es, [], [], Some(EMPTY));
    DocumentRebuilt(es);
  }

  // ---- canonical text -----------------------------------------------------------------------------

  /** The same tree up to the order of entries at every level. */
  ghost predicate Same(v: Value, w: Value)
    decreases v
  {
    if v.Tab? && w.Tab? then SameEntries(v.entries, w.entries)
    else if IsRepeated(v) && IsRepeated(w) then
      |v.items| == |w.items| && forall i | 0 <= i < |v.items| :: Same(v.items[i], w.items[i])
    else v == w
  }

  ghost predicate SameEntries(es: seq<Entry>, fs: seq<Entry>)
    decreases es, 1
  {
    (forall i | 0 <= i < |es| :: HasPartner(es[i], fs)) && (forall j | 0 <= j < |fs| :: IsPartner(es, fs[j]))
  }

  ghost predicate HasPartner(e: Entry, fs: seq<Entry>)
    decreases e, 1
  {
    exists j :: 0 <= j < |fs| && SameEntry(e, fs[j])
  }

  ghost predicate IsPartner(es: seq<Entry>, f: Entry)
    decreases es, 0
  {
    exists i :: 0 <= i < |es| && SameEntry(es[i], f)
  }

  ghost predicate SameEntry(e: Entry, f: Entry)
    decreases e, 0
  {
    e.key == f.key && Same(e.value, f.value)
  }

  lemma {:induction false} OnlyCount(es: seq<Entry>, k: Kind, e: Entry)
    ensures multiset(Only(es, k))[e] == if KindOf(e) == k then multiset(es)[e] else 0
  {
    if es != [] {
      OnlyCount(es[1..], k, e);
      assert es == [es[0]] + es[1..];
    }
  }

  lemma KeyedHead(e: Entry, es: seq<Entry>)
    ensures Keyed([e] + es) == [Item(e.key, e)] + Keyed(es)
  {
  }

  lemma {:induction false} KeyedCount(es: seq<Entry>, x: Item<Entry>)
    ensures multiset(Keyed(es))[x] == if x.key == x.value.key then multiset(es)[x.value] else 0
  {
    hide Keyed;
    if es == [] {
      assert |Keyed(es)| == 0;
    } else {
      var item := Item(es[0].key, es[0]);
      assert es == [es[0]] + es[1..];
      KeyedHead(es[0], es[1..]);
      KeyedCount(es[1..], x);
      assert multiset([es[0]] + es[1..]) == multiset{es[0]} + multiset(es[1..]);
      assert multiset([item] + Keyed(es[1..])) == multiset{item} + multiset(Keyed(es[1..]));
    }
  }

  lemma OnlyDistinct(es: seq<Entry>, k: Kind)
    requires Distinct(es)
    ensures Distinct(Only(es, k))
  {
    var os := Only(es, k);
    forall i, j | 0 <= i < j < |os| ensures os[i].key != os[j].key {
      assert os[i] in os && os[j] in os;
      var a :| 0 <= a < |es| && es[a] == os[i];
      var b :| 0 <= b < |es| && es[b] == os[j];
      OnlyCount(es, k, os[i]);
      DistinctCount(es, os[i]);
      if os[i] == os[j] {
        TwiceCounted(os, i, j);
        assert false;
      }
      assert a < b || b < a;
    }
  }

  lemma KeyedDetermines(es: seq<Entry>)
    requires Distinct(es)
    ensures KeyDetermines(Keyed(es))
  {
    var xs := Keyed(es);
    forall i, j | 0 <= i < |xs| && 0 <= j < |xs| && xs[i].key == xs[j].key ensures xs[i] == xs[j] {
    }
  }

  /** With distinct keys, printing order does not depend on the given order. */
  lemma ByKeyDepends(es: seq<Entry>, fs: seq<Entry>)
    requires multiset(es) == multiset(fs) && Distinct(es)
    ensures ByKey(es) == ByKey(fs)
  {
    forall x ensures multiset(Keyed(es))[x] == multiset(Keyed(fs))[x] {
      KeyedCount(es, x);
      KeyedCount(fs, x);
    }
    assert multiset(Keyed(es)) == multiset(Keyed(fs));
    KeyedDetermines(es);
    SortDependsOnMultiset(Keyed(es), Keyed(fs));
  }

  lemma GroupedDepends(es: seq<Entry>, fs: seq<Entry>)
    requires multiset(es) == multiset(fs) && Distinct(es)
    ensures Grouped(es) == Grouped(fs)
  {
    hide ByKey, Only;
    forall k, e ensures multiset(Only(es, k))[e] == multiset(Only(fs, k))[e] {
      OnlyCount(es, k, e);
      OnlyCount(fs, k, e);
    }
    forall k ensures ByKey(Only(es, k)) == ByKey(Only(fs, k)) {
      assert multiset(Only(es, k)) == multiset(Only(fs, k));
      OnlyDistinct(es, k);
      ByKeyDepends(Only(es, k), Only(fs, k));
    }
  }

  lemma SameElements(es: seq<Entry>, fs: seq<Entry>)
    requires Distinct(es) && Distinct(fs) && forall e :: e in es <==> e in fs
    ensures multiset(es) == multiset(fs)
  {
    forall e ensures multiset(es)[e] == multiset(fs)[e] {
      DistinctCount(es, e);
      DistinctCount(fs, e);
    }
  }

  lemma EachDistinct(es: seq<Entry>)
    requires Distinct(es)
    ensures Distinct(ArrangeEach(es))
  {
    hide ArrangeValue;
    forall i | 0 <= i < |es| ensures ArrangeEach(es)[i].key == es[i].key {
      EachArranged(es, i);
    }
  }

  lemma EachMember(es: seq<Entry>, e: Entry)
    ensures e in ArrangeEach(es) <==> Arises(es, e)
  {
    hide ArrangeValue;
    var each := ArrangeEach(es);
    forall i | 0 <= i < |es| ensures each[i] == ArrangedEntry(es[i]) {
      EachArranged(es, i);
    }
  }

  /** Two good trees are the same up to entry order exactly when they are arranged alike. */
  lemma {:induction false} SameArranged(v: Value, w: Value)
    requires Good(v) && Good(w)
    ensures Same(v, w) <==> ArrangeValue(v) == ArrangeValue(w)
    decreases v
  {
    hide Arrange, GoodEntries, SameEntries, ArrangeItems;
    if v.Tab? && w.Tab? {
      SameArrangedEntries(v.entries, w.entries);
    } else if IsRepeated(v) && IsRepeated(w) {
      SameArrangedItems(v.items, w.items);
    }
  }

  lemma {:induction false} SameArrangedItems(a: seq<Value>, b: seq<Value>)
    requires (forall x | x in a :: x.Tab?) && (forall x | x in b :: x.Tab?)
    requires (forall i | 0 <= i < |a| :: Good(a[i])) && (forall i | 0 <= i < |b| :: Good(b[i]))
    ensures (|a| == |b| && forall i | 0 <= i < |a| :: Same(a[i], b[i])) <==> ArrangeItems(a) == ArrangeItems(b)
    decreases a
  {
    hide ArrangeValue, Good, Same, ArrangeItems;
    assert |ArrangeItems(a)| == |a| && |ArrangeItems(b)| == |b|;
    if |a| == |b| {
      forall i | 0 <= i < |a| ensures Same(a[i], b[i]) <==> ArrangeItems(a)[i] == ArrangeItems(b)[i] {
        SameArranged(a[i], b[i]);
        ItemArranged(a, i);
        ItemArranged(b, i);
      }
    }
  }

  lemma {:induction false} SameArrangedEntries(es: seq<Entry>, fs: seq<Entry>)
    requires GoodEntries(es) && GoodEntries(fs)
    ensures SameEntries(es, fs) <==> Arrange(es) == Arrange(fs)
    decreases es, 0
  {
    hide Arrange, ArrangeValue, Good, Same, ValidKey, SameEntries;
    forall i, j | 0 <= i < |es| && 0 <= j < |fs|
      ensures SameEntry(es[i], fs[j]) <==>
        ArrangedEntry(es[i]) == ArrangedEntry(fs[j])
    {
      SameArranged(es[i].value, fs[j].value);
    }
    if SameEntries(es, fs) { SameThenArranged(es, fs); }
    if Arrange(es) == Arrange(fs) { ArrangedThenSame(es, fs); }
  }

  ghost predicate AlikeWhenSame(es: seq<Entry>, fs: seq<Entry>) {
    forall i, j | 0 <= i < |es| && 0 <= j < |fs| ::
      SameEntry(es[i], fs[j]) <==>
      ArrangedEntry(es[i]) == ArrangedEntry(fs[j])
  }

  lemma PartnerOf(e: Entry, fs: seq<Entry>) returns (j: nat)
    requires HasPartner(e, fs)
    ensures j < |fs| && SameEntry(e, fs[j])
  {
    j :| 0 <= j < |fs| && SameEntry(e, fs[j]);
  }

  lemma PartnerFor(es: seq<Entry>, f: Entry) returns (i: nat)
    requires IsPartner(es, f)
    ensures i < |es| && SameEntry(es[i], f)
  {
    i :| 0 <= i < |es| && SameEntry(es[i], f);
  }

  lemma PartnersAlike(es: seq<Entry>, fs: seq<Entry>, e: Entry)
    requires SameEntries(es, fs) && AlikeWhenSame(es, fs)
    ensures Arises(es, e) <==> Arises(fs, e)
  {
    hide ArrangedEntry, SameEntry, HasPartner, IsPartner;
    if Arises(es, e) {
      var i :| 0 <= i < |es| && e == ArrangedEntry(es[i]);
      var j := PartnerOf(es[i], fs);
      assert e == ArrangedEntry(fs[j]);
    }
    if Arises(fs, e) {
      var j :| 0 <= j < |fs| && e == ArrangedEntry(fs[j]);
      var i := PartnerFor(es, fs[j]);
      assert e == ArrangedEntry(es[i]);
    }
  }

  lemma SameThenArranged(es: seq<Entry>, fs: seq<Entry>)
    requires Distinct(es) && Distinct(fs) && SameEntries(es, fs) && AlikeWhenSame(es, fs)
    ensures Arrange(es) == Arrange(fs)
  {
    hide Arises, ArrangeEach, Grouped, Distinct, SameEntries, AlikeWhenSame;
    EachDistinct(es);
    EachDistinct(fs);
    var a, b := ArrangeEach(es), ArrangeEach(fs);
    forall e ensures e in a <==> e in b {
      EachMember(es, e);
      EachMember(fs, e);
      PartnersAlike(es, fs, e);
    }
    SameElements(a, b);
    GroupedDepends(a, b);
  }

  lemma ArrangedThenSame(es: seq<Entry>, fs: seq<Entry>)
    requires Arrange(es) == Arrange(fs) && AlikeWhenSame(es, fs)
    ensures SameEntries(es, fs)
  {
    hide ArrangedEntry, Arrange, SameEntry;
    forall i | 0 <= i < |es| ensures HasPartner(es[i], fs) {
      ArrangeMember(es, i);
      ArrangeMembers(fs, ArrangedEntry(es[i]));
      var j :| 0 <= j < |fs| && ArrangedEntry(es[i]) == ArrangedEntry(fs[j]);
    }
    forall j | 0 <= j < |fs| ensures IsPartner(es, fs[j]) {
      ArrangeMember(fs, j);
      ArrangeMembers(es, ArrangedEntry(fs[j]));
      var i :| 0 <= i < |es| && ArrangedEntry(fs[j]) == ArrangedEntry(es[i]);
    }
  }

  /** Arranging only reorders entries. */
  lemma {:induction false} ArrangedIsSame(v: Value)
    ensures Same(v, ArrangeValue(v))
    decreases v
  {
    hide Arrange, SameEntries, ArrangeItems;
    if v.Tab? {
      ArrangedIsSameEntries(v.entries);
    } else if IsRepeated(v) {
      var r := ArrangeItems(v.items);
      forall i | 0 <= i < |v.items| ensures Same(v.items[i], r[i]) {
        ItemArranged(v.items, i);
        ArrangedIsSame(v.items[i]);
      }
    }
  }

  lemma SameEntryArranged(e: Entry)
    requires Same(e.value, ArrangeValue(e.value))
    ensures SameEntry(e, ArrangedEntry(e))
  {
    hide Same, ArrangeValue;
  }

  lemma {:induction false} ArrangedIsSameEntries(es: seq<Entry>)
    ensures SameEntries(es, Arrange(es))
    decreases es, 0
  {
    hide Arrange, ArrangedEntry, SameEntry;
    var fs := Arrange(es);
    forall i | 0 <= i < |es| ensures SameEntry(es[i], ArrangedEntry(es[i])) {
      ArrangedIsSame(es[i].value);
      SameEntryArranged(es[i]);
    }
    forall i | 0 <= i < |es| ensures HasPartner(es[i], fs) {
      ArrangeMember(es, i);
      var j :| 0 <= j < |fs| && fs[j] == ArrangedEntry(es[i]);
      assert SameEntry(es[i], fs[j]);
    }
    forall j | 0 <= j < |fs| ensures IsPartner(es, fs[j]) {
      var i := ArrangedFrom(es, j);
      assert SameEntry(es[i], fs[j]);
    }
  }

  /** Arranging what is arranged changes nothing. */
  lemma ArrangedTwice(v: Value)
    requires Good(v)
    ensures ArrangeValue(ArrangeValue(v)) == ArrangeValue(v)
  {
    hide ArrangeValue, Good, Same;
    ArrangeKeeps(v);
    ArrangedIsSame(v);
    SameArranged(v, ArrangeValue(v));
  }

  lemma PrintArranges(v: Value, w: Value)
    requires v.Tab? && w.Tab? && ArrangeValue(v) == ArrangeValue(w)
    ensures Print(v) == Print(w)
  {
    hide PrintEntries, Arrange;
  }
}
