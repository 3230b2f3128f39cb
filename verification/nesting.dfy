/** Rebuilding nested tables from flat sections undoes flattening them. */
module Nesting {
  import opened Exprs
  import opened TomlText
  import opened Config

  // ---- flattening ------------------------------------------------------------------------

  /** Every section moved under `path`. */
  function Under(path: seq<bytes>, sections: seq<Section>): (r: seq<Section>)
    ensures |r| == |sections|
  {
    if sections == [] then []
    else [sections[0].(path := path + sections[0].path)] + Under(path, sections[1..])
  }

  function Scalars(es: seq<Entry>): seq<Entry> {
    if es == [] then []
    else if IsScalar(es[0].value) then [es[0]] + Scalars(es[1..])
    else Scalars(es[1..])
  }

  function Others(es: seq<Entry>): seq<Entry> {
    if es == [] then []
    else if IsScalar(es[0].value) then Others(es[1..])
    else [es[0]] + Others(es[1..])
  }

  /** The sections that hold what is nested in a table, by paths from that table. */
  function SectionsOf(es: seq<Entry>): seq<Section>
    decreases es
  {
    if es == [] then [] else EntrySections(es[0]) + SectionsOf(es[1..])
  }

  function EntrySections(e: Entry): seq<Section>
    decreases e
  {
    if e.value.Tab? then
      [Section([e.key], false, Scalars(e.value.entries))] + Under([e.key], SectionsOf(e.value.entries))
    else if IsRepeated(e.value) then ItemSections(e.value.items, e.key)
    else []
  }

  function ItemSections(items: seq<Value>, key: bytes): seq<Section>
    requires forall x | x in items :: x.Tab?
    decreases items
  {
    if items == [] then [] else
    assert items[0] in items;
    [Section([key], true, Scalars(items[0].entries))] + Under([key], SectionsOf(items[0].entries)) +
    ItemSections(items[1..], key)
  }

  predicate AllScalar(es: seq<Entry>) {
    forall i | 0 <= i < |es| :: IsScalar(es[i].value)
  }

  predicate NoScalar(es: seq<Entry>) {
    forall i | 0 <= i < |es| :: !IsScalar(es[i].value)
  }

  /** Scalars come before sections, at every level. */
  predicate Ordered(v: Value)
    decreases v
  {
    if v.Tab? then OrderedEntries(v.entries)
    else IsRepeated(v) ==> forall i | 0 <= i < |v.items| :: Ordered(v.items[i])
  }

  predicate OrderedEntries(es: seq<Entry>)
    decreases es
  {
    es == [] ||
    (Ordered(es[0].value) && OrderedEntries(es[1..]) && (IsScalar(es[0].value) || NoScalar(es[1..])))
  }

  /** Lists of tables hold tables of scalars only, at every level. */
  predicate Flat(v: Value)
    decreases v
  {
    if v.Tab? then FlatEntries(v.entries) else IsRepeated(v) ==> FlatItems(v.items)
  }

  predicate FlatItems(items: seq<Value>) {
    forall i | 0 <= i < |items| :: items[i].Tab? && AllScalar(items[i].entries)
  }

  predicate FlatEntries(es: seq<Entry>)
    decreases es
  {
    forall i | 0 <= i < |es| :: Flat(es[i].value)
  }

  lemma {:induction false} UnderAppend(path: seq<bytes>, a: seq<Section>, b: seq<Section>)
    ensures Under(path, a + b) == Under(path, a) + Under(path, b)
  {
    if a == [] {
      assert a + b == b;
    } else {
      assert (a + b)[1..] == a[1..] + b;
      UnderAppend(path, a[1..], b);
    }
  }

  lemma {:induction false} UnderUnder(p: seq<bytes>, q: seq<bytes>, s: seq<Section>)
    ensures Under(p, Under(q, s)) == Under(p + q, s)
  {
    if s != [] {
      UnderUnder(p, q, s[1..]);
      Assoc(p, q, s[0].path);
      assert Under(q, s)[1..] == Under(q, s[1..]);
    }
  }

  lemma {:induction false} NoScalarSplit(es: seq<Entry>)
    requires NoScalar(es)
    ensures Scalars(es) == [] && Others(es) == es
  {
    if es != [] { NoScalarSplit(es[1..]); }
  }

  lemma {:induction false} AllScalarSplit(es: seq<Entry>)
    requires AllScalar(es)
    ensures Scalars(es) == es && Others(es) == [] && SectionsOf(es) == []
  {
    if es != [] { AllScalarSplit(es[1..]); }
  }

  /** Ordered entries are their scalars followed by the rest. */
  lemma {:induction false} OrderedSplit(es: seq<Entry>)
    requires OrderedEntries(es)
    ensures Scalars(es) + Others(es) == es
  {
    if es != [] {
      if IsScalar(es[0].value) {
        OrderedSplit(es[1..]);
        Assoc([es[0]], Scalars(es[1..]), Others(es[1..]));
      } else {
        NoScalarSplit(es[1..]);
      }
    }
  }

  // ---- the sections of the printed document ---------------------------------------------------

  /** `r` is `d` with scalars in its current table and further sections. */
  predicate Grown(d: Doc, r: Doc, scalars: seq<Entry>, sections: seq<Section>) {
    var d1 := WithCurrent(d, Current(d) + scalars);
    r.root == d1.root && r.sections == d1.sections + sections
  }

  /** Nothing in `es` has a key that `target` has. */
  predicate Fresh(target: seq<Entry>, es: seq<Entry>) {
    forall i | 0 <= i < |es| :: !HasKey(target, es[i].key)
  }

  lemma PushGrows(d: Doc, e: Entry, rest: seq<Entry>)
    requires Fresh(Current(d), [e] + rest) && Distinct([e] + rest)
    ensures PushEntry(d, e) == Some(WithCurrent(d, Current(d) + [e])) && WithCurrent(d, Current(d) + [e]).seen == d.seen
    ensures Fresh(Current(d) + [e], rest) && Current(WithCurrent(d, Current(d) + [e])) == Current(d) + [e]
  {
    var es := [e] + rest;
    assert es[0] == e;
    forall i | 0 <= i < |rest| ensures !HasKey(Current(d) + [e], rest[i].key) {
      assert es[i + 1] == rest[i];
    }
  }

  lemma GrownScalar(d: Doc, r: Doc, e: Entry, scalars: seq<Entry>, sections: seq<Section>)
    requires Grown(WithCurrent(d, Current(d) + [e]), r, scalars, sections)
    ensures Grown(d, r, [e] + scalars, sections)
  {
    Assoc(Current(d), [e], scalars);
  }

  lemma GrownMore(d: Doc, m: Doc, r: Doc, a: seq<Section>, b: seq<Section>)
    requires Grown(d, m, [], a) && Grown(m, r, [], b)
    ensures Grown(d, r, [], a + b)
  {
    GrownBare(d, m, a);
    GrownBare(m, r, b);
    Assoc(d.sections, a, b);
    GrownBare(d, r, a + b);
  }

  lemma GrownBare(d: Doc, r: Doc, a: seq<Section>)
    ensures Grown(d, r, [], a) <==> r.root == d.root && r.sections == d.sections + a
  {
    assert Current(d) + [] == Current(d);
    if d.sections != [] {
      assert WithCurrent(d, Current(d)).sections == d.sections;
    }
  }

  /** A section and what follows in it. */
  lemma GrownSection(d: Doc, path: seq<bytes>, repeated: bool, r: Doc, scalars: seq<Entry>, sections: seq<Section>)
    requires OpenSection(d, path, repeated).Some?
    requires Grown(OpenSection(d, path, repeated).value, r, scalars, sections)
    ensures Grown(d, r, [], [Section(path, repeated, scalars)] + sections)
  {
    var m := OpenSection(d, path, repeated).value;
    assert Current(m) == [] && [] + scalars == scalars;
    assert WithCurrent(m, scalars).sections == d.sections + [Section(path, repeated, scalars)];
    Assoc(d.sections, [Section(path, repeated, scalars)], sections);
    GrownBare(d, r, [Section(path, repeated, scalars)] + sections);
  }

  /** A scalar is pushed, opens no section, and is flat. */
  lemma ScalarEntry(d: Doc, e: Entry, path: seq<bytes>)
    requires IsScalar(e.value)
    ensures AddEntry(Some(d), e, path) == PushEntry(d, e) && EntrySections(e) == [] && Flat(e.value)
  {
  }

  lemma {:induction false} NoneStays(es: seq<Entry>, path: seq<bytes>)
    ensures AddEntries(None, es, path) == None
    decreases es
  {
    if es != [] {
      NoneStaysEntry(es[0], path);
      NoneStays(es[1..], path);
    }
  }

  lemma {:induction false} NoneStaysEntry(e: Entry, path: seq<bytes>)
    ensures AddEntry(None, e, path) == None
    decreases e
  {
    if e.value.Tab? {
      NoneStays(e.value.entries, path + [e.key]);
    } else if IsRepeated(e.value) {
      NoneStaysItems(e.value.items, path + [e.key]);
    }
  }

  lemma {:induction false} NoneStaysItems(items: seq<Value>, path: seq<bytes>)
    requires forall x | x in items :: x.Tab?
    ensures AddItems(None, items, path) == None
    decreases items
  {
    if items != [] {
      assert items[0] in items;
      NoneStays(items[0].entries, path);
      NoneStaysItems(items[1..], path);
    }
  }

  /** If the printed entries read at all, they read as their scalars and their sections under `path`. */
  lemma {:induction false} AddedEntries(d: Doc, es: seq<Entry>, path: seq<bytes>)
    requires GoodEntries(es) && OrderedEntries(es) && Fresh(Current(d), Scalars(es))
    ensures var r := AddEntries(Some(d), es, path);
      r.Some? ==> Grown(d, r.value, Scalars(es), Under(path, SectionsOf(es)))
    decreases es, 0
  {
    hide AddEntry, Grown, Fresh, GoodEntries, EntrySections, Good, PushEntry, Current, WithCurrent;
    if es == [] {
      GrownBare(d, d, []);
      assert d.sections + [] == d.sections;
    } else {
      var e := es[0];
      GoodTail(es);
      if IsScalar(e.value) {
        ScalarsDistinct(es);
        PushGrows(d, e, Scalars(es[1..]));
        var d1 := WithCurrent(d, Current(d) + [e]);
        ScalarEntry(d, e, path);
        AddedEntries(d1, es[1..], path);
        var r := AddEntries(Some(d1), es[1..], path);
        if r.Some? {
          GrownScalar(d, r.value, e, Scalars(es[1..]), Under(path, SectionsOf(es[1..])));
          assert [] + SectionsOf(es[1..]) == SectionsOf(es[1..]);
        }
      } else {
        AddedEntry(d, e, path);
        var m := AddEntry(Some(d), e, path);
        if m.None? {
          NoneStays(es[1..], path);
        } else {
          NoScalarSplit(es[1..]);
          NothingFresh(Current(m.value));
          AddedEntries(m.value, es[1..], path);
          var r := AddEntries(m, es[1..], path);
          UnderAppend(path, EntrySections(e), SectionsOf(es[1..]));
          if r.Some? {
            GrownMore(d, m.value, r.value, Under(path, EntrySections(e)), Under(path, SectionsOf(es[1..])));
          }
        }
      }
    }
  }

  lemma NothingFresh(target: seq<Entry>)
    ensures Fresh(target, [])
  {
  }

  lemma {:induction false} ScalarsAmong(es: seq<Entry>)
    ensures forall e | e in Scalars(es) :: e in es
  {
    if es != [] {
      ScalarsAmong(es[1..]);
      assert forall e | e in es[1..] :: e in es;
    }
  }

  lemma {:induction false} ScalarsDistinct(es: seq<Entry>)
    requires GoodEntries(es)
    ensures Distinct(Scalars(es))
  {
    hide Good, ValidKey;
    if es != [] {
      ScalarsDistinct(es[1..]);
      ScalarsAmong(es[1..]);
      if IsScalar(es[0].value) {
        var t := Scalars(es[1..]);
        forall j | 0 <= j < |t| ensures t[j].key != es[0].key {
          assert t[j] in t;
          var k :| 0 <= k < |es[1..]| && es[1..][k] == t[j];
          assert es[k + 1] == t[j];
        }
      }
    }
  }

  lemma {:induction false} AddedEntry(d: Doc, e: Entry, path: seq<bytes>)
    requires Good(e.value) && Ordered(e.value) && !IsScalar(e.value)
    ensures var r := AddEntry(Some(d), e, path); r.Some? ==> Grown(d, r.value, [], Under(path, EntrySections(e)))
    decreases e
  {
    hide AddEntries, Grown, GoodEntries, OpenSection, SectionsOf, Scalars, OrderedEntries;
    var inner := path + [e.key];
    if e.value.Tab? {
      AddedSection(d, e.value.entries, path, e.key, false);
    } else {
      AddedItems(d, e.value.items, path, e.key);
    }
  }

  /** One section with everything nested in it. */
  lemma {:induction false} AddedSection(d: Doc, es: seq<Entry>, path: seq<bytes>, key: bytes, repeated: bool)
    requires GoodEntries(es) && OrderedEntries(es)
    ensures var r := AddEntries(Open(Some(d), path + [key], repeated), es, path + [key]);
      r.Some? ==> Grown(d, r.value, [], Under(path, [Section([key], repeated, Scalars(es))] + Under([key], SectionsOf(es))))
    decreases es, 1
  {
    hide AddEntries, Grown, GoodEntries, SectionsOf, Scalars, OrderedEntries, Fresh;
    var inner := path + [key];
    if OpenSection(d, inner, repeated).None? {
      NoneStays(es, inner);
    } else {
      var m := OpenSection(d, inner, repeated).value;
      FreshInNone(m, Scalars(es));
      AddedEntries(m, es, inner);
      var r := AddEntries(Some(m), es, inner);
      if r.Some? {
        GrownSection(d, inner, repeated, r.value, Scalars(es), Under(inner, SectionsOf(es)));
        UnderUnder(path, [key], SectionsOf(es));
        var s := [Section([key], repeated, Scalars(es))] + Under([key], SectionsOf(es));
        assert s[1..] == Under([key], SectionsOf(es));
      }
    }
  }

  lemma FreshInNone(d: Doc, es: seq<Entry>)
    requires Current(d) == []
    ensures Fresh(Current(d), es)
  {
  }

  lemma {:induction false} AddedItems(d: Doc, items: seq<Value>, path: seq<bytes>, key: bytes)
    requires (forall x | x in items :: x.Tab?) && forall i | 0 <= i < |items| :: Good(items[i]) && Ordered(items[i])
    ensures var r := AddItems(Some(d), items, path + [key]);
      r.Some? ==> Grown(d, r.value, [], Under(path, ItemSections(items, key)))
    decreases items
  {
    assert Under(path, []) == [];
    hide AddEntries, Grown, GoodEntries, OpenSection, SectionsOf, Scalars, OrderedEntries, Under;
    if items == [] {
      GrownBare(d, d, []);
      assert d.sections + [] == d.sections;
    } else {
      assert items[0] in items;
      var es := items[0].entries;
      AddedSection(d, es, path, key, true);
      var m := AddEntries(Open(Some(d), path + [key], true), es, path + [key]);
      if m.None? {
        NoneStaysItems(items[1..], path + [key]);
      } else {
        AddedItems(m.value, items[1..], path, key);
        var r := AddItems(m, items[1..], path + [key]);
        var first := [Section([key], true, Scalars(es))] + Under([key], SectionsOf(es));
        UnderAppend(path, first, ItemSections(items[1..], key));
        if r.Some? {
          GrownMore(d, m.value, r.value, Under(path, first), Under(path, ItemSections(items[1..], key)));
        }
      }
    }
  }

  // ---- flat documents read ------------------------------------------------------------------

  /** No section at or below an entry of `es` has been opened. */
  predicate Clear(seen: set<seq<bytes>>, path: seq<bytes>, es: seq<Entry>) {
    forall p, i | p in seen && 0 <= i < |es| :: !(path + [es[i].key] <= p)
  }

  /** Only sections at or below entries of `es` were opened. */
  predicate SeenWithin(before: set<seq<bytes>>, after: set<seq<bytes>>, path: seq<bytes>, es: seq<Entry>) {
    forall p | p in after :: p in before || exists i :: 0 <= i < |es| && path + [es[i].key] <= p
  }

  lemma BelowIsWithin(path: seq<bytes>, key: bytes, p: seq<bytes>)
    ensures path + [key] <= p ==> path <= p
  {
  }

  lemma SiblingsApart(path: seq<bytes>, a: bytes, b: bytes, p: seq<bytes>)
    requires a != b && path + [a] <= p
    ensures !(path + [b] <= p)
  {
    assert p[|path|] == (path + [a])[|path|] == a;
    assert (path + [b])[|path|] == b;
  }

  lemma ClearBelow(seen: set<seq<bytes>>, path: seq<bytes>, e: Entry, es: seq<Entry>)
    requires Clear(seen, path, [e])
    ensures path + [e.key] !in seen && Clear(seen + {path + [e.key]}, path + [e.key], es)
  {
    var inner := path + [e.key];
    assert [e][0] == e;
    assert inner <= inner;
    forall p, i | p in seen + {inner} && 0 <= i < |es| ensures !(inner + [es[i].key] <= p) {
      BelowIsWithin(inner, es[i].key, p);
    }
  }

  lemma ClearRest(before: set<seq<bytes>>, after: set<seq<bytes>>, path: seq<bytes>, es: seq<Entry>)
    requires es != [] && Distinct(es) && Clear(before, path, es) && SeenWithin(before, after, path, [es[0]])
    ensures Clear(before, path, [es[0]]) && Clear(after, path, es[1..])
  {
    forall p, i | p in after && 0 <= i < |es[1..]| ensures !(path + [es[1..][i].key] <= p) {
      assert es[1..][i] == es[i + 1];
      if p !in before {
        SiblingsApart(path, es[0].key, es[i + 1].key, p);
      }
    }
  }

  lemma SeenBelow(before: set<seq<bytes>>, after: set<seq<bytes>>, path: seq<bytes>, e: Entry, es: seq<Entry>)
    requires SeenWithin(before + {path + [e.key]}, after, path + [e.key], es)
    ensures SeenWithin(before, after, path, [e])
  {
    var inner := path + [e.key];
    assert [e][0] == e;
    forall p | p in after && p !in before ensures exists i :: 0 <= i < |[e]| && path + [[e][i].key] <= p {
      if p != inner {
        var i :| 0 <= i < |es| && inner + [es[i].key] <= p;
        assert inner <= p;
      }
      assert path + [[e][0].key] <= p;
    }
  }

  lemma SeenRest(a: set<seq<bytes>>, b: set<seq<bytes>>, c: set<seq<bytes>>, path: seq<bytes>, es: seq<Entry>)
    requires es != [] && SeenWithin(a, b, path, [es[0]]) && SeenWithin(b, c, path, es[1..])
    ensures SeenWithin(a, c, path, es)
  {
    forall p | p in c && p !in a ensures exists i :: 0 <= i < |es| && path + [es[i].key] <= p {
      if p in b {
        assert path + [es[0].key] <= p;
      } else {
        var i :| 0 <= i < |es[1..]| && path + [es[1..][i].key] <= p;
        assert es[1..][i] == es[i + 1];
      }
    }
  }

  /** Flat entries always read: no key and no section appears twice. */
  lemma {:induction false} FlatEntriesRead(d: Doc, es: seq<Entry>, path: seq<bytes>)
    requires GoodEntries(es) && OrderedEntries(es) && FlatEntries(es)
    requires Fresh(Current(d), Scalars(es)) && Clear(d.seen, path, es)
    ensures AddEntries(Some(d), es, path).Some?
    ensures SeenWithin(d.seen, AddEntries(Some(d), es, path).value.seen, path, es)
    decreases es, 0
  {
    hide AddEntry, Fresh, GoodEntries, Good, PushEntry, Current, WithCurrent, Clear, SeenWithin, Flat;
    if es == [] {
      SeenSame(d.seen, path, es);
    } else {
      var e := es[0];
      GoodTail(es);
      if IsScalar(e.value) {
        ScalarsDistinct(es);
        PushGrows(d, e, Scalars(es[1..]));
        var d1 := WithCurrent(d, Current(d) + [e]);
        ScalarEntry(d, e, path);
        SeenSame(d.seen, path, [e]);
        ClearRest(d.seen, d1.seen, path, es);
        FlatEntriesRead(d1, es[1..], path);
        SeenRest(d.seen, d1.seen, AddEntries(Some(d), es, path).value.seen, path, es);
      } else {
        ClearFirst(d.seen, path, es);
        FlatEntryReads(d, e, path);
        var m := AddEntry(Some(d), e, path).value;
        ClearRest(d.seen, m.seen, path, es);
        NoScalarSplit(es[1..]);
        NothingFresh(Current(m));
        FlatEntriesRead(m, es[1..], path);
        SeenRest(d.seen, m.seen, AddEntries(Some(d), es, path).value.seen, path, es);
      }
    }
  }

  lemma ClearFirst(seen: set<seq<bytes>>, path: seq<bytes>, es: seq<Entry>)
    requires es != [] && Clear(seen, path, es)
    ensures Clear(seen, path, [es[0]])
  {
  }

  lemma SeenSame(seen: set<seq<bytes>>, path: seq<bytes>, es: seq<Entry>)
    ensures SeenWithin(seen, seen, path, es)
  {
  }

  lemma {:induction false} FlatEntryReads(d: Doc, e: Entry, path: seq<bytes>)
    requires Good(e.value) && Ordered(e.value) && Flat(e.value) && !IsScalar(e.value) && Clear(d.seen, path, [e])
    ensures AddEntry(Some(d), e, path).Some?
    ensures SeenWithin(d.seen, AddEntry(Some(d), e, path).value.seen, path, [e])
    decreases e
  {
    hide AddEntries, GoodEntries, OrderedEntries, FlatEntries, Clear, SeenWithin, Fresh, Scalars;
    var inner := path + [e.key];
    if e.value.Tab? {
      var es := e.value.entries;
      ClearBelow(d.seen, path, e, es);
      var m := OpenSection(d, inner, false).value;
      FreshInNone(m, Scalars(es));
      FlatEntriesRead(m, es, inner);
      SeenBelow(d.seen, AddEntry(Some(d), e, path).value.seen, path, e, es);
    } else {
      FlatItemsRead(d, e.value.items, inner);
      SeenSame(d.seen, path, [e]);
    }
  }

  lemma {:induction false} FlatItemsRead(d: Doc, items: seq<Value>, path: seq<bytes>)
    requires (forall x | x in items :: x.Tab?) && FlatItems(items)
    requires forall i | 0 <= i < |items| :: Good(items[i])
    ensures AddItems(Some(d), items, path).Some? && AddItems(Some(d), items, path).value.seen == d.seen
    decreases items
  {
    hide AddEntries, GoodEntries, AllScalar;
    if items != [] {
      assert items[0] in items;
      var es := items[0].entries;
      assert Good(items[0]);
      var m := OpenSection(d, path, true).value;
      FreshInNone(m, es);
      ScalarsRead(m, es, path);
      var n := AddEntries(Some(m), es, path).value;
      assert forall i | 0 <= i < |items[1..]| :: items[1..][i] == items[i + 1];
      FlatItemsRead(n, items[1..], path);
    }
  }

  lemma {:induction false} ScalarsRead(d: Doc, es: seq<Entry>, path: seq<bytes>)
    requires GoodEntries(es) && AllScalar(es) && Fresh(Current(d), es)
    ensures AddEntries(Some(d), es, path).Some? && AddEntries(Some(d), es, path).value.seen == d.seen
    decreases es
  {
    hide Good, GoodEntries, Fresh, HasKey;
    if es != [] {
      GoodTail(es);
      assert es == [es[0]] + es[1..];
      PushGrows(d, es[0], es[1..]);
      var d1 := WithCurrent(d, Current(d) + [es[0]]);
      assert AddEntry(Some(d), es[0], path) == Some(d1);
      ScalarsRead(d1, es[1..], path);
    }
  }

  // ---- rebuilding ---------------------------------------------------------------------------------

  predicate Deep(sections: seq<Section>) {
    forall i | 0 <= i < |sections| :: sections[i].path != []
  }

  lemma {:induction false} KeyIndexAt(es: seq<Entry>, key: bytes, rest: seq<Entry>)
    requires !HasKey(es, key) && rest != [] && rest[0].key == key
    ensures KeyIndex(es + rest, key) == |es|
  {
    if es == [] {
      assert es + rest == rest;
    } else {
      assert es[0] in es && forall e | e in es[1..] :: e in es;
      assert (es + rest)[1..] == es[1..] + rest;
      KeyIndexAt(es[1..], key, rest);
    }
  }

  lemma {:induction false} InsertAllNone(sections: seq<Section>)
    ensures InsertAll(None, sections) == None
  {
  }

  lemma {:induction false} InsertAllAppend(es: Option<seq<Entry>>, a: seq<Section>, b: seq<Section>)
    ensures InsertAll(es, a + b) == InsertAll(InsertAll(es, a), b)
    decreases |a|
  {
    hide Insert;
    if a == [] || es.None? {
      assert a == [] ==> a + b == b;
    } else {
      assert (a + b)[1..] == a[1..] + b;
      InsertAllAppend(Insert(es.value, a[0].path, a[0].entries, a[0].repeated), a[1..], b);
    }
  }

  /** Sections below a key act inside the table there. */
  lemma {:induction false} InsertUnder(es: seq<Entry>, key: bytes, table: seq<Entry>, sections: seq<Section>)
    requires !HasKey(es, key) && Deep(sections)
    ensures InsertAll(Some(es + [Entry(key, Tab(table))]), Under([key], sections)) ==
      match InsertAll(Some(table), sections)
      case None => None
      case Some(t) => Some(es + [Entry(key, Tab(t))])
    decreases |sections|
  {
    hide Insert;
    if sections != [] {
      var s := sections[0];
      assert s.path != [];
      InsertOneUnder(es, key, table, s);
      var t := Insert(table, s.path, s.entries, s.repeated);
      if t.Some? {
        assert forall i | 0 <= i < |sections[1..]| :: sections[1..][i] == sections[i + 1];
        InsertUnder(es, key, t.value, sections[1..]);
      }
    }
  }

  lemma InsertOneUnder(es: seq<Entry>, key: bytes, table: seq<Entry>, s: Section)
    requires !HasKey(es, key) && s.path != []
    ensures Insert(es + [Entry(key, Tab(table))], [key] + s.path, s.entries, s.repeated) ==
      match Insert(table, s.path, s.entries, s.repeated)
      case None => None
      case Some(t) => Some(es + [Entry(key, Tab(t))])
  {
    hide KeyIndex, InsertRepeated, InsertRegular;
    KeyIndexAt(es, key, [Entry(key, Tab(table))]);
    assert ([key] + s.path)[1..] == s.path;
    var whole := es + [Entry(key, Tab(table))];
    var t := Insert(table, s.path, s.entries, s.repeated);
    if t.Some? {
      assert whole[|es| := Entry(key, Tab(t.value))] == es + [Entry(key, Tab(t.value))];
    }
  }

  lemma {:induction false} SectionsDeep(es: seq<Entry>)
    ensures Deep(SectionsOf(es))
    decreases es
  {
    if es != [] {
      EntrySectionsDeep(es[0]);
      SectionsDeep(es[1..]);
    }
  }

  lemma {:induction false} UnderDeep(path: seq<bytes>, sections: seq<Section>)
    requires path != []
    ensures Deep(Under(path, sections))
  {
    if sections != [] { UnderDeep(path, sections[1..]); }
  }

  lemma {:induction false} EntrySectionsDeep(e: Entry)
    ensures Deep(EntrySections(e))
    decreases e
  {
    if e.value.Tab? {
      UnderDeep([e.key], SectionsOf(e.value.entries));
    } else if IsRepeated(e.value) {
      ItemSectionsDeep(e.value.items, e.key);
    }
  }

  lemma {:induction false} ItemSectionsDeep(items: seq<Value>, key: bytes)
    requires forall x | x in items :: x.Tab?
    ensures Deep(ItemSections(items, key))
    decreases items
  {
    if items != [] {
      assert items[0] in items;
      UnderDeep([key], SectionsOf(items[0].entries));
      ItemSectionsDeep(items[1..], key);
    }
  }

  /** The list of tables under a key once `done` of them are in. */
  function Slot(es: seq<Entry>, key: bytes, done: seq<Value>): seq<Entry> {
    if done == [] then es else es + [Entry(key, Arr(done))]
  }

  lemma SlotGrows(es: seq<Entry>, key: bytes, done: seq<Value>, table: seq<Entry>)
    requires !HasKey(es, key)
    ensures Insert(Slot(es, key, done), [key], table, true) == Some(Slot(es, key, done + [Tab(table)]))
  {
    if done == [] {
      assert done + [Tab(table)] == [Tab(table)];
    } else {
      KeyIndexAt(es, key, [Entry(key, Arr(done))]);
      assert (es + [Entry(key, Arr(done))])[|es| := Entry(key, Arr(done + [Tab(table)]))] ==
        es + [Entry(key, Arr(done + [Tab(table)]))];
    }
  }

  lemma SlotRefuses(es: seq<Entry>, key: bytes, done: seq<Value>, s: Section)
    requires !HasKey(es, key) && done != [] && s.path != []
    ensures Insert(Slot(es, key, done), [key] + s.path, s.entries, s.repeated) == None
  {
    KeyIndexAt(es, key, [Entry(key, Arr(done))]);
  }

  lemma {:induction false} SectionsPresent(es: seq<Entry>)
    ensures SectionsOf(es) == [] <==> AllScalar(es)
    decreases es
  {
    if es != [] {
      SectionsPresent(es[1..]);
      var e := es[0];
      assert EntrySections(e) == [] <==> IsScalar(e.value);
      assert AllScalar(es) <==> IsScalar(e.value) && AllScalar(es[1..]) by {
        if IsScalar(e.value) && AllScalar(es[1..]) {
          forall i | 0 <= i < |es| ensures IsScalar(es[i].value) {
            if i > 0 { assert es[i] == es[1..][i - 1]; }
          }
        }
        if AllScalar(es) { assert forall i | 0 <= i < |es[1..]| :: es[1..][i] == es[i + 1]; }
      }
    }
  }

  function ItemHead(t: seq<Entry>, key: bytes): seq<Section> {
    [Section([key], true, Scalars(t))] + Under([key], SectionsOf(t))
  }

  /** One repeated section with everything nested in it: only scalars fit into a list of tables. */
  lemma RebuiltItem(es: seq<Entry>, key: bytes, done: seq<Value>, t: seq<Entry>)
    requires !HasKey(es, key)
    ensures InsertAll(Some(Slot(es, key, done)), ItemHead(t, key)) ==
      if AllScalar(t) then Some(Slot(es, key, done + [Tab(t)])) else None
  {
    hide Slot, Insert, SectionsOf, Scalars, AllScalar, HasKey;
    var now := done + [Tab(Scalars(t))];
    var head, inside := Section([key], true, Scalars(t)), Under([key], SectionsOf(t));
    SlotGrows(es, key, done, Scalars(t));
    InsertAllAppend(Some(Slot(es, key, done)), [head], inside);
    assert [head][1..] == [];
    assert InsertAll(Some(Slot(es, key, done)), [head]) == Some(Slot(es, key, now));
    SectionsPresent(t);
    if AllScalar(t) {
      AllScalarSplit(t);
    } else {
      SectionsDeep(t);
      SlotRefuses(es, key, now, SectionsOf(t)[0]);
      InsertAllNone(inside[1..]);
    }
  }

  /** Repeated sections rebuild their list exactly when every item is a table of scalars. */
  lemma {:induction false} RebuiltItems(es: seq<Entry>, key: bytes, done: seq<Value>, items: seq<Value>)
    requires !HasKey(es, key) && forall x | x in items :: x.Tab?
    ensures InsertAll(Some(Slot(es, key, done)), ItemSections(items, key)) ==
      if FlatItems(items) then Some(Slot(es, key, done + items)) else None
    decreases items
  {
    hide Slot, Insert, SectionsOf, Scalars, AllScalar, HasKey, InsertAll, FlatItems, Under;
    if items == [] {
      NothingInserted(Slot(es, key, done));
      NoItems();
      assert done + items == done;
    } else {
      assert items[0] in items;
      var t, rest := items[0].entries, ItemSections(items[1..], key);
      assert ItemSections(items, key) == ItemHead(t, key) + rest;
      RebuiltItem(es, key, done, t);
      InsertAllAppend(Some(Slot(es, key, done)), ItemHead(t, key), rest);
      FlatItemsHead(items);
      if AllScalar(t) {
        RebuiltItems(es, key, done + [Tab(t)], items[1..]);
        assert done + [Tab(t)] + items[1..] == done + items;
      } else {
        InsertAllNone(rest);
      }
    }
  }

  lemma NoItems()
    ensures FlatItems([])
  {
  }

  lemma FlatItemsHead(items: seq<Value>)
    requires items != [] && forall x | x in items :: x.Tab?
    ensures items[0].Tab? && (FlatItems(items) <==> AllScalar(items[0].entries) && FlatItems(items[1..]))
  {
    hide AllScalar;
    assert items[0] in items;
    assert forall i | 0 <= i < |items[1..]| :: items[1..][i] == items[i + 1];
    if AllScalar(items[0].entries) && FlatItems(items[1..]) {
      forall i | 0 <= i < |items| ensures items[i].Tab? && AllScalar(items[i].entries) {
        if i > 0 { assert items[i] == items[1..][i - 1]; }
      }
    }
  }

  lemma FlatHead(es: seq<Entry>)
    requires es != []
    ensures FlatEntries(es) <==> Flat(es[0].value) && FlatEntries(es[1..])
  {
    hide Flat;
    assert forall i | 0 <= i < |es[1..]| :: es[1..][i] == es[i + 1];
    if Flat(es[0].value) && FlatEntries(es[1..]) {
      forall i | 0 <= i < |es| ensures Flat(es[i].value) {
        if i > 0 { assert es[i] == es[1..][i - 1]; }
      }
    }
  }

  /** The sections of ordered entries rebuild them exactly when they are flat, and are refused otherwise. */
  lemma {:induction false} Rebuilt(target: seq<Entry>, es: seq<Entry>)
    requires GoodEntries(es) && OrderedEntries(es) && Fresh(target, Others(es))
    ensures InsertAll(Some(target), SectionsOf(es)) == if FlatEntries(es) then Some(target + Others(es)) else None
    decreases es, 0
  {
    assert FlatEntries([]) && SectionsOf([]) == [];
    hide SectionsOf, FlatEntries, Fresh, Good, GoodEntries, Flat, Insert, HasKey, IsScalar, Ordered, NoScalar, InsertAll;
    if es == [] {
      NothingInserted(target);
      assert target + Others(es) == target;
    } else {
      var e, rest := es[0], es[1..];
      GoodTail(es);
      FlatHead(es);
      SectionsHead(es);
      InsertAllAppend(Some(target), EntrySections(e), SectionsOf(rest));
      if IsScalar(e.value) {
        ScalarEntry(EMPTY, e, []);
        NothingInserted(target);
        Rebuilt(target, rest);
      } else {
        NoScalarSplit(rest);
        assert Others(es) == es;
        FreshHead(target, es);
        RebuiltEntry(target, e);
        if Flat(e.value) {
          Rebuilt(target + [e], rest);
          Assoc(target, [e], rest);
        } else {
          InsertAllNone(SectionsOf(rest));
        }
      }
    }
  }

  lemma SectionsHead(es: seq<Entry>)
    requires es != []
    ensures SectionsOf(es) == EntrySections(es[0]) + SectionsOf(es[1..])
  {
    hide EntrySections;
  }

  lemma NothingInserted(es: seq<Entry>)
    ensures InsertAll(Some(es), []) == Some(es)
  {
  }

  lemma FreshHead(target: seq<Entry>, es: seq<Entry>)
    requires es != [] && GoodEntries(es) && Fresh(target, es)
    ensures !HasKey(target, es[0].key) && Fresh(target + [es[0]], es[1..])
  {
    hide Good;
    assert es == [es[0]] + es[1..];
    forall i | 0 <= i < |es[1..]| ensures !HasKey(target + [es[0]], es[1..][i].key) {
      assert es[1..][i] == es[i + 1];
    }
  }

  lemma {:induction false} RebuiltEntry(target: seq<Entry>, e: Entry)
    requires Good(e.value) && Ordered(e.value) && !IsScalar(e.value) && !HasKey(target, e.key)
    ensures InsertAll(Some(target), EntrySections(e)) == if Flat(e.value) then Some(target + [e]) else None
    decreases e
  {
    hide GoodEntries, OrderedEntries, FlatEntries, FlatItems, Scalars, SectionsOf, HasKey;
    if e.value.Tab? {
      var t := e.value.entries;
      OpensTable(target, e.key, Scalars(t));
      var head := Section([e.key], false, Scalars(t));
      InsertAllAppend(Some(target), [head], Under([e.key], SectionsOf(t)));
      assert [head][1..] == [];
      SectionsDeep(t);
      InsertUnder(target, e.key, Scalars(t), SectionsOf(t));
      FreshAmong(t);
      Rebuilt(Scalars(t), t);
      OrderedSplit(t);
    } else {
      RebuiltItems(target, e.key, [], e.value.items);
      assert [] + e.value.items == e.value.items;
    }
  }

  lemma OpensTable(target: seq<Entry>, key: bytes, table: seq<Entry>)
    requires !HasKey(target, key)
    ensures Insert(target, [key], table, false) == Some(target + [Entry(key, Tab(table))])
  {
  }

  lemma {:induction false} OthersAmong(es: seq<Entry>)
    ensures forall e | e in Others(es) :: e in es && !IsScalar(e.value)
    ensures forall e | e in Scalars(es) :: e in es && IsScalar(e.value)
  {
    if es != [] {
      OthersAmong(es[1..]);
      assert es[0] in es && forall e | e in es[1..] :: e in es;
    }
  }

  lemma KindsDiffer(es: seq<Entry>, a: Entry, b: Entry)
    requires Distinct(es) && a in es && b in es && IsScalar(a.value) && !IsScalar(b.value)
    ensures a.key != b.key
  {
    var j :| 0 <= j < |es| && es[j] == a;
    var k :| 0 <= k < |es| && es[k] == b;
    assert j < k || k < j;
  }

  lemma FreshAmong(es: seq<Entry>)
    requires GoodEntries(es)
    ensures Fresh(Scalars(es), Others(es))
  {
    hide Good, IsScalar;
    OthersAmong(es);
    var s, o := Scalars(es), Others(es);
    forall i, e | 0 <= i < |o| && e in s ensures e.key != o[i].key {
      assert o[i] in o;
      KindsDiffer(es, e, o[i]);
    }
  }

  // ---- the whole document ------------------------------------------------------------------------

  /** What ordered entries read as, if at all: scalars at the root, then their sections. */
  lemma DocumentShape(es: seq<Entry>)
    requires GoodEntries(es) && OrderedEntries(es)
    ensures var d := AddEntries(Some(EMPTY), es, []);
      (FlatEntries(es) ==> d.Some?) &&
      (d.Some? ==> d.value.root == Scalars(es) && d.value.sections == SectionsOf(es))
  {
    hide GoodEntries, OrderedEntries, FlatEntries, AddEntries, Scalars, SectionsOf;
    var d := AddEntries(Some(EMPTY), es, []);
    FreshInNone(EMPTY, Scalars(es));
    AddedEntries(EMPTY, es, []);
    if FlatEntries(es) {
      FlatEntriesRead(EMPTY, es, []);
    }
    if d.Some? {
      UnderNothing(SectionsOf(es));
      assert d.value.root == [] + Scalars(es) && d.value.sections == [] + SectionsOf(es);
      assert [] + Scalars(es) == Scalars(es) && [] + SectionsOf(es) == SectionsOf(es);
    }
  }

  /** Good ordered entries, read from text one by one and rebuilt, come back exactly when they are flat. */
  lemma DocumentRebuilt(es: seq<Entry>)
    requires GoodEntries(es) && OrderedEntries(es)
    ensures var d := AddEntries(Some(EMPTY), es, []);
      (if d.None? then None else Build(d.value)) == if FlatEntries(es) then Some(es) else None
  {
    hide GoodEntries, OrderedEntries, FlatEntries, AddEntries, Scalars, Others, SectionsOf, InsertAll;
    DocumentShape(es);
    FreshAmong(es);
    Rebuilt(Scalars(es), es);
    OrderedSplit(es);
  }

  lemma {:induction false} UnderNothing(sections: seq<Section>)
    ensures Under([], sections) == sections
  {
    if sections != [] {
      UnderNothing(sections[1..]);
      assert [] + sections[0].path == sections[0].path;
    }
  }
}
