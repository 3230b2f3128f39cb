/** Config text determines the tree it was printed from, nested lists of tables included. */
module ConfigText {
  import opened Exprs
  import opened TomlText
  import opened Config
  import opened Nesting
  import opened ConfigRoundTrip

  // ---- what lines say ------------------------------------------------------------------------

  datatype Event = Header(path: seq<bytes>, repeated: bool) | Assign(entry: Entry)

  /** What one line says, whether or not a document takes it. */
  function ContentEvents(line: bytes): Option<seq<Event>> {
    if line == [] then Some([])
    else if line[0] == OPEN then
      match ParseHeader(line)
      case None => None
      case Some((path, repeated)) => Some([Header(path, repeated)])
    else
      match ParseAssignment(line)
      case None => None
      case Some(e) => Some([Assign(e)])
  }

  function LineEvents(raw: bytes): Option<seq<Event>> {
    match StripComment(raw)
    case None => None
    case Some(stripped) => ContentEvents(Trim(stripped))
  }

  function Events(lines: seq<bytes>): Option<seq<Event>> {
    if lines == [] then Some([])
    else if LineEvents(lines[0]).None? || Events(lines[1..]).None? then None
    else Some(LineEvents(lines[0]).value + Events(lines[1..]).value)
  }

  predicate Says(s: bytes, events: seq<Event>) {
    Flush(s) && Events(Lines(s)) == Some(events)
  }

  lemma {:induction false} EventsAppend(a: seq<bytes>, b: seq<bytes>)
    requires Events(a).Some? && Events(b).Some?
    ensures Events(a + b) == Some(Events(a).value + Events(b).value)
  {
    hide LineEvents;
    if a == [] {
      assert a + b == b && [] + Events(b).value == Events(b).value;
    } else {
      assert (a + b)[1..] == a[1..] + b;
      EventsAppend(a[1..], b);
      Assoc(LineEvents(a[0]).value, Events(a[1..]).value, Events(b).value);
    }
  }

  lemma LineSays(out: bytes, events: seq<Event>, line: bytes)
    requires Says(out, events) && OneLine(line) && (line == [] || Solid(line)) && Quiet(line, HASH)
    requires ContentEvents(line).Some?
    ensures Says(Line(out, line), events + ContentEvents(line).value)
  {
    hide Lines, Trim, Quiet, ContentEvents, StripComment;
    LinesOne(line);
    LinesAppend(out, line + [NEWLINE]);
    Assoc(out, line, [NEWLINE]);
    QuietLine(line);
    assert LineEvents(line) == ContentEvents(line);
    assert [line][1..] == [];
    assert ContentEvents(line).value + [] == ContentEvents(line).value;
    EventsAppend(Lines(out), [line]);
  }

  lemma BreakSays(out: bytes, events: seq<Event>)
    requires Says(out, events)
    ensures Says(Break(out), events)
  {
    hide Lines, Events;
    if Break(out) != out {
      assert Break(out) == Line(out, []);
      PlainIsQuiet([], HASH);
      LineSays(out, events, []);
      assert events + [] == events;
    }
  }

  lemma HeaderSays(out: bytes, events: seq<Event>, path: seq<bytes>, repeated: bool)
    requires Says(out, events) && ValidPath(path)
    ensures Says(Line(Break(out), HeaderText(path, repeated)), events + [Header(path, repeated)])
  {
    hide Says, HeaderText, ParseHeader, Quiet, Line, Break;
    BreakSays(out, events);
    HeaderRoundTrip(path, repeated);
    LineSays(Break(out), events, HeaderText(path, repeated));
  }

  lemma AssignmentSays(out: bytes, events: seq<Event>, e: Entry)
    requires Says(out, events) && ValidKey(e.key) && GoodScalar(e.value)
    ensures EncodeValue(e.value).Some?
    ensures Says(Line(out, AssignmentText(e.key, EncodeValue(e.value).value)), events + [Assign(e)])
  {
    hide Says, ParseAssignment, Quiet, Line, AssignmentText, GoodScalar, EncodeValue, ValidKey;
    AssignmentRoundTrip(e);
    LineSays(out, events, AssignmentText(e.key, EncodeValue(e.value).value));
  }

  // ---- what printed entries say -----------------------------------------------------------------

  function Listing(es: seq<Entry>, path: seq<bytes>): seq<Event>
    decreases es
  {
    if es == [] then [] else EntryListing(es[0], path) + Listing(es[1..], path)
  }

  function EntryListing(e: Entry, path: seq<bytes>): seq<Event>
    decreases e
  {
    var inner := path + [e.key];
    if e.value.Tab? then [Header(inner, false)] + Listing(e.value.entries, inner)
    else if IsRepeated(e.value) then ItemListing(e.value.items, inner)
    else [Assign(e)]
  }

  function ItemListing(items: seq<Value>, path: seq<bytes>): seq<Event>
    requires forall x | x in items :: x.Tab?
    decreases items
  {
    if items == [] then [] else
    assert items[0] in items;
    [Header(path, true)] + Listing(items[0].entries, path) + ItemListing(items[1..], path)
  }

  lemma {:induction false} EntriesSay(es: seq<Entry>, path: seq<bytes>, out: bytes, events: seq<Event>)
    requires GoodEntries(es) && (path == [] || ValidPath(path)) && Says(out, events)
    ensures PrintEntries(es, path, out).Some?
    ensures Says(PrintEntries(es, path, out).value, events + Listing(es, path))
    decreases es
  {
    hide Says, PrintEntry, EntryListing, GoodEntries, ValidPath, ValidKey, Good;
    if es == [] {
      assert events + [] == events;
    } else {
      GoodTail(es);
      EntrySays(es[0], path, out, events);
      var first := EntryListing(es[0], path);
      EntriesSay(es[1..], path, PrintEntry(es[0], path, out).value, events + first);
      Assoc(events, first, Listing(es[1..], path));
    }
  }

  lemma {:induction false} EntrySays(e: Entry, path: seq<bytes>, out: bytes, events: seq<Event>)
    requires ValidKey(e.key) && Good(e.value) && (path == [] || ValidPath(path)) && Says(out, events)
    ensures PrintEntry(e, path, out).Some?
    ensures Says(PrintEntry(e, path, out).value, events + EntryListing(e, path))
    decreases e
  {
    hide Says, PrintEntries, PrintItems, Listing, ItemListing, GoodEntries, ValidPath, ValidKey, GoodScalar, EncodeValue, Line, Break, HeaderText,
      AssignmentText;
    var inner := path + [e.key];
    PathExtends(path, e.key);
    if e.value.Tab? {
      HeaderSays(out, events, inner, false);
      EntriesSay(e.value.entries, inner, Line(Break(out), HeaderText(inner, false)), events + [Header(inner, false)]);
      Assoc(events, [Header(inner, false)], Listing(e.value.entries, inner));
    } else if IsRepeated(e.value) {
      ItemsSay(e.value.items, inner, out, events);
    } else {
      AssignmentSays(out, events, e);
    }
  }

  lemma {:induction false} ItemsSay(items: seq<Value>, path: seq<bytes>, out: bytes, events: seq<Event>)
    requires (forall x | x in items :: x.Tab?) && (forall i | 0 <= i < |items| :: Good(items[i]))
    requires ValidPath(path) && Says(out, events)
    ensures PrintItems(items, path, out).Some?
    ensures Says(PrintItems(items, path, out).value, events + ItemListing(items, path))
    decreases items
  {
    hide Says, PrintEntries, Listing, GoodEntries, ValidPath, Line, Break, HeaderText;
    if items == [] {
      assert events + [] == events;
    } else {
      assert items[0] in items;
      var es := items[0].entries;
      HeaderSays(out, events, path, true);
      var head := Line(Break(out), HeaderText(path, true));
      var h := [Header(path, true)];
      EntriesSay(es, path, head, events + h);
      Assoc(events, h, Listing(es, path));
      ItemsSay(items[1..], path, PrintEntries(es, path, head).value, events + (h + Listing(es, path)));
      Assoc(events, h + Listing(es, path), ItemListing(items[1..], path));
    }
  }

  // ---- listings are one-to-one ------------------------------------------------------------------

  /** What follows does not continue the table at `path`. */
  predicate Stops(events: seq<Event>, path: seq<bytes>) {
    events == [] || (events[0].Header? && !(path < events[0].path))
  }

  /** What follows does not continue the table at `path`, nor the list of tables there. */
  predicate Leaves(events: seq<Event>, path: seq<bytes>) {
    events == [] || (events[0].Header? && !(path <= events[0].path))
  }

  function FirstEvent(e: Entry, path: seq<bytes>): Event {
    if IsScalar(e.value) then Assign(e) else Header(path + [e.key], !e.value.Tab?)
  }

  lemma EntryStarts(e: Entry, path: seq<bytes>)
    ensures EntryListing(e, path) != [] && EntryListing(e, path)[0] == FirstEvent(e, path)
  {
    hide Listing;
  }

  lemma ListingStarts(es: seq<Entry>, path: seq<bytes>, rest: seq<Event>)
    requires es != []
    ensures var l := Listing(es, path) + rest; l != [] && l[0] == FirstEvent(es[0], path)
  {
    hide EntryListing, FirstEvent;
    EntryStarts(es[0], path);
  }

  /** After an entry that is not a scalar come other sections of its table, or what ends the table. */
  lemma RestLeaves(es: seq<Entry>, path: seq<bytes>, rest: seq<Event>)
    requires es != [] && GoodEntries(es) && OrderedEntries(es) && !IsScalar(es[0].value) && Stops(rest, path)
    ensures Leaves(Listing(es[1..], path) + rest, path + [es[0].key])
  {
    hide Listing, Good, Ordered;
    var inner := path + [es[0].key];
    if es[1..] == [] {
      NothingListed(path);
      assert [] + rest == rest;
      if rest != [] { BelowIsLower(path, es[0].key, rest[0].path); }
    } else {
      ListingStarts(es[1..], path, rest);
      assert !IsScalar(es[1..][0].value) && es[1].key != es[0].key;
      DifferentKeys(path, es[0].key, es[1].key);
    }
  }

  lemma NothingListed(path: seq<bytes>)
    ensures Listing([], path) == []
  {
  }

  lemma BelowIsLower(path: seq<bytes>, key: bytes, p: seq<bytes>)
    ensures path + [key] <= p ==> path < p
  {
  }

  lemma DifferentKeys(path: seq<bytes>, a: bytes, b: bytes)
    requires a != b
    ensures !(path + [a] <= path + [b])
  {
    assert (path + [a])[|path|] == a && (path + [b])[|path|] == b;
  }

  lemma ListingParts(es: seq<Entry>, path: seq<bytes>, rest: seq<Event>)
    requires es != []
    ensures Listing(es, path) + rest == EntryListing(es[0], path) + (Listing(es[1..], path) + rest)
  {
    hide EntryListing;
    Assoc(EntryListing(es[0], path), Listing(es[1..], path), rest);
  }

  lemma OrderedTail(es: seq<Entry>)
    requires es != [] && OrderedEntries(es)
    ensures Ordered(es[0].value) && OrderedEntries(es[1..])
  {
    hide Ordered;
  }

  /** Where one table ends, so does the other. */
  lemma NothingMatches(es: seq<Entry>, path: seq<bytes>, r: seq<Event>, fs: seq<Entry>, q: seq<Event>)
    requires es == [] && Stops(r, path) && Listing(es, path) + r == Listing(fs, path) + q
    ensures fs == [] && r == q
  {
    hide Listing;
    NothingListed(path);
    assert [] + r == r && [] + q == q;
    if fs != [] { ListingStarts(fs, path, q); }
  }

  lemma {:induction false} SameListing(es: seq<Entry>, fs: seq<Entry>, path: seq<bytes>, r: seq<Event>, q: seq<Event>)
    requires GoodEntries(es) && OrderedEntries(es) && GoodEntries(fs) && OrderedEntries(fs)
    requires Stops(r, path) && Stops(q, path) && Listing(es, path) + r == Listing(fs, path) + q
    ensures es == fs && r == q
    decreases es, 0
  {
    hide EntryListing, Listing, GoodEntries, OrderedEntries, Good, Ordered, Leaves, Stops, FirstEvent, IsScalar;
    if es == [] || fs == [] {
      if es == [] { NothingMatches(es, path, r, fs, q); } else { NothingMatches(fs, path, q, es, r); }
    } else {
      var e, f := es[0], fs[0];
      GoodTail(es);
      GoodTail(fs);
      OrderedTail(es);
      OrderedTail(fs);
      ListingStarts(es, path, r);
      ListingStarts(fs, path, q);
      SameFirst(e, f, path);
      var r1, q1 := Listing(es[1..], path) + r, Listing(fs[1..], path) + q;
      ListingParts(es, path, r);
      ListingParts(fs, path, q);
      if IsScalar(e.value) {
        ScalarListing(e, path, r1);
        ScalarListing(f, path, q1);
      } else {
        RestLeaves(es, path, r);
        RestLeaves(fs, path, q);
        SameEntryListing(e, f, path, r1, q1);
      }
      SameListing(es[1..], fs[1..], path, r, q);
      assert es == [es[0]] + es[1..] && fs == [fs[0]] + fs[1..];
    }
  }

  lemma SameFirst(e: Entry, f: Entry, path: seq<bytes>)
    requires FirstEvent(e, path) == FirstEvent(f, path)
    ensures e.key == f.key && IsScalar(e.value) == IsScalar(f.value) && e.value.Tab? == f.value.Tab?
  {
    if !IsScalar(e.value) && !IsScalar(f.value) {
      assert (path + [e.key])[|path|] == e.key && (path + [f.key])[|path|] == f.key;
    }
  }

  lemma ScalarListing(e: Entry, path: seq<bytes>, rest: seq<Event>)
    requires IsScalar(e.value)
    ensures EntryListing(e, path) + rest == [Assign(e)] + rest && (EntryListing(e, path) + rest)[1..] == rest
  {
  }

  lemma {:induction false} SameEntryListing(e: Entry, f: Entry, path: seq<bytes>, r: seq<Event>, q: seq<Event>)
    requires Good(e.value) && Ordered(e.value) && Good(f.value) && Ordered(f.value)
    requires !IsScalar(e.value) && !IsScalar(f.value) && e.key == f.key && e.value.Tab? == f.value.Tab?
    requires Leaves(r, path + [e.key]) && Leaves(q, path + [e.key])
    requires EntryListing(e, path) + r == EntryListing(f, path) + q
    ensures e == f && r == q
    decreases e
  {
    hide Listing, ItemListing, GoodEntries, OrderedEntries;
    var inner := path + [e.key];
    if e.value.Tab? {
      var h := [Header(inner, false)];
      HeadedBy(h, Listing(e.value.entries, inner), r);
      HeadedBy(h, Listing(f.value.entries, inner), q);
      SameListing(e.value.entries, f.value.entries, inner, r, q);
    } else {
      SameItems(e.value.items, f.value.items, inner, r, q);
    }
  }

  lemma HeadedBy(h: seq<Event>, l: seq<Event>, rest: seq<Event>)
    requires |h| == 1
    ensures (h + l + rest)[1..] == l + rest
  {
  }

  lemma ItemsStart(items: seq<Value>, path: seq<bytes>, rest: seq<Event>)
    requires forall x | x in items :: x.Tab?
    ensures var l := ItemListing(items, path) + rest;
      if items == [] then l == rest else l != [] && l[0] == Header(path, true)
  {
    hide Listing;
    if items == [] { assert [] + rest == rest; } else { assert items[0] in items; }
  }

  lemma ItemsStop(items: seq<Value>, path: seq<bytes>, rest: seq<Event>)
    requires (forall x | x in items :: x.Tab?) && Leaves(rest, path)
    ensures Stops(ItemListing(items, path) + rest, path)
  {
    hide ItemListing;
    ItemsStart(items, path, rest);
  }

  lemma {:induction false} SameItems(items: seq<Value>, others: seq<Value>, path: seq<bytes>, r: seq<Event>, q: seq<Event>)
    requires (forall x | x in items :: x.Tab?) && (forall x | x in others :: x.Tab?)
    requires forall i | 0 <= i < |items| :: Good(items[i]) && Ordered(items[i])
    requires forall i | 0 <= i < |others| :: Good(others[i]) && Ordered(others[i])
    requires Leaves(r, path) && Leaves(q, path) && ItemListing(items, path) + r == ItemListing(others, path) + q
    ensures items == others && r == q
    decreases items
  {
    hide Listing, ItemListing, GoodEntries, OrderedEntries, Stops;
    ItemsStart(items, path, r);
    ItemsStart(others, path, q);
    if items != [] && others != [] {
      assert items[0] in items && others[0] in others;
      var h := [Header(path, true)];
      var a, b := items[0].entries, others[0].entries;
      var r1, q1 := ItemListing(items[1..], path) + r, ItemListing(others[1..], path) + q;
      ItemsUnfold(items, path, r);
      ItemsUnfold(others, path, q);
      HeadedBy(h, Listing(a, path), r1);
      HeadedBy(h, Listing(b, path), q1);
      ItemsStop(items[1..], path, r);
      ItemsStop(others[1..], path, q);
      assert Good(items[0]) && Ordered(items[0]) && Good(others[0]) && Ordered(others[0]);
      SameListing(a, b, path, r1, q1);
      SameItems(items[1..], others[1..], path, r, q);
      assert items == [items[0]] + items[1..] && others == [others[0]] + others[1..];
    }
  }

  lemma ItemsUnfold(items: seq<Value>, path: seq<bytes>, rest: seq<Event>)
    requires items != [] && forall x | x in items :: x.Tab?
    ensures items[0] in items
    ensures ItemListing(items, path) + rest ==
      [Header(path, true)] + Listing(items[0].entries, path) + (ItemListing(items[1..], path) + rest)
  {
    hide Listing;
    assert items[0] in items;
    Assoc([Header(path, true)] + Listing(items[0].entries, path), ItemListing(items[1..], path), rest);
  }

  // ---- canonical text -----------------------------------------------------------------------------

  lemma WholeSays(es: seq<Entry>)
    requires GoodEntries(es)
    ensures PrintEntries(es, [], []).Some? && Says(PrintEntries(es, [], []).value, Listing(es, []))
  {
    assert Says([], []);
    hide Says, GoodEntries, PrintEntries, Listing;
    EntriesSay(es, [], [], []);
    assert [] + Listing(es, []) == Listing(es, []);
  }

  lemma SameWhole(es: seq<Entry>, fs: seq<Entry>)
    requires GoodEntries(es) && OrderedEntries(es) && GoodEntries(fs) && OrderedEntries(fs)
    requires Listing(es, []) == Listing(fs, [])
    ensures es == fs
  {
    hide GoodEntries, OrderedEntries, Listing;
    assert Listing(es, []) + [] == Listing(es, []) && Listing(fs, []) + [] == Listing(fs, []);
    SameListing(es, fs, [], [], []);
  }

  lemma SameText(v: Value, w: Value)
    requires v.Tab? && w.Tab? && Good(v) && Good(w) && Print(v) == Print(w)
    ensures ArrangeValue(v) == ArrangeValue(w)
  {
    hide Says, GoodEntries, OrderedEntries, Arrange, PrintEntries, Listing, ArrangeValue;
    var es, fs := Arrange(v.entries), Arrange(w.entries);
    ArrangeKeepsEntries(v.entries);
    ArrangeKeepsEntries(w.entries);
    ArrangeOrdersEntries(v.entries);
    ArrangeOrdersEntries(w.entries);
    WholeSays(es);
    WholeSays(fs);
    OneSaying(PrintEntries(es, [], []).value, Listing(es, []), Listing(fs, []));
    SameWhole(es, fs);
    ArrangeTable(v);
    ArrangeTable(w);
  }

  lemma OneSaying(s: bytes, a: seq<Event>, b: seq<Event>)
    requires Says(s, a) && Says(s, b)
    ensures a == b
  {
  }

  /** Canonical text: good trees print the same text exactly when they are the same up to entry order. */
  lemma TextDecidesSame(v: Value, w: Value)
    requires v.Tab? && w.Tab? && Good(v) && Good(w)
    ensures Print(v) == Print(w) <==> Same(v, w)
  {
    hide Print, Good, Same, ArrangeValue;
    SameArranged(v, w);
    if Print(v) == Print(w) { SameText(v, w); }
    if ArrangeValue(v) == ArrangeValue(w) { PrintArranges(v, w); }
  }
}
