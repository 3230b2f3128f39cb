/** The side tables of a frame: every namespace, symbol and number domain, in order, once. */
module SideTables {
  import opened Order
  import opened Exprs
  import opened Canonical
  import opened Atoms
  import opened Body

  // ---- what an expression mentions -----------------------------------------------

  function HeadSymbols(h: Head): set<Symbol> {
    match h
    case Sym(x) => {x}
    case Local(x) => {x}
    case Infix(x) => {x}
    case Prefix(x) => {x}
    case Postfix(x) => {x}
    case Extension(x) => {x}
    case Annotated(names) => NameSet(names)
    case _ => {}
  }

  function NameSet(names: seq<Symbol>): set<Symbol> {
    set x | x in names
  }

  function HeadDomains(h: Head): set<Symbol> {
    match h
    case Number(n) => {n.domain}
    case _ => {}
  }

  ghost function SymbolsOf(e: Expr): set<Symbol>
    decreases e
  {
    HeadSymbols(e.head) + set k, x | k in e.kids && x in SymbolsOf(k) :: x
  }

  ghost function DomainsOf(e: Expr): set<Symbol>
    decreases e
  {
    HeadDomains(e.head) + set k, x | k in e.kids && x in DomainsOf(k) :: x
  }

  function Namespaces(ss: set<Symbol>): set<Text> {
    set s | s in ss && s.namespace.Some? :: s.namespace.value
  }

  // ---- the order of table entries ------------------------------------------------

  /** Symbols without a namespace come first; the rest go by namespace, then by name. */
  function SymbolOrder(s: Symbol): Code {
    match s.namespace
    case None => [0] + s.name
    case Some(ns) => [1] + Raised(ns) + ([0] + s.name)
  }

  /** Bytes lifted above the separator, so that a prefix still sorts first. */
  function Raised(t: bytes): (r: Code)
    ensures |r| == |t|
    ensures forall i | 0 <= i < |t| :: r[i] == (t[i] as nat) + 1
  {
    seq(|t|, i requires 0 <= i < |t| => (t[i] as nat) + 1)
  }

  lemma RaisedInjective(a: bytes, b: bytes, x: bytes, y: bytes)
    requires Raised(a) + ([0] + x) == Raised(b) + ([0] + y)
    ensures a == b && x == y
  {
    var p, q := Raised(a) + ([0] + x), Raised(b) + ([0] + y);
    assert p[|a|] == 0 && q[|b|] == 0;
    forall i | 0 <= i < |a| ensures a[i] == b[i] {
      assert p[i] == (a[i] as nat) + 1 && q[i] == (b[i] as nat) + 1;
    }
    assert p[|a| + 1..] == x && q[|b| + 1..] == y;
  }

  lemma SymbolOrderInjective(a: Symbol, b: Symbol)
    requires SymbolOrder(a) == SymbolOrder(b)
    ensures a == b
  {
    var p, q := SymbolOrder(a), SymbolOrder(b);
    assert p[0] == (if a.namespace.None? then 0 else 1);
    assert q[0] == (if b.namespace.None? then 0 else 1);
    if a.namespace.None? {
      assert p[1..] == a.name && q[1..] == b.name;
    } else {
      var na, nb := a.namespace.value, b.namespace.value;
      assert p[1..] == Raised(na) + ([0] + a.name);
      assert q[1..] == Raised(nb) + ([0] + b.name);
      RaisedInjective(na, nb, a.name, b.name);
    }
  }

  function SymbolItem(s: Symbol): Item<Symbol> {
    Item(SymbolOrder(s), s)
  }

  function TextItem(t: Text): Item<Text> {
    Item(t, t)
  }

  function Values<T>(xs: seq<Item<T>>): (r: seq<T>)
    ensures |r| == |xs|
    ensures forall i | 0 <= i < |xs| :: r[i] == xs[i].value
  {
    seq(|xs|, i requires 0 <= i < |xs| => xs[i].value)
  }

  ghost predicate IsSymbolTable(xs: seq<Item<Symbol>>, ss: set<Symbol>) {
    Strict(xs)
    && (forall x | x in xs :: x == SymbolItem(x.value) && x.value in ss)
    && (forall s | s in ss :: SymbolItem(s) in xs)
  }

  ghost predicate IsTextTable(xs: seq<Item<Text>>, ts: set<Text>) {
    Strict(xs)
    && (forall x | x in xs :: x == TextItem(x.value) && x.value in ts)
    && (forall t | t in ts :: TextItem(t) in xs)
  }

  /** A set of symbols has exactly one table. */
  ghost function SymbolTable(ss: set<Symbol>): (r: seq<Item<Symbol>>)
    ensures IsSymbolTable(r, ss)
  {
    var items := set s | s in ss :: SymbolItem(s);
    assert forall x, y | x in items && y in items && x.key == y.key :: x == y by {
      forall x, y | x in items && y in items && x.key == y.key ensures x == y {
        SymbolOrderInjective(x.value, y.value);
      }
    }
    Listing(items)
  }

  ghost function TextTable(ts: set<Text>): (r: seq<Item<Text>>)
    ensures IsTextTable(r, ts)
  {
    Listing(set t | t in ts :: TextItem(t))
  }

  lemma SymbolTableUnique(xs: seq<Item<Symbol>>, ss: set<Symbol>)
    requires IsSymbolTable(xs, ss)
    ensures xs == SymbolTable(ss)
  {
    StrictUnique(xs, SymbolTable(ss));
  }

  lemma TextTableUnique(xs: seq<Item<Text>>, ts: set<Text>)
    requires IsTextTable(xs, ts)
    ensures xs == TextTable(ts)
  {
    StrictUnique(xs, TextTable(ts));
  }

  /** The side tables the writers collect before they write anything. */
  ghost function TablesOf(e: Expr): Tables {
    Tables(
      Values(TextTable(Namespaces(SymbolsOf(e) + DomainsOf(e)))),
      Values(SymbolTable(SymbolsOf(e))),
      Values(SymbolTable(DomainsOf(e))))
  }

  lemma SymbolTableMembers(ss: set<Symbol>, s: Symbol)
    ensures s in Values(SymbolTable(ss)) <==> s in ss
  {
    var xs := SymbolTable(ss);
    if s in ss {
      assert SymbolItem(s) in xs;
      var i :| 0 <= i < |xs| && xs[i] == SymbolItem(s);
      assert Values(xs)[i] == s;
    }
    if s in Values(xs) {
      var i :| 0 <= i < |xs| && Values(xs)[i] == s;
      assert xs[i] in xs;
    }
  }

  lemma TextTableMembers(ts: set<Text>, t: Text)
    ensures t in Values(TextTable(ts)) <==> t in ts
  {
    var xs := TextTable(ts);
    if t in ts {
      assert TextItem(t) in xs;
      var i :| 0 <= i < |xs| && xs[i] == TextItem(t);
      assert Values(xs)[i] == t;
    }
    if t in Values(xs) {
      var i :| 0 <= i < |xs| && Values(xs)[i] == t;
      assert xs[i] in xs;
    }
  }

  // ---- closure ---------------------------------------------------------------------

  /** Tables that list what an expression mentions close its body. */
  lemma {:induction false} ClosedWhenListed(t: Tables, e: Expr)
    requires forall x | x in SymbolsOf(e) :: x in t.symbols
    requires forall x | x in DomainsOf(e) :: x in t.domains
    ensures Closed(t, e)
    decreases e
  {
    forall k | k in e.kids ensures Closed(t, k) {
      assert SymbolsOf(k) <= SymbolsOf(e) && DomainsOf(k) <= DomainsOf(e);
      ClosedWhenListed(t, k);
    }
    assert HeadSymbols(e.head) <= SymbolsOf(e) && HeadDomains(e.head) <= DomainsOf(e);
    if e.head.Annotated? {
      assert forall x | x in e.head.names :: x in NameSet(e.head.names);
    }
  }

  /** Every namespace a table symbol uses is in the namespace table. */
  ghost predicate NamespacesListed(t: Tables) {
    && (forall s | s in t.symbols && s.namespace.Some? :: s.namespace.value in t.libs)
    && (forall s | s in t.domains && s.namespace.Some? :: s.namespace.value in t.libs)
  }

  /** Nothing the writers look up in the collected tables is missing from them. */
  lemma TablesComplete(e: Expr)
    ensures Closed(TablesOf(e), e) && NamespacesListed(TablesOf(e))
  {
    var t := TablesOf(e);
    var all := SymbolsOf(e) + DomainsOf(e);
    forall x | x in SymbolsOf(e) ensures x in t.symbols { SymbolTableMembers(SymbolsOf(e), x); }
    forall x | x in DomainsOf(e) ensures x in t.domains { SymbolTableMembers(DomainsOf(e), x); }
    ClosedWhenListed(t, e);
    forall s | (s in t.symbols || s in t.domains) && s.namespace.Some? ensures s.namespace.value in t.libs {
      SymbolTableMembers(SymbolsOf(e), s);
      SymbolTableMembers(DomainsOf(e), s);
      assert s in all;
      TextTableMembers(Namespaces(all), s.namespace.value);
    }
  }

  // ---- reordering is invisible -------------------------------------------------------

  ghost predicate SameMentions(a: Expr, b: Expr) {
    SymbolsOf(a) == SymbolsOf(b) && DomainsOf(a) == DomainsOf(b)
  }

  lemma {:induction false} CanonMentions(e: Expr)
    requires WellFormed(e)
    ensures SameMentions(Canon(e), e)
    decreases e
  {
    hide SymbolsOf, DomainsOf, Canon;
    var c := Canon(e);
    CanonKids(e);
    forall k | k in e.kids ensures SameMentions(k, Canon(k)) {
      CanonMentions(k);
    }
    forall d | d in c.kids ensures exists k :: k in e.kids && SameMentions(d, k) {
      var k :| k in e.kids && d == Canon(k);
      assert SameMentions(d, k);
    }
    CanonHead(e);
    MentionsWithin(e, c);
    MentionsWithin(c, e);
  }

  lemma MentionsWithin(a: Expr, b: Expr)
    requires a.head == b.head
    requires forall k | k in a.kids :: exists j :: j in b.kids && SameMentions(k, j)
    ensures SymbolsOf(a) <= SymbolsOf(b) && DomainsOf(a) <= DomainsOf(b)
  {
  }

  /** Equal values have equal tables. */
  lemma TablesOfCanon(e: Expr)
    requires WellFormed(e)
    ensures TablesOf(Canon(e)) == TablesOf(e)
  {
    CanonMentions(e);
  }

  // ---- collecting --------------------------------------------------------------------

  /** Three ordered sets, filled by one walk over the expression. */
  class Collector {
    var libs: seq<Item<Text>>
    var symbols: seq<Item<Symbol>>
    var domains: seq<Item<Symbol>>

    constructor ()
      ensures libs == [] && symbols == [] && domains == []
    {
      libs, symbols, domains := [], [], [];
    }

    /** The sets hold exactly these symbols and domains, and their namespaces. */
    ghost predicate Holds(ss: set<Symbol>, ds: set<Symbol>)
      reads this
    {
      IsSymbolTable(symbols, ss) && IsSymbolTable(domains, ds) && IsTextTable(libs, Namespaces(ss + ds))
    }

    method CollectSymbol(s: Symbol, domain: bool, ghost ss: set<Symbol>, ghost ds: set<Symbol>)
      requires Holds(ss, ds)
      modifies this
      ensures if domain then Holds(ss, ds + {s}) else Holds(ss + {s}, ds)
    {
      ghost var all := ss + ds + {s};
      if s.namespace.Some? {
        TextInserted(s.namespace.value, libs, Namespaces(ss + ds));
        libs := SetInsert(TextItem(s.namespace.value), libs);
      }
      NamespacesInserted(ss + ds, s);
      if domain {
        SymbolInserted(s, domains, ds);
        domains := SetInsert(SymbolItem(s), domains);
        assert ss + (ds + {s}) == all;
      } else {
        SymbolInserted(s, symbols, ss);
        symbols := SetInsert(SymbolItem(s), symbols);
        assert ss + {s} + ds == all;
      }
    }

    method CollectNames(names: seq<Symbol>, ghost ss: set<Symbol>, ghost ds: set<Symbol>)
      requires Holds(ss, ds)
      modifies this
      ensures Holds(ss + NameSet(names), ds)
    {
      hide Holds;
      var i := 0;
      assert ss + NameSet(names[..0]) == ss;
      while i < |names|
        invariant 0 <= i <= |names|
        invariant Holds(ss + NameSet(names[..i]), ds)
      {
        CollectSymbol(names[i], false, ss + NameSet(names[..i]), ds);
        assert names[..i + 1] == names[..i] + [names[i]];
        assert ss + NameSet(names[..i]) + {names[i]} == ss + NameSet(names[..i + 1]);
        i := i + 1;
      }
      assert names[..i] == names;
    }

    method CollectHead(h: Head, ghost ss: set<Symbol>, ghost ds: set<Symbol>)
      requires Holds(ss, ds)
      modifies this
      ensures Holds(ss + HeadSymbols(h), ds + HeadDomains(h))
    {
      hide Holds;
      assert ss + {} == ss && ds + {} == ds;
      match h {
        case Number(n) => CollectSymbol(n.domain, true, ss, ds);
        case Sym(x) => CollectSymbol(x, false, ss, ds);
        case Local(x) => CollectSymbol(x, false, ss, ds);
        case Infix(x) => CollectSymbol(x, false, ss, ds);
        case Prefix(x) => CollectSymbol(x, false, ss, ds);
        case Postfix(x) => CollectSymbol(x, false, ss, ds);
        case Extension(x) => CollectSymbol(x, false, ss, ds);
        case Annotated(names) => CollectNames(names, ss, ds);
        case _ =>
      }
    }

    method CollectExpr(e: Expr, ghost ss: set<Symbol>, ghost ds: set<Symbol>)
      requires Holds(ss, ds)
      modifies this
      ensures Holds(ss + SymbolsOf(e), ds + DomainsOf(e))
      decreases e
    {
      hide Holds, MentionedBy;
      CollectHead(e.head, ss, ds);
      ghost var s0, d0 := ss + HeadSymbols(e.head), ds + HeadDomains(e.head);
      var i := 0;
      MentionedByNone(e.kids);
      assert s0 + {} == s0 && d0 + {} == d0;
      while i < |e.kids|
        invariant 0 <= i <= |e.kids|
        invariant Holds(s0 + MentionedBy(e.kids[..i]).0, d0 + MentionedBy(e.kids[..i]).1)
      {
        CollectExpr(e.kids[i], s0 + MentionedBy(e.kids[..i]).0, d0 + MentionedBy(e.kids[..i]).1);
        MentionedByOneMore(e.kids, i);
        assert s0 + MentionedBy(e.kids[..i]).0 + SymbolsOf(e.kids[i]) == s0 + MentionedBy(e.kids[..i + 1]).0;
        assert d0 + MentionedBy(e.kids[..i]).1 + DomainsOf(e.kids[i]) == d0 + MentionedBy(e.kids[..i + 1]).1;
        i := i + 1;
      }
      assert e.kids[..i] == e.kids;
      MentionedByAll(e, ss, ds);
    }
  }

  ghost function MentionedBy(ks: seq<Expr>): (set<Symbol>, set<Symbol>) {
    (set k, x | k in ks && x in SymbolsOf(k) :: x, set k, x | k in ks && x in DomainsOf(k) :: x)
  }

  lemma MentionedByNone(ks: seq<Expr>)
    ensures MentionedBy(ks[..0]) == ({}, {})
  {
    assert MentionedBy(ks[..0]).0 == {} && MentionedBy(ks[..0]).1 == {};
  }

  lemma MentionedByAll(e: Expr, ss: set<Symbol>, ds: set<Symbol>)
    ensures ss + HeadSymbols(e.head) + MentionedBy(e.kids).0 == ss + SymbolsOf(e)
    ensures ds + HeadDomains(e.head) + MentionedBy(e.kids).1 == ds + DomainsOf(e)
  {
  }

  lemma MentionedByOneMore(ks: seq<Expr>, i: nat)
    requires i < |ks|
    ensures MentionedBy(ks[..i + 1]).0 == MentionedBy(ks[..i]).0 + SymbolsOf(ks[i])
    ensures MentionedBy(ks[..i + 1]).1 == MentionedBy(ks[..i]).1 + DomainsOf(ks[i])
  {
    hide SymbolsOf, DomainsOf;
    assert ks[..i + 1] == ks[..i] + [ks[i]];
    assert forall k :: k in ks[..i + 1] <==> k in ks[..i] || k == ks[i];
  }

  lemma SymbolInserted(s: Symbol, xs: seq<Item<Symbol>>, ss: set<Symbol>)
    requires IsSymbolTable(xs, ss)
    ensures IsSymbolTable(SetInsert(SymbolItem(s), xs), ss + {s})
  {
    forall y | y in xs && y.key == SymbolItem(s).key ensures y == SymbolItem(s) {
      SymbolOrderInjective(y.value, s);
    }
    SetInsertProperties(SymbolItem(s), xs);
  }

  lemma TextInserted(t: Text, xs: seq<Item<Text>>, ts: set<Text>)
    requires IsTextTable(xs, ts)
    ensures IsTextTable(SetInsert(TextItem(t), xs), ts + {t})
  {
    SetInsertProperties(TextItem(t), xs);
  }

  lemma NamespacesInserted(ss: set<Symbol>, s: Symbol)
    ensures Namespaces(ss + {s}) == Namespaces(ss) + (if s.namespace.Some? then {s.namespace.value} else {})
  {
  }

  /** One walk collects exactly the tables of the expression, in table order. */
  method Collect(e: Expr) returns (t: Tables)
    ensures t == TablesOf(e)
  {
    var c := new Collector();
    c.CollectExpr(e, {}, {});
    ghost var ss, ds := SymbolsOf(e), DomainsOf(e);
    assert {} + ss == ss && {} + ds == ds;
    SymbolTableUnique(c.symbols, ss);
    SymbolTableUnique(c.domains, ds);
    TextTableUnique(c.libs, Namespaces(ss + ds));
    return Tables(Values(c.libs), Values(c.symbols), Values(c.domains));
  }
}
