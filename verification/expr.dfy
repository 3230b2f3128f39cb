/** Kernel expressions, their children, and the canonical form that identifies equal values. */
module Exprs {
  import opened Order

  type byte = n: nat | n < 256
  type bytes = seq<byte>
  type u16 = n: nat | n < 0x1_0000
  type u32 = n: nat | n < 0x1_0000_0000
  type i32 = n: int | -0x8000_0000 <= n < 0x8000_0000

  datatype Option<+T> = None | Some(value: T)

  function Zeros(n: nat): (r: bytes)
    ensures |r| == n
    ensures forall i | 0 <= i < n :: r[i] == 0
  {
    seq(n, i => 0)
  }

  predicate IsAscii(s: bytes) {
    forall b | b in s :: b < 0x80
  }

  predicate Continuation(b: byte) {
    0x80 <= b < 0xC0
  }

  /** Well-formed UTF-8, as the standard library's string conversion accepts it. */
  predicate IsUtf8(s: bytes) {
    if |s| == 0 then true
    else if s[0] < 0x80 then IsUtf8(s[1..])
    else if 0xC2 <= s[0] < 0xE0 then |s| >= 2 && Continuation(s[1]) && IsUtf8(s[2..])
    else if 0xE0 <= s[0] < 0xF0 then
      |s| >= 3 && Continuation(s[1]) && Continuation(s[2])
      && (s[0] == 0xE0 ==> s[1] >= 0xA0) && (s[0] == 0xED ==> s[1] < 0xA0)
      && IsUtf8(s[3..])
    else if 0xF0 <= s[0] < 0xF5 then
      |s| >= 4 && Continuation(s[1]) && Continuation(s[2]) && Continuation(s[3])
      && (s[0] == 0xF0 ==> s[1] >= 0x90) && (s[0] == 0xF4 ==> s[1] < 0x90)
      && IsUtf8(s[4..])
    else false
  }

  lemma {:induction false} AsciiIsUtf8(s: bytes)
    requires IsAscii(s)
    ensures IsUtf8(s)
  {
    if |s| > 0 {
      assert s[0] in s && forall b | b in s[1..] :: b in s;
      AsciiIsUtf8(s[1..]);
    }
  }

  type Text = s: bytes | IsUtf8(s) witness []

  datatype Symbol = Symbol(namespace: Option<Text>, name: Text)

  datatype NumberLiteral = NumberLiteral(domain: Symbol, canonical: Text)

  datatype QuoteMode = Quoted | QuasiQuoted | Unquoted | Spliced | SyntaxQuoted

  /**
    * The kind of a node together with everything the node carries beside its
    * subexpressions. `Map` has its keys and values as alternating children,
    * `Call` its operator and then its arguments, `Annotated` the inner
    * expression and then one value for each annotation name.
    */
  datatype Head =
    | Nil
    | Bool(value: bool)
    | Number(literal: NumberLiteral)
    | Sym(symbol: Symbol)
    | Local(symbol: Symbol)
    | Str(text: Text)
    | Blob(data: bytes)
    | List
    | Vector
    | Map
    | Set
    | Call
    | Infix(op: Symbol)
    | Prefix(op: Symbol)
    | Postfix(op: Symbol)
    | Block
    | Quote(mode: QuoteMode)
    | Annotated(names: seq<Symbol>)
    | Extension(tag: Symbol)

  /** An expression: a node and its children, in the order located trees list them. */
  datatype Expr = Expr(head: Head, kids: seq<Expr>)

  /** How many children a node of this kind can have. */
  predicate Arity(h: Head, n: nat) {
    match h
    case List => true
    case Vector => true
    case Set => true
    case Block => true
    case Map => n % 2 == 0
    case Call => n >= 1
    case Infix(_) => n == 2
    case Prefix(_) => n == 1
    case Postfix(_) => n == 1
    case Quote(_) => n == 1
    case Extension(_) => n == 1
    case Annotated(names) => n == 1 + |names|
    case _ => n == 0
  }

  ghost predicate WellFormed(e: Expr)
    decreases e
  {
    Arity(e.head, |e.kids|) && forall k | k in e.kids :: WellFormed(k)
  }

  /** The number of nodes of an expression tree. */
  function NodeCount(e: Expr): nat
    decreases e
  {
    1 + SumNodes(e.kids)
  }

  function SumNodes(es: seq<Expr>): nat
    decreases es
  {
    if es == [] then 0 else NodeCount(es[0]) + SumNodes(es[1..])
  }

  lemma {:induction false} SumNodesAppend(a: seq<Expr>, b: seq<Expr>)
    ensures SumNodes(a + b) == SumNodes(a) + SumNodes(b)
  {
    if a == [] {
      assert a + b == b;
    } else {
      SumNodesAppend(a[1..], b);
      assert (a + b)[1..] == a[1..] + b;
    }
  }

  lemma {:induction false} KidIsSmaller(ks: seq<Expr>, i: nat)
    requires i < |ks|
    ensures NodeCount(ks[i]) <= SumNodes(ks)
  {
    if i > 0 { KidIsSmaller(ks[1..], i - 1); }
  }

  // ---- keys -----------------------------------------------------------------

  function TextCode(s: bytes): Code {
    [|s|] + s
  }

  function SymbolCode(s: Symbol): Code {
    match s.namespace
    case None => [0] + TextCode(s.name)
    case Some(ns) => [1] + TextCode(ns) + TextCode(s.name)
  }

  function SymbolCodes(ss: seq<Symbol>): Code {
    if ss == [] then [] else SymbolCode(ss[0]) + SymbolCodes(ss[1..])
  }

  function ModeCode(m: QuoteMode): nat {
    match m
    case Quoted => 0
    case QuasiQuoted => 1
    case Unquoted => 2
    case Spliced => 3
    case SyntaxQuoted => 4
  }

  function HeadTag(h: Head): nat {
    match h
    case Nil => 0
    case Bool(_) => 1
    case Number(_) => 2
    case Sym(_) => 3
    case Local(_) => 4
    case Str(_) => 5
    case Blob(_) => 6
    case List => 7
    case Vector => 8
    case Map => 9
    case Set => 10
    case Call => 11
    case Infix(_) => 12
    case Prefix(_) => 13
    case Postfix(_) => 14
    case Block => 15
    case Quote(_) => 16
    case Annotated(_) => 17
    case Extension(_) => 18
  }

  function HeadFields(h: Head): Code {
    match h
    case Bool(b) => [if b then 1 else 0]
    case Number(n) => SymbolCode(n.domain) + TextCode(n.canonical)
    case Sym(s) => SymbolCode(s)
    case Local(s) => SymbolCode(s)
    case Str(t) => TextCode(t)
    case Blob(d) => TextCode(d)
    case Infix(op) => SymbolCode(op)
    case Prefix(op) => SymbolCode(op)
    case Postfix(op) => SymbolCode(op)
    case Quote(m) => [ModeCode(m)]
    case Annotated(names) => [|names|] + SymbolCodes(names)
    case Extension(tag) => SymbolCode(tag)
    case _ => []
  }

  function HeadCode(h: Head): Code {
    [HeadTag(h)] + HeadFields(h)
  }

  /** A self-delimiting code of the expression exactly as written. */
  function RawKey(e: Expr): Code
    decreases e
  {
    HeadCode(e.head) + ([|e.kids|] + RawKeys(e.kids))
  }

  function RawKeys(ks: seq<Expr>): Code
    decreases ks
  {
    if ks == [] then [] else RawKey(ks[0]) + RawKeys(ks[1..])
  }

  lemma Assoc<T>(a: seq<T>, b: seq<T>, c: seq<T>)
    ensures (a + b) + c == a + (b + c)
  {
  }

  lemma TextCodeInjective(a: bytes, b: bytes, r: Code, s: Code)
    requires TextCode(a) + r == TextCode(b) + s
    ensures a == b && r == s
  {
    var x, y := TextCode(a) + r, TextCode(b) + s;
    assert x[0] == |a| && y[0] == |b|;
    assert x[1..1 + |a|] == a && y[1..1 + |b|] == b;
    assert x[1 + |a|..] == r && y[1 + |b|..] == s;
  }

  lemma SymbolCodeInjective(a: Symbol, b: Symbol, r: Code, s: Code)
    requires SymbolCode(a) + r == SymbolCode(b) + s
    ensures a == b && r == s
  {
    hide SymbolCode, TextCode;
    SymbolCodeParts(a, r);
    SymbolCodeParts(b, s);
    UnitInjective(NamespaceTag(a), NamespaceTag(b), SymbolCodeRest(a, r), SymbolCodeRest(b, s));
    if a.namespace.Some? && b.namespace.Some? {
      TextCodeInjective(a.namespace.value, b.namespace.value, TextCode(a.name) + r, TextCode(b.name) + s);
    }
    TextCodeInjective(a.name, b.name, r, s);
  }

  function NamespaceTag(a: Symbol): nat {
    if a.namespace.None? then 0 else 1
  }

  function SymbolCodeRest(a: Symbol, r: Code): Code {
    if a.namespace.None? then TextCode(a.name) + r else TextCode(a.namespace.value) + (TextCode(a.name) + r)
  }

  lemma SymbolCodeParts(a: Symbol, r: Code)
    ensures SymbolCode(a) + r == [NamespaceTag(a)] + SymbolCodeRest(a, r)
  {
    hide TextCode;
    if a.namespace.None? {
      Assoc([0], TextCode(a.name), r);
    } else {
      Assoc([1] + TextCode(a.namespace.value), TextCode(a.name), r);
      Assoc([1], TextCode(a.namespace.value), TextCode(a.name) + r);
    }
  }

  lemma {:induction false} SymbolCodesInjective(a: seq<Symbol>, b: seq<Symbol>, r: Code, s: Code)
    requires |a| == |b| && SymbolCodes(a) + r == SymbolCodes(b) + s
    ensures a == b && r == s
  {
    if a == [] {
      assert [] + r == r && [] + s == s;
    } else {
      var ra, sb := SymbolCodes(a[1..]) + r, SymbolCodes(b[1..]) + s;
      Assoc(SymbolCode(a[0]), SymbolCodes(a[1..]), r);
      Assoc(SymbolCode(b[0]), SymbolCodes(b[1..]), s);
      SymbolCodeInjective(a[0], b[0], ra, sb);
      SymbolCodesInjective(a[1..], b[1..], r, s);
    }
  }

  lemma NumberFieldsInjective(a: NumberLiteral, b: NumberLiteral, r: Code, s: Code)
    requires SymbolCode(a.domain) + TextCode(a.canonical) + r == SymbolCode(b.domain) + TextCode(b.canonical) + s
    ensures a == b && r == s
  {
    hide SymbolCode, TextCode;
    var ra, sb := TextCode(a.canonical) + r, TextCode(b.canonical) + s;
    Assoc(SymbolCode(a.domain), TextCode(a.canonical), r);
    Assoc(SymbolCode(b.domain), TextCode(b.canonical), s);
    SymbolCodeInjective(a.domain, b.domain, ra, sb);
    TextCodeInjective(a.canonical, b.canonical, r, s);
  }

  lemma UnitInjective(x: nat, y: nat, r: Code, s: Code)
    requires [x] + r == [y] + s
    ensures x == y && r == s
  {
    assert ([x] + r)[0] == x && ([y] + s)[0] == y;
    assert ([x] + r)[1..] == r && ([y] + s)[1..] == s;
  }

  lemma HeadFieldsInjective(a: Head, b: Head, r: Code, s: Code)
    requires HeadTag(a) == HeadTag(b)
    requires HeadFields(a) + r == HeadFields(b) + s
    ensures a == b && r == s
  {
    match a
    case Bool(x) => UnitInjective(HeadFields(a)[0], HeadFields(b)[0], r, s);
    case Number(n) => NumberFieldsInjective(n, b.literal, r, s);
    case Sym(x) => SymbolCodeInjective(x, b.symbol, r, s);
    case Local(x) => SymbolCodeInjective(x, b.symbol, r, s);
    case Str(x) => TextCodeInjective(x, b.text, r, s);
    case Blob(x) => TextCodeInjective(x, b.data, r, s);
    case Infix(x) => SymbolCodeInjective(x, b.op, r, s);
    case Prefix(x) => SymbolCodeInjective(x, b.op, r, s);
    case Postfix(x) => SymbolCodeInjective(x, b.op, r, s);
    case Extension(x) => SymbolCodeInjective(x, b.tag, r, s);
    case Quote(m) => UnitInjective(ModeCode(m), ModeCode(b.mode), r, s);
    case Annotated(names) =>
      Assoc([|names|], SymbolCodes(names), r);
      Assoc([|b.names|], SymbolCodes(b.names), s);
      UnitInjective(|names|, |b.names|, SymbolCodes(names) + r, SymbolCodes(b.names) + s);
      SymbolCodesInjective(names, b.names, r, s);
    case _ => assert [] + r == r && [] + s == s;
  }

  lemma HeadCodeInjective(a: Head, b: Head, r: Code, s: Code)
    requires HeadCode(a) + r == HeadCode(b) + s
    ensures a == b && r == s
  {
    Assoc([HeadTag(a)], HeadFields(a), r);
    Assoc([HeadTag(b)], HeadFields(b), s);
    UnitInjective(HeadTag(a), HeadTag(b), HeadFields(a) + r, HeadFields(b) + s);
    HeadFieldsInjective(a, b, r, s);
  }

  /** The code is prefix-free and one-to-one on expressions. */
  lemma {:induction false} RawKeyInjective(a: Expr, b: Expr, r: Code, s: Code)
    requires RawKey(a) + r == RawKey(b) + s
    ensures a == b && r == s
    decreases a
  {
    var ka, kb := RawKeys(a.kids), RawKeys(b.kids);
    Assoc(HeadCode(a.head), [|a.kids|] + ka, r);
    Assoc(HeadCode(b.head), [|b.kids|] + kb, s);
    HeadCodeInjective(a.head, b.head, [|a.kids|] + ka + r, [|b.kids|] + kb + s);
    Assoc([|a.kids|], ka, r);
    Assoc([|b.kids|], kb, s);
    UnitInjective(|a.kids|, |b.kids|, ka + r, kb + s);
    RawKeysInjective(a.kids, b.kids, r, s);
  }

  lemma {:induction false} RawKeysInjective(xs: seq<Expr>, ys: seq<Expr>, r: Code, s: Code)
    requires |xs| == |ys| && RawKeys(xs) + r == RawKeys(ys) + s
    ensures xs == ys && r == s
    decreases xs
  {
    if xs == [] {
      assert [] + r == r && [] + s == s;
    } else {
      Assoc(RawKey(xs[0]), RawKeys(xs[1..]), r);
      Assoc(RawKey(ys[0]), RawKeys(ys[1..]), s);
      RawKeyInjective(xs[0], ys[0], RawKeys(xs[1..]) + r, RawKeys(ys[1..]) + s);
      RawKeysInjective(xs[1..], ys[1..], r, s);
    }
  }
}
