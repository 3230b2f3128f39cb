/** Whole frames: header, body and origins, packed into bytes, and read back. */
module Frames {
  import opened Exprs
  import opened Bits
  import opened Numbers
  import opened Canonical
  import opened Grouping
  import opened Atoms
  import opened Body
  import opened RoundTrips
  import opened SideTables
  import opened Origins
  import opened Wire

  // ---- packing bits into bytes ------------------------------------------------------

  /** The zero bits that fill up the last byte. */
  function Pad(n: nat): (k: nat)
    ensures k < 8 && (n + k) % 8 == 0
  {
    (8 - n % 8) % 8
  }

  /** Eight bits to a byte, most significant first, the last byte filled with zeros. */
  function Pack(bits: Units): bytes
    requires IsBits(bits)
  {
    if bits == [] then []
    else if |bits| < 8 then [OneByte(bits + Zeros(8 - |bits|))]
    else [OneByte(bits[..8])] + Pack(bits[8..])
  }

  function OneByte(bits: Units): (b: byte)
    requires IsBits(bits) && |bits| == 8
    ensures BitsOf(b, 8) == bits
  {
    FromBitsBound(bits);
    BitsOfFrom(bits);
    assert Pow2(8) == 256;
    FromBits(bits)
  }

  /** Unpacking gives back the bits and fewer than eight zeros of padding. */
  lemma {:induction false} UnpackPack(bits: Units)
    requires IsBits(bits)
    ensures Payload(Bitwise, Pack(bits)) == bits + Zeros(Pad(|bits|))
  {
    hide BitsOf, FromBits, Payload, Pad, OneByte;
    PadPeriod(|bits|);
    if |bits| < 8 {
      UnpackLast(bits);
    } else {
      var b, rest := OneByte(bits[..8]), bits[8..];
      UnpackPack(rest);
      PayloadStep(b, Pack(rest));
      assert bits == bits[..8] + rest;
      Assoc(bits[..8], rest, Zeros(Pad(|rest|)));
    }
  }

  lemma PadPeriod(n: nat)
    ensures Pad(n) == if n == 0 then 0 else if n < 8 then 8 - n else Pad(n - 8)
  {
  }

  lemma UnpackLast(bits: Units)
    requires IsBits(bits) && |bits| < 8
    ensures Payload(Bitwise, Pack(bits)) == bits + Zeros(if bits == [] then 0 else 8 - |bits|)
  {
    hide BitsOf, FromBits, Payload;
    PayloadNothing();
    if bits != [] {
      var b := OneByte(bits + Zeros(8 - |bits|));
      PayloadStep(b, []);
      assert [b] + [] == [b];
      assert BitsOf(b, 8) + [] == BitsOf(b, 8);
    }
  }

  lemma PayloadNothing()
    ensures Payload(Bitwise, []) == []
  {
  }

  lemma PayloadStep(b: byte, rest: bytes)
    ensures Payload(Bitwise, [b] + rest) == BitsOf(b, 8) + Payload(Bitwise, rest)
  {
    assert ([b] + rest)[1..] == rest;
  }

  /** The frame bytes of some units. */
  function Packed(c: Carrier, s: Units): bytes
    requires c.Bitwise? ==> IsBits(s)
  {
    if c.Bitwise? then Pack(s) else s
  }

  function Padding(c: Carrier, s: Units): Units {
    if c.Bitwise? then Zeros(Pad(|s|)) else []
  }

  lemma UnpackPacked(c: Carrier, s: Units)
    requires c.Bitwise? ==> IsBits(s)
    ensures Payload(c, Packed(c, s)) == s + Padding(c, s)
  {
    if c.Bitwise? { UnpackPack(s); } else { assert s + [] == s; }
  }

  // ---- every unit of a bit frame is a bit ---------------------------------------------

  predicate Clean(c: Carrier, s: Units) {
    c.Bitwise? ==> IsBits(s)
  }

  lemma CleanUInt(c: Carrier, n: nat)
    ensures Clean(c, EncUInt(c, n))
  {
  }

  lemma {:induction false} CleanPayload(c: Carrier, bs: bytes)
    ensures Clean(c, Payload(c, bs))
  {
    if c.Bitwise? && bs != [] { CleanPayload(c, bs[1..]); }
  }

  lemma CleanBytes(c: Carrier, bs: bytes)
    ensures Clean(c, EncBytes(c, bs))
  {
    CleanUInt(c, |bs|);
    CleanPayload(c, bs);
  }

  lemma CleanNumberText(c: Carrier, text: bytes)
    ensures Clean(c, EncNumberText(c, text))
  {
    hide EncBytes, EncUInt;
    CleanBytes(c, text);
    match IntegerBits(text)
    case None =>
    case Some((negative, bits)) =>
      CleanUInt(c, |bits|);
      IntegerRoundTrip(text);
  }

  lemma CleanFields(c: Carrier, t: Tables, h: Head, n: nat)
    ensures Clean(c, EncFields(c, t, h, n))
  {
    hide EncBytes, EncUInt, EncNumberText, IndexOf, SmallUint;
    match h
    case Number(x) =>
      CleanUInt(c, IndexOf(t.domains, x.domain));
      CleanNumberText(c, x.canonical);
    case Sym(x) => CleanUInt(c, IndexOf(t.symbols, x));
    case Local(x) => CleanUInt(c, IndexOf(t.symbols, x));
    case Infix(x) => CleanUInt(c, IndexOf(t.symbols, x));
    case Prefix(x) => CleanUInt(c, IndexOf(t.symbols, x));
    case Postfix(x) => CleanUInt(c, IndexOf(t.symbols, x));
    case Extension(x) => CleanUInt(c, IndexOf(t.symbols, x));
    case Str(x) => CleanBytes(c, x);
    case Blob(x) => CleanBytes(c, x);
    case Map => CleanUInt(c, n / 2);
    case _ => CleanUInt(c, n);
  }

  lemma {:induction false} CleanEnc(f: Format, e: Expr, w: WState)
    requires Legal(f)
    ensures Clean(f.carrier, Enc(f, e, w).0)
    decreases e, 2
  {
    hide EncTag, EncUInt, EncFields, KindOf, NodeBody, EncNode;
    if f.dense && e in w.seen {
      CleanTag(f.carrier, REF);
      CleanUInt(f.carrier, w.seen[e]);
    } else {
      var w1 := Register(f, e, w);
      NodeSplit(f, e, w1);
      CleanTag(f.carrier, KindOf(f.carrier, e.head));
      CleanBody(f, e, w1);
    }
  }

  lemma CleanTag(c: Carrier, kind: nat)
    requires HasTag(c, kind)
    ensures Clean(c, EncTag(c, kind))
  {
  }

  lemma {:induction false} CleanBody(f: Format, e: Expr, w: WState)
    requires Legal(f)
    ensures Clean(f.carrier, NodeBody(f, e, w).0)
    decreases e, 1
  {
    hide EncUInt, EncFields, Enc, EncKids;
    CleanFields(f.carrier, f.tables, e.head, |e.kids|);
    if HasTail(e.head) && |e.kids| > 0 {
      CleanEnc(f, e.kids[0], w);
      CleanUInt(f.carrier, |e.kids| - 1);
      CleanKids(f, NamesOf(e.head), e.kids[1..], Enc(f, e.kids[0], w).1);
    } else {
      CleanKids(f, [], e.kids, w);
    }
  }

  lemma {:induction false} CleanKids(f: Format, names: seq<Symbol>, ks: seq<Expr>, w: WState)
    requires Legal(f)
    ensures Clean(f.carrier, EncKids(f, names, ks, w).0)
    decreases ks
  {
    hide EncUInt, IndexOf, Enc;
    if ks != [] {
      CleanEnc(f, ks[0], w);
      CleanKids(f, Rest(names), ks[1..], Enc(f, ks[0], w).1);
      if names != [] { CleanUInt(f.carrier, IndexOf(f.tables.symbols, names[0])); }
    }
  }

  lemma {:induction false} CleanAll<T(!new)>(c: Carrier, xs: seq<T>, enc: T -> Units)
    requires forall x :: Clean(c, enc(x))
    ensures Clean(c, EncAll(xs, enc))
  {
    if xs != [] { CleanAll(c, xs[1..], enc); }
  }

  lemma CleanTable<T(!new)>(c: Carrier, xs: seq<T>, enc: T -> Units)
    requires forall x :: Clean(c, enc(x))
    ensures Clean(c, EncTable(c, xs, enc))
  {
    hide EncUInt, EncAll;
    CleanUInt(c, |xs|);
    CleanAll(c, xs, enc);
  }

  lemma CleanHeader(c: Carrier, flags: nat, t: Tables)
    ensures Clean(c, EncHeader(c, flags, t))
  {
    hide EncUInt, EncTable, EncBytes, EncRecord;
    CleanUInt(c, VERSION);
    CleanUInt(c, flags);
    forall x: Text ensures Clean(c, EncBytes(c, x)) { CleanBytes(c, x); }
    forall x: Symbol ensures Clean(c, EncRecord(c, t.libs, x)) { CleanRecord(c, t.libs, x); }
    CleanTable(c, t.libs, x => EncBytes(c, x));
    CleanTable(c, t.symbols, x => EncRecord(c, t.libs, x));
    CleanTable(c, t.domains, x => EncRecord(c, t.libs, x));
  }

  lemma CleanRecord(c: Carrier, libs: seq<Text>, x: Symbol)
    ensures Clean(c, EncRecord(c, libs, x))
  {
    hide EncUInt, EncBytes;
    CleanUInt(c, NamespaceSlot(libs, x));
    CleanBytes(c, x.name);
  }

  lemma CleanOrigin(c: Carrier, o: Origin)
    ensures Clean(c, EncOrigin(c, o))
  {
    hide EncUInt, EncBytes, EncTable, EncTrivia;
    CleanUInt(c, o.codec);
    CleanUInt(c, o.start);
    CleanUInt(c, o.end);
    CleanBytes(c, o.source);
    forall x: Trivia ensures Clean(c, EncTrivia(c, x)) { CleanTrivia(c, x); }
    CleanTable(c, o.trivia, x => EncTrivia(c, x));
  }

  lemma CleanTrivia(c: Carrier, x: Trivia)
    ensures Clean(c, EncTrivia(c, x))
  {
    hide EncBytes;
    CleanBytes(c, x.text);
  }

  lemma {:induction false} CleanMaybes(c: Carrier, os: seq<Option<Origin>>)
    ensures Clean(c, EncMaybes(c, os))
  {
    hide EncOrigin;
    if os != [] {
      if os[0].Some? { CleanOrigin(c, os[0].value); }
      CleanMaybes(c, os[1..]);
    }
  }
}
