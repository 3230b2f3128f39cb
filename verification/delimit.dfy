/**
  * Frames delimit themselves: every read stops at a place fixed by the units
  * before it, so what follows changes neither its result nor where it stops.
  */
module Delimiting {
  import opened Exprs
  import opened Bits
  import opened Numbers
  import opened Atoms
  import opened Body
  import opened Origins
  import opened Wire
  import opened Canonical
  import opened SideTables
  import opened Codecs
  import opened Frames

  predicate Ends(s: Units, r: Units) {
    |r| <= |s| && s[|s| - |r|..] == r
  }

  /** What was read to leave `r`, followed by `y` instead. */
  function Instead(s: Units, r: Units, y: Units): Units {
    if |r| <= |s| then s[..|s| - |r|] + y else y
  }

  lemma Chain(s: Units, r1: Units, r2: Units, y: Units)
    requires Ends(s, r1) && Ends(r1, r2)
    ensures Ends(s, r2) && Instead(s, r2, y) == Instead(s, r1, Instead(r1, r2, y))
  {
    var k, n := |s| - |r1|, |s| - |r2|;
    assert s[n..] == s[k..][n - k..];
    assert s[..n] == s[..k] + s[k..][..n - k];
    Assoc(s[..k], s[k..][..n - k], y);
  }

  lemma Whole(s: Units, y: Units)
    ensures Ends(s, s) && Instead(s, s, y) == y
  {
    assert s[0..] == s && s[..0] + y == y;
  }

  lemma Tail(s: Units, k: nat, y: Units)
    requires k <= |s|
    ensures Ends(s, s[k..]) && Instead(s, s[k..], y) == s[..k] + y
    ensures (s[..k] + y)[..k] == s[..k] && (s[..k] + y)[k..] == y && forall i | 0 <= i < k :: (s[..k] + y)[i] == s[i]
  {
  }

  lemma AfterHead(s: Units, k: nat, r: Units, y: Units)
    requires k <= |s| && Ends(s[k..], r)
    ensures Ends(s, r)
    ensures var t := Instead(s, r, y); |t| >= k && t[k..] == Instead(s[k..], r, y) && forall i | 0 <= i < k :: t[i] == s[i]
  {
    hide Ends, Instead;
    var z := Instead(s[k..], r, y);
    Tail(s, k, z);
    Chain(s, s[k..], r, y);
  }

  /** A reader's answer on `s`, and on the same units with something else after them. */
  ghost predicate Stops<T>(s: Units, y: Units, dec: Units -> Option<(T, Units)>) {
    dec(s).Some? ==>
      var (v, r) := dec(s).value; Ends(s, r) && dec(Instead(s, r, y)) == Some((v, y))
  }

  // ---- atoms -----------------------------------------------------------------------------------

  lemma BitsStop(w: nat, s: Units, y: Units)
    requires ReadBits(s, w).Some?
    ensures var (v, r) := ReadBits(s, w).value; Ends(s, r) && ReadBits(Instead(s, r, y), w) == Some((v, y))
  {
    Tail(s, w, y);
  }

  lemma {:induction false} ZerosStop(zeros: nat, s: Units, y: Units)
    requires ReadZeros(s, zeros).Some?
    ensures var (v, r) := ReadZeros(s, zeros).value; Ends(s, r) && ReadZeros(Instead(s, r, y), zeros) == Some((v, y))
    decreases |s|
  {
    if s[0] != 0 {
      Tail(s, 1, y);
    } else {
      hide Ends, Instead;
      ZerosStop(zeros + 1, s[1..], y);
      AfterHead(s, 1, ReadZeros(s, zeros).value.1, y);
    }
  }

  lemma GammaStops(s: Units, y: Units)
    requires ReadGamma(s).Some?
    ensures var (v, r) := ReadGamma(s).value; Ends(s, r) && ReadGamma(Instead(s, r, y)) == Some((v, y))
  {
    hide ReadZeros, ReadBits, Ends, Instead, Pow2;
    var (zeros, rest) := ReadZeros(s, 0).value;
    var (low, tail) := ReadBits(rest, zeros).value;
    BitsStop(zeros, rest, y);
    ZerosStop(0, s, Instead(rest, tail, y));
    Chain(s, rest, tail, y);
  }

  lemma VBitsStop(s: Units, y: Units)
    requires ReadVBits(s).Some?
    ensures var (v, r) := ReadVBits(s).value; Ends(s, r) && ReadVBits(Instead(s, r, y)) == Some((v, y))
  {
    hide ReadGamma, ReadBits, Ends, Instead, Pow2;
    var (len, rest) := ReadGamma(s).value;
    var (value, tail) := ReadBits(rest, len).value;
    BitsStop(len, rest, y);
    GammaStops(s, Instead(rest, tail, y));
    Chain(s, rest, tail, y);
  }

  lemma {:induction false} VarUintStops(shift: nat, value: nat, s: Units, y: Units)
    requires ReadVarUintFrom(s, shift, value).Some?
    ensures var (v, r) := ReadVarUintFrom(s, shift, value).value;
      Ends(s, r) && ReadVarUintFrom(Instead(s, r, y), shift, value) == Some((v, y))
    decreases |s|
  {
    hide Contribution;
    var next := value + Contribution(s[0], shift);
    if s[0] < 128 {
      Tail(s, 1, y);
    } else {
      hide Ends, Instead;
      VarUintStops(shift + 7, next, s[1..], y);
      AfterHead(s, 1, ReadVarUintFrom(s, shift, value).value.1, y);
    }
  }

  lemma UIntStops(c: Carrier, s: Units, y: Units)
    ensures Stops(s, y, x => DecUInt(c, x))
  {
    hide ReadVBits, ReadVarUintFrom, Ends, Instead;
    if DecUInt(c, s).Some? {
      if c.Bitwise? { VBitsStop(s, y); } else { VarUintStops(0, 0, s, y); }
    }
  }

  lemma CountStops(c: Carrier, limit: usize, s: Units, y: Units)
    ensures Stops(s, y, x => DecCount(c, x, limit))
  {
    hide DecUInt, Ends, Instead;
    UIntStops(c, s, y);
  }

  lemma {:induction false} PayloadStops(c: Carrier, n: nat, s: Units, y: Units)
    ensures Stops(s, y, x => TakePayload(c, x, n))
    decreases n
  {
    if TakePayload(c, s, n).Some? {
      if c.Binary? {
        Tail(s, n, y);
      } else if n == 0 {
        Whole(s, y);
      } else {
        hide ReadBits, Ends, Instead;
        var (b, rest) := ReadBits(s, 8).value;
        var tail := TakePayload(c, rest, n - 1).value.1;
        PayloadStops(c, n - 1, rest, y);
        BitsStop(8, s, Instead(rest, tail, y));
        Chain(s, rest, tail, y);
      }
    }
  }

  lemma BytesStop(c: Carrier, limit: usize, s: Units, y: Units)
    ensures Stops(s, y, x => DecBytes(c, x, limit))
  {
    hide DecCount, TakePayload, Ends, Instead;
    if DecBytes(c, s, limit).Some? {
      var (n, rest) := DecCount(c, s, limit).value;
      var tail := TakePayload(c, rest, n).value.1;
      PayloadStops(c, n, rest, y);
      CountStops(c, limit, s, Instead(rest, tail, y));
      Chain(s, rest, tail, y);
    }
  }

  lemma TextStops(c: Carrier, limit: usize, s: Units, y: Units)
    ensures Stops(s, y, x => DecText(c, x, limit))
  {
    hide DecBytes, Ends, Instead, IsUtf8;
    BytesStop(c, limit, s, y);
  }

  lemma EntryStops<T>(c: Carrier, table: seq<T>, s: Units, y: Units)
    ensures Stops(s, y, x => DecEntry(c, x, table))
  {
    hide DecCount, Ends, Instead;
    CountStops(c, USIZE_MAX, s, y);
  }

  lemma TagStops(c: Carrier, s: Units, y: Units)
    ensures Stops(s, y, x => DecTag(c, x))
  {
    hide ReadBits, BinaryKind;
    if DecTag(c, s).Some? {
      if c.Bitwise? { BitsStop(6, s, y); } else { Tail(s, 1, y); }
    }
  }

  lemma MagnitudeStops(c: Carrier, limits: Limits, negative: bool, s: Units, y: Units)
    ensures Stops(s, y, x => DecMagnitude(c, x, limits, negative))
  {
    hide DecCount, IntegerText, MagnitudeLimit, Ends, Instead;
    if DecMagnitude(c, s, limits, negative).Some? {
      var (n, rest) := DecCount(c, s, MagnitudeLimit(limits)).value;
      Tail(rest, n, y);
      CountStops(c, MagnitudeLimit(limits), s, Instead(rest, rest[n..], y));
      Chain(s, rest, rest[n..], y);
    }
  }

  lemma NumberTextStops(c: Carrier, limits: Limits, s: Units, y: Units)
    ensures Stops(s, y, x => DecNumberText(c, x, limits))
  {
    hide DecText, DecMagnitude, Ends, Instead;
    if DecNumberText(c, s, limits).Some? {
      var r := DecNumberText(c, s, limits).value.1;
      if c.Binary? {
        TextStops(c, limits.maxStringBytes, s, y);
      } else if s[0] == 0 {
        TextStops(c, limits.maxStringBytes, s[1..], y);
        AfterHead(s, 1, r, y);
      } else {
        MagnitudeStops(c, limits, s[1] != 0, s[2..], y);
        AfterHead(s, 2, r, y);
      }
    }
  }

  lemma ModeStops(c: Carrier, s: Units, y: Units)
    ensures Stops(s, y, x => DecMode(c, x))
  {
    hide ReadBits, ModeFromCode;
    if DecMode(c, s).Some? {
      if c.Bitwise? { BitsStop(3, s, y); } else { Tail(s, 1, y); }
    }
  }

  lemma NumberStops(c: Carrier, limits: Limits, t: Tables, kind: nat, s: Units, y: Units)
    requires DecNumber(c, limits, t, kind, s).Some?
    ensures var h := DecNumber(c, limits, t, kind, s).value;
      Ends(s, h.rest) && DecNumber(c, limits, t, kind, Instead(s, h.rest, y)) == Some(h.(rest := y))
  {
    hide DecEntry, DecNumberText, DecimalText, Ends, Instead;
    var (domain, rest) := DecEntry(c, s, t.domains).value;
    if kind < 16 {
      EntryStops(c, t.domains, s, y);
    } else {
      var tail := DecNumberText(c, rest, limits).value.1;
      NumberTextStops(c, limits, rest, y);
      EntryStops(c, t.domains, s, Instead(rest, tail, y));
      Chain(s, rest, tail, y);
    }
  }

  lemma FieldsStop(c: Carrier, limits: Limits, t: Tables, kind: nat, s: Units, y: Units)
    requires DecFields(c, limits, t, kind, s).Some?
    ensures var h := DecFields(c, limits, t, kind, s).value;
      Ends(s, h.rest) && DecFields(c, limits, t, kind, Instead(s, h.rest, y)) == Some(h.(rest := y))
  {
    hide DecNumber, DecEntry, DecText, DecBytes, DecCount, DecMode, Ends, Instead;
    if kind < 16 || kind == 19 {
      NumberStops(c, limits, t, kind, s, y);
    } else if kind in {20, 21, 29, 30, 31, 35} {
      EntryStops(c, t.symbols, s, y);
    } else if kind in {24, 25, 26, 27, 32} {
      CountStops(c, limits.maxTableEntries, s, y);
    } else if kind == 22 {
      TextStops(c, limits.maxStringBytes, s, y);
    } else if kind == 23 {
      BytesStop(c, limits.maxBlobBytes, s, y);
    } else if kind == 33 {
      ModeStops(c, s, y);
    } else {
      Whole(s, y);
    }
  }

  // ---- bodies ---------------------------------------------------------------------------------------

  lemma {:induction false} ExprStops(f: Format, limits: Limits, s: Units, depth: nat, r: RState, y: Units)
    requires Dec(f, limits, s, depth, r).Some?
    ensures var d := Dec(f, limits, s, depth, r).value;
      Ends(s, d.rest) && Dec(f, limits, Instead(s, d.rest, y), depth, r) == Some(d.(rest := y))
    decreases if depth > limits.maxDepth then 0 else limits.maxDepth + 1 - depth, 1, 0
  {
    hide DecTag, DecRef, DecNode, Ends, Instead;
    var (kind, rest) := DecTag(f.carrier, s).value;
    var tail := Dec(f, limits, s, depth, r).value.rest;
    if f.dense && kind == REF {
      RefStops(f, limits, rest, r, y);
    } else {
      NodeStops(f, limits, kind, rest, depth, r, y);
    }
    TagStops(f.carrier, s, Instead(rest, tail, y));
    Chain(s, rest, tail, y);
  }

  lemma RefStops(f: Format, limits: Limits, s: Units, r: RState, y: Units)
    requires DecRef(f, limits, s, r).Some?
    ensures var d := DecRef(f, limits, s, r).value;
      Ends(s, d.rest) && DecRef(f, limits, Instead(s, d.rest, y), r) == Some(d.(rest := y))
  {
    hide DecCount, Ends, Instead;
    CountStops(f.carrier, USIZE_MAX, s, y);
  }

  lemma {:induction false} NodeStops(f: Format, limits: Limits, kind: nat, s: Units, depth: nat, r: RState, y: Units)
    requires depth <= limits.maxDepth && DecNode(f, limits, kind, s, depth, r).Some?
    ensures var d := DecNode(f, limits, kind, s, depth, r).value;
      Ends(s, d.rest) && DecNode(f, limits, kind, Instead(s, d.rest, y), depth, r) == Some(d.(rest := y))
    decreases limits.maxDepth + 1 - depth, 0, 0
  {
    hide Bump, OpenSlot, CloseSlot, DecFields, DecKids, DecCount, Ends, Instead;
    var r1 := Bump(limits, OpenSlot(f, r), 1).value;
    var h := DecFields(f.carrier, limits, f.tables, kind, s).value;
    var front := DecKids(f, limits, false, h.rest, h.front, depth + 1, r1).value;
    var z := y;
    if HasTail(h.head) {
      var (n, rest) := DecCount(f.carrier, front.rest, limits.maxTableEntries).value;
      var tail := DecKids(f, limits, h.head.Annotated?, rest, n, depth + 1, front.state).value;
      KidsStop(f, limits, h.head.Annotated?, rest, n, depth + 1, front.state, y);
      CountStops(f.carrier, limits.maxTableEntries, front.rest, Instead(rest, tail.rest, y));
      Chain(front.rest, rest, tail.rest, y);
      z := Instead(front.rest, tail.rest, y);
      KidsStop(f, limits, false, h.rest, h.front, depth + 1, r1, z);
      FieldsStop(f.carrier, limits, f.tables, kind, s, Instead(h.rest, front.rest, z));
      Chain(h.rest, front.rest, tail.rest, y);
      Chain(s, h.rest, tail.rest, y);
    } else {
      KidsStop(f, limits, false, h.rest, h.front, depth + 1, r1, y);
      FieldsStop(f.carrier, limits, f.tables, kind, s, Instead(h.rest, front.rest, y));
      Chain(s, h.rest, front.rest, y);
    }
  }

  lemma NameStops(f: Format, named: bool, s: Units, y: Units)
    ensures Stops(s, y, x => DecName(f, named, x))
  {
    hide DecEntry, Ends, Instead;
    if named { EntryStops(f.carrier, f.tables.symbols, s, y); } else { Whole(s, y); }
  }

  lemma {:induction false} KidsStop(f: Format, limits: Limits, named: bool, s: Units, n: nat, depth: nat, r: RState, y: Units)
    requires DecKids(f, limits, named, s, n, depth, r).Some?
    ensures var d := DecKids(f, limits, named, s, n, depth, r).value;
      Ends(s, d.rest) && DecKids(f, limits, named, Instead(s, d.rest, y), n, depth, r) == Some(d.(rest := y))
    decreases if depth > limits.maxDepth then 0 else limits.maxDepth + 1 - depth, 2, n
  {
    hide Dec, DecName, Ends, Instead;
    if n == 0 {
      Whole(s, y);
    } else {
      var (name, rest) := DecName(f, named, s).value;
      var first := Dec(f, limits, rest, depth, r).value;
      var others := DecKids(f, limits, named, first.rest, n - 1, depth, first.state).value;
      KidsStop(f, limits, named, first.rest, n - 1, depth, first.state, y);
      var z := Instead(first.rest, others.rest, y);
      ExprStops(f, limits, rest, depth, r, z);
      NameStops(f, named, s, Instead(rest, first.rest, z));
      Chain(rest, first.rest, others.rest, y);
      Chain(s, rest, others.rest, y);
    }
  }

  // ---- headers and origins ---------------------------------------------------------------------------

  lemma {:induction false} AllStop<T(!new)>(dec: Units -> Option<(T, Units)>, n: nat, s: Units, y: Units)
    requires forall s, y :: Stops(s, y, dec)
    ensures Stops(s, y, x => DecAll(x, n, dec))
    decreases n
  {
    if n == 0 {
      Whole(s, y);
    } else if DecAll(s, n, dec).Some? {
      hide Ends, Instead;
      var (x, rest) := dec(s).value;
      var tail := DecAll(rest, n - 1, dec).value.1;
      AllStop(dec, n - 1, rest, y);
      assert Stops(s, Instead(rest, tail, y), dec);
      Chain(s, rest, tail, y);
    }
  }

  lemma TableStops<T(!new)>(c: Carrier, limit: usize, dec: Units -> Option<(T, Units)>, s: Units, y: Units)
    requires forall s, y :: Stops(s, y, dec)
    ensures Stops(s, y, x => DecTable(c, x, limit, dec))
  {
    hide DecCount, DecAll, Ends, Instead;
    if DecTable(c, s, limit, dec).Some? {
      var (n, rest) := DecCount(c, s, limit).value;
      var tail := DecAll(rest, n, dec).value.1;
      AllStop(dec, n, rest, y);
      CountStops(c, limit, s, Instead(rest, tail, y));
      Chain(s, rest, tail, y);
    }
  }

  lemma RecordStops(c: Carrier, limits: Limits, libs: seq<Text>, s: Units, y: Units)
    ensures Stops(s, y, x => DecRecord(c, limits, libs, x))
  {
    hide DecUInt, DecText, Ends, Instead;
    if DecRecord(c, limits, libs, s).Some? {
      var rest := DecUInt(c, s).value.1;
      var tail := DecText(c, rest, limits.maxStringBytes).value.1;
      TextStops(c, limits.maxStringBytes, rest, y);
      UIntStops(c, s, Instead(rest, tail, y));
      Chain(s, rest, tail, y);
    }
  }

  lemma LibsStop(c: Carrier, limits: Limits, s: Units, y: Units)
    ensures Stops(s, y, x => DecTable(c, x, limits.maxTableEntries, t => DecText(c, t, limits.maxStringBytes)))
  {
    hide DecTable, DecText;
    var dec := t => DecText(c, t, limits.maxStringBytes);
    forall s, y ensures Stops(s, y, dec) { TextStops(c, limits.maxStringBytes, s, y); }
    TableStops(c, limits.maxTableEntries, dec, s, y);
  }

  lemma RecordsStop(c: Carrier, limits: Limits, libs: seq<Text>, s: Units, y: Units)
    ensures Stops(s, y, x => DecTable(c, x, limits.maxTableEntries, t => DecRecord(c, limits, libs, t)))
  {
    hide DecTable, DecRecord;
    var dec := t => DecRecord(c, limits, libs, t);
    forall s, y ensures Stops(s, y, dec) { RecordStops(c, limits, libs, s, y); }
    TableStops(c, limits.maxTableEntries, dec, s, y);
  }

  lemma TablesStop(c: Carrier, limits: Limits, s: Units, y: Units)
    ensures Stops(s, y, x => DecTables(c, limits, x))
  {
    hide DecTable, Ends, Instead;
    if DecTables(c, limits, s).Some? {
      var (libs, s1) := DecTable(c, s, limits.maxTableEntries, x => DecText(c, x, limits.maxStringBytes)).value;
      var s2 := DecTable(c, s1, limits.maxTableEntries, x => DecRecord(c, limits, libs, x)).value.1;
      var s3 := DecTable(c, s2, limits.maxTableEntries, x => DecRecord(c, limits, libs, x)).value.1;
      RecordsStop(c, limits, libs, s2, y);
      RecordsStop(c, limits, libs, s1, Instead(s2, s3, y));
      Chain(s1, s2, s3, y);
      LibsStop(c, limits, s, Instead(s1, s3, y));
      Chain(s, s1, s3, y);
    }
  }

  lemma HeaderStops(c: Carrier, limits: Limits, s: Units, y: Units)
    requires DecHeader(c, limits, s).Some?
    ensures var h := DecHeader(c, limits, s).value;
      Ends(s, h.rest) && DecHeader(c, limits, Instead(s, h.rest, y)) == Some(h.(rest := y))
  {
    hide Magic, DecUInt, DecTables, Ends, Instead;
    var m := |Magic(c)|;
    var s1 := DecUInt(c, s[m..]).value.1;
    var s2 := DecUInt(c, s1).value.1;
    var s3 := DecTables(c, limits, s2).value.1;
    TablesStop(c, limits, s2, y);
    var z := Instead(s2, s3, y);
    UIntStops(c, s1, z);
    Chain(s1, s2, s3, y);
    UIntStops(c, s[m..], Instead(s1, s3, y));
    Chain(s[m..], s1, s3, y);
    AfterHead(s, m, s3, y);
    SamePrefix(Magic(c), s, Instead(s, s3, y));
  }

  lemma SamePrefix(m: Units, s: Units, t: Units)
    requires m <= s && |m| <= |t| && forall i | 0 <= i < |m| :: t[i] == s[i]
    ensures m <= t
  {
  }

  lemma KindStops(c: Carrier, s: Units, y: Units)
    ensures Stops(s, y, x => DecKind(c, x))
  {
    hide ReadBits;
    if DecKind(c, s).Some? {
      if c.Bitwise? { BitsStop(2, s, y); } else { Tail(s, 1, y); }
    }
  }

  lemma TriviaStops(c: Carrier, limits: Limits, s: Units, y: Units)
    ensures Stops(s, y, x => DecTrivia(c, limits, x))
  {
    hide DecKind, DecText, KindFromCode, Ends, Instead;
    if DecTrivia(c, limits, s).Some? {
      var rest := DecKind(c, s).value.1;
      var tail := DecText(c, rest, limits.maxStringBytes).value.1;
      TextStops(c, limits.maxStringBytes, rest, y);
      KindStops(c, s, Instead(rest, tail, y));
      Chain(s, rest, tail, y);
    }
  }

  lemma TriviasStop(c: Carrier, limits: Limits, s: Units, y: Units)
    ensures Stops(s, y, x => DecTable(c, x, limits.maxTriviaItems, t => DecTrivia(c, limits, t)))
  {
    hide DecTable, DecTrivia;
    var dec := t => DecTrivia(c, limits, t);
    forall s, y ensures Stops(s, y, dec) { TriviaStops(c, limits, s, y); }
    TableStops(c, limits.maxTriviaItems, dec, s, y);
  }

  lemma OriginStops(c: Carrier, limits: Limits, s: Units, y: Units)
    ensures Stops(s, y, x => DecOrigin(c, limits, x))
  {
    hide DecUInt, NarrowCodec, DecText, DecCount, DecTable, Ends, Instead;
    if DecOrigin(c, limits, s).Some? {
      var s1 := DecUInt(c, s).value.1;
      var s2 := DecText(c, s1, limits.maxStringBytes).value.1;
      var s3 := DecCount(c, s2, USIZE_MAX).value.1;
      var s4 := DecCount(c, s3, USIZE_MAX).value.1;
      var s5 := DecTable(c, s4, limits.maxTriviaItems, x => DecTrivia(c, limits, x)).value.1;
      TriviasStop(c, limits, s4, y);
      CountStops(c, USIZE_MAX, s3, Instead(s4, s5, y));
      Chain(s3, s4, s5, y);
      CountStops(c, USIZE_MAX, s2, Instead(s3, s5, y));
      Chain(s2, s3, s5, y);
      TextStops(c, limits.maxStringBytes, s1, Instead(s2, s5, y));
      Chain(s1, s2, s5, y);
      UIntStops(c, s, Instead(s1, s5, y));
      Chain(s, s1, s5, y);
    }
  }

  lemma FlagStops(c: Carrier, s: Units, y: Units)
    ensures Stops(s, y, x => DecFlag(c, x))
  {
    if |s| > 0 { Tail(s, 1, y); }
  }

  lemma MaybeStops(c: Carrier, limits: Limits, s: Units, y: Units)
    ensures Stops(s, y, x => DecMaybe(c, limits, x))
  {
    hide DecFlag, DecOrigin, Ends, Instead;
    if DecMaybe(c, limits, s).Some? {
      var (present, rest) := DecFlag(c, s).value;
      if present {
        var tail := DecOrigin(c, limits, rest).value.1;
        OriginStops(c, limits, rest, y);
        FlagStops(c, s, Instead(rest, tail, y));
        Chain(s, rest, tail, y);
      } else {
        FlagStops(c, s, y);
      }
    }
  }

  lemma {:induction false} TreeStops(c: Carrier, limits: Limits, e: Expr, depth: nat, s: Units, y: Units)
    ensures Stops(s, y, x => DecTree(c, limits, e, x, depth))
    decreases e
  {
    hide DecMaybe, DecTrees, Ends, Instead;
    if DecTree(c, limits, e, s, depth).Some? {
      var rest := DecMaybe(c, limits, s).value.1;
      var tail := DecTrees(c, limits, e.kids, rest, depth + 1).value.1;
      TreesStop(c, limits, e.kids, depth + 1, rest, y);
      MaybeStops(c, limits, s, Instead(rest, tail, y));
      Chain(s, rest, tail, y);
    }
  }

  lemma {:induction false} TreesStop(c: Carrier, limits: Limits, es: seq<Expr>, depth: nat, s: Units, y: Units)
    ensures Stops(s, y, x => DecTrees(c, limits, es, x, depth))
    decreases es
  {
    hide DecTree, Ends, Instead;
    if es == [] {
      Whole(s, y);
    } else if DecTrees(c, limits, es, s, depth).Some? {
      var rest := DecTree(c, limits, es[0], s, depth).value.1;
      var tail := DecTrees(c, limits, es[1..], rest, depth).value.1;
      TreesStop(c, limits, es[1..], depth, rest, y);
      TreeStops(c, limits, es[0], depth, s, Instead(rest, tail, y));
      Chain(s, rest, tail, y);
    }
  }

  lemma OriginsStop(c: Carrier, limits: Limits, flags: nat, e: Expr, s: Units, y: Units)
    ensures Stops(s, y, x => DecOrigins(c, limits, flags, e, x))
  {
    hide HasFlag, DecTree, DecOrigin, PlainTree, Ends, Instead;
    if DecOrigins(c, limits, flags, e, s).Some? {
      var rest := if HasFlag(flags, TREE) then DecTree(c, limits, e, s, 0).value.1 else s;
      var tail := DecOrigins(c, limits, flags, e, s).value.1;
      var z := y;
      if HasFlag(flags, ORIGIN) {
        OriginStops(c, limits, rest, y);
        z := Instead(rest, tail, y);
      }
      Whole(rest, y);
      if HasFlag(flags, TREE) { TreeStops(c, limits, e, 0, s, z); } else { Whole(s, z); }
      Chain(s, rest, tail, y);
    }
  }

  // ---- frames -------------------------------------------------------------------------------------------

  lemma {:induction false} PayloadLength(c: Carrier, bs: bytes)
    ensures |Payload(c, bs)| == if c.Bitwise? then 8 * |bs| else |bs|
  {
    if c.Bitwise? && bs != [] { PayloadLength(c, bs[1..]); }
  }

  lemma {:induction false} PayloadAppend(c: Carrier, a: bytes, b: bytes)
    ensures Payload(c, a + b) == Payload(c, a) + Payload(c, b)
  {
    if a == [] {
      assert a + b == b && [] + Payload(c, b) == Payload(c, b);
    } else if c.Bitwise? {
      assert (a + b)[1..] == a[1..] + b;
      PayloadAppend(c, a[1..], b);
      Assoc(BitsOf(a[0], 8), Payload(c, a[1..]), Payload(c, b));
    }
  }

  lemma PayloadInjective(c: Carrier, f: bytes, g: bytes)
    requires |f| == |g| && Payload(c, f) == Payload(c, g)
    ensures f == g
  {
    hide Payload, TakePayload;
    TakePayloadOf(c, f, []);
    TakePayloadOf(c, g, []);
    assert Payload(c, f) + [] == Payload(c, g) + [];
  }

  /** The reading of a whole frame, and what it leaves. */
  function DecodeUnits(c: Carrier, limits: Limits, s: Units): Option<(Parts, Units)> {
    match DecHeader(c, limits, s)
    case None => None
    case Some(h) =>
      match Dec(FormatOf(c, h.flags, h.tables), limits, h.rest, 0, FRESH_READER)
      case None => None
      case Some(body) =>
        match DecOrigins(c, limits, h.flags, body.value, body.rest)
        case None => None
        case Some((tree, rest)) => Some((Parts(h.tables, tree, h.flags), rest))
  }

  /** A byte frame must end there; a bit frame within eight bits, all zero. */
  lemma DecodeIsUnits(c: Carrier, limits: Limits, frame: bytes)
    ensures Decode(c, limits, frame) ==
      match DecodeUnits(c, limits, Payload(c, frame))
      case None => None
      case Some((parts, rest)) =>
        if |frame| <= limits.maxFrameBytes && |rest| < (if c.Bitwise? then 8 else 1) && (forall i | 0 <= i < |rest| :: rest[i] == 0)
        then Some(parts) else None
  {
    hide DecHeader, Dec, DecOrigins, Payload;
  }

  lemma UnitsStop(c: Carrier, limits: Limits, s: Units, y: Units)
    ensures Stops(s, y, x => DecodeUnits(c, limits, x))
  {
    hide DecHeader, Dec, DecOrigins, Ends, Instead;
    if DecodeUnits(c, limits, s).Some? {
      var h := DecHeader(c, limits, s).value;
      var f := FormatOf(c, h.flags, h.tables);
      var body := Dec(f, limits, h.rest, 0, FRESH_READER).value;
      var rest := DecodeUnits(c, limits, s).value.1;
      OriginsStop(c, limits, h.flags, body.value, body.rest, y);
      var z := Instead(body.rest, rest, y);
      ExprStops(f, limits, h.rest, 0, FRESH_READER, z);
      HeaderStops(c, limits, s, Instead(h.rest, body.rest, z));
      Chain(h.rest, body.rest, rest, y);
      Chain(s, h.rest, rest, y);
    }
  }

  /**
    * An accepted frame fixes where it ends: of all byte strings that start with
    * the units read from it, it is the only one accepted.
    */
  lemma SelfDelimiting(c: Carrier, limits: Limits, f: bytes) returns (k: nat)
    requires Decode(c, limits, f).Some?
    ensures k <= |Payload(c, f)| < k + (if c.Bitwise? then 8 else 1)
    ensures forall g: bytes | Payload(c, f)[..k] <= Payload(c, g) :: Decode(c, limits, g).Some? <==> g == f
  {
    hide Decode, DecodeUnits, Payload;
    var s := Payload(c, f);
    DecodeIsUnits(c, limits, f);
    var (parts, rest) := DecodeUnits(c, limits, s).value;
    UnitsStop(c, limits, s, []);
    k := |s| - |rest|;
    forall g: bytes | s[..k] <= Payload(c, g) ensures Decode(c, limits, g).Some? <==> g == f {
      OnlyItself(c, limits, f, g, rest, Payload(c, g)[k..]);
    }
  }

  lemma OnlyItself(c: Carrier, limits: Limits, f: bytes, g: bytes, rest: Units, y: Units)
    requires DecodeUnits(c, limits, Payload(c, f)).Some? && Decode(c, limits, f).Some?
    requires rest == DecodeUnits(c, limits, Payload(c, f)).value.1 && |rest| <= |Payload(c, f)|
    requires Payload(c, g) == Payload(c, f)[..|Payload(c, f)| - |rest|] + y
    ensures Decode(c, limits, g).Some? <==> g == f
  {
    hide Decode, DecodeUnits, Payload;
    var s, t := Payload(c, f), Payload(c, g);
    DecodeIsUnits(c, limits, f);
    DecodeIsUnits(c, limits, g);
    UnitsStop(c, limits, s, y);
    if Decode(c, limits, g).Some? {
      PayloadLength(c, f);
      PayloadLength(c, g);
      assert y == rest;
      assert t == s;
      PayloadInjective(c, f, g);
    }
  }

  lemma EncodedUnits(c: Carrier, limits: Limits, flags: nat, e: Expr, trailer: Units, tree: LocatedTree, y: Units)
    requires flags <= KnownFlags(c) && Decodable(c, limits, e)
    requires forall pad: Units :: DecOrigins(c, limits, flags, Canon(e), trailer + pad) == Some((tree, pad))
    ensures DecodeUnits(c, limits, FrameUnits(c, flags, TablesOf(e), Canon(e), trailer) + y) == Some((Parts(TablesOf(e), tree, flags), y))
  {
    hide Enc, Dec, EncHeader, DecHeader, Canon, TablesOf, TablesWithin, NodeCount, Height, Fits, WellFormed, DecOrigins, FrameUnits;
    var t := TablesOf(e);
    FrameSplit(c, flags, t, Canon(e), trailer, y);
    TablesComplete(e);
    DecHeaderOf(c, limits, flags, t, Enc(FormatOf(c, flags, t), Canon(e), FRESH_WRITER).0 + (trailer + y));
    BodyRoundTrip(c, limits, flags, e, trailer + y);
  }

  /**
    * Of all byte strings that start with the units a writer wrote, the frame is
    * the only one accepted: nothing may follow, and no padding bit may be set.
    */
  lemma EncodedExactly(c: Carrier, limits: Limits, flags: nat, e: Expr, trailer: Units, tree: LocatedTree, g: bytes)
    requires flags <= KnownFlags(c) && Clean(c, trailer) && Decodable(c, limits, e)
    requires |Frame(c, flags, e, trailer)| <= limits.maxFrameBytes
    requires forall pad: Units :: DecOrigins(c, limits, flags, Canon(e), trailer + pad) == Some((tree, pad))
    requires FrameUnits(c, flags, TablesOf(e), Canon(e), trailer) <= Payload(c, g)
    ensures Decode(c, limits, g).Some? <==> g == Frame(c, flags, e, trailer)
  {
    hide Decode, DecodeUnits, Canon, TablesOf, FrameUnits, DecOrigins, Payload, Packed, Decodable, Padding;
    var units, f := FrameUnits(c, flags, TablesOf(e), Canon(e), trailer), Frame(c, flags, e, trailer);
    FrameRoundTrip(c, limits, flags, e, trailer, tree);
    CleanFrame(c, flags, TablesOf(e), Canon(e), trailer);
    UnpackPacked(c, units);
    var pad := Padding(c, units);
    EncodedUnits(c, limits, flags, e, trailer, tree, pad);
    var y := Payload(c, g)[|units|..];
    assert (units + pad)[..|units + pad| - |pad|] == units;
    OnlyItself(c, limits, f, g, pad, y);
  }

  lemma PlainExactly(c: Carrier, limits: Limits, e: Expr, g: bytes)
    requires Decodable(c, limits, e) && |EncodeFrame(c, e)| <= limits.maxFrameBytes
    requires FrameUnits(c, PLAIN, TablesOf(e), Canon(e), []) <= Payload(c, g)
    ensures Decode(c, limits, g).Some? <==> g == EncodeFrame(c, e)
  {
    hide Frame, Decode, Decodable, DecOrigins, Canon, TablesOf, PlainTree, FrameUnits, Payload;
    forall pad: Units ensures DecOrigins(c, limits, PLAIN, Canon(e), [] + pad) == Some((PlainTree(Canon(e)), pad)) {
      NoOrigins(c, limits, PLAIN, Canon(e), pad);
    }
    EncodedExactly(c, limits, PLAIN, e, [], PlainTree(Canon(e)), g);
  }

  /** So nothing accepted extends anything accepted. */
  lemma NoProperExtension(c: Carrier, limits: Limits, frame: bytes, extra: bytes)
    requires Decode(c, limits, frame).Some? && extra != []
    ensures Decode(c, limits, frame + extra).None?
  {
    hide Decode, Payload;
    PayloadAppend(c, frame, extra);
    var k := SelfDelimiting(c, limits, frame);
    assert Payload(c, frame)[..k] <= Payload(c, frame + extra);
  }

  lemma PlainFrameEnds(c: Carrier, limits: Limits, e: Expr, extra: bytes)
    requires Decodable(c, limits, e) && |EncodeFrame(c, e)| <= limits.maxFrameBytes && extra != []
    ensures Decode(c, limits, EncodeFrame(c, e) + extra).None?
  {
    hide Decode, EncodeFrame;
    PlainRoundTrip(c, limits, e);
    NoProperExtension(c, limits, EncodeFrame(c, e), extra);
  }

  lemma DenseFrameEnds(limits: Limits, e: Expr, extra: bytes)
    requires Decodable(Bitwise, limits, e) && |EncodeDense(e)| <= limits.maxFrameBytes && extra != []
    ensures Decode(Bitwise, limits, EncodeDense(e) + extra).None?
  {
    hide Decode, EncodeDense;
    DenseRoundTrip(limits, e);
    NoProperExtension(Bitwise, limits, EncodeDense(e), extra);
  }

  lemma LocatedFrameEnds(c: Carrier, limits: Limits, e: Expr, o: Origin, extra: bytes)
    requires Decodable(c, limits, e) && OriginWithin(limits, o) && extra != []
    requires |EncodeLocated(c, e, Some(o), true)| <= limits.maxFrameBytes
    ensures Decode(c, limits, EncodeLocated(c, e, Some(o), true) + extra).None?
  {
    hide Decode, EncodeLocated;
    LocatedRoundTrip(c, limits, e, o);
    NoProperExtension(c, limits, EncodeLocated(c, e, Some(o), true), extra);
  }

  lemma TreeFrameEnds(c: Carrier, limits: Limits, t: LocatedTree, extra: bytes)
    requires Decodable(c, limits, t.expr) && AllWithin(limits, Preorder(t)) && |Preorder(t)| == NodeCount(t.expr)
    requires |TreeFrame(c, t)| <= limits.maxFrameBytes && extra != []
    ensures Decode(c, limits, TreeFrame(c, t) + extra).None?
  {
    hide Decode, TreeFrame;
    TreeFrameDeals(c, limits, t);
    NoProperExtension(c, limits, TreeFrame(c, t), extra);
  }
}
