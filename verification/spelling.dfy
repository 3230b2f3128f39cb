/** Which byte spellings of an origin are the writer's own. */
module Spelling {
  import opened Exprs
  import opened Bits
  import opened Atoms
  import opened Origins
  import opened Wire

  /** The text starts with a varuint in its shortest spelling. */
  predicate PlainUInt(s: Units) {
    match ReadVarUint(s)
    case None => false
    case Some((_, rest)) => |rest| <= |s| && Shortest(s[..|s| - |rest|])
  }

  /** Trivia items one after the other: a kind byte, then a text of plainly spelled length. */
  predicate PlainEach(limits: Limits, s: Units, n: nat)
    decreases n
  {
    n == 0 ||
    (s != [] && PlainUInt(s[1..]) &&
     match DecTrivia(Binary, limits, s)
     case None => false
     case Some((_, rest)) => PlainEach(limits, rest, n - 1))
  }

  predicate PlainTrivias(limits: Limits, s: Units) {
    PlainUInt(s) &&
    match DecCount(Binary, s, limits.maxTriviaItems)
    case None => false
    case Some((n, rest)) => PlainEach(limits, rest, n)
  }

  predicate PlainSpan(limits: Limits, s: Units) {
    PlainUInt(s) &&
    match ReadVarUint(s)
    case None => false
    case Some((_, s1)) =>
      PlainUInt(s1) &&
      match ReadVarUint(s1)
      case None => false
      case Some((_, s2)) => PlainTrivias(limits, s2)
  }

  /** Every varuint of the origin is in its shortest spelling, and the codec number is not wider than 32 bits. */
  predicate PlainOrigin(limits: Limits, s: Units) {
    PlainUInt(s) &&
    match ReadVarUint(s)
    case None => false
    case Some((wide, s1)) =>
      wide < 0x1_0000_0000 && PlainUInt(s1) &&
      match DecText(Binary, s1, limits.maxStringBytes)
      case None => false
      case Some((_, s2)) => PlainSpan(limits, s2)
  }

  lemma UIntExactly(s: Units)
    requires ReadVarUint(s).Some?
    ensures var (v, rest) := ReadVarUint(s).value; s == EncUInt(Binary, v) + rest <==> PlainUInt(s)
  {
    hide ReadVarUint, VarUint, Shortest;
    ReadVarUintExactly(s);
  }

  lemma TextExactly(limits: Limits, s: Units)
    requires DecText(Binary, s, limits.maxStringBytes).Some?
    ensures var (t, rest) := DecText(Binary, s, limits.maxStringBytes).value;
      |t| <= limits.maxStringBytes && (s == EncBytes(Binary, t) + rest <==> PlainUInt(s))
  {
    hide ReadVarUint, VarUint, PlainUInt, IsUtf8;
    var (t, rest) := DecText(Binary, s, limits.maxStringBytes).value;
    var (n, r) := ReadVarUint(s).value;
    UIntExactly(s);
    assert r == t + rest;
    Assoc(VarUint(n), t, rest);
  }

  lemma TriviaExactly(limits: Limits, s: Units)
    requires DecTrivia(Binary, limits, s).Some?
    ensures var (x, rest) := DecTrivia(Binary, limits, s).value;
      s != [] && |x.text| <= limits.maxStringBytes && (s == EncTrivia(Binary, x) + rest <==> PlainUInt(s[1..]))
  {
    hide DecText, EncBytes, PlainUInt;
    var (x, rest) := DecTrivia(Binary, limits, s).value;
    TextExactly(limits, s[1..]);
    var text := EncBytes(Binary, x.text);
    assert s == [s[0]] + s[1..] && s[0] == KindCode(x.kind);
    Assoc([s[0]], text, rest);
    assert ([s[0]] + (text + rest))[1..] == text + rest;
  }

  lemma {:induction false} EachExactly(limits: Limits, s: Units, n: nat, enc: Trivia -> Units, dec: Units -> Option<(Trivia, Units)>)
    requires forall x :: enc(x) == EncTrivia(Binary, x)
    requires forall x :: dec(x) == DecTrivia(Binary, limits, x)
    requires DecAll(s, n, dec).Some?
    ensures var (xs, rest) := DecAll(s, n, dec).value;
      |xs| == n && (forall x | x in xs :: |x.text| <= limits.maxStringBytes) &&
      (s == EncAll(xs, enc) + rest <==> PlainEach(limits, s, n))
    decreases n
  {
    hide DecTrivia, EncTrivia, PlainUInt;
    var (xs, rest) := DecAll(s, n, dec).value;
    if n == 0 {
      assert [] + rest == rest;
    } else {
      TriviaExactly(limits, s);
      var (x, s1) := DecTrivia(Binary, limits, s).value;
      EachExactly(limits, s1, n - 1, enc, dec);
      assert xs[1..] == DecAll(s1, n - 1, dec).value.0;
      Assoc(EncTrivia(Binary, x), EncAll(xs[1..], enc), rest);
      DecTriviaOf(Binary, limits, x, EncAll(xs[1..], enc) + rest);
    }
  }

  lemma TriviasExactly(limits: Limits, s: Units)
    requires DecTable(Binary, s, limits.maxTriviaItems, x => DecTrivia(Binary, limits, x)).Some?
    ensures var (xs, rest) := DecTable(Binary, s, limits.maxTriviaItems, x => DecTrivia(Binary, limits, x)).value;
      s == EncTable(Binary, xs, x => EncTrivia(Binary, x)) + rest <==> PlainTrivias(limits, s)
  {
    hide DecTrivia, EncTrivia, PlainUInt, ReadVarUint, EncAll, DecAll, PlainEach, VarUint;
    var (xs, rest) := DecTable(Binary, s, limits.maxTriviaItems, x => DecTrivia(Binary, limits, x)).value;
    var (n, r) := DecCount(Binary, s, limits.maxTriviaItems).value;
    UIntExactly(s);
    EachExactly(limits, r, n, x => EncTrivia(Binary, x), x => DecTrivia(Binary, limits, x));
    var all := EncAll(xs, x => EncTrivia(Binary, x));
    Assoc(EncUInt(Binary, n), all, rest);
    DecCountOf(Binary, n, limits.maxTriviaItems, all + rest);
  }

  /** What an origin writes after its source. */
  function EncSpan(o: Origin): Units {
    EncUInt(Binary, o.start) + (EncUInt(Binary, o.end) + EncTable(Binary, o.trivia, x => EncTrivia(Binary, x)))
  }

  lemma SpanExactly(limits: Limits, s: Units, s1: Units, s2: Units, o: Origin, rest: Units)
    requires DecCount(Binary, s, USIZE_MAX) == Some((o.start, s1)) && DecCount(Binary, s1, USIZE_MAX) == Some((o.end, s2))
    requires DecTable(Binary, s2, limits.maxTriviaItems, x => DecTrivia(Binary, limits, x)) == Some((o.trivia, rest))
    ensures s == EncSpan(o) + rest <==> PlainSpan(limits, s)
  {
    hide ReadVarUint, VarUint, PlainUInt, PlainTrivias, DecTable, EncTable, DecTrivia, EncTrivia;
    UIntExactly(s);
    UIntExactly(s1);
    TriviasExactly(limits, s2);
    var a, b, t := EncUInt(Binary, o.start), EncUInt(Binary, o.end), EncTable(Binary, o.trivia, x => EncTrivia(Binary, x));
    Assoc(a, b + t, rest);
    Assoc(b, t, rest);
    DecCountOf(Binary, o.start, USIZE_MAX, b + (t + rest));
    DecCountOf(Binary, o.end, USIZE_MAX, t + rest);
  }

  lemma OriginParts(o: Origin, rest: Units)
    ensures EncOrigin(Binary, o) + rest == EncUInt(Binary, o.codec) + (EncBytes(Binary, o.source) + (EncSpan(o) + rest))
  {
    hide EncUInt, EncBytes, EncTable;
    var a, b, d := EncUInt(Binary, o.start), EncUInt(Binary, o.end), EncTable(Binary, o.trivia, x => EncTrivia(Binary, x));
    Assoc(EncUInt(Binary, o.codec), EncBytes(Binary, o.source) + EncSpan(o), rest);
    Assoc(EncBytes(Binary, o.source), EncSpan(o), rest);
  }

  /** An accepted origin is spelled as the writer spells it exactly when it is plain. */
  lemma OriginExactly(limits: Limits, s: Units)
    requires DecOrigin(Binary, limits, s).Some?
    ensures var (o, rest) := DecOrigin(Binary, limits, s).value; s == EncOrigin(Binary, o) + rest <==> PlainOrigin(limits, s)
  {
    hide ReadVarUint, VarUint, PlainUInt, PlainSpan, DecText, EncBytes, DecCount, DecTable, EncTable, DecTrivia, EncTrivia, EncOrigin,
      EncSpan;
    var (o, rest) := DecOrigin(Binary, limits, s).value;
    var (wide, s1) := ReadVarUint(s).value;
    var s2 := DecText(Binary, s1, limits.maxStringBytes).value.1;
    UIntExactly(s);
    TextExactly(limits, s1);
    var s3 := DecCount(Binary, s2, USIZE_MAX).value.1;
    SpanExactly(limits, s2, s3, DecCount(Binary, s3, USIZE_MAX).value.1, o, rest);
    OriginParts(o, rest);
    var tail := EncSpan(o) + rest;
    DecTextOf(Binary, o.source, limits.maxStringBytes, tail);
    DecUIntOf(Binary, o.codec, EncBytes(Binary, o.source) + tail);
  }
}
