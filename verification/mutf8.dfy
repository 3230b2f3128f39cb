/** Strict modified UTF-8 over UTF-16 code units, and the bounded byte lanes it runs on. */
module ModifiedUtf8 {
  import opened Exprs

  type CodeUnits = seq<u16>

  predicate High(u: u16) {
    0xD800 <= u < 0xDC00
  }

  predicate Low(u: u16) {
    0xDC00 <= u < 0xE000
  }

  /** Every high surrogate is followed by a low one, and every low one follows a high one. */
  predicate Paired(us: CodeUnits) {
    if us == [] then true
    else if High(us[0]) then |us| > 1 && Low(us[1]) && Paired(us[2..])
    else !Low(us[0]) && Paired(us[1..])
  }

  /** The same, judged one unit at a time with a high surrogate possibly pending. */
  predicate PairedFrom(us: CodeUnits, pending: bool) {
    if us == [] then !pending
    else if pending then Low(us[0]) && PairedFrom(us[1..], false)
    else if High(us[0]) then PairedFrom(us[1..], true)
    else !Low(us[0]) && PairedFrom(us[1..], false)
  }

  lemma {:induction false} PairedIsOneAtATime(us: CodeUnits)
    ensures Paired(us) <==> PairedFrom(us, false)
  {
    if us != [] {
      if High(us[0]) {
        if |us| > 1 {
          PairedIsOneAtATime(us[2..]);
          assert us[1..][1..] == us[2..];
        }
      } else {
        PairedIsOneAtATime(us[1..]);
      }
    }
  }

  // ---- one code unit -------------------------------------------------------------------

  function Width(u: u16): nat {
    if u == 0 then 2 else if u <= 0x7F then 1 else if u <= 0x7FF then 2 else 3
  }

  function EncUnit(u: u16): (r: bytes)
    ensures |r| == Width(u)
  {
    if u == 0 then [0xC0, 0x80]
    else if u <= 0x7F then [u]
    else if u <= 0x7FF then [0xC0 + u / 64, 0x80 + u % 64]
    else [0xE0 + u / 4096, 0x80 + u / 64 % 64, 0x80 + u % 64]
  }

  function TwoBytes(a: byte, b: byte): u16 {
    (a as nat) % 32 * 64 + b % 64
  }

  function ThreeBytes(a: byte, b: byte, c: byte): u16 {
    (a as nat) % 16 * 4096 + (b as nat) % 64 * 64 + c % 64
  }

  /** The shortest form only: two bytes for zero, no literal zero, no overlong forms. */
  function TakeUnit(s: bytes): Option<(u16, bytes)> {
    if |s| == 0 || s[0] == 0 then None
    else if s[0] <= 0x7F then Some((s[0], s[1..]))
    else if 0xC0 <= s[0] <= 0xDF then
      if |s| < 2 || !Continuation(s[1]) then None else
      var v := TwoBytes(s[0], s[1]);
      if v == 0 && (s[0] != 0xC0 || s[1] != 0x80) then None
      else if v != 0 && v < 0x80 then None
      else Some((v, s[2..]))
    else if 0xE0 <= s[0] <= 0xEF then
      if |s| < 3 || !Continuation(s[1]) || !Continuation(s[2]) then None else
      var v := ThreeBytes(s[0], s[1], s[2]);
      if v < 0x800 then None else Some((v, s[3..]))
    else None
  }

  lemma UnitParts(u: u16)
    ensures u <= 0x7FF ==> TwoBytes(0xC0 + u / 64, 0x80 + u % 64) == u
    ensures ThreeBytes(0xE0 + u / 4096, 0x80 + u / 64 % 64, 0x80 + u % 64) == u
  {
    SplitUnit(u / 4096, u / 64, u);
    if u <= 0x7FF { TwoParts(u / 64, u % 64); }
    ThreeParts(u / 4096, u / 64 % 64, u % 64);
  }

  lemma TwoParts(a: nat, b: nat)
    requires a < 32 && b < 64
    ensures TwoBytes(0xC0 + a, 0x80 + b) == a * 64 + b
  {
  }

  lemma ThreeParts(a: nat, b: nat, c: nat)
    requires a < 16 && b < 64 && c < 64
    ensures ThreeBytes(0xE0 + a, 0x80 + b, 0x80 + c) == a * 4096 + b * 64 + c
  {
  }

  lemma SplitUnit(high: nat, middle: nat, u: nat)
    requires high == u / 4096 && middle == u / 64
    ensures middle / 64 == high && u == middle * 64 + u % 64 && middle == high * 64 + middle % 64
  {
  }

  lemma TakeUnitOf(u: u16, rest: bytes)
    ensures TakeUnit(EncUnit(u) + rest) == Some((u, rest))
  {
    hide TwoBytes, ThreeBytes;
    var e := EncUnit(u);
    assert (e + rest)[|e|..] == rest;
    UnitParts(u);
  }

  lemma TakeUnitExact(s: bytes)
    requires TakeUnit(s).Some?
    ensures var (u, rest) := TakeUnit(s).value; s == EncUnit(u) + rest
  {
    hide TwoBytes, ThreeBytes, EncUnit;
    var (u, rest) := TakeUnit(s).value;
    if s[0] <= 0x7F {
      assert s == [s[0]] + rest;
      UnitOfOne(s[0]);
    } else if s[0] <= 0xDF {
      assert s == [s[0], s[1]] + rest;
      UnitOfTwo(s[0], s[1]);
    } else {
      assert s == [s[0], s[1], s[2]] + rest;
      UnitOfThree(s[0], s[1], s[2]);
    }
  }

  lemma UnitOfOne(a: byte)
    requires 0 < a <= 0x7F
    ensures EncUnit(a) == [a]
  {
  }

  lemma UnitOfTwo(a: byte, b: byte)
    requires 0xC0 <= a <= 0xDF && 0x80 <= b < 0xC0
    requires TwoBytes(a, b) == 0 ==> a == 0xC0 && b == 0x80
    requires TwoBytes(a, b) == 0 || TwoBytes(a, b) >= 0x80
    ensures EncUnit(TwoBytes(a, b)) == [a, b]
  {
    TwoByteParts(a, b);
    TwoBytesBound(a, b);
    hide TwoBytes;
  }

  lemma TwoBytesBound(a: byte, b: byte)
    ensures TwoBytes(a, b) <= 0x7FF
  {
  }

  lemma UnitOfThree(a: byte, b: byte, c: byte)
    requires 0xE0 <= a <= 0xEF && 0x80 <= b < 0xC0 && 0x80 <= c < 0xC0 && ThreeBytes(a, b, c) >= 0x800
    ensures EncUnit(ThreeBytes(a, b, c)) == [a, b, c]
  {
    hide ThreeBytes;
    ThreeByteParts(a, b, c);
  }

  lemma TwoByteParts(a: byte, b: byte)
    requires 0xC0 <= a <= 0xDF && 0x80 <= b < 0xC0
    ensures var v := TwoBytes(a, b); 0xC0 + v / 64 == a && 0x80 + v % 64 == b
  {
  }

  lemma ThreeByteParts(a: byte, b: byte, c: byte)
    requires 0xE0 <= a <= 0xEF && 0x80 <= b < 0xC0 && 0x80 <= c < 0xC0
    ensures var v := ThreeBytes(a, b, c);
      0xE0 + v / 4096 == a && 0x80 + v / 64 % 64 == b && 0x80 + v % 64 == c
  {
    var x: nat := (a as nat) % 16 * 64 + b % 64;
    var v: nat := x * 64 + c % 64;
    assert v / 64 == x && x / 64 == a % 16 && v / 4096 == a % 16;
  }

  // ---- whole texts ---------------------------------------------------------------------

  function EncUnits(us: CodeUnits): bytes {
    if us == [] then [] else EncUnit(us[0]) + EncUnits(us[1..])
  }

  function WidthSum(us: CodeUnits): nat {
    if us == [] then 0 else Width(us[0]) + WidthSum(us[1..])
  }

  lemma {:induction false} EncodedLength(us: CodeUnits)
    ensures |EncUnits(us)| == WidthSum(us)
  {
    if us != [] { EncodedLength(us[1..]); }
  }

  function DecUnits(s: bytes, pending: bool): Option<CodeUnits>
    decreases |s|
  {
    if s == [] then (if pending then None else Some([])) else
    match TakeUnit(s)
    case None => None
    case Some((u, rest)) =>
      if |rest| >= |s| || (pending && !Low(u)) || (!pending && Low(u)) then None else
      match DecUnits(rest, !pending && High(u))
      case None => None
      case Some(us) => Some([u] + us)
  }

  /** Decoding under a budget of code units. */
  function Decode(s: bytes, budget: nat): Option<CodeUnits> {
    match DecUnits(s, false)
    case None => None
    case Some(us) => if |us| <= budget then Some(us) else None
  }

  /** Encoding under a budget of bytes. */
  function Encode(us: CodeUnits, budget: nat): Option<bytes> {
    if Paired(us) && WidthSum(us) <= budget then Some(EncUnits(us)) else None
  }

  lemma {:induction false} DecUnitsOf(us: CodeUnits, pending: bool)
    requires PairedFrom(us, pending)
    ensures DecUnits(EncUnits(us), pending) == Some(us)
  {
    hide TakeUnit, EncUnit;
    if us != [] {
      var rest := EncUnits(us[1..]);
      TakeUnitOf(us[0], rest);
      DecUnitsOf(us[1..], !pending && High(us[0]));
      assert us == [us[0]] + us[1..];
    }
  }

  lemma {:induction false} DecUnitsExact(s: bytes, pending: bool)
    requires DecUnits(s, pending).Some?
    ensures var us := DecUnits(s, pending).value; PairedFrom(us, pending) && EncUnits(us) == s
    decreases |s|
  {
    hide TakeUnit, EncUnit;
    if s != [] {
      TakeUnitExact(s);
      var (u, rest) := TakeUnit(s).value;
      DecUnitsExact(rest, !pending && High(u));
      var us := DecUnits(s, pending).value;
      assert us[0] == u && us[1..] == DecUnits(rest, !pending && High(u)).value;
    }
  }

  /** Accepted bytes and well-paired texts correspond one to one, within the budget. */
  lemma Bijection(s: bytes, us: CodeUnits, budget: nat)
    ensures Decode(s, budget) == Some(us) <==> Paired(us) && |us| <= budget && s == EncUnits(us)
  {
    PairedIsOneAtATime(us);
    if Decode(s, budget) == Some(us) { DecUnitsExact(s, false); }
    if Paired(us) { DecUnitsOf(us, false); }
  }

  /** Encoding succeeds exactly when the text is well paired and its width sum fits. */
  lemma EncodingFits(us: CodeUnits, budget: nat)
    ensures Encode(us, budget).Some? <==> Paired(us) && |EncUnits(us)| <= budget
    ensures Encode(us, budget).Some? ==> Decode(Encode(us, budget).value, |us|) == Some(us)
  {
    EncodedLength(us);
    Bijection(EncUnits(us), us, |us|);
  }

  /** Section 4.4.7 of the Java Virtual Machine Specification: zero in two bytes, and no form longer than needed. */
  lemma UnitLayout(a: nat, b: nat, c: nat)
    requires b < 64 && c < 64
    ensures 0 < c ==> EncUnits([c]) == [c] && EncUnits([64 + c]) == [64 + c]
    ensures 2 <= a < 32 || (a == 0 && b == 0) ==> EncUnits([a * 64 + b]) == [0xC0 + a, 0x80 + b]
    ensures a < 16 && (a == 0 ==> b >= 32) ==> EncUnits([a * 4096 + b * 64 + c]) == [0xE0 + a, 0x80 + b, 0x80 + c]
  {
    hide EncUnits;
    OneUnit(c);
    OneUnit(64 + c);
    if a < 32 { TwoByteUnit(a, b); }
    if a < 16 && (a == 0 ==> b >= 32) { ThreeByteUnit(a, b, c); }
  }

  lemma TwoByteUnit(a: nat, b: nat)
    requires a < 32 && b < 64
    ensures 2 <= a || (a == 0 && b == 0) ==> EncUnits([a * 64 + b]) == [0xC0 + a, 0x80 + b]
  {
    OneUnit(a * 64 + b);
  }

  lemma ThreeByteUnit(a: nat, b: nat, c: nat)
    requires a < 16 && b < 64 && c < 64 && (a == 0 ==> b >= 32)
    ensures EncUnits([a * 4096 + b * 64 + c]) == [0xE0 + a, 0x80 + b, 0x80 + c]
  {
    UnitDigits(a, b, c);
    OneUnit(a * 4096 + b * 64 + c);
  }

  lemma OneUnit(u: u16)
    ensures EncUnits([u]) == EncUnit(u)
  {
    assert [u][1..] == [] && EncUnit(u) + [] == EncUnit(u);
  }

  lemma UnitDigits(a: nat, b: nat, c: nat)
    requires b < 64 && c < 64
    ensures var u := a * 4096 + b * 64 + c; u / 4096 == a && u / 64 % 64 == b && u % 64 == c
  {
    var x := a * 64 + b;
    var u := x * 64 + c;
    assert u / 64 == x && x / 64 == a && u / 4096 == a;
  }

  // ---- the byte lanes ---------------------------------------------------------------------

  /** A reader confined to one region that starts at `origin` of a larger input. */
  class ByteReader {
    const region: bytes
    const origin: nat
    const budget: nat
    var position: nat

    ghost predicate Valid()
      reads this
    {
      position <= |region|
    }

    ghost function Rest(): bytes
      reads this
      requires Valid()
    {
      region[position..]
    }

    constructor (region: bytes, budget: nat, origin: nat)
      ensures Valid() && Rest() == region && this.region == region && this.budget == budget && this.origin == origin
    {
      this.region, this.budget, this.origin, position := region, budget, origin, 0;
    }

    method Remaining() returns (n: nat)
      requires Valid()
      ensures n == |Rest()|
    {
      return |region| - position;
    }

    /** Exactly `length` bytes, or nothing and no movement. */
    method Take(length: nat) returns (r: Option<bytes>)
      requires Valid()
      modifies this
      ensures Valid()
      ensures |old(Rest())| < length ==> r.None? && position == old(position)
      ensures |old(Rest())| >= length ==> r == Some(old(Rest())[..length]) && Rest() == old(Rest())[length..]
    {
      if position + length > |region| { return None; }
      assert Rest()[..length] == region[position..position + length];
      r := Some(region[position..position + length]);
      position := position + length;
    }

    method ReadU1() returns (r: Option<byte>)
      requires Valid()
      modifies this
      ensures Valid()
      ensures old(Rest()) == [] ==> r.None?
      ensures old(Rest()) != [] ==> r == Some(old(Rest())[0]) && Rest() == old(Rest())[1..]
    {
      var b := Take(1);
      return if b.Some? then Some(b.value[0]) else None;
    }

    /** A child bounded to the next `length` bytes, which the parent skips. */
    method SubReader(length: nat) returns (r: Option<ByteReader>)
      requires Valid()
      modifies this
      ensures Valid()
      ensures |old(Rest())| < length ==> r.None? && position == old(position)
      ensures |old(Rest())| >= length ==>
        r.Some? && fresh(r.value) && r.value.Valid() && r.value.Rest() == old(Rest())[..length] && Rest() == old(Rest())[length..]
        && r.value.origin == origin + old(position) && r.value.budget == budget
    {
      var at := origin + position;
      var part := Take(length);
      if part.None? { return None; }
      var child := new ByteReader(part.value, budget, at);
      return Some(child);
    }
  }

  /** A writer that never holds more than its budget. */
  class ByteWriter {
    var bytes: bytes
    const budget: nat

    ghost predicate Valid()
      reads this
    {
      |bytes| <= budget
    }

    constructor (budget: nat)
      ensures Valid() && bytes == [] && this.budget == budget
    {
      bytes, this.budget := [], budget;
    }

    method WriteBytes(value: seq<byte>) returns (ok: bool)
      requires Valid()
      modifies this
      ensures Valid() && (ok <==> |old(bytes)| + |value| <= budget)
      ensures bytes == if ok then old(bytes) + value else old(bytes)
    {
      ok := |bytes| + |value| <= budget;
      if ok { bytes := bytes + value; }
    }
  }

  // ---- the conversions as they run ------------------------------------------------------------

  ghost function Onto(us: CodeUnits, r: Option<CodeUnits>): Option<CodeUnits> {
    match r
    case None => None
    case Some(more) => Some(us + more)
  }

  method ReadContinuation(reader: ByteReader) returns (r: Option<byte>)
    requires reader.Valid()
    modifies reader
    ensures reader.Valid()
    ensures r.Some? <==> old(reader.Rest()) != [] && Continuation(old(reader.Rest())[0])
    ensures r.Some? ==> r.value == old(reader.Rest())[0] && reader.Rest() == old(reader.Rest())[1..]
  {
    var b := reader.ReadU1();
    if b.None? || !Continuation(b.value) { return None; }
    return b;
  }

  method ReadUnit(reader: ByteReader) returns (r: Option<u16>)
    requires reader.Valid()
    modifies reader
    ensures reader.Valid()
    ensures match TakeUnit(old(reader.Rest()))
            case None => r.None?
            case Some((u, rest)) => r == Some(u) && reader.Rest() == rest
  {
    hide TwoBytes, ThreeBytes;
    var first := reader.ReadU1();
    if first.None? || first.value == 0 { return None; }
    if first.value <= 0x7F { return Some(first.value); }
    if 0xC0 <= first.value <= 0xDF {
      var second := ReadContinuation(reader);
      if second.None? { return None; }
      var v := TwoBytes(first.value, second.value);
      if v == 0 {
        if first.value != 0xC0 || second.value != 0x80 { return None; }
      } else if v < 0x80 {
        return None;
      }
      return Some(v);
    }
    if 0xE0 <= first.value <= 0xEF {
      var second := ReadContinuation(reader);
      if second.None? { return None; }
      var third := ReadContinuation(reader);
      if third.None? { return None; }
      var v := ThreeBytes(first.value, second.value, third.value);
      return if v < 0x800 then None else Some(v);
    }
    return None;
  }

  method DecodeModifiedUtf8(bytes: bytes, budget: nat) returns (r: Option<CodeUnits>)
    ensures r == Decode(bytes, budget)
  {
    hide TakeUnit, DecUnits, Onto;
    var reader := new ByteReader(bytes, budget, 0);
    var units: CodeUnits, pending := [], false;
    ghost var goal := DecUnits(bytes, false);
    OntoNothing(goal);
    var remaining := reader.Remaining();
    while remaining != 0
      invariant reader.Valid() && remaining == |reader.Rest()| && |units| <= budget
      invariant goal == Onto(units, DecUnits(reader.Rest(), pending))
      decreases remaining
    {
      UnitStep(units, reader.Rest(), pending);
      var u := ReadUnit(reader);
      if u.None? { return None; }
      if pending {
        if !Low(u.value) { return None; }
        pending := false;
      } else if High(u.value) {
        pending := true;
      } else if Low(u.value) {
        return None;
      }
      if |units| + 1 > budget {
        OntoIsLonger(units + [u.value], DecUnits(reader.Rest(), pending));
        return None;
      }
      units := units + [u.value];
      remaining := reader.Remaining();
    }
    NoMoreUnits(units, reader.Rest(), pending);
    return if pending then None else Some(units);
  }

  lemma UnitStep(us: CodeUnits, s: bytes, pending: bool)
    requires s != []
    ensures TakeUnit(s).Some? ==> |TakeUnit(s).value.1| < |s|
    ensures Onto(us, DecUnits(s, pending)) == match TakeUnit(s)
      case None => None
      case Some((u, rest)) =>
        if (pending && !Low(u)) || (!pending && Low(u)) then None
        else Onto(us + [u], DecUnits(rest, !pending && High(u)))
  {
    match TakeUnit(s)
    case None =>
    case Some((u, rest)) =>
      if DecUnits(rest, !pending && High(u)).Some? { Assoc(us, [u], DecUnits(rest, !pending && High(u)).value); }
  }

  lemma OntoNothing(r: Option<CodeUnits>)
    ensures Onto([], r) == r
  {
    if r.Some? { assert [] + r.value == r.value; }
  }

  lemma OntoIsLonger(us: CodeUnits, r: Option<CodeUnits>)
    ensures Onto(us, r).Some? ==> |Onto(us, r).value| >= |us|
  {
  }

  lemma NoMoreUnits(us: CodeUnits, s: bytes, pending: bool)
    requires s == []
    ensures Onto(us, DecUnits(s, pending)) == if pending then None else Some(us)
  {
    assert us + [] == us;
  }

  method ValidateSurrogates(us: CodeUnits) returns (ok: bool)
    ensures ok <==> Paired(us)
  {
    var index := 0;
    assert us[0..] == us;
    while index < |us|
      invariant 0 <= index <= |us|
      invariant Paired(us) <==> Paired(us[index..])
    {
      if High(us[index]) && index + 1 < |us| && Low(us[index + 1]) {
        assert us[index..][2..] == us[index + 2..];
        index := index + 2;
      } else if High(us[index]) || Low(us[index]) {
        return false;
      } else {
        assert us[index..][1..] == us[index + 1..];
        index := index + 1;
      }
    }
    return true;
  }

  method EncodeModifiedUtf8(us: CodeUnits, budget: nat) returns (r: Option<bytes>)
    ensures r == Encode(us, budget)
  {
    var paired := ValidateSurrogates(us);
    if !paired { return None; }
    var required := RequiredLength(us);
    EncodedLength(us);
    if required > budget { return None; }
    r := WriteUnits(us, budget);
  }

  method RequiredLength(us: CodeUnits) returns (n: nat)
    ensures n == WidthSum(us)
  {
    n := 0;
    var i := 0;
    assert us[0..] == us;
    while i < |us|
      invariant 0 <= i <= |us| && n + WidthSum(us[i..]) == WidthSum(us)
    {
      assert us[i..][1..] == us[i + 1..];
      n := n + Width(us[i]);
      i := i + 1;
    }
  }

  method WriteUnits(us: CodeUnits, budget: nat) returns (r: Option<bytes>)
    requires |EncUnits(us)| <= budget
    ensures r == Some(EncUnits(us))
  {
    hide EncUnit;
    var writer := new ByteWriter(budget);
    var i := 0;
    assert us[0..] == us && [] + EncUnits(us) == EncUnits(us);
    while i < |us|
      invariant 0 <= i <= |us| && writer.Valid() && writer.budget == budget
      invariant writer.bytes + EncUnits(us[i..]) == EncUnits(us)
    {
      assert us[i..][1..] == us[i + 1..];
      Assoc(writer.bytes, EncUnit(us[i]), EncUnits(us[i + 1..]));
      var ok := writer.WriteBytes(EncUnit(us[i]));
      assert ok;
      i := i + 1;
    }
    assert writer.bytes + [] == writer.bytes;
    return Some(writer.bytes);
  }
}
