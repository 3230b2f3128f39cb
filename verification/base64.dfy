/** Canonical base64: the standard alphabet, forced padding, zero pad bits. */
module Base64 {
  import opened Exprs

  const PAD: byte := 61

  function Letter(v: nat): byte
    requires v < 64
  {
    if v < 26 then 65 + v
    else if v < 52 then 71 + v
    else if v < 62 then v - 4
    else if v == 62 then 43
    else 47
  }

  function Sextet(b: byte): (r: Option<nat>)
    ensures r.Some? ==> r.value < 64
  {
    if 65 <= b <= 90 then Some(b - 65)
    else if 97 <= b <= 122 then Some(b - 71)
    else if 48 <= b <= 57 then Some(b + 4)
    else if b == 43 then Some(62)
    else if b == 47 then Some(63)
    else None
  }

  lemma SextetOfLetter(v: nat)
    requires v < 64
    ensures Sextet(Letter(v)) == Some(v) && Letter(v) != PAD
  {
  }

  lemma LetterOfSextet(b: byte)
    requires Sextet(b).Some?
    ensures Letter(Sextet(b).value) == b && b != PAD
  {
  }

  // ---- groups -----------------------------------------------------------------------

  /** One to three bytes as four letters, padded. */
  function Quartet(chunk: bytes): (r: bytes)
    requires 1 <= |chunk| <= 3
    ensures |r| == 4
  {
    var b0 := chunk[0];
    var b1 := if |chunk| > 1 then chunk[1] else 0;
    var b2 := if |chunk| > 2 then chunk[2] else 0;
    [Letter(b0 / 4), Letter(b0 % 4 * 16 + b1 / 16),
     if |chunk| > 1 then Letter(b1 % 16 * 4 + b2 / 64) else PAD,
     if |chunk| > 2 then Letter(b2 % 64) else PAD]
  }

  /** The bytes of four letters; padding only in the last group, and only over zero bits. */
  function Chunk(q: bytes, last: bool): Option<bytes>
    requires |q| == 4
  {
    if q[0] == PAD || q[1] == PAD then None else
    match (Sextet(q[0]), Sextet(q[1]))
    case (Some(c0), Some(c1)) =>
      if q[3] == PAD then
        if !last then None
        else if q[2] == PAD then (if c1 % 16 != 0 then None else Some([c0 * 4 + c1 / 16]))
        else
          (match Sextet(q[2])
           case None => None
           case Some(c2) => if c2 % 4 != 0 then None else Some([c0 * 4 + c1 / 16, c1 % 16 * 16 + c2 / 4]))
      else if q[2] == PAD then None
      else
        (match (Sextet(q[2]), Sextet(q[3]))
         case (Some(c2), Some(c3)) => Some([c0 * 4 + c1 / 16, c1 % 16 * 16 + c2 / 4, c2 % 4 * 64 + c3])
         case _ => None)
    case _ => None
  }

  lemma SextetParts(b0: byte, b1: byte, b2: byte)
    ensures var c1, c2 := b0 % 4 * 16 + b1 / 16, b1 % 16 * 4 + b2 / 64;
      c1 / 16 == b0 % 4 && c1 % 16 == b1 / 16 && c2 / 4 == b1 % 16 && c2 % 4 == b2 / 64
  {
  }

  lemma ChunkOfQuartet(chunk: bytes, last: bool)
    requires 1 <= |chunk| <= 3 && (|chunk| < 3 ==> last)
    ensures Chunk(Quartet(chunk), last) == Some(chunk)
  {
    hide Letter, Sextet, Chunk, Quartet;
    if |chunk| == 1 {
      OneByteQuartet(chunk[0]);
      assert chunk == [chunk[0]];
    } else if |chunk| == 2 {
      TwoByteQuartet(chunk[0], chunk[1]);
      assert chunk == [chunk[0], chunk[1]];
    } else {
      ThreeByteQuartet(chunk[0], chunk[1], chunk[2], last);
      assert chunk == [chunk[0], chunk[1], chunk[2]];
    }
  }

  lemma OneByteQuartet(b0: byte)
    ensures Chunk(Quartet([b0]), true) == Some([b0])
  {
    hide Letter, Sextet;
    SextetOfLetter(b0 / 4);
    SextetOfLetter(b0 % 4 * 16);
    SextetParts(b0, 0, 0);
    WholeBytes(b0, 0, 0);
  }

  lemma TwoByteQuartet(b0: byte, b1: byte)
    ensures Chunk(Quartet([b0, b1]), true) == Some([b0, b1])
  {
    hide Letter, Sextet;
    SextetOfLetter(b0 / 4);
    SextetOfLetter(b0 % 4 * 16 + b1 / 16);
    SextetOfLetter(b1 % 16 * 4);
    SextetParts(b0, b1, 0);
    WholeBytes(b0, b1, 0);
  }

  lemma ThreeByteQuartet(b0: byte, b1: byte, b2: byte, last: bool)
    ensures Chunk(Quartet([b0, b1, b2]), last) == Some([b0, b1, b2])
  {
    hide Letter, Sextet;
    SextetOfLetter(b0 / 4);
    SextetOfLetter(b0 % 4 * 16 + b1 / 16);
    SextetOfLetter(b1 % 16 * 4 + b2 / 64);
    SextetOfLetter(b2 % 64);
    SextetParts(b0, b1, b2);
    WholeBytes(b0, b1, b2);
  }

  lemma WholeBytes(b0: byte, b1: byte, b2: byte)
    ensures b0 / 4 * 4 + b0 % 4 == b0 && b1 / 16 * 16 + b1 % 16 == b1 && b2 / 64 * 64 + b2 % 64 == b2
  {
  }

  lemma ByteParts(c0: nat, c1: nat, c2: nat, c3: nat)
    requires c0 < 64 && c1 < 64 && c2 < 64 && c3 < 64
    ensures var b0, b1, b2 := c0 * 4 + c1 / 16, c1 % 16 * 16 + c2 / 4, c2 % 4 * 64 + c3;
      b0 / 4 == c0 && b0 % 4 * 16 + b1 / 16 == c1 && b1 % 16 * 4 + b2 / 64 == c2 && b2 % 64 == c3
  {
    assert c1 == c1 / 16 * 16 + c1 % 16 && c2 == c2 / 4 * 4 + c2 % 4;
  }

  lemma QuartetOfChunk(q: bytes, last: bool)
    requires |q| == 4 && Chunk(q, last).Some?
    ensures 1 <= |Chunk(q, last).value| <= 3 && (|Chunk(q, last).value| < 3 ==> last)
    ensures Quartet(Chunk(q, last).value) == q
  {
    hide Letter, Sextet;
    LetterOfSextet(q[0]);
    LetterOfSextet(q[1]);
    if q[2] != PAD { LetterOfSextet(q[2]); }
    if q[3] != PAD { LetterOfSextet(q[3]); }
    ByteParts(Sextet(q[0]).value, Sextet(q[1]).value,
      if Sextet(q[2]).Some? then Sextet(q[2]).value else 0, if Sextet(q[3]).Some? then Sextet(q[3]).value else 0);
    assert q == [q[0], q[1], q[2], q[3]];
  }

  // ---- texts ------------------------------------------------------------------------

  function Encode(bs: bytes): (r: bytes)
    ensures |r| % 4 == 0 && (bs != [] ==> |r| > 0)
  {
    if bs == [] then []
    else if |bs| <= 3 then Quartet(bs)
    else Quartet(bs[..3]) + Encode(bs[3..])
  }

  function DecodeClean(s: bytes): Option<bytes>
    requires |s| % 4 == 0
  {
    if s == [] then Some([]) else
    match Chunk(s[..4], |s| == 4)
    case None => None
    case Some(first) =>
      match DecodeClean(s[4..])
      case None => None
      case Some(rest) => Some(first + rest)
  }

  lemma {:induction false} DecodeOfEncode(bs: bytes)
    ensures DecodeClean(Encode(bs)) == Some(bs)
  {
    hide Chunk, Quartet;
    if 0 < |bs| <= 3 {
      ChunkOfQuartet(bs, true);
      assert Quartet(bs)[..4] == Quartet(bs) && Quartet(bs)[4..] == [];
      assert bs + [] == bs;
    } else if bs != [] {
      var q, rest := Quartet(bs[..3]), Encode(bs[3..]);
      ChunkOfQuartet(bs[..3], |q + rest| == 4);
      DecodeOfEncode(bs[3..]);
      assert (q + rest)[..4] == q && (q + rest)[4..] == rest;
      assert bs == bs[..3] + bs[3..];
    }
  }

  lemma {:induction false} EncodeOfDecode(s: bytes)
    requires |s| % 4 == 0 && DecodeClean(s).Some?
    ensures Encode(DecodeClean(s).value) == s
  {
    hide Chunk, Quartet;
    if s != [] {
      var first := Chunk(s[..4], |s| == 4).value;
      QuartetOfChunk(s[..4], |s| == 4);
      EncodeOfDecode(s[4..]);
      var rest := DecodeClean(s[4..]).value;
      assert s == s[..4] + s[4..];
      if |s| == 4 {
        assert s[4..] == [] && first + [] == first && s[..4] == s;
      } else {
        assert rest != [];
        assert (first + rest)[..3] == first && (first + rest)[3..] == rest;
      }
    }
  }

  predicate Blank(b: byte) {
    b == 32 || b == 10 || b == 13 || b == 9
  }

  /** Drops blanks; any other byte outside the alphabet is an error. */
  function Strip(text: bytes): Option<bytes> {
    if text == [] then Some([]) else
    match Strip(text[1..])
    case None => None
    case Some(rest) =>
      if Blank(text[0]) then Some(rest)
      else if Sextet(text[0]).Some? || text[0] == PAD then Some([text[0]] + rest)
      else None
  }

  /** Space, newline, carriage return and tab are dropped; letters and padding are kept. */
  lemma StripOne(b: byte, rest: bytes)
    ensures Strip([b] + rest) ==
      if Strip(rest).None? then None
      else if b in {9, 10, 13, 32} then Strip(rest)
      else if b == 61 || exists v: nat :: v < 64 && Letter(v) == b then Some([b] + Strip(rest).value)
      else None
  {
    hide Letter, Sextet;
    assert ([b] + rest)[1..] == rest;
    if Sextet(b).Some? {
      LetterOfSextet(b);
    } else {
      forall v: nat | v < 64 ensures Letter(v) != b { SextetOfLetter(v); }
    }
    assert Blank(b) <==> b in {9, 10, 13, 32};
    if b in {9, 10, 13, 32} { BlankIsNoLetter(b); }
  }

  lemma BlankIsNoLetter(b: byte)
    requires Blank(b)
    ensures Sextet(b).None? && b != 61
  {
  }

  function Decode(text: bytes, limit: nat): Option<bytes> {
    if |text| > limit then None else
    match Strip(text)
    case None => None
    case Some(clean) => if |clean| > limit || |clean| % 4 != 0 || |clean| / 4 * 3 > limit then None else DecodeClean(clean)
  }

  lemma {:induction false} StripShrinks(text: bytes)
    ensures Strip(text).Some? ==> |Strip(text).value| <= |text|
  {
    if text != [] { StripShrinks(text[1..]); }
  }

  /**
    * A text decodes to some bytes exactly when, blanks aside, it is the
    * encoding of those bytes: padding and pad bits are forced.
    */
  lemma Bijection(text: bytes, limit: nat, bs: bytes)
    ensures Decode(text, limit) == Some(bs) <==> |text| <= limit && Strip(text) == Some(Encode(bs))
  {
    hide Strip;
    StripShrinks(text);
    if Decode(text, limit) == Some(bs) { EncodeOfDecode(Strip(text).value); }
    if |text| <= limit && Strip(text) == Some(Encode(bs)) { DecodeOfEncode(bs); }
  }

  lemma QuartetLetters(chunk: bytes)
    requires 1 <= |chunk| <= 3
    ensures forall b | b in Quartet(chunk) :: Sextet(b).Some? || b == PAD
  {
    hide Letter, Sextet;
    var b0 := chunk[0];
    var b1 := if |chunk| > 1 then chunk[1] else 0;
    var b2 := if |chunk| > 2 then chunk[2] else 0;
    SextetOfLetter(b0 / 4);
    SextetOfLetter(b0 % 4 * 16 + b1 / 16);
    SextetOfLetter(b1 % 16 * 4 + b2 / 64);
    SextetOfLetter(b2 % 64);
  }

  lemma {:induction false} EncodedLetters(bs: bytes)
    ensures forall b | b in Encode(bs) :: Sextet(b).Some? || b == PAD
  {
    hide Quartet, Sextet;
    if 0 < |bs| <= 3 {
      QuartetLetters(bs);
    } else if bs != [] {
      QuartetLetters(bs[..3]);
      EncodedLetters(bs[3..]);
    }
  }

  lemma {:induction false} StripOfLetters(s: bytes)
    requires forall b | b in s :: Sextet(b).Some? || b == PAD
    ensures Strip(s) == Some(s)
  {
    if s != [] {
      assert s[0] in s && forall b | b in s[1..] :: b in s;
      StripOfLetters(s[1..]);
      assert s == [s[0]] + s[1..];
    }
  }

  /** Decoding inverts encoding whenever the text is within the limit. */
  lemma RoundTrip(bs: bytes, limit: nat)
    requires |Encode(bs)| <= limit
    ensures Decode(Encode(bs), limit) == Some(bs)
  {
    EncodedLetters(bs);
    StripOfLetters(Encode(bs));
    Bijection(Encode(bs), limit, bs);
  }

  function Characters(text: bytes): string {
    seq(|text|, i requires 0 <= i < |text| => text[i] as char)
  }

  /** Letters, letters, digits, plus and slash. */
  lemma Alphabet(v: nat)
    requires v < 64
    ensures v < 26 ==> Letter(v) as char as int == 'A' as int + v
    ensures 26 <= v < 52 ==> Letter(v) as char as int == 'a' as int + (v - 26)
    ensures 52 <= v < 62 ==> Letter(v) as char as int == '0' as int + (v - 52)
    ensures v == 62 ==> Letter(v) as char == '+'
    ensures v == 63 ==> Letter(v) as char == '/'
  {
  }

  /** Three bytes are four letters of six bits each, the first bits first. */
  lemma GroupOfThree(a: nat, b: nat, c: nat, d: nat, rest: bytes)
    requires a < 64 && b < 64 && c < 64 && d < 64
    ensures Encode([a * 4 + b / 16, b % 16 * 16 + c / 4, c % 4 * 64 + d] + rest) == [Letter(a), Letter(b), Letter(c), Letter(d)] + Encode(rest)
  {
    hide Letter;
    var group: bytes := [a * 4 + b / 16, b % 16 * 16 + c / 4, c % 4 * 64 + d];
    GroupParts(a, b, c, d);
    assert Quartet(group) == [Letter(a), Letter(b), Letter(c), Letter(d)];
    hide Quartet;
    var s := group + rest;
    if rest == [] {
      assert s == group && Quartet(group) + [] == Quartet(group);
    } else {
      assert s[..3] == group && s[3..] == rest;
    }
  }

  lemma GroupParts(a: nat, b: nat, c: nat, d: nat)
    requires a < 64 && b < 64 && c < 64 && d < 64
    ensures (a * 4 + b / 16) / 4 == a && (a * 4 + b / 16) % 4 == b / 16
    ensures (b % 16 * 16 + c / 4) / 16 == b % 16 && (b % 16 * 16 + c / 4) % 16 == c / 4
    ensures (c % 4 * 64 + d) / 64 == c % 4 && (c % 4 * 64 + d) % 64 == d
    ensures b / 16 * 16 + b % 16 == b && c / 4 * 4 + c % 4 == c
  {
  }

  /** The examples of section 10 of RFC 4648. */
  lemma Examples()
    ensures Characters(Encode([102])) == "Zg==" && Characters(Encode([102, 111])) == "Zm8=" && Characters(Encode([102, 111, 111])) == "Zm9v"
    ensures Encode([]) == []
  {
  }

  // ---- as it runs ----------------------------------------------------------------------

  method EncodeBase64(bs: bytes) returns (out: bytes)
    ensures out == Encode(bs)
  {
    hide Quartet;
    out := [];
    var i := 0;
    assert bs[0..] == bs && [] + Encode(bs) == Encode(bs);
    while i < |bs|
      invariant 0 <= i <= |bs| && out + Encode(bs[i..]) == Encode(bs)
    {
      var n := if |bs| - i < 3 then |bs| - i else 3;
      var chunk := bs[i..i + n];
      assert bs[i..][..n] == chunk && bs[i..][n..] == bs[i + n..];
      EncodeStep(bs[i..], n);
      Assoc(out, Quartet(chunk), Encode(bs[i + n..]));
      out := out + Quartet(chunk);
      i := i + n;
    }
    assert out + [] == out;
  }

  lemma EncodeStep(bs: bytes, n: nat)
    requires bs != [] && n == if |bs| < 3 then |bs| else 3
    ensures Encode(bs) == Quartet(bs[..n]) + Encode(bs[n..])
  {
    hide Quartet;
    if |bs| <= 3 {
      assert bs[..n] == bs && bs[n..] == [];
      assert Quartet(bs) + [] == Quartet(bs);
    }
  }

  method StripBlanks(text: bytes) returns (r: Option<bytes>)
    ensures r == Strip(text)
  {
    var clean: bytes, i := [], 0;
    assert text[0..] == text;
    assert Joined([], Strip(text)) == Strip(text) by { if Strip(text).Some? { assert [] + Strip(text).value == Strip(text).value; } }
    while i < |text|
      invariant 0 <= i <= |text| && Joined(clean, Strip(text[i..])) == Strip(text)
    {
      hide Strip, Sextet;
      StripStep(clean, text[i..]);
      assert text[i..][1..] == text[i + 1..];
      if Blank(text[i]) {
      } else if Sextet(text[i]).Some? || text[i] == PAD {
        clean := clean + [text[i]];
      } else {
        return None;
      }
      i := i + 1;
    }
    assert clean + [] == clean;
    return Some(clean);
  }

  ghost function Joined(a: bytes, r: Option<bytes>): Option<bytes> {
    match r
    case None => None
    case Some(b) => Some(a + b)
  }

  lemma StripStep(clean: bytes, s: bytes)
    requires s != []
    ensures Joined(clean, Strip(s))
      == if Blank(s[0]) then Joined(clean, Strip(s[1..]))
         else if Sextet(s[0]).Some? || s[0] == PAD then Joined(clean + [s[0]], Strip(s[1..]))
         else None
  {
    hide Sextet;
    if Strip(s[1..]).Some? { Assoc(clean, [s[0]], Strip(s[1..]).value); }
  }

  method DecodeBase64(text: bytes, limit: nat) returns (r: Option<bytes>)
    ensures r == Decode(text, limit)
  {
    hide Strip, Chunk;
    if |text| > limit { return None; }
    var stripped := StripBlanks(text);
    if stripped.None? || |stripped.value| > limit || |stripped.value| % 4 != 0 || |stripped.value| / 4 * 3 > limit { return None; }
    var clean := stripped.value;
    var out: bytes, i := [], 0;
    assert clean[0..] == clean;
    assert Joined([], DecodeClean(clean)) == DecodeClean(clean) by {
      if DecodeClean(clean).Some? { assert [] + DecodeClean(clean).value == DecodeClean(clean).value; }
    }
    while i < |clean|
      invariant 0 <= i <= |clean| && i % 4 == 0 && Joined(out, DecodeClean(clean[i..])) == DecodeClean(clean)
    {
      DecodeStep(out, clean[i..]);
      assert clean[i..][..4] == clean[i..i + 4] && clean[i..][4..] == clean[i + 4..];
      var chunk := Chunk(clean[i..i + 4], i + 4 == |clean|);
      if chunk.None? { return None; }
      out := out + chunk.value;
      i := i + 4;
    }
    assert out + [] == out;
    return Some(out);
  }

  lemma DecodeStep(out: bytes, s: bytes)
    requires |s| % 4 == 0 && s != []
    ensures Joined(out, DecodeClean(s)) == match Chunk(s[..4], |s| == 4)
      case None => None
      case Some(first) => Joined(out + first, DecodeClean(s[4..]))
  {
    hide Chunk;
    match Chunk(s[..4], |s| == 4)
    case None =>
    case Some(first) => if DecodeClean(s[4..]).Some? { Assoc(out, first, DecodeClean(s[4..]).value); }
  }
}
