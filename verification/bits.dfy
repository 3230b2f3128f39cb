/** Bit strings, the `vbits` minimal-integer code and the byte-wise varuint, as pure functions. */
module Bits {
  import opened Exprs

  /** A carrier of wire units: bytes for byte frames, 0/1 values for bit frames. */
  type Units = bytes

  const USIZE_MAX: nat := 0xFFFF_FFFF_FFFF_FFFF

  function Pow2(n: nat): (r: nat)
    ensures r >= 1
  {
    if n == 0 then 1 else 2 * Pow2(n - 1)
  }

  predicate IsBits(s: Units) {
    forall i | 0 <= i < |s| :: s[i] < 2
  }

  /** The significant bit-length; zero has none. */
  function BitLength(v: nat): nat {
    if v == 0 then 0 else 1 + BitLength(v / 2)
  }

  /** The low `w` bits of `v`, most significant first. */
  function BitsOf(v: nat, w: nat): (r: Units)
    ensures |r| == w
    ensures IsBits(r)
  {
    if w == 0 then [] else BitsOf(v / 2, w - 1) + [v % 2]
  }

  /** The number written by bits, most significant first. */
  function FromBits(s: Units): nat {
    if s == [] then 0 else 2 * FromBits(s[..|s| - 1]) + s[|s| - 1]
  }

  lemma {:induction false} Pow2Monotone(a: nat, b: nat)
    requires a <= b
    ensures Pow2(a) <= Pow2(b)
  {
    if a < b { Pow2Monotone(a, b - 1); }
  }

  lemma Pow2Ordered(a: nat, b: nat)
    ensures a <= b ==> Pow2(a) <= Pow2(b)
  {
    if a <= b { Pow2Monotone(a, b); }
  }

  lemma {:induction false} BitLengthBounds(v: nat)
    ensures v < Pow2(BitLength(v))
    ensures v > 0 ==> BitLength(v) > 0 && Pow2(BitLength(v) - 1) <= v
  {
    if v > 0 { BitLengthBounds(v / 2); }
  }

  lemma BitLengthUnique(v: nat, n: nat)
    requires n > 0 && Pow2(n - 1) <= v < Pow2(n)
    ensures BitLength(v) == n
  {
    BitLengthBounds(v);
    Pow2Ordered(BitLength(v), n - 1);
    Pow2Ordered(n, BitLength(v) - 1);
  }

  lemma BitLengthAtMost(v: nat, n: nat)
    requires v < Pow2(n)
    ensures BitLength(v) <= n
  {
    BitLengthBounds(v);
    if v > 0 { Pow2Ordered(n, BitLength(v) - 1); }
  }

  lemma {:induction false} FromBitsOf(v: nat, w: nat)
    requires v < Pow2(w)
    ensures FromBits(BitsOf(v, w)) == v
  {
    if w > 0 {
      FromBitsOf(v / 2, w - 1);
      assert BitsOf(v, w)[..w - 1] == BitsOf(v / 2, w - 1);
    }
  }

  lemma {:induction false} FromBitsBound(s: Units)
    requires IsBits(s)
    ensures FromBits(s) < Pow2(|s|)
  {
    if s != [] { FromBitsBound(s[..|s| - 1]); }
  }

  lemma {:induction false} BitsOfFrom(s: Units)
    requires IsBits(s)
    ensures BitsOf(FromBits(s), |s|) == s
  {
    if s != [] {
      BitsOfFrom(s[..|s| - 1]);
      assert s == s[..|s| - 1] + [s[|s| - 1]];
    }
  }

  /** A leading one is worth the next power of two. */
  lemma {:induction false} FromBitsLeading(s: Units)
    ensures FromBits([1] + s) == Pow2(|s|) + FromBits(s)
  {
    var t: Units := [1] + s;
    if s == [] {
      assert t[..0] == [];
    } else {
      FromBitsLeading(s[..|s| - 1]);
      assert t[..|t| - 1] == [1] + s[..|s| - 1];
    }
  }

  // ---- Elias gamma and vbits --------------------------------------------------

  function Gamma(n: nat): (r: Units)
    ensures IsBits(r)
  {
    var k := BitLength(n + 1);
    Zeros(k - 1) + BitsOf(n + 1, k)
  }

  /** A value with no leading zero bit, after its own length. */
  function VBits(v: nat): (r: Units)
    ensures IsBits(r)
  {
    Gamma(BitLength(v)) + BitsOf(v, BitLength(v))
  }

  function ReadBits(s: Units, w: nat): Option<(nat, Units)> {
    if |s| < w then None else Some((FromBits(s[..w]), s[w..]))
  }

  /** Counts the zeros before the first one bit, giving up at 128. */
  function ReadZeros(s: Units, zeros: nat): Option<(nat, Units)> {
    if |s| == 0 then None
    else if s[0] != 0 then Some((zeros, s[1..]))
    else if zeros + 1 >= 128 then None
    else ReadZeros(s[1..], zeros + 1)
  }

  function ReadGamma(s: Units): Option<(nat, Units)> {
    match ReadZeros(s, 0)
    case None => None
    case Some((zeros, rest)) =>
      match ReadBits(rest, zeros)
      case None => None
      case Some((low, tail)) =>
        var m := Pow2(zeros) + low;
        if m - 1 > USIZE_MAX then None else Some((m - 1, tail))
  }

  function ReadVBits(s: Units): Option<(nat, Units)> {
    match ReadGamma(s)
    case None => None
    case Some((len, rest)) =>
      if len > 128 then None else
      match ReadBits(rest, len)
      case None => None
      case Some((value, tail)) =>
        if len > 0 && value / Pow2(len - 1) == 0 then None else Some((value, tail))
  }

  lemma {:induction false} ReadZerosOf(k: nat, zeros: nat, rest: Units)
    requires zeros + k < 128
    ensures ReadZeros(Zeros(k) + [1] + rest, zeros) == Some((zeros + k, rest))
  {
    var s: Units := Zeros(k) + [1] + rest;
    if k == 0 {
      assert s[1..] == rest;
    } else {
      ReadZerosOf(k - 1, zeros + 1, rest);
      assert s[1..] == Zeros(k - 1) + [1] + rest;
    }
  }

  /** The bits of a positive number start with a one. */
  lemma BitsOfPositive(v: nat)
    requires v > 0
    ensures var k := BitLength(v);
      k > 0 && BitsOf(v, k) == [1] + BitsOf(v, k)[1..] && Pow2(k - 1) + FromBits(BitsOf(v, k)[1..]) == v
  {
    var k := BitLength(v);
    var b := BitsOf(v, k);
    BitLengthBounds(v);
    FromBitsOf(v, k);
    assert b == [b[0]] + b[1..];
    FromBitsBound(b[1..]);
    LeadingZero(b);
    FromBitsLeading(b[1..]);
  }

  lemma {:induction false} LeadingZero(s: Units)
    requires s != []
    ensures s[0] == 0 ==> FromBits(s) == FromBits(s[1..])
  {
    if |s| > 1 {
      LeadingZero(s[..|s| - 1]);
      assert s[..|s| - 1][1..] == s[1..][..|s| - 2];
    }
  }

  lemma PowStep(n: nat)
    ensures Pow2(1) == 2 && Pow2(n + 1) == 2 * Pow2(n)
  {
  }

  /** A gamma code is zeros, a one, and as many low bits. */
  lemma GammaShape(n: nat) returns (lows: Units)
    requires n <= USIZE_MAX
    ensures |lows| < 128
    ensures Gamma(n) == Zeros(|lows|) + [1] + lows
    ensures Pow2(|lows|) + FromBits(lows) == n + 1
  {
    hide Pow2, BitsOf, FromBits, BitLength;
    var k := BitLength(n + 1);
    Pow64();
    Pow2Monotone(64, 65);
    PowStep(64);
    BitLengthAtMost(n + 1, 65);
    BitsOfPositive(n + 1);
    lows := BitsOf(n + 1, k)[1..];
    Assoc(Zeros(k - 1), [1], lows);
  }

  lemma ReadGammaOf(n: nat, rest: Units)
    requires n <= USIZE_MAX
    ensures ReadGamma(Gamma(n) + rest) == Some((n, rest))
  {
    var lows := GammaShape(n);
    var z := |lows|;
    Assoc(Zeros(z) + [1], lows, rest);
    ReadZerosOf(z, 0, lows + rest);
    assert (lows + rest)[..z] == lows && (lows + rest)[z..] == rest;
  }

  lemma {:induction false} Pow2Add(a: nat, b: nat)
    ensures Pow2(a + b) == Pow2(a) * Pow2(b)
  {
    if a > 0 { Pow2Add(a - 1, b); }
  }

  lemma Pow32()
    ensures Pow2(32) == 0x1_0000_0000
  {
    assert Pow2(8) == 256;
    Pow2Add(8, 8);
    Pow2Add(16, 16);
  }

  lemma Pow64()
    ensures Pow2(64) == USIZE_MAX + 1
  {
    Pow32();
    Pow2Add(32, 32);
  }

  /** `read_vbits` inverts `write_vbits` on every 128-bit value, whatever follows. */
  lemma {:induction false} ReadVBitsOf(v: nat, rest: Units)
    requires v < Pow2(128)
    ensures ReadVBits(VBits(v) + rest) == Some((v, rest))
  {
    assert BitLength(0) == 0;
    hide Pow2, Gamma, BitsOf, FromBits, ReadGamma, BitLength, ReadVBits;
    var n := BitLength(v);
    BitLengthAtMost(v, 128);
    BitLengthBounds(v);
    var b := BitsOf(v, n);
    FromBitsOf(v, n);
    Assoc(Gamma(n), b, rest);
    ReadGammaOf(n, b + rest);
    if n > 0 { DivPositive(v, Pow2(n - 1)); }
    ReadVBitsParts(VBits(v) + rest, b, rest);
  }

  lemma ReadVBitsParts(s: Units, b: Units, rest: Units)
    requires |b| <= 128 && ReadGamma(s) == Some((|b|, b + rest))
    requires |b| > 0 ==> FromBits(b) / Pow2(|b| - 1) != 0
    ensures ReadVBits(s) == Some((FromBits(b), rest))
  {
    hide Pow2, FromBits, ReadGamma;
    assert (b + rest)[..|b|] == b && (b + rest)[|b|..] == rest;
  }

  lemma DivPositive(v: nat, d: nat)
    requires d > 0
    ensures v >= d <==> v / d != 0
  {
    if v >= d {
      assert v / d * d + v % d == v;
    }
  }

  lemma {:induction false} ReadZerosExact(s: Units, zeros: nat)
    requires IsBits(s) && zeros < 128
    requires ReadZeros(s, zeros).Some?
    ensures var (n, rest) := ReadZeros(s, zeros).value; zeros <= n < 128 && s == Zeros(n - zeros) + [1] + rest
  {
    if s[0] == 0 {
      ReadZerosExact(s[1..], zeros + 1);
      var (n, rest) := ReadZeros(s, zeros).value;
      var zs := Zeros(n - zeros - 1);
      assert s == [0] + s[1..];
      Assoc([0], zs + [1], rest);
      Assoc([0], zs, [1]);
      assert Zeros(n - zeros) == [0] + zs;
    } else {
      assert s == Zeros(0) + [1] + s[1..];
    }
  }

  lemma SuffixIsBits(s: Units, p: Units, rest: Units)
    requires IsBits(s) && s == p + rest
    ensures IsBits(rest)
  {
    forall i | 0 <= i < |rest| ensures rest[i] < 2 { assert rest[i] == s[|p| + i]; }
  }

  /** A one followed by low bits is the binary form of a number of that many bits. */
  lemma LeadingOne(lows: Units, m: nat)
    requires IsBits(lows) && m == Pow2(|lows|) + FromBits(lows)
    ensures m >= 1 && BitLength(m) == 1 + |lows|
    ensures BitsOf(m, 1 + |lows|) == [1] + lows
  {
    FromBitsLeading(lows);
    FromBitsBound(lows);
    BitLengthUnique(m, 1 + |lows|);
    BitsOfFrom([1] + lows);
  }

  lemma GammaBody(lows: Units, m: nat)
    requires IsBits(lows) && m == Pow2(|lows|) + FromBits(lows)
    ensures m >= 1 && Gamma(m - 1) == Zeros(|lows|) + ([1] + lows)
  {
    LeadingOne(lows, m);
    hide Gamma, BitLength, BitsOf, Pow2, FromBits;
    GammaUnfold(m - 1, 1 + |lows|);
  }

  lemma GammaUnfold(n: nat, k: nat)
    requires k >= 1 && k == BitLength(n + 1)
    ensures Gamma(n) == Zeros(k - 1) + BitsOf(n + 1, k)
  {
  }

  lemma ReadGammaExact(s: Units)
    requires IsBits(s)
    requires ReadGamma(s).Some?
    ensures var (n, rest) := ReadGamma(s).value; n <= USIZE_MAX && s == Gamma(n) + rest && IsBits(rest)
  {
    hide Pow2, Gamma, FromBits, ReadZeros, Zeros;
    ReadZerosExact(s, 0);
    var (zeros, rest) := ReadZeros(s, 0).value;
    var lows, tail := rest[..zeros], rest[zeros..];
    var lead: Units := Zeros(zeros) + [1];
    assert rest == lows + tail;
    Assoc(lead, lows, tail);
    Assoc(Zeros(zeros), [1], lows);
    SuffixIsBits(s, lead, rest);
    SuffixIsBits(rest, lows, tail);
    GammaBody(lows, Pow2(zeros) + FromBits(lows));
  }

  lemma ReadVBitsValue(s: Units)
    requires ReadVBits(s).Some?
    ensures ReadGamma(s).Some?
    ensures var (len, rest) := ReadGamma(s).value;
      len <= 128 && len <= |rest|
      && ReadVBits(s).value == (FromBits(rest[..len]), rest[len..])
      && (len > 0 ==> FromBits(rest[..len]) / Pow2(len - 1) != 0)
  {
  }

  /** `read_vbits` accepts only what `write_vbits` writes. */
  lemma ReadVBitsExact(s: Units)
    requires IsBits(s)
    requires ReadVBits(s).Some?
    ensures var (v, rest) := ReadVBits(s).value; v < Pow2(128) && s == VBits(v) + rest
  {
    hide Pow2, Gamma, BitsOf, FromBits, ReadGamma, BitLength, ReadVBits, VBits;
    ReadVBitsValue(s);
    ReadGammaExact(s);
    var (len, rest) := ReadGamma(s).value;
    var b, tail := rest[..len], rest[len..];
    assert rest == b + tail;
    SuffixIsBits(rest, [], b + tail);
    VBitsBody(b, FromBits(b));
    Pow2Monotone(len, 128);
    Assoc(Gamma(len), b, tail);
  }

  lemma VBitsBody(b: Units, v: nat)
    requires IsBits(b) && v == FromBits(b)
    requires |b| > 0 ==> v / Pow2(|b| - 1) != 0
    ensures v < Pow2(|b|) && VBits(v) == Gamma(|b|) + b
  {
    FromBitsBound(b);
    BitsOfFrom(b);
    if |b| > 0 {
      DivPositive(v, Pow2(|b| - 1));
      BitLengthUnique(v, |b|);
    }
  }

  /** No code is a prefix of another. */
  lemma VBitsPrefixFree(a: nat, b: nat)
    requires a < Pow2(128) && b < Pow2(128)
    requires VBits(a) <= VBits(b)
    ensures a == b
  {
    hide VBits, ReadVBits, Pow2;
    var r := VBits(b)[|VBits(a)|..];
    assert VBits(b) + [] == VBits(a) + r;
    ReadVBitsOf(a, r);
    ReadVBitsOf(b, []);
  }

  /** An n-bit value costs its n bits and the gamma code of n. */
  lemma VBitsLength(v: nat)
    ensures |VBits(v)| == BitLength(v) + 2 * BitLength(BitLength(v) + 1) - 1
  {
  }

  // ---- varuint ----------------------------------------------------------------

  function VarUint(v: nat): Units {
    if v < 128 then [v] else [v % 128 + 128] + VarUint(v / 128)
  }

  /** The seven low bits of a byte at their place; a 64-bit accumulator drops what does not fit. */
  function Contribution(b: byte, shift: nat): nat {
    (b % 128) * Pow2(shift) % Pow2(64)
  }

  function ReadVarUintFrom(s: Units, shift: nat, value: nat): Option<(nat, Units)> {
    if |s| == 0 then None else
    var next := value + Contribution(s[0], shift);
    if s[0] < 128 then Some((next, s[1..]))
    else if shift + 7 >= 64 then None
    else ReadVarUintFrom(s[1..], shift + 7, next)
  }

  function ReadVarUint(s: Units): Option<(nat, Units)> {
    ReadVarUintFrom(s, 0, 0)
  }

  lemma {:induction false} MulLess(a: nat, b: nat, c: nat)
    requires a < b && c > 0
    ensures a * c < b * c
  {
    assert b * c == (b - 1) * c + c;
    if a + 1 < b { MulLess(a, b - 1, c); }
  }

  lemma ContributionFits(v: nat, b: byte, shift: nat)
    requires shift < 64 && v < Pow2(64 - shift) && b % 128 == v % 128
    ensures Contribution(b, shift) == (v % 128) * Pow2(shift)
  {
    Pow2Add(64 - shift, shift);
    MulLess(v % 128, Pow2(64 - shift), Pow2(shift));
    ModSmall((v % 128) * Pow2(shift), Pow2(64));
  }

  lemma ModSmall(a: nat, b: nat)
    requires a < b
    ensures a % b == a
  {
  }

  /** Dividing by 128 leaves a value that fits above the next seven bits. */
  lemma NextSeven(v: nat, shift: nat)
    requires shift < 64 && 128 <= v < Pow2(64 - shift)
    ensures shift + 7 < 64 && v / 128 < Pow2(64 - (shift + 7))
    ensures (v % 128) * Pow2(shift) + v / 128 * Pow2(shift + 7) == v * Pow2(shift)
  {
    assert Pow2(7) == 128;
    Pow2Ordered(64 - shift, 7);
    Pow2Add(7, 64 - (shift + 7));
    Pow2Add(7, shift);
    SplitSeven(v / 128, v % 128, Pow2(shift));
  }

  lemma SplitSeven(q: nat, r: nat, p: nat)
    ensures r * p + q * (128 * p) == (q * 128 + r) * p
  {
    assert q * (128 * p) == (q * 128) * p;
  }

  lemma ReadVarUintStep(b: byte, tail: Units, shift: nat, value: nat)
    ensures ReadVarUintFrom([b] + tail, shift, value)
         == var next := value + Contribution(b, shift);
            if b < 128 then Some((next, tail))
            else if shift + 7 >= 64 then None
            else ReadVarUintFrom(tail, shift + 7, next)
  {
    assert ([b] + tail)[1..] == tail;
  }

  lemma {:induction false} ReadVarUintFromOf(v: nat, shift: nat, value: nat, rest: Units, total: nat)
    requires shift < 64 && v < Pow2(64 - shift)
    requires total == value + v * Pow2(shift)
    ensures ReadVarUintFrom(VarUint(v) + rest, shift, value) == Some((total, rest))
    decreases v
  {
    hide Pow2, Contribution, ReadVarUintFrom;
    if v < 128 {
      ContributionFits(v, v, shift);
      ReadVarUintStep(v, rest, shift, value);
    } else {
      var b, tail := v % 128 + 128, VarUint(v / 128);
      ContributionFits(v, b, shift);
      Assoc([b], tail, rest);
      ReadVarUintStep(b, tail + rest, shift, value);
      NextSeven(v, shift);
      ReadVarUintFromOf(v / 128, shift + 7, value + Contribution(b, shift), rest, total);
    }
  }

  /** `read_varuint` inverts `varuint` on every 64-bit value, whatever follows. */
  lemma ReadVarUintOf(v: nat, rest: Units)
    requires v <= USIZE_MAX
    ensures ReadVarUint(VarUint(v) + rest) == Some((v, rest))
  {
    Pow64();
    ReadVarUintFromOf(v, 0, 0, rest, v);
  }

  /** Unlike `vbits`, the varuint reader takes several spellings of one value. */
  lemma ReadVarUintNotExact(rest: Units)
    ensures ReadVarUint([0x80, 0x00] + rest) == ReadVarUint([0x00] + rest) == Some((0, rest))
  {
    ReadVarUintOf(0, rest);
    var s: Units := [0x80, 0x00] + rest;
    assert s[1..] == VarUint(0) + rest;
    ContributionFits(0, 0x80, 0);
    Pow2Monotone(0, 57);
    ReadVarUintFromOf(0, 7, 0, rest, 0);
  }

  /** Bytes that continue, then one that does not. */
  predicate VarText(p: Units) {
    p != [] && if p[0] < 128 then |p| == 1 else VarText(p[1..])
  }

  /** The number spelled by seven bits a byte, least significant first, with nothing dropped. */
  function Spelled(p: Units): nat {
    if p == [] then 0 else p[0] % 128 + 128 * Spelled(p[1..])
  }

  /** The last byte is not an idle zero, and the tenth one adds no more than one bit. */
  predicate Shortest(p: Units) {
    p != [] && (|p| == 1 || p[|p| - 1] != 0) && (|p| == 10 ==> p[9] < 2)
  }

  lemma {:induction false} SpelledOf(v: nat)
    ensures VarText(VarUint(v)) && Spelled(VarUint(v)) == v
    ensures |VarUint(v)| == 1 || VarUint(v)[|VarUint(v)| - 1] != 0
    decreases v
  {
    var p := VarUint(v);
    if v < 128 {
      assert p[1..] == [];
    } else {
      SpelledOf(v / 128);
      assert p[1..] == VarUint(v / 128);
      if v / 128 < 128 { assert VarUint(v / 128) == [v / 128]; }
    }
  }

  lemma {:induction false} SpelledPositive(p: Units)
    requires VarText(p) && p[|p| - 1] != 0
    ensures Spelled(p) > 0
  {
    if |p| > 1 { SpelledPositive(p[1..]); }
  }

  lemma VarUintMore(b: byte, v: nat)
    requires b >= 128 && v > 0
    ensures VarUint(b % 128 + 128 * v) == [b] + VarUint(v)
  {
  }

  lemma {:induction false} VarUintOfSpelled(p: Units)
    requires VarText(p) && (|p| == 1 || p[|p| - 1] != 0)
    ensures VarUint(Spelled(p)) == p
  {
    if |p| == 1 {
      assert p == [p[0]];
    } else {
      SpelledPositive(p[1..]);
      VarUintOfSpelled(p[1..]);
      VarUintMore(p[0], Spelled(p[1..]));
      assert p == [p[0]] + p[1..];
    }
  }

  lemma SmallPowers()
    ensures Pow2(0) == 1 && Pow2(1) == 2 && Pow2(7) == 128
  {
  }

  /** Below the top of the accumulator a byte loses nothing; at the top only its lowest bit fits. */
  lemma ContributionExact(b: byte, shift: nat)
    requires shift % 7 == 0 && shift <= 63
    ensures Contribution(b, shift) <= (b % 128) * Pow2(shift)
    ensures Contribution(b, shift) == (b % 128) * Pow2(shift) <==> (shift == 63 ==> b % 128 < 2)
  {
    SmallPowers();
    hide Pow2, Contribution;
    var v := b % 128;
    if shift < 63 {
      Pow2Monotone(7, 64 - shift);
      ContributionFits(v, b, shift);
    } else if v < 2 {
      ContributionFits(v, b, shift);
    } else {
      TopContribution(b);
    }
  }

  lemma TopContribution(b: byte)
    requires b % 128 >= 2
    ensures Contribution(b, 63) < (b % 128) * Pow2(63)
  {
    assert Pow2(64) == 2 * Pow2(63);
    hide Pow2;
    TopLost(b % 128, Pow2(63));
  }

  lemma TopLost(v: nat, p: nat)
    requires v >= 2 && p > 0
    ensures v * p % (2 * p) < v * p
  {
    assert v * p >= 2 * p;
  }

  /** What an accepted varuint spells, and that it loses nothing exactly when its tenth byte is small. */
  lemma {:induction false} ReadVarUintSpells(s: Units, shift: nat, value: nat) returns (p: Units)
    requires shift % 7 == 0 && shift <= 63 && ReadVarUintFrom(s, shift, value).Some?
    ensures var (total, rest) := ReadVarUintFrom(s, shift, value).value;
      s == p + rest && VarText(p) && shift + 7 * (|p| - 1) <= 63 && total <= value + Spelled(p) * Pow2(shift) &&
      (total == value + Spelled(p) * Pow2(shift) <==> (shift + 7 * (|p| - 1) == 63 ==> p[|p| - 1] < 2))
    decreases |s|
  {
    SmallPowers();
    hide Contribution, Pow2;
    ContributionExact(s[0], shift);
    var next := value + Contribution(s[0], shift);
    if s[0] < 128 {
      p := [s[0]];
      assert p[1..] == [] && s == p + s[1..];
      assert Spelled(p) == s[0];
    } else {
      var q := ReadVarUintSpells(s[1..], shift + 7, next);
      p := [s[0]] + q;
      var (total, rest) := ReadVarUintFrom(s, shift, value).value;
      assert p[1..] == q && s == [s[0]] + s[1..];
      Assoc([s[0]], q, rest);
      Pow2Add(7, shift);
      SplitSeven(Spelled(q), s[0] % 128, Pow2(shift));
    }
  }

  /** The bytes read are the ones the writer writes exactly when they are the shortest spelling and nothing was dropped. */
  lemma ReadVarUintExactly(s: Units)
    requires ReadVarUint(s).Some?
    ensures var (v, rest) := ReadVarUint(s).value;
      |rest| < |s| && (s == VarUint(v) + rest <==> Shortest(s[..|s| - |rest|]))
  {
    SmallPowers();
    hide VarUint, ReadVarUintFrom, Spelled, VarText, Pow2;
    var p := ReadVarUintSpells(s, 0, 0);
    var (v, rest) := ReadVarUint(s).value;
    assert s[..|s| - |rest|] == p;
    VarTextSome(p);
    if s == VarUint(v) + rest {
      assert VarUint(v) == p;
      SpelledOf(v);
    } else if Shortest(p) {
      VarUintOfSpelled(p);
    }
  }

  lemma VarTextSome(p: Units)
    requires VarText(p)
    ensures p != []
  {
  }
}
