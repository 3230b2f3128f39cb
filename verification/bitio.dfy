/** Bit-granular input and output over bytes, as the bit codec runs it. */
module BitIo {
  import opened Exprs
  import opened Bits
  import opened Atoms
  import opened Frames

  // ---- single bits inside bytes -----------------------------------------------------

  /** A number shifted right: its part of weight `Pow2(places)` and up. */
  function Above(v: nat, places: nat): nat {
    if places == 0 then v else Above(v / 2, places - 1)
  }

  /** Sets the bit of weight `Pow2(place)`, whatever it was. */
  function SetBit(b: byte, place: nat): byte
    requires place < 8
  {
    if Above(b, place) % 2 == 1 then b else
      assert Pow2(8) == 256;
      SetBitFits(b, place, 8);
      b + Pow2(place)
  }

  lemma {:induction false} SetBitFits(v: nat, place: nat, n: nat)
    requires v < Pow2(n) && place < n && Above(v, place) % 2 == 0
    ensures v + Pow2(place) < Pow2(n)
  {
    if place > 0 {
      SetBitFits(v / 2, place - 1, n - 1);
      HalfBelow(v, Pow2(place - 1), Pow2(n - 1));
    } else {
      EvenBelow(v, Pow2(n - 1));
    }
  }

  lemma HalfBelow(v: nat, q: nat, p: nat)
    requires v / 2 + q < p
    ensures v + 2 * q < 2 * p
  {
  }

  lemma EvenBelow(v: nat, p: nat)
    requires v < 2 * p && v % 2 == 0
    ensures v + 1 < 2 * p
  {
  }

  lemma {:induction false} AboveShifted(v: nat, k: nat)
    ensures Above(v * Pow2(k), k) == v
  {
    if k > 0 {
      assert v * Pow2(k) == 2 * (v * Pow2(k - 1));
      AboveShifted(v, k - 1);
    }
  }

  lemma {:induction false} FromBitsSplit(a: Units, b: Units)
    ensures FromBits(a + b) == FromBits(a) * Pow2(|b|) + FromBits(b)
  {
    if b == [] {
      assert a + b == a;
    } else {
      var c := b[..|b| - 1];
      FromBitsSplit(a, c);
      assert (a + b)[..|a + b| - 1] == a + c;
      FromBitsLast(a + b);
      FromBitsLast(b);
      PowStep(|c|);
      hide Pow2, FromBits;
      DoubleProduct(FromBits(a), Pow2(|c|));
    }
  }

  lemma FromBitsLast(s: Units)
    requires s != []
    ensures FromBits(s) == 2 * FromBits(s[..|s| - 1]) + s[|s| - 1]
  {
  }

  lemma DoubleProduct(x: nat, y: nat)
    ensures 2 * (x * y) == x * (2 * y)
  {
  }

  lemma {:induction false} FromZeros(n: nat)
    ensures FromBits(Zeros(n)) == 0
  {
    if n > 0 {
      FromZeros(n - 1);
      assert Zeros(n)[..n - 1] == Zeros(n - 1);
    }
  }

  /** The next bit lands on an untouched zero of the last byte. */
  lemma NextBit(bits: Units, b: byte)
    requires IsBits(bits) && |bits| < 8 && b < 2
    ensures var k := 7 - |bits|;
      var last := if bits == [] then 0 else OneByte(bits + Zeros(8 - |bits|));
      OneByte(bits + [b] + Zeros(k)) == if b == 1 then SetBit(last, k) else last
  {
    hide FromBits, BitsOf, Pow2, SetBit;
    var k := 7 - |bits|;
    var v := FromBits(bits);
    FromZeros(k);
    FromZeros(8 - |bits|);
    FromBitsSplit(bits + [b], Zeros(k));
    FromBitsSplit(bits, [b]);
    FromOne(b);
    FromBitsSplit(bits, Zeros(8 - |bits|));
    PowStep(k);
    if bits == [] { FromNone(); }
    NextByte(v, b, k, if bits == [] then 0 else OneByte(bits + Zeros(8 - |bits|)));
  }

  lemma NextByte(v: nat, b: nat, k: nat, last: byte)
    requires b < 2 && k < 8 && last == v * (2 * Pow2(k))
    ensures (v * 2 + b) * Pow2(k) == if b == 1 then SetBit(last, k) else last
  {
    hide Above, Pow2;
    Weighed(v, b, Pow2(k), last);
    AboveShifted(2 * v, k);
  }

  lemma FromOne(b: byte)
    ensures FromBits([b]) == b
  {
    assert [b][..0] == [];
  }

  lemma FromNone()
    ensures FromBits([]) == 0
  {
  }

  lemma Weighed(v: nat, b: nat, p: nat, last: nat)
    requires last == v * (2 * p)
    ensures (v * 2 + b) * p == last + b * p && last == 2 * v * p
  {
  }

  /** The bytes before the bit is set: a new zero byte at a byte boundary. */
  function Extended(bits: Units): (p: bytes)
    requires IsBits(bits)
  {
    if |bits| % 8 == 0 then Pack(bits) + [0] else Pack(bits)
  }

  lemma PackNextShort(bits: Units, b: byte)
    requires IsBits(bits) && |bits| < 8 && b < 2
    ensures var p := Extended(bits);
      |p| == 1 && Pack(bits + [b]) == if b == 1 then [SetBit(p[0], 7 - |bits|)] else p
  {
    hide SetBit, OneByte, FromBits, BitsOf, Pack;
    NextBit(bits, b);
    PackShort(bits);
    if |bits| < 7 {
      assert bits + [b] + Zeros(7 - |bits|) == (bits + [b]) + Zeros(8 - |bits + [b]|);
      PackShort(bits + [b]);
    } else {
      assert bits + [b] + Zeros(0) == bits + [b];
      PackEight(bits + [b]);
    }
  }

  /** Pushing a zero byte at a boundary and setting the bit packs one more bit. */
  lemma {:induction false} PackNext(bits: Units, b: byte)
    requires IsBits(bits) && b < 2
    ensures var p, at := Extended(bits), |bits| / 8;
      |p| == at + 1 && Pack(bits + [b]) == if b == 1 then p[at := SetBit(p[at], 7 - |bits| % 8)] else p
  {
    hide SetBit, OneByte, Pack;
    if |bits| < 8 {
      PackNextShort(bits, b);
    } else {
      PackNext(bits[8..], b);
      PackMore(bits);
      assert (bits + [b])[..8] == bits[..8] && (bits + [b])[8..] == bits[8..] + [b];
      PackMore(bits + [b]);
      ExtendedMore(bits);
    }
  }

  lemma ExtendedMore(bits: Units)
    requires IsBits(bits) && |bits| >= 8
    ensures Extended(bits) == [OneByte(bits[..8])] + Extended(bits[8..])
  {
    hide OneByte, Pack;
    PackMore(bits);
    Assoc([OneByte(bits[..8])], Pack(bits[8..]), [0]);
  }

  lemma PackMore(bits: Units)
    requires IsBits(bits) && |bits| >= 8
    ensures Pack(bits) == [OneByte(bits[..8])] + Pack(bits[8..])
  {
  }

  lemma PackShort(bits: Units)
    requires IsBits(bits) && |bits| < 8
    ensures Pack(bits) == if bits == [] then [] else [OneByte(bits + Zeros(8 - |bits|))]
  {
  }

  lemma PackEight(bits: Units)
    requires IsBits(bits) && |bits| == 8
    ensures Pack(bits) == [OneByte(bits)]
  {
    assert bits[..8] == bits && bits[8..] == [];
    assert Pack([]) == [];
  }

  // ---- writing ------------------------------------------------------------------------

  lemma {:induction false} HalvedShift(v: nat, o: nat)
    ensures Above(v, o) / 2 == Above(v, o + 1)
  {
    if o > 0 { HalvedShift(v / 2, o - 1); }
  }

  lemma NoBits(v: nat)
    ensures BitsOf(v, 0) == []
  {
  }

  lemma AllBitsOf(v: nat)
    ensures Above(v, 0) == v
  {
  }

  lemma NextBitOf(v: nat, offset: nat, width: nat)
    requires offset < width
    ensures BitsOf(Above(v, offset), width - offset)
         == BitsOf(Above(v, offset + 1), width - offset - 1) + [Above(v, offset) % 2]
  {
    hide Above;
    HalvedShift(v, offset);
  }

  /** A most-significant-bit-first sink; `bits` is what was written so far. */
  class BitWriter {
    var bytes: seq<byte>
    var lenBits: nat
    ghost var bits: Units

    ghost predicate Valid()
      reads this
    {
      IsBits(bits) && lenBits == |bits| && bytes == Pack(bits)
    }

    constructor ()
      ensures Valid() && bits == []
    {
      bytes, lenBits, bits := [], 0, [];
    }

    method WriteBit(bit: bool)
      requires Valid()
      modifies this
      ensures Valid() && bits == old(bits) + [Bit(bit)]
    {
      hide Pack, SetBit;
      PackNext(bits, Bit(bit));
      if lenBits % 8 == 0 { bytes := bytes + [0]; }
      if bit {
        var at := lenBits / 8;
        bytes := bytes[at := SetBit(bytes[at], 7 - lenBits % 8)];
      }
      lenBits := lenBits + 1;
      bits := bits + [Bit(bit)];
    }

    /** The low `width` bits of `value`, most significant first. */
    method WriteBits(value: nat, width: nat)
      requires Valid()
      modifies this
      ensures Valid() && bits == old(bits) + BitsOf(value, width)
    {
      hide Above, BitsOf;
      var offset := width;
      NoBits(Above(value, width));
      assert bits + [] == bits;
      while offset > 0
        invariant 0 <= offset <= width && Valid()
        invariant bits == old(bits) + BitsOf(Above(value, offset), width - offset)
      {
        offset := offset - 1;
        NextBitOf(value, offset, width);
        Assoc(old(bits), BitsOf(Above(value, offset + 1), width - offset - 1), [Above(value, offset) % 2]);
        WriteBit(Above(value, offset) % 2 != 0);
      }
      AllBitsOf(value);
    }

    method WriteBytes(bs: bytes)
      requires Valid()
      modifies this
      ensures Valid() && bits == old(bits) + Payload(Bitwise, bs)
    {
      var i := 0;
      PayloadNothing();
      assert bs[..0] == [] && bits + [] == bits;
      while i < |bs|
        invariant 0 <= i <= |bs| && Valid()
        invariant bits == old(bits) + Payload(Bitwise, bs[..i])
      {
        PayloadSnoc(bs, i);
        Assoc(old(bits), Payload(Bitwise, bs[..i]), BitsOf(bs[i], 8));
        WriteBits(bs[i], 8);
        i := i + 1;
      }
      assert bs[..i] == bs;
    }

    method WriteGamma(value: nat)
      requires Valid()
      modifies this
      ensures Valid() && bits == old(bits) + Gamma(value)
    {
      var k := BitLength(value + 1);
      var i := 0;
      assert bits + Zeros(0) == bits;
      while i < k - 1
        invariant 0 <= i <= k - 1 && Valid()
        invariant bits == old(bits) + Zeros(i)
      {
        assert Zeros(i) + [0] == Zeros(i + 1);
        Assoc(old(bits), Zeros(i), [0]);
        WriteBit(false);
        i := i + 1;
      }
      Assoc(old(bits), Zeros(k - 1), BitsOf(value + 1, k));
      WriteBits(value + 1, k);
    }

    /** The bit-length first, then exactly that many bits. */
    method WriteVBits(value: nat)
      requires Valid()
      modifies this
      ensures Valid() && bits == old(bits) + VBits(value)
    {
      var len := BitLength(value);
      WriteGamma(len);
      Assoc(old(bits), Gamma(len), BitsOf(value, len));
      WriteBits(value, len);
    }

    method Finish() returns (out: bytes)
      requires Valid()
      ensures out == Pack(bits)
    {
      return bytes;
    }
  }

  lemma {:induction false} PayloadAppend(a: bytes, b: bytes)
    ensures Payload(Bitwise, a + b) == Payload(Bitwise, a) + Payload(Bitwise, b)
  {
    hide BitsOf;
    if a == [] {
      assert a + b == b;
    } else {
      assert (a + b)[1..] == a[1..] + b;
      PayloadAppend(a[1..], b);
      Assoc(BitsOf(a[0], 8), Payload(Bitwise, a[1..]), Payload(Bitwise, b));
    }
  }

  lemma PayloadSnoc(bs: bytes, i: nat)
    requires i < |bs|
    ensures Payload(Bitwise, bs[..i + 1]) == Payload(Bitwise, bs[..i]) + BitsOf(bs[i], 8)
  {
    hide BitsOf, Payload;
    assert bs[..i + 1] == bs[..i] + [bs[i]];
    PayloadAppend(bs[..i], [bs[i]]);
    PayloadNothing();
    assert [bs[i]] + [] == [bs[i]];
    PayloadStep(bs[i], []);
    assert BitsOf(bs[i], 8) + [] == BitsOf(bs[i], 8);
  }

  // ---- reading ------------------------------------------------------------------------

  lemma {:induction false} BitAt(v: nat, w: nat, j: nat)
    requires j < w
    ensures BitsOf(v, w)[j] == Above(v, w - 1 - j) % 2
  {
    if j < w - 1 {
      BitAt(v / 2, w - 1, j);
    }
  }

  lemma {:induction false} PayloadLength(bs: bytes)
    ensures |Payload(Bitwise, bs)| == 8 * |bs|
  {
    hide BitsOf;
    if bs != [] { PayloadLength(bs[1..]); }
  }

  /** Bit `j` of byte `q`, from the top. */
  lemma {:induction false} PayloadAt(bs: bytes, q: nat, j: nat)
    requires q < |bs| && j < 8
    ensures |Payload(Bitwise, bs)| == 8 * |bs|
    ensures Payload(Bitwise, bs)[8 * q + j] == Above(bs[q], 7 - j) % 2
  {
    hide BitsOf, Above, Payload;
    PayloadLength(bs);
    assert bs == [bs[0]] + bs[1..];
    PayloadStep(bs[0], bs[1..]);
    if q == 0 {
      BitAt(bs[0], 8, j);
    } else {
      PayloadAt(bs[1..], q - 1, j);
    }
  }

  /** A most-significant-bit-first cursor over a frame. */
  lemma NoneTaken(start: Units)
    ensures FromBits(start[..0]) == 0 && start[0..] == start
  {
  }

  /** Taking one more bit doubles the number read and adds the bit. */
  lemma OneTaken(start: Units, i: nat)
    requires i < |start| && IsBits(start)
    ensures start[i..][0] == start[i] == Bit(start[i] != 0) && start[i..][1..] == start[i + 1..]
    ensures FromBits(start[..i + 1]) == 2 * FromBits(start[..i]) + start[i]
  {
    assert start[..i + 1][..i] == start[..i];
  }

  class BitReader {
    const bytes: seq<byte>
    var bitIndex: nat
    const endBit: nat

    ghost predicate Valid()
      reads this
    {
      bitIndex <= endBit == 8 * |bytes| && endBit == |Payload(Bitwise, bytes)|
    }

    /** The bits not read yet. */
    ghost function Rest(): Units
      reads this
      requires Valid()
    {
      Payload(Bitwise, bytes)[bitIndex..]
    }

    constructor (frame: bytes)
      ensures Valid() && bytes == frame && Rest() == Payload(Bitwise, frame)
    {
      bytes, bitIndex, endBit := frame, 0, 8 * |frame|;
      PayloadLength(frame);
    }

    method ReadBit() returns (r: Option<bool>)
      requires Valid()
      modifies this
      ensures Valid()
      ensures old(Rest()) == [] ==> r.None?
      ensures old(Rest()) != [] ==> r == Some(old(Rest())[0] != 0) && Rest() == old(Rest())[1..]
    {
      hide Above, Payload;
      if bitIndex >= endBit { return None; }
      PayloadAt(bytes, bitIndex / 8, bitIndex % 8);
      var bit := Above(bytes[bitIndex / 8], 7 - bitIndex % 8) % 2 != 0;
      bitIndex := bitIndex + 1;
      return Some(bit);
    }

    method ReadBits(width: nat) returns (r: Option<nat>)
      requires Valid()
      modifies this
      ensures Valid()
      ensures match Bits.ReadBits(old(Rest()), width)
              case None => r.None?
              case Some((v, rest)) => r == Some(v) && Rest() == rest
    {
      var value, i := 0, 0;
      ghost var start := Rest();
      PayloadIsBits(bytes);
      SuffixIsBits(Payload(Bitwise, bytes), Payload(Bitwise, bytes)[..bitIndex], start);
      hide Payload, FromBits, Rest, IsBits;
      NoneTaken(start);
      while i < width
        invariant 0 <= i <= width && Valid() && i <= |start|
        invariant Rest() == start[i..] && value == FromBits(start[..i])
      {
        var bit := ReadBit();
        if bit.None? { return None; }
        OneTaken(start, i);
        value := 2 * value + Bit(bit.value);
        i := i + 1;
      }
      return Some(value);
    }

    method ReadBytes(count: nat) returns (r: Option<bytes>)
      requires Valid()
      modifies this
      ensures Valid()
      ensures match TakePayload(Bitwise, old(Rest()), count)
              case None => r.None?
              case Some((bs, rest)) => r == Some(bs) && Rest() == rest
    {
      var out: bytes, i := [], 0;
      ghost var goal := TakePayload(Bitwise, Rest(), count);
      PrefixedNothing(goal);
      while i < count
        invariant 0 <= i <= count && Valid()
        invariant goal == Prefixed(out, TakePayload(Bitwise, Rest(), count - i))
      {
        hide TakePayload, Prefixed, Bits.ReadBits;
        ghost var before := Rest();
        TakeOne(out, before, count - i);
        var b := ReadBits(8);
        if b.None? { return None; }
        out := out + [b.value % 256];
        i := i + 1;
      }
      assert out + [] == out;
      return Some(out);
    }

    /** Counts zeros up to the first one bit, giving up at 128. */
    method CountZeros() returns (r: Option<nat>)
      requires Valid()
      modifies this
      ensures Valid()
      ensures match ReadZeros(old(Rest()), 0)
              case None => r.None?
              case Some((v, rest)) => r == Some(v) && Rest() == rest
    {
      hide ReadZeros;
      var zeros := 0;
      ghost var goal := ReadZeros(Rest(), 0);
      ReadZerosStep(Rest(), zeros);
      var bit := ReadBit();
      while bit.Some? && !bit.value
        invariant Valid() && zeros < 128
        invariant bit.None? ==> goal == None
        invariant bit.Some? && !bit.value ==> goal == (if zeros + 1 >= 128 then None else ReadZeros(Rest(), zeros + 1))
        invariant bit.Some? && bit.value ==> goal == Some((zeros, Rest()))
        decreases if bit.Some? && !bit.value then 129 - zeros else 0
      {
        zeros := zeros + 1;
        if zeros >= 128 { return None; }
        ReadZerosStep(Rest(), zeros);
        bit := ReadBit();
      }
      if bit.None? { return None; }
      return Some(zeros);
    }

    method ReadGamma() returns (r: Option<nat>)
      requires Valid()
      modifies this
      ensures Valid()
      ensures match Bits.ReadGamma(old(Rest()))
              case None => r.None?
              case Some((v, rest)) => r == Some(v) && Rest() == rest
    {
      var zeros := CountZeros();
      if zeros.None? { return None; }
      var low := ReadBits(zeros.value);
      if low.None? { return None; }
      var m := Pow2(zeros.value) + low.value;
      if m - 1 > USIZE_MAX { return None; }
      return Some(m - 1);
    }

    /** Refuses a value whose leading bit is zero. */
    method ReadVBits() returns (r: Option<nat>)
      requires Valid()
      modifies this
      ensures Valid()
      ensures match Bits.ReadVBits(old(Rest()))
              case None => r.None?
              case Some((v, rest)) => r == Some(v) && Rest() == rest
    {
      var len := ReadGamma();
      if len.None? || len.value > 128 { return None; }
      var value := ReadBits(len.value);
      if value.None? { return None; }
      if len.value > 0 && value.value / Pow2(len.value - 1) == 0 { return None; }
      return value;
    }

    /** Fewer than eight bits may remain, all of them zero. */
    method RequireZeroPadding() returns (ok: bool)
      requires Valid()
      modifies this
      ensures Valid()
      ensures ok <==> |old(Rest())| < 8 && forall i | 0 <= i < |old(Rest())| :: old(Rest())[i] == 0
    {
      ghost var start := Rest();
      if endBit - bitIndex >= 8 { return false; }
      while bitIndex < endBit
        invariant Valid() && |Rest()| <= |start| && Rest() == start[|start| - |Rest()|..]
        invariant forall i | 0 <= i < |start| - |Rest()| :: start[i] == 0
        decreases endBit - bitIndex
      {
        ghost var done := |start| - |Rest()|;
        assert start[done] == Rest()[0];
        var bit := ReadBit();
        if bit == Some(true) { return false; }
      }
      return true;
    }
  }

  lemma {:induction false} PayloadIsBits(bs: bytes)
    ensures IsBits(Payload(Bitwise, bs))
  {
    hide BitsOf;
    if bs != [] { PayloadIsBits(bs[1..]); }
  }

  lemma ReadZerosStep(s: Units, zeros: nat)
    ensures ReadZeros(s, zeros)
         == if |s| == 0 then None
            else if s[0] != 0 then Some((zeros, s[1..]))
            else if zeros + 1 >= 128 then None
            else ReadZeros(s[1..], zeros + 1)
  {
  }

  /** A result with bytes already read put in front. */
  ghost function Prefixed(out: bytes, r: Option<(bytes, Units)>): Option<(bytes, Units)> {
    match r
    case None => None
    case Some((bs, rest)) => Some((out + bs, rest))
  }

  lemma PrefixedNothing(r: Option<(bytes, Units)>)
    ensures Prefixed([], r) == r
  {
    if r.Some? { assert [] + r.value.0 == r.value.0; }
  }

  lemma TakeOne(out: bytes, s: Units, n: nat)
    requires n > 0
    ensures Prefixed(out, TakePayload(Bitwise, s, n)) == match Bits.ReadBits(s, 8)
      case None => None
      case Some((b, rest)) => Prefixed(out + [b % 256], TakePayload(Bitwise, rest, n - 1))
  {
    hide Bits.ReadBits;
    match Bits.ReadBits(s, 8)
    case None =>
    case Some((b, rest)) =>
      if TakePayload(Bitwise, rest, n - 1).Some? {
        Assoc(out, [b % 256], TakePayload(Bitwise, rest, n - 1).value.0);
      }
  }
}
