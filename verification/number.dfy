/** Signed minimal-magnitude integers: decimal text to magnitude bits and back. */
module Numbers {
  import opened Exprs
  import opened Bits

  type Digits = seq<byte>

  const ZERO: byte := 48
  const MINUS: byte := 45

  predicate AllDigits(ds: Digits) {
    forall i | 0 <= i < |ds| :: ds[i] < 10
  }

  /** The number written by decimal digits, most significant first. */
  function DecValue(ds: Digits): nat {
    if ds == [] then 0 else 10 * DecValue(ds[..|ds| - 1]) + ds[|ds| - 1]
  }

  function Pow10(n: nat): (r: nat)
    ensures r >= 1
  {
    if n == 0 then 1 else 10 * Pow10(n - 1)
  }

  /** The decimal digits of a number: a single zero, or no leading zero. */
  function Decimal(v: nat): (r: Digits)
    ensures |r| > 0 && AllDigits(r)
  {
    if v < 10 then [v] else Decimal(v / 10) + [v % 10]
  }

  predicate Normalized(ds: Digits) {
    |ds| > 0 && AllDigits(ds) && (|ds| > 1 ==> ds[0] != 0)
  }

  lemma {:induction false} DecValueOfDecimal(v: nat)
    ensures DecValue(Decimal(v)) == v
  {
    if v >= 10 {
      DecValueOfDecimal(v / 10);
      assert Decimal(v)[..|Decimal(v)| - 1] == Decimal(v / 10);
    } else {
      assert [v][..0] == [];
    }
  }

  lemma {:induction false} LeadingDigit(ds: Digits)
    requires AllDigits(ds) && |ds| > 0 && ds[0] != 0
    ensures DecValue(ds) > 0
  {
    if |ds| > 1 { LeadingDigit(ds[..|ds| - 1]); }
  }

  /** Normalized digits are the decimal form of their value. */
  lemma {:induction false} DecimalOfDecValue(ds: Digits)
    requires Normalized(ds)
    ensures Decimal(DecValue(ds)) == ds
  {
    var n := |ds| - 1;
    if n == 0 {
      assert ds[..0] == [];
      assert ds == [ds[0]];
    } else {
      DecimalOfDecValue(ds[..n]);
      LeadingDigit(ds[..n]);
      assert ds == ds[..n] + [ds[n]];
    }
  }

  lemma {:induction false} DecValueSplit(a: Digits, b: Digits)
    ensures DecValue(a + b) == DecValue(a) * Pow10(|b|) + DecValue(b)
  {
    if b == [] {
      assert a + b == a;
    } else {
      var c := b[..|b| - 1];
      DecValueSplit(a, c);
      DecValueStep(a + b);
      DecValueStep(b);
      assert (a + b)[..|a + b| - 1] == a + c;
      hide DecValue, Pow10;
      TenTimes(DecValue(a), |c|);
    }
  }

  lemma DecValueStep(ds: Digits)
    requires ds != []
    ensures DecValue(ds) == 10 * DecValue(ds[..|ds| - 1]) + ds[|ds| - 1]
  {
  }

  lemma TenTimes(v: nat, n: nat)
    ensures 10 * (v * Pow10(n)) == v * Pow10(n + 1)
  {
    var p := Pow10(n);
    assert Pow10(n + 1) == 10 * p;
    hide Pow10;
    assert v * (10 * p) == 10 * (v * p);
  }

  lemma {:induction false} DecValueZeros(ds: Digits)
    requires AllDigits(ds)
    ensures DecValue(ds) == 0 <==> forall i | 0 <= i < |ds| :: ds[i] == 0
  {
    if ds != [] {
      var init := ds[..|ds| - 1];
      DecValueZeros(init);
      assert forall i | 0 <= i < |init| :: init[i] == ds[i];
    }
  }

  // ---- text --------------------------------------------------------------------

  function DigitText(ds: Digits): (r: bytes)
    requires AllDigits(ds)
    ensures |r| == |ds|
  {
    seq(|ds|, i requires 0 <= i < |ds| => ZERO + ds[i])
  }

  predicate IsDigitText(text: bytes) {
    forall i | 0 <= i < |text| :: 48 <= text[i] < 58
  }

  function TextDigits(text: bytes): (r: Digits)
    requires IsDigitText(text)
    ensures |r| == |text| && AllDigits(r)
    ensures DigitText(r) == text
  {
    seq(|text|, i requires 0 <= i < |text| => text[i] - ZERO)
  }

  lemma DigitTextDigits(ds: Digits)
    requires AllDigits(ds)
    ensures IsDigitText(DigitText(ds)) && TextDigits(DigitText(ds)) == ds
  {
  }

  /** `"0"`, or a non-empty digit string with no leading zero. */
  predicate IsNormalizedUnsigned(text: bytes) {
    |text| > 0 && IsDigitText(text) && !(|text| > 1 && text[0] == ZERO)
  }

  lemma NormalizedText(text: bytes)
    requires IsNormalizedUnsigned(text)
    ensures Normalized(TextDigits(text))
    ensures Decimal(DecValue(TextDigits(text))) == TextDigits(text)
  {
    DecimalOfDecValue(TextDigits(text));
  }

  function DecimalText(v: nat): bytes {
    DigitText(Decimal(v))
  }

  /** The inline literal `0..15`, when the text is one. */
  function SmallUint(text: bytes): Option<nat> {
    if IsNormalizedUnsigned(text) && DecValue(TextDigits(text)) < 16
    then Some(DecValue(TextDigits(text))) else None
  }

  lemma SmallUintText(text: bytes)
    requires SmallUint(text).Some?
    ensures DecimalText(SmallUint(text).value) == text
  {
    NormalizedText(text);
  }

  /** The bits of a number without leading zeros. */
  function BinaryForm(v: nat): Units {
    BitsOf(v, BitLength(v))
  }

  /** Sign and magnitude bits of a normalized decimal integer. */
  function IntegerBits(text: bytes): Option<(bool, Units)> {
    var negative := |text| > 0 && text[0] == MINUS;
    var digits := if negative then text[1..] else text;
    if !IsNormalizedUnsigned(digits) then None
    else if digits == [ZERO] then if negative then None else Some((false, []))
    else
      var v := DecValue(TextDigits(digits));
      Some((negative, BinaryForm(v)))
  }

  function IntegerText(negative: bool, bits: Units): bytes {
    var text := DecimalText(FromBits(bits));
    if text == [ZERO] then text else if negative then [MINUS] + text else text
  }

  /** Converting a normalized integer to bits and back restores its text. */
  lemma IntegerRoundTrip(text: bytes)
    requires IntegerBits(text).Some?
    ensures var (negative, bits) := IntegerBits(text).value;
      IntegerText(negative, bits) == text && IsBits(bits) && (bits != [] ==> bits[0] == 1)
  {
    hide BitsOf, FromBits, BitLength, DecValue, Decimal, Pow2;
    var negative := |text| > 0 && text[0] == MINUS;
    var digits := if negative then text[1..] else text;
    NormalizedText(digits);
    var v := DecValue(TextDigits(digits));
    BitLengthBounds(v);
    FromBitsOf(v, BitLength(v));
    if digits == [ZERO] {
      ZeroText();
    } else {
      PositiveDigits(digits);
      BitsOfPositive(v);
      if negative { assert text == [MINUS] + digits; }
    }
  }

  lemma ZeroText()
    ensures IntegerText(false, []) == [ZERO]
  {
  }

  lemma PositiveDigits(digits: bytes)
    requires IsNormalizedUnsigned(digits) && digits != [ZERO]
    ensures DecValue(TextDigits(digits)) > 0
  {
    var ds := TextDigits(digits);
    if |digits| == 1 { assert digits == [digits[0]]; }
    hide DecValue;
    LeadingDigit(ds);
  }

  lemma {:induction false} DecValueBound(ds: Digits)
    requires AllDigits(ds)
    ensures DecValue(ds) < Pow2(4 * |ds|)
  {
    if ds != [] {
      DecValueBound(ds[..|ds| - 1]);
      assert Pow2(4 * |ds|) == 16 * Pow2(4 * (|ds| - 1)) by { Pow2Add(4, 4 * (|ds| - 1)); assert Pow2(4) == 16; }
    }
  }

  /** The magnitude needs at most eight bits for every byte of text. */
  lemma IntegerBitsLength(text: bytes)
    requires IntegerBits(text).Some?
    ensures |IntegerBits(text).value.1| <= 8 * |text|
  {
    var negative := |text| > 0 && text[0] == MINUS;
    var digits := if negative then text[1..] else text;
    DecValueBound(TextDigits(digits));
    BitLengthAtMost(DecValue(TextDigits(digits)), 4 * |digits|);
  }

  // ---- which texts are integers ------------------------------------------------------

  /** The decimal text of an integer, a minus sign first when it is negative. */
  function SignedText(v: int): bytes {
    if v < 0 then [MINUS] + DecimalText(-v) else DecimalText(v)
  }

  function Signed(negative: bool, magnitude: nat): int {
    if negative then 0 - magnitude else magnitude
  }

  lemma DecimalTextFacts(v: nat)
    ensures var text := DecimalText(v);
      IsNormalizedUnsigned(text) && DecValue(TextDigits(text)) == v && (text == [ZERO] <==> v == 0) && text[0] != MINUS
  {
    hide DecValue;
    DecimalNormalized(v);
    DigitTextDigits(Decimal(v));
    DecValueOfDecimal(v);
    if DecimalText(v) == [ZERO] {
      assert Decimal(v) == [0];
      ZeroDigit();
    }
  }

  lemma ZeroDigit()
    ensures DecValue([0]) == 0
  {
    assert [0][..0] == [];
  }

  lemma {:induction false} DecimalNormalized(v: nat)
    ensures Normalized(Decimal(v)) && (v > 0 ==> Decimal(v)[0] != 0)
  {
    if v >= 10 { DecimalNormalized(v / 10); }
  }

  /** Every integer of any length converts: its sign, and its binary form most significant bit first. */
  lemma IntegerBitsOf(v: int)
    ensures var magnitude := if v < 0 then -v else v;
      IntegerBits(SignedText(v)) == Some((v < 0, BinaryForm(magnitude)))
      && FromBits(BinaryForm(magnitude)) == magnitude && (v == 0 <==> BinaryForm(magnitude) == [])
      && (v != 0 ==> BinaryForm(magnitude)[0] == 1)
  {
    hide DecValue, FromBits, BitsOf, BitLength, Decimal, DigitText;
    var magnitude := if v < 0 then -v else v;
    DecimalTextFacts(magnitude);
    BitLengthBounds(magnitude);
    FromBitsOf(magnitude, BitLength(magnitude));
    if v == 0 {
      ZeroBits();
    } else {
      BitsOfPositive(magnitude);
      if v < 0 { assert SignedText(v)[1..] == DecimalText(magnitude); }
    }
  }

  lemma ZeroBits()
    ensures BinaryForm(0) == []
  {
  }

  /** And nothing else does: no empty text, no leading zero, no signed zero, no other characters. */
  lemma IntegerBitsOnly(text: bytes)
    ensures IntegerBits(text).Some? ==>
      var (negative, bits) := IntegerBits(text).value; text == SignedText(Signed(negative, FromBits(bits)))
    ensures IntegerBits(text).Some? <==> exists v :: text == SignedText(v)
  {
    hide DecValue, FromBits, BitsOf, BitLength, Decimal, DigitText, IsNormalizedUnsigned, BinaryForm;
    if IntegerBits(text).Some? {
      IntegerRoundTrip(text);
      var (negative, bits) := IntegerBits(text).value;
      if negative && FromBits(bits) == 0 { DecimalTextFacts(0); }
      if FromBits(bits) > 0 { DecimalTextFacts(FromBits(bits)); }
      assert text == SignedText(Signed(negative, FromBits(bits)));
    }
    if v :| text == SignedText(v) { IntegerBitsOf(v); }
  }

  /** Inline literals are the decimal texts of zero to fifteen. */
  lemma SmallUintExactly(text: bytes, v: nat)
    ensures SmallUint(text) == Some(v) <==> v < 16 && text == DecimalText(v)
  {
    hide DecValue, Decimal, DigitText, IsNormalizedUnsigned;
    DecimalTextFacts(v);
    if SmallUint(text).Some? { SmallUintText(text); }
  }

  /** Digits and the sign are their ASCII characters. */
  lemma TextLiterals()
    ensures SignedText(-120) == [45, 49, 50, 48] && SignedText(0) == [48] && SignedText(9) == [57]
    ensures BinaryForm(6) == [1, 1, 0]
  {
    assert Decimal(12) == [1, 2] && Decimal(120) == [1, 2, 0];
    assert BitLength(6) == 3;
  }

  // ---- the conversions as the codec runs them --------------------------------------

  /** Halves a digit vector in place and returns the remainder; no digit overflows a byte. */
  method Divmod2(decimal: array<byte>) returns (carry: byte)
    requires AllDigits(decimal[..])
    modifies decimal
    ensures AllDigits(decimal[..])
    ensures carry < 2
    ensures 2 * DecValue(decimal[..]) + carry == DecValue(old(decimal[..]))
  {
    carry := 0;
    var i := 0;
    while i < decimal.Length
      invariant 0 <= i <= decimal.Length && carry < 2
      invariant AllDigits(decimal[..])
      invariant decimal[i..] == old(decimal[..])[i..]
      invariant 2 * DecValue(decimal[..i]) + carry == DecValue(old(decimal[..])[..i])
    {
      ghost var was := decimal[..];
      ghost var all := old(decimal[..]);
      assert decimal[i] == decimal[i..][0] == all[i];
      assert AllDigits(was) && was[i] < 10;
      var current: byte := carry * 10 + decimal[i];
      decimal[i] := current / 2;
      assert decimal[..] == was[i := current / 2];
      assert decimal[..i] == was[..i];
      assert decimal[..i + 1][..i] == decimal[..i];
      assert all[..i + 1][..i] == all[..i];
      assert decimal[i + 1..] == was[i..][1..];
      carry := current % 2;
      i := i + 1;
    }
    assert decimal[..] == decimal[..i];
    assert old(decimal[..]) == old(decimal[..])[..i];
  }

  /** A growable big-endian digit vector. */
  class DecimalVec {
    var digits: Digits

    constructor ()
      ensures digits == [0]
    {
      digits := [0];
    }

    /** Doubles the vector, adds a bit and drops leading zeros. */
    method Mul2Add(add: byte)
      requires Normalized(digits) && add < 2
      modifies this
      ensures Normalized(digits)
      ensures DecValue(digits) == 2 * DecValue(old(digits)) + add
    {
      hide DecValue, Pow10;
      ghost var was := digits;
      var carry := DoubleDigits(add);
      if carry > 0 {
        DecValueSplit([carry], digits);
        OneDigit(carry);
        digits := [carry] + digits;
      }
      DropLeadingZeros();
    }

    /** One pass from the last digit to the first; what does not fit is carried out. */
    method DoubleDigits(add: byte) returns (carry: byte)
      requires AllDigits(digits) && add < 2
      modifies this
      ensures AllDigits(digits) && |digits| == |old(digits)| && carry < 2
      ensures 2 * DecValue(old(digits)) + add == carry * Pow10(|digits|) + DecValue(digits)
    {
      hide DecValue, Pow10;
      carry := add;
      var i := |digits|;
      ghost var was := digits;
      DoubledNothing(was, add);
      while i > 0
        invariant 0 <= i <= |digits| == |was| && 0 <= carry < 2
        invariant AllDigits(digits)
        invariant digits[..i] == was[..i]
        invariant DoubledFrom(was, digits, i, carry, add)
      {
        i := i - 1;
        assert digits[i] == digits[..i + 1][i] == was[i];
        DoubleStep(was, digits, i, carry, add);
        var current: byte := digits[i] * 2 + carry;
        assert digits[..i] == digits[..i + 1][..i] == was[..i];
        digits := digits[i := current % 10];
        carry := current / 10;
      }
      assert digits == digits[0..] && was == was[0..];
    }

    method DropLeadingZeros()
      requires |digits| > 0 && AllDigits(digits)
      modifies this
      ensures Normalized(digits)
      ensures DecValue(digits) == DecValue(old(digits))
    {
      while |digits| > 1 && digits[0] == 0
        invariant |digits| > 0 && AllDigits(digits)
        invariant DecValue(digits) == DecValue(old(digits))
      {
        HeadWeight(digits, 0);
        assert digits == digits[0..];
        digits := digits[1..];
      }
    }
  }

  lemma HeadWeight(ds: Digits, i: nat)
    requires i < |ds|
    ensures DecValue(ds[i..]) == ds[i] * Pow10(|ds| - i - 1) + DecValue(ds[i + 1..])
  {
    DecValueSplit([ds[i]], ds[i + 1..]);
    assert ds[i..] == [ds[i]] + ds[i + 1..];
    assert [ds[i]][..0] == [];
  }

  /** From place `i` on, `now` and a carry hold twice `was` plus the added bit. */
  ghost predicate DoubledFrom(was: Digits, now: Digits, i: nat, carry: nat, add: nat)
    requires i <= |was| == |now|
  {
    2 * DecValue(was[i..]) + add == carry * Pow10(|was| - i) + DecValue(now[i..])
  }

  lemma DoubledNothing(was: Digits, add: nat)
    ensures DoubledFrom(was, was, |was|, add, add)
  {
  }

  lemma OneDigit(d: byte)
    ensures DecValue([d]) == d
  {
    assert [d][..0] == [];
  }

  lemma DoubleStep(was: Digits, now: Digits, i: nat, carry: nat, add: nat)
    requires i < |was| == |now| && AllDigits(now) && now[i] == was[i] && carry < 2
    requires DoubledFrom(was, now, i + 1, carry, add)
    ensures var current := now[i] * 2 + carry;
      current < 20 && DoubledFrom(was, now[i := current % 10], i, current / 10, add)
  {
    var current := now[i] * 2 + carry;
    var next := now[i := current % 10];
    assert next[i + 1..] == now[i + 1..];
    HeadWeight(next, i);
    HeadWeight(was, i);
    var p := Pow10(|was| - i - 1);
    assert Pow10(|was| - i) == 10 * p;
    Weigh(current, was[i], carry, p);
  }

  lemma Weigh(current: nat, digit: nat, carry: nat, p: nat)
    requires current == digit * 2 + carry
    ensures 2 * (digit * p) + carry * p == current / 10 * (10 * p) + current % 10 * p
  {
    calc {
      2 * (digit * p) + carry * p;
      current * p;
      (current / 10 * 10 + current % 10) * p;
      current / 10 * (10 * p) + current % 10 * p;
    }
  }

  function Reverse(s: Units): Units {
    if s == [] then [] else [s[|s| - 1]] + Reverse(s[..|s| - 1])
  }

  /** Repeated halving collects the magnitude bits, which are then reversed. */
  method IntegerToBits(canonical: bytes) returns (r: Option<(bool, Units)>)
    ensures r == IntegerBits(canonical)
  {
    hide BinaryForm, DecValue, Reverse, AllDigits;
    var negative := |canonical| > 0 && canonical[0] == MINUS;
    var digits := if negative then canonical[1..] else canonical;
    if !IsNormalizedUnsigned(digits) { return None; }
    if digits == [ZERO] { return if negative then None else Some((false, [])); }
    var ds := TextDigits(digits);
    var decimal := new byte[|ds|](i requires 0 <= i < |ds| => ds[i]);
    assert decimal[..] == ds;
    ghost var v := DecValue(ds);
    var bitsLsb: Units := [];
    var done := AllZero(decimal);
    NoneCollected(v);
    while !done
      invariant AllDigits(decimal[..])
      invariant done <==> DecValue(decimal[..]) == 0
      invariant BinaryForm(v) == BinaryForm(DecValue(decimal[..])) + Reverse(bitsLsb)
      decreases DecValue(decimal[..])
    {
      ghost var w := DecValue(decimal[..]);
      var remainder := Divmod2(decimal);
      HalvingSplits(w, DecValue(decimal[..]), remainder, bitsLsb);
      bitsLsb := bitsLsb + [remainder];
      done := AllZero(decimal);
    }
    AllCollected(bitsLsb);
    return Some((negative, Reverse(bitsLsb)));
  }

  lemma NoneCollected(v: nat)
    ensures BinaryForm(v) == BinaryForm(v) + Reverse([])
  {
    hide BinaryForm;
    assert BinaryForm(v) + [] == BinaryForm(v);
  }

  lemma AllCollected(bitsLsb: Units)
    ensures BinaryForm(0) + Reverse(bitsLsb) == Reverse(bitsLsb)
  {
    assert BinaryForm(0) == [];
    hide BinaryForm, Reverse;
    assert [] + Reverse(bitsLsb) == Reverse(bitsLsb);
  }

  /** A halving step moves one bit from the number to the collected bits. */
  lemma HalvingSplits(w: nat, half: nat, r: byte, bitsLsb: Units)
    requires w > 0 && r < 2 && 2 * half + r == w
    ensures half < w && BinaryForm(w) + Reverse(bitsLsb) == BinaryForm(half) + Reverse(bitsLsb + [r])
  {
    Halves(w, half, r);
    assert BitLength(w) == 1 + BitLength(w / 2);
    hide BitLength;
    BitsStep(w, BitLength(w));
    assert (bitsLsb + [r])[..|bitsLsb|] == bitsLsb;
    Assoc(BinaryForm(half), [r], Reverse(bitsLsb));
  }

  lemma Halves(w: nat, half: nat, r: byte)
    requires w > 0 && r < 2 && 2 * half + r == w
    ensures half < w && half == w / 2 && r == w % 2
  {
  }

  lemma BitsStep(w: nat, n: nat)
    requires n > 0
    ensures BitsOf(w, n) == BitsOf(w / 2, n - 1) + [w % 2]
  {
  }

  method AllZero(decimal: array<byte>) returns (z: bool)
    requires AllDigits(decimal[..])
    ensures z <==> DecValue(decimal[..]) == 0
  {
    DecValueZeros(decimal[..]);
    z := forall i | 0 <= i < decimal.Length :: decimal[i] == 0;
    assert z <==> forall i | 0 <= i < |decimal[..]| :: decimal[..][i] == 0;
  }

  /** Rebuilds the decimal text by doubling. */
  method BitsToInteger(negative: bool, bits: Units) returns (text: bytes)
    requires IsBits(bits)
    ensures text == IntegerText(negative, bits)
  {
    var decimal := new DecimalVec();
    var i := 0;
    while i < |bits|
      invariant 0 <= i <= |bits|
      invariant Normalized(decimal.digits)
      invariant DecValue(decimal.digits) == FromBits(bits[..i])
    {
      decimal.Mul2Add(bits[i]);
      assert bits[..i + 1][..i] == bits[..i];
      i := i + 1;
    }
    assert bits[..i] == bits;
    DecimalOfDecValue(decimal.digits);
    text := DigitText(decimal.digits);
    if text == [ZERO] { return text; }
    if negative { return [MINUS] + text; }
  }
}
