/** One JVM instruction at its place in a code array, decoded and encoded. */
module Instructions {
  import opened Exprs
  import opened Opcodes

  const U32_MAX: nat := 0xFFFF_FFFF

  datatype Operand =
    | Immediate(value: i32)
    | Local(index: u16)
    | Constant(index: u16)
    | Branch(displacement: i32)
    | TableLow(low: i32)
    | TableHigh(high: i32)
    | LookupKey(key: i32)
    | Count(count: byte)
    | Dimensions(count: byte)
    | ArrayType(code: byte)

  datatype Instruction = Instruction(opcode: byte, wide: bool, operands: seq<Operand>)

  // ---- big-endian integers --------------------------------------------------------

  function U2(v: u16): (r: bytes)
    ensures |r| == 2
  {
    [v / 256, v % 256]
  }

  function FromU2(a: byte, b: byte): u16 {
    a * 256 + b
  }

  function U4(v: u32): (r: bytes)
    ensures |r| == 4
  {
    [v / 0x100_0000, v / 0x1_0000 % 256, v / 256 % 256, v % 256]
  }

  function FromU4(a: byte, b: byte, c: byte, d: byte): u32 {
    ((a * 256 + b) * 256 + c) * 256 + d
  }

  function Signed8(v: byte): (r: i32)
    ensures -128 <= r < 128
  {
    if v < 128 then v else v - 256
  }

  function Unsigned8(v: int): byte
    requires -128 <= v < 128
  {
    if v < 0 then v + 256 else v
  }

  function Signed16(v: u16): (r: i32)
    ensures -0x8000 <= r < 0x8000
  {
    if v < 0x8000 then v else v - 0x1_0000
  }

  function Unsigned16(v: int): u16
    requires -0x8000 <= v < 0x8000
  {
    if v < 0 then v + 0x1_0000 else v
  }

  function Signed32(v: u32): i32 {
    if v < 0x8000_0000 then v else v - 0x1_0000_0000
  }

  function Unsigned32(v: i32): u32 {
    if v < 0 then v + 0x1_0000_0000 else v
  }

  function I4(v: i32): (r: bytes)
    ensures |r| == 4
  {
    U4(Unsigned32(v))
  }

  lemma U2From(a: byte, b: byte)
    ensures U2(FromU2(a, b)) == [a, b]
  {
  }

  lemma U4From(a: byte, b: byte, c: byte, d: byte)
    ensures U4(FromU4(a, b, c, d)) == [a, b, c, d]
  {
    var x: nat := a * 256 + b;
    var y: nat := x * 256 + c;
    var v: nat := y * 256 + d;
    assert v / 256 == y && y / 256 == x && x / 256 == a;
    assert v / 0x1_0000 == x && v / 0x100_0000 == a;
  }

  lemma FromU4Of(v: u32)
    ensures var s := U4(v); FromU4(s[0], s[1], s[2], s[3]) == v
  {
    FourBytes(v, v / 256, v / 0x1_0000, v / 0x100_0000);
  }

  lemma FourBytes(v: nat, high: nat, higher: nat, highest: nat)
    requires high == v / 256 && higher == v / 0x1_0000 && highest == v / 0x100_0000
    ensures v == high * 256 + v % 256 && high == higher * 256 + high % 256 && higher == highest * 256 + higher % 256
  {
  }

  function TakeU1(s: bytes): Option<(byte, bytes)> {
    if |s| < 1 then None else Some((s[0], s[1..]))
  }

  function TakeU2(s: bytes): Option<(u16, bytes)> {
    if |s| < 2 then None else Some((FromU2(s[0], s[1]), s[2..]))
  }

  function TakeI4(s: bytes): Option<(i32, bytes)> {
    if |s| < 4 then None else Some((Signed32(FromU4(s[0], s[1], s[2], s[3])), s[4..]))
  }

  lemma TakeI4Of(v: i32, rest: bytes)
    ensures TakeI4(I4(v) + rest) == Some((v, rest))
  {
    FromU4Of(Unsigned32(v));
    assert (I4(v) + rest)[4..] == rest;
  }

  lemma TakeI4Exact(s: bytes)
    requires TakeI4(s).Some?
    ensures var (v, rest) := TakeI4(s).value; s == I4(v) + rest
  {
    U4From(s[0], s[1], s[2], s[3]);
    assert s == s[..4] + s[4..];
    assert s[..4] == [s[0], s[1], s[2], s[3]];
  }

  // ---- fixed layouts ----------------------------------------------------------------

  predicate IsZero(f: Field) {
    f.ZeroU1? || f.ZeroU2?
  }

  /** Bytes one field takes; `wide` doubles locals and increments. */
  function FieldWidth(f: Field, wide: bool): nat {
    match f
    case ValueS1 => 1
    case ConstantU1 => 1
    case CountU1 => 1
    case DimensionsU1 => 1
    case AtypeU1 => 1
    case ZeroU1 => 1
    case LocalU1 => if wide then 2 else 1
    case IncrementS1 => if wide then 2 else 1
    case ValueS2 => 2
    case ConstantU2 => 2
    case BranchS2 => 2
    case ZeroU2 => 2
    case BranchS4 => 4
  }

  function FieldsWidth(fs: seq<Field>, wide: bool): nat {
    if fs == [] then 0 else FieldWidth(fs[0], wide) + FieldsWidth(fs[1..], wide)
  }

  /** The bytes of one operand, when it has the field's role and fits its width. */
  function EmitField(f: Field, op: Operand, wide: bool): Option<bytes>
    requires !IsZero(f)
  {
    match (f, op)
    case (ValueS1, Immediate(v)) => if !wide && -128 <= v < 128 then Some([Unsigned8(v)]) else None
    case (IncrementS1, Immediate(v)) =>
      if !wide then if -128 <= v < 128 then Some([Unsigned8(v)]) else None
      else if -0x8000 <= v < 0x8000 then Some(U2(Unsigned16(v))) else None
    case (ValueS2, Immediate(v)) => if -0x8000 <= v < 0x8000 then Some(U2(Unsigned16(v))) else None
    case (LocalU1, Local(v)) => if wide then Some(U2(v)) else if v < 256 then Some([v]) else None
    case (ConstantU1, Constant(v)) => if v < 256 then Some([v]) else None
    case (ConstantU2, Constant(v)) => Some(U2(v))
    case (BranchS2, Branch(v)) => if -0x8000 <= v < 0x8000 then Some(U2(Unsigned16(v))) else None
    case (BranchS4, Branch(v)) => Some(I4(v))
    case (CountU1, Count(v)) => Some([v])
    case (DimensionsU1, Dimensions(v)) => Some([v])
    case (AtypeU1, ArrayType(v)) => Some([v])
    case _ => None
  }

  function EmitFields(fs: seq<Field>, ops: seq<Operand>, wide: bool): Option<bytes> {
    if fs == [] then (if ops == [] then Some([]) else None)
    else if IsZero(fs[0]) then
      match EmitFields(fs[1..], ops, wide)
      case None => None
      case Some(rest) => Some((if fs[0].ZeroU1? then [0] else [0, 0]) + rest)
    else if ops == [] then None
    else
      match EmitField(fs[0], ops[0], wide)
      case None => None
      case Some(first) =>
        match EmitFields(fs[1..], ops[1..], wide)
        case None => None
        case Some(rest) => Some(first + rest)
  }

  function TakeField(f: Field, wide: bool, s: bytes): Option<(Operand, bytes)>
    requires !IsZero(f)
  {
    if FieldWidth(f, wide) > |s| then None else
    match f
    case ValueS1 => if wide then None else Some((Immediate(Signed8(s[0])), s[1..]))
    case IncrementS1 =>
      if wide then Some((Immediate(Signed16(FromU2(s[0], s[1]))), s[2..])) else Some((Immediate(Signed8(s[0])), s[1..]))
    case ValueS2 => Some((Immediate(Signed16(FromU2(s[0], s[1]))), s[2..]))
    case LocalU1 => if wide then Some((Operand.Local(FromU2(s[0], s[1])), s[2..])) else Some((Operand.Local(s[0]), s[1..]))
    case ConstantU1 => Some((Constant(s[0]), s[1..]))
    case ConstantU2 => Some((Constant(FromU2(s[0], s[1])), s[2..]))
    case BranchS2 => Some((Branch(Signed16(FromU2(s[0], s[1]))), s[2..]))
    case BranchS4 => Some((Branch(Signed32(FromU4(s[0], s[1], s[2], s[3]))), s[4..]))
    case CountU1 => Some((Count(s[0]), s[1..]))
    case DimensionsU1 => Some((Dimensions(s[0]), s[1..]))
    case AtypeU1 => Some((ArrayType(s[0]), s[1..]))
  }

  function TakeFields(fs: seq<Field>, wide: bool, s: bytes): Option<(seq<Operand>, bytes)> {
    if fs == [] then Some(([], s))
    else if fs[0].ZeroU1? then
      if |s| < 1 || s[0] != 0 then None else TakeFields(fs[1..], wide, s[1..])
    else if fs[0].ZeroU2? then
      if |s| < 2 || s[0] != 0 || s[1] != 0 then None else TakeFields(fs[1..], wide, s[2..])
    else
      match TakeField(fs[0], wide, s)
      case None => None
      case Some((op, rest)) =>
        match TakeFields(fs[1..], wide, rest)
        case None => None
        case Some((ops, tail)) => Some(([op] + ops, tail))
  }

  lemma EmitFieldWidth(f: Field, op: Operand, wide: bool)
    requires !IsZero(f) && EmitField(f, op, wide).Some?
    ensures |EmitField(f, op, wide).value| == FieldWidth(f, wide)
  {
  }

  lemma TakeFieldOf(f: Field, op: Operand, wide: bool, rest: bytes)
    requires !IsZero(f) && EmitField(f, op, wide).Some?
    ensures TakeField(f, wide, EmitField(f, op, wide).value + rest) == Some((op, rest))
  {
    hide U4, FromU4;
    var b := EmitField(f, op, wide).value;
    var s := b + rest;
    EmitFieldWidth(f, op, wide);
    assert s[|b|..] == rest;
    if f.BranchS4? { FromU4Of(Unsigned32(op.displacement)); }
  }

  lemma SignedBack(a: byte, v: u16)
    ensures Unsigned8(Signed8(a)) == a && Unsigned16(Signed16(v)) == v
  {
  }

  lemma TakeFieldExact(f: Field, wide: bool, s: bytes)
    requires !IsZero(f) && TakeField(f, wide, s).Some?
    ensures var (op, rest) := TakeField(f, wide, s).value;
      EmitField(f, op, wide).Some? && s == EmitField(f, op, wide).value + rest
  {
    hide U4, FromU4, U2, FromU2, Signed8, Unsigned8, Signed16, Unsigned16;
    var w := FieldWidth(f, wide);
    assert s == s[..w] + s[w..];
    if w == 1 {
      assert s[..1] == [s[0]];
      SignedBack(s[0], 0);
    } else if w == 2 {
      assert s[..2] == [s[0], s[1]];
      U2From(s[0], s[1]);
      SignedBack(0, FromU2(s[0], s[1]));
    } else {
      U4From(s[0], s[1], s[2], s[3]);
      assert s[..4] == [s[0], s[1], s[2], s[3]];
    }
  }

  lemma {:induction false} EmitFieldsWidth(fs: seq<Field>, ops: seq<Operand>, wide: bool)
    requires EmitFields(fs, ops, wide).Some?
    ensures |EmitFields(fs, ops, wide).value| == FieldsWidth(fs, wide)
  {
    hide EmitField;
    if fs != [] {
      if IsZero(fs[0]) {
        EmitFieldsWidth(fs[1..], ops, wide);
      } else {
        EmitFieldWidth(fs[0], ops[0], wide);
        EmitFieldsWidth(fs[1..], ops[1..], wide);
      }
    }
  }

  lemma {:induction false} TakeFieldsOf(fs: seq<Field>, ops: seq<Operand>, wide: bool, rest: bytes)
    requires EmitFields(fs, ops, wide).Some?
    ensures TakeFields(fs, wide, EmitFields(fs, ops, wide).value + rest) == Some((ops, rest))
  {
    hide EmitField, TakeField;
    if fs == [] {
      assert [] + rest == rest;
    } else if IsZero(fs[0]) {
      var zeros: bytes := if fs[0].ZeroU1? then [0] else [0, 0];
      var tail := EmitFields(fs[1..], ops, wide).value;
      Assoc(zeros, tail, rest);
      assert (zeros + (tail + rest))[|zeros|..] == tail + rest;
      TakeFieldsOf(fs[1..], ops, wide, rest);
    } else {
      var first, tail := EmitField(fs[0], ops[0], wide).value, EmitFields(fs[1..], ops[1..], wide).value;
      Assoc(first, tail, rest);
      TakeFieldOf(fs[0], ops[0], wide, tail + rest);
      TakeFieldsOf(fs[1..], ops[1..], wide, rest);
      assert ops == [ops[0]] + ops[1..];
    }
  }

  lemma {:induction false} TakeFieldsExact(fs: seq<Field>, wide: bool, s: bytes)
    requires TakeFields(fs, wide, s).Some?
    ensures var (ops, rest) := TakeFields(fs, wide, s).value;
      EmitFields(fs, ops, wide).Some? && s == EmitFields(fs, ops, wide).value + rest
  {
    hide EmitField, TakeField;
    var (ops, rest) := TakeFields(fs, wide, s).value;
    if fs == [] {
      assert [] + s == s;
    } else if IsZero(fs[0]) {
      var zeros: bytes := if fs[0].ZeroU1? then [0] else [0, 0];
      TakeFieldsExact(fs[1..], wide, s[|zeros|..]);
      assert s == zeros + s[|zeros|..];
      Assoc(zeros, EmitFields(fs[1..], ops, wide).value, rest);
    } else {
      TakeFieldExact(fs[0], wide, s);
      var (op, tail) := TakeField(fs[0], wide, s).value;
      TakeFieldsExact(fs[1..], wide, tail);
      assert ops[0] == op && ops[1..] == TakeFields(fs[1..], wide, tail).value.0;
      Assoc(EmitField(fs[0], op, wide).value, EmitFields(fs[1..], ops[1..], wide).value, rest);
    }
  }

  // ---- switches ---------------------------------------------------------------------

  /** Zero bytes that bring the byte after `at` other bytes to a multiple of four. */
  function Padding(at: nat): (n: nat)
    ensures n < 4 && (at + n) % 4 == 0
  {
    (4 - at % 4) % 4
  }

  predicate AllBranches(ops: seq<Operand>) {
    forall op | op in ops :: op.Branch?
  }

  /** Words of a switch after its fixed head: branches, or keys with branches. */
  function Words(ops: seq<Operand>): (r: bytes)
    requires forall op | op in ops :: op.Branch? || op.LookupKey?
    ensures |r| == 4 * |ops|
  {
    if ops == [] then [] else I4(if ops[0].Branch? then ops[0].displacement else ops[0].key) + Words(ops[1..])
  }

  /** A table switch's operands match its key range. */
  predicate TableShape(ops: seq<Operand>) {
    |ops| >= 3 && ops[0].Branch? && ops[1].TableLow? && ops[2].TableHigh?
    && ops[1].low <= ops[2].high && ops[2].high - ops[1].low + 1 == |ops| - 3
    && AllBranches(ops[3..])
  }

  function EmitTable(ops: seq<Operand>): bytes
    requires TableShape(ops)
  {
    I4(ops[0].displacement) + (I4(ops[1].low) + (I4(ops[2].high) + Words(ops[3..])))
  }

  /** Key and branch pairs with strictly increasing keys, all above `floor`. */
  predicate Pairs(ops: seq<Operand>, floor: int) {
    if ops == [] then true
    else |ops| >= 2 && ops[0].LookupKey? && ops[1].Branch? && ops[0].key > floor && Pairs(ops[2..], ops[0].key)
  }

  const NO_KEY: int := -0x8000_0001

  predicate LookupShape(ops: seq<Operand>) {
    |ops| >= 1 && ops[0].Branch? && Pairs(ops[1..], NO_KEY)
  }

  lemma {:induction false} PairsAreWords(ops: seq<Operand>, floor: int)
    requires Pairs(ops, floor)
    ensures |ops| % 2 == 0 && forall op | op in ops :: op.Branch? || op.LookupKey?
  {
    if ops != [] {
      PairsAreWords(ops[2..], ops[0].key);
      assert ops == [ops[0], ops[1]] + ops[2..];
    }
  }

  function EmitLookup(ops: seq<Operand>): bytes
    requires LookupShape(ops) && |ops| / 2 < 0x8000_0000
  {
    PairsAreWords(ops[1..], NO_KEY);
    I4(ops[0].displacement) + (I4((|ops| - 1) / 2) + Words(ops[1..]))
  }

  function TakeBranches(n: nat, s: bytes): Option<(seq<Operand>, bytes)>
    decreases n
  {
    if n == 0 then Some(([], s)) else
    match TakeI4(s)
    case None => None
    case Some((v, rest)) =>
      match TakeBranches(n - 1, rest)
      case None => None
      case Some((ops, tail)) => Some(([Branch(v)] + ops, tail))
  }

  function TakePairs(n: nat, floor: int, s: bytes): Option<(seq<Operand>, bytes)>
    decreases n
  {
    if n == 0 then Some(([], s)) else
    match TakeI4(s)
    case None => None
    case Some((key, rest)) =>
      if key <= floor then None else
      match TakeI4(rest)
      case None => None
      case Some((v, rest2)) =>
        match TakePairs(n - 1, key, rest2)
        case None => None
        case Some((ops, tail)) => Some(([LookupKey(key), Branch(v)] + ops, tail))
  }

  /** Skips alignment padding, which must be zero. */
  function TakePadding(n: nat, s: bytes): Option<bytes> {
    if n == 0 then Some(s)
    else if |s| == 0 || s[0] != 0 then None
    else TakePadding(n - 1, s[1..])
  }

  function TakeTable(s: bytes): Option<(seq<Operand>, bytes)> {
    match TakeI4(s)
    case None => None
    case Some((first, s1)) =>
      match TakeI4(s1)
      case None => None
      case Some((low, s2)) =>
        match TakeI4(s2)
        case None => None
        case Some((high, s3)) =>
          if high < low then None else
          match TakeBranches(high - low + 1, s3)
          case None => None
          case Some((ops, s4)) => Some(([Branch(first), TableLow(low), TableHigh(high)] + ops, s4))
  }

  function TakeLookup(s: bytes): Option<(seq<Operand>, bytes)> {
    match TakeI4(s)
    case None => None
    case Some((first, s1)) =>
      match TakeI4(s1)
      case None => None
      case Some((n, s2)) =>
        if n < 0 then None else
        match TakePairs(n, NO_KEY, s2)
        case None => None
        case Some((ops, s3)) => Some(([Branch(first)] + ops, s3))
  }

  lemma {:induction false} TakeBranchesOf(ops: seq<Operand>, rest: bytes)
    requires AllBranches(ops)
    ensures TakeBranches(|ops|, Words(ops) + rest) == Some((ops, rest))
    decreases |ops|
  {
    hide I4, TakeI4;
    if ops == [] {
      assert [] + rest == rest;
    } else {
      var w := I4(ops[0].displacement);
      assert ops[0] in ops;
      Assoc(w, Words(ops[1..]), rest);
      TakeI4Of(ops[0].displacement, Words(ops[1..]) + rest);
      TakeBranchesOf(ops[1..], rest);
      assert ops == [ops[0]] + ops[1..];
    }
  }

  lemma {:induction false} TakeBranchesExact(n: nat, s: bytes)
    requires TakeBranches(n, s).Some?
    ensures var (ops, rest) := TakeBranches(n, s).value; |ops| == n && AllBranches(ops) && s == Words(ops) + rest
  {
    hide I4, TakeI4;
    if n == 0 {
      assert [] + s == s;
    } else {
      var (v, tail) := TakeI4(s).value;
      TakeI4Exact(s);
      TakeBranchesExact(n - 1, tail);
      var (ops, rest) := TakeBranches(n, s).value;
      assert ops[1..] == TakeBranches(n - 1, tail).value.0;
      Assoc(I4(v), Words(ops[1..]), rest);
    }
  }

  lemma {:induction false} TakePairsOf(ops: seq<Operand>, floor: int, rest: bytes)
    requires Pairs(ops, floor)
    ensures forall op | op in ops :: op.Branch? || op.LookupKey?
    ensures TakePairs(|ops| / 2, floor, Words(ops) + rest) == Some((ops, rest))
    decreases |ops|
  {
    hide I4, TakeI4;
    PairsAreWords(ops, floor);
    if ops == [] {
      assert [] + rest == rest;
    } else {
      var tail := ops[2..];
      var k, v := I4(ops[0].key), I4(ops[1].displacement);
      assert ops[1..][1..] == tail && ops[1..][0] == ops[1];
      PairsAreWords(tail, ops[0].key);
      assert Words(ops) == k + (v + Words(tail));
      Assoc(k, v + Words(tail), rest);
      Assoc(v, Words(tail), rest);
      TakeI4Of(ops[0].key, v + (Words(tail) + rest));
      TakeI4Of(ops[1].displacement, Words(tail) + rest);
      TakePairsOf(tail, ops[0].key, rest);
      assert ops == [ops[0], ops[1]] + tail;
      assert |ops| / 2 - 1 == |tail| / 2;
    }
  }

  lemma {:induction false} TakePairsExact(n: nat, floor: int, s: bytes)
    requires TakePairs(n, floor, s).Some?
    ensures var (ops, rest) := TakePairs(n, floor, s).value;
      |ops| == 2 * n && Pairs(ops, floor) && (forall op | op in ops :: op.Branch? || op.LookupKey?) && s == Words(ops) + rest
  {
    hide I4, TakeI4;
    if n == 0 {
      assert [] + s == s;
    } else {
      var (key, s1) := TakeI4(s).value;
      var (v, s2) := TakeI4(s1).value;
      TakeI4Exact(s);
      TakeI4Exact(s1);
      TakePairsExact(n - 1, key, s2);
      var (ops, rest) := TakePairs(n, floor, s).value;
      var tail := TakePairs(n - 1, key, s2).value.0;
      assert ops[2..] == tail && ops[1..][1..] == tail && ops[1..][0] == Branch(v);
      PairsAreWords(ops, floor);
      assert Words(ops) == I4(key) + (I4(v) + Words(tail));
      Assoc(I4(key), I4(v) + Words(tail), rest);
      Assoc(I4(v), Words(tail), rest);
    }
  }

  lemma {:induction false} TakePaddingOf(n: nat, rest: bytes)
    ensures TakePadding(n, Zeros(n) + rest) == Some(rest)
  {
    if n == 0 {
      assert Zeros(0) + rest == rest;
    } else {
      assert (Zeros(n) + rest)[1..] == Zeros(n - 1) + rest;
      TakePaddingOf(n - 1, rest);
    }
  }

  lemma {:induction false} TakePaddingExact(n: nat, s: bytes)
    requires TakePadding(n, s).Some?
    ensures s == Zeros(n) + TakePadding(n, s).value
  {
    if n == 0 {
      assert Zeros(0) + s == s;
    } else {
      TakePaddingExact(n - 1, s[1..]);
      assert Zeros(n) == [0] + Zeros(n - 1);
      assert s == [0] + s[1..];
    }
  }

  lemma TakeTableOf(ops: seq<Operand>, rest: bytes)
    requires TableShape(ops)
    ensures TakeTable(EmitTable(ops) + rest) == Some((ops, rest))
  {
    hide I4, TakeI4, Words, TakeBranches;
    var words := Words(ops[3..]);
    var a, b, c := I4(ops[0].displacement), I4(ops[1].low), I4(ops[2].high);
    Assoc(a, b + (c + words), rest);
    Assoc(b, c + words, rest);
    Assoc(c, words, rest);
    TakeI4Of(ops[0].displacement, b + (c + (words + rest)));
    TakeI4Of(ops[1].low, c + (words + rest));
    TakeI4Of(ops[2].high, words + rest);
    TakeBranchesOf(ops[3..], rest);
    assert ops == [ops[0], ops[1], ops[2]] + ops[3..];
  }

  lemma TakeTableExact(s: bytes)
    requires TakeTable(s).Some?
    ensures var (ops, rest) := TakeTable(s).value; TableShape(ops) && s == EmitTable(ops) + rest
  {
    hide I4, TakeI4, Words, TakeBranches;
    var (first, s1) := TakeI4(s).value;
    var (low, s2) := TakeI4(s1).value;
    var (high, s3) := TakeI4(s2).value;
    TakeI4Exact(s);
    TakeI4Exact(s1);
    TakeI4Exact(s2);
    TakeBranchesExact(high - low + 1, s3);
    var (ops, rest) := TakeTable(s).value;
    var tail := TakeBranches(high - low + 1, s3).value.0;
    assert ops[3..] == tail;
    Assoc(I4(first), I4(low) + (I4(high) + Words(tail)), rest);
    Assoc(I4(low), I4(high) + Words(tail), rest);
    Assoc(I4(high), Words(tail), rest);
  }

  lemma TakeLookupOf(ops: seq<Operand>, rest: bytes)
    requires LookupShape(ops) && |ops| / 2 < 0x8000_0000
    ensures TakeLookup(EmitLookup(ops) + rest) == Some((ops, rest))
  {
    hide I4, TakeI4, Words, TakePairs;
    PairsAreWords(ops[1..], NO_KEY);
    var words, n := Words(ops[1..]), (|ops| - 1) / 2;
    var a, b := I4(ops[0].displacement), I4(n);
    Assoc(a, b + words, rest);
    Assoc(b, words, rest);
    TakeI4Of(ops[0].displacement, b + (words + rest));
    TakeI4Of(n, words + rest);
    TakePairsOf(ops[1..], NO_KEY, rest);
    assert ops == [ops[0]] + ops[1..];
  }

  lemma TakeLookupExact(s: bytes)
    requires TakeLookup(s).Some?
    ensures var (ops, rest) := TakeLookup(s).value;
      LookupShape(ops) && |ops| / 2 < 0x8000_0000 && s == EmitLookup(ops) + rest
  {
    hide I4, TakeI4, Words, TakePairs;
    var (first, s1) := TakeI4(s).value;
    var (n, s2) := TakeI4(s1).value;
    TakeI4Exact(s);
    TakeI4Exact(s1);
    TakePairsExact(n, NO_KEY, s2);
    var (ops, rest) := TakeLookup(s).value;
    var tail := TakePairs(n, NO_KEY, s2).value.0;
    assert ops[1..] == tail;
    Assoc(I4(first), I4(n) + Words(tail), rest);
    Assoc(I4(n), Words(tail), rest);
  }
}
