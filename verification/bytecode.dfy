/**
  * What each opcode's bytes mean, as section 6.5 of the Java Virtual Machine
  * Specification lays them out, byte for byte.
  */
module Bytecode {
  import opened Exprs
  import opened Opcodes
  import opened Instructions
  import opened CodeArrays

  function SignedByte(b: byte): int {
    if b < 128 then b else b - 256
  }

  function SignedShort(a: byte, b: byte): int {
    a * 256 + b - if a < 128 then 0 else 0x1_0000
  }

  function SignedWord(a: byte, b: byte, c: byte, d: byte): int {
    a * 0x100_0000 + b * 0x1_0000 + c * 256 + d - if a < 128 then 0 else 0x1_0000_0000
  }

  lemma SignedBytes(a: byte, b: byte, c: byte, d: byte)
    ensures SignedByte(a) == Signed8(a) && SignedShort(a, b) == Signed16(FromU2(a, b))
    ensures SignedWord(a, b, c, d) == Signed32(FromU4(a, b, c, d))
  {
  }

  // ---- instructions of a fixed layout ------------------------------------------------------

  predicate HasNoOperand(op: byte) {
    op < 0x10 || 0x1A <= op <= 0x35 || 0x3B <= op <= 0x83 || 0x85 <= op <= 0x98 || 0xAC <= op <= 0xB1 ||
    op in {0xBE, 0xBF, 0xC2, 0xC3}
  }

  predicate HasLocal(op: byte) {
    0x15 <= op <= 0x19 || 0x36 <= op <= 0x3A || op == 0xA9
  }

  predicate HasShortBranch(op: byte) {
    0x99 <= op <= 0xA8 || op in {0xC6, 0xC7}
  }

  /** The remaining bytes are reserved, for debuggers or altogether. */
  predicate IsReserved(op: byte) {
    op >= 0xCA
  }

  /** The constants an instruction with a two-byte pool index and nothing else accepts. */
  predicate Accepts(op: byte, c: Opcodes.Constant) {
    match op
    case 0x13 => !c.LongOrDouble?
    case 0x14 => c.LongOrDouble?
    case 0xB6 => c.Method?
    case 0xB7 => c.Method? || c.InterfaceMethod?
    case 0xB8 => c.Method? || c.InterfaceMethod?
    case 0xBB => c.Class?
    case 0xBD => c.Class?
    case 0xC0 => c.Class?
    case 0xC1 => c.Class?
    case _ => 0xB2 <= op <= 0xB5 && c.Field?
  }

  predicate HasPoolIndex(op: byte) {
    op in {0x13, 0x14, 0xBB, 0xBD, 0xC0, 0xC1} || 0xB2 <= op <= 0xB8
  }

  // ---- single fields ---------------------------------------------------------------------------

  lemma ByteField(a: byte, rest: bytes)
    ensures TakeField(ValueS1, false, [a] + rest) == Some((Immediate(SignedByte(a)), rest))
    ensures TakeField(IncrementS1, false, [a] + rest) == Some((Immediate(SignedByte(a)), rest))
    ensures TakeField(LocalU1, false, [a] + rest) == Some((Operand.Local(a), rest))
    ensures TakeField(ConstantU1, false, [a] + rest) == Some((Constant(a), rest))
    ensures TakeField(CountU1, false, [a] + rest) == Some((Count(a), rest))
    ensures TakeField(DimensionsU1, false, [a] + rest) == Some((Dimensions(a), rest))
    ensures TakeField(AtypeU1, false, [a] + rest) == Some((ArrayType(a), rest))
  {
    SignedBytes(a, 0, 0, 0);
    assert ([a] + rest)[1..] == rest;
  }

  lemma ShortField(a: byte, b: byte, rest: bytes)
    ensures TakeField(ValueS2, false, [a, b] + rest) == Some((Immediate(SignedShort(a, b)), rest))
    ensures TakeField(IncrementS1, true, [a, b] + rest) == Some((Immediate(SignedShort(a, b)), rest))
    ensures TakeField(LocalU1, true, [a, b] + rest) == Some((Operand.Local(a * 256 + b), rest))
    ensures TakeField(ConstantU2, false, [a, b] + rest) == Some((Constant(a * 256 + b), rest))
    ensures TakeField(BranchS2, false, [a, b] + rest) == Some((Branch(SignedShort(a, b)), rest))
  {
    SignedBytes(0, 0, 0, 0);
    SignedBytes(a, b, 0, 0);
    assert ([a, b] + rest)[2..] == rest;
  }

  lemma WordField(a: byte, b: byte, c: byte, d: byte, rest: bytes)
    ensures -0x8000_0000 <= SignedWord(a, b, c, d) < 0x8000_0000
    ensures TakeField(BranchS4, false, [a, b, c, d] + rest) == Some((Branch(SignedWord(a, b, c, d)), rest))
  {
    SignedBytes(a, b, c, d);
    hide FromU4, SignedWord;
    assert ([a, b, c, d] + rest)[4..] == rest;
  }

  lemma OneField(f: Opcodes.Field, wide: bool, s: bytes, op: Operand, rest: bytes)
    requires !IsZero(f) && TakeField(f, wide, s) == Some((op, rest))
    ensures TakeFields([f], wide, s) == Some(([op], rest))
  {
    hide TakeField;
    assert [f][1..] == [] && [op] + [] == [op];
  }

  lemma TwoFields(f: Opcodes.Field, g: Opcodes.Field, wide: bool, s: bytes, x: Operand, s1: bytes, y: Operand, rest: bytes)
    requires !IsZero(f) && TakeField(f, wide, s) == Some((x, s1))
    requires !IsZero(g) && TakeField(g, wide, s1) == Some((y, rest))
    ensures TakeFields([f, g], wide, s) == Some(([x, y], rest))
  {
    OneField(g, wide, s1, y, rest);
    hide TakeField;
    assert [f, g][1..] == [g] && [x] + [y] == [x, y];
  }

  // ---- one instruction ----------------------------------------------------------------------------

  /** An opcode of a fixed layout, then its fields. */
  lemma TakesFixed(op: byte, fs: seq<Opcodes.Field>, operands: bytes, ops: seq<Operand>, rest: bytes, start: nat, major: nat, pool: Pool)
    requires Row(op).layout == Fixed(fs) && Usable(op, major)
    requires TakeFields(fs, false, operands + rest) == Some((ops, rest))
    ensures var i := Instruction(op, false, ops);
      TakeInstruction([op] + operands + rest, start, major, pool) == if ConstantOk(pool, i) then Some((i, rest)) else None
  {
    hide Row, TakeFields, ConstantOk, Usable;
    var s := [op] + operands + rest;
    assert s[0] == op && s[1..] == operands + rest;
  }

  lemma RefusesFixed(op: byte, fs: seq<Opcodes.Field>, operands: bytes, start: nat, major: nat, pool: Pool)
    requires Row(op).layout == Fixed(fs) && TakeFields(fs, false, operands) == None
    ensures TakeInstruction([op] + operands, start, major, pool) == None
  {
    hide Row, TakeFields, ConstantOk, Usable;
    var s := [op] + operands;
    assert s[0] == op && s[1..] == operands;
  }

  lemma NoPool(op: byte, wide: bool, ops: seq<Operand>, pool: Pool)
    requires forall o | o in ops :: !o.Constant?
    ensures ConstantOk(pool, Instruction(op, wide, ops))
  {
    NoConstants(ops);
  }

  lemma {:induction false} NoConstants(ops: seq<Operand>)
    requires forall op | op in ops :: !op.Constant?
    ensures FirstConstant(ops) == None
  {
    if ops != [] {
      assert forall op | op in ops[1..] :: op in ops;
      NoConstants(ops[1..]);
    }
  }

  lemma FromPool(op: byte, index: u16, others: seq<Operand>, pool: Pool)
    ensures ConstantOk(pool, Instruction(op, false, [Constant(index)] + others)) <==>
      (index as nat) in pool && Fits(pool[index], Row(op).constants)
  {
    hide Row, Fits;
  }

  lemma NoOperand(op: byte, rest: bytes, start: nat, major: nat, pool: Pool)
    requires HasNoOperand(op) && major >= 45
    ensures TakeInstruction([op] + rest, start, major, pool) == Some((Instruction(op, false, []), rest))
  {
    assert Row(op) == Plain([]);
    hide Row;
    assert [] + rest == rest && [op] + [] + rest == [op] + rest;
    NoPool(op, false, [], pool);
    TakesFixed(op, [], [], [], rest, start, major, pool);
  }

  /** `bipush` and `sipush`. */
  lemma Pushes(a: byte, b: byte, rest: bytes, start: nat, major: nat, pool: Pool)
    requires major >= 45
    ensures TakeInstruction([0x10, a] + rest, start, major, pool) == Some((Instruction(0x10, false, [Immediate(SignedByte(a))]), rest))
    ensures TakeInstruction([0x11, a, b] + rest, start, major, pool) == Some((Instruction(0x11, false, [Immediate(SignedShort(a, b))]), rest))
  {
    hide TakeField, TakeFields, TakeInstruction, SignedByte, SignedShort, ConstantOk;
    ByteField(a, rest);
    ShortField(a, b, rest);
    var x, y := Immediate(SignedByte(a)), Immediate(SignedShort(a, b));
    OneField(ValueS1, false, [a] + rest, x, rest);
    OneField(ValueS2, false, [a, b] + rest, y, rest);
    NoPool(0x10, false, [x], pool);
    NoPool(0x11, false, [y], pool);
    TakesFixed(0x10, [ValueS1], [a], [x], rest, start, major, pool);
    TakesFixed(0x11, [ValueS2], [a, b], [y], rest, start, major, pool);
    assert [0x10] + [a] == [0x10, a] && [0x11] + [a, b] == [0x11, a, b];
  }

  /** `ldc`: a one-byte index of a constant that takes one slot. */
  lemma Ldc(index: byte, rest: bytes, start: nat, major: nat, pool: Pool)
    requires major >= 45
    ensures TakeInstruction([0x12, index] + rest, start, major, pool) ==
      if (index as nat) in pool && !pool[index].LongOrDouble? then Some((Instruction(0x12, false, [Constant(index)]), rest)) else None
  {
    hide TakeField, TakeFields, TakeInstruction, ConstantOk;
    ByteField(index, rest);
    OneField(ConstantU1, false, [index] + rest, Constant(index), rest);
    FromPool(0x12, index, [], pool);
    assert [Constant(index)] + [] == [Constant(index)] && [0x12] + [index] == [0x12, index];
    TakesFixed(0x12, [ConstantU1], [index], [Constant(index)], rest, start, major, pool);
  }

  lemma PoolRow(op: byte)
    requires HasPoolIndex(op)
    ensures Row(op).layout == Fixed([ConstantU2]) && Row(op).since == Some(45)
    ensures forall c :: Fits(c, Row(op).constants) <==> Accepts(op, c)
  {
  }

  /** A two-byte pool index, refused when the constant there is missing or of another kind. */
  lemma PoolIndex(op: byte, a: byte, b: byte, rest: bytes, start: nat, major: nat, pool: Pool)
    requires HasPoolIndex(op) && major >= 45
    ensures var index := a * 256 + b;
      TakeInstruction([op, a, b] + rest, start, major, pool) ==
      if index in pool && Accepts(op, pool[index]) then Some((Instruction(op, false, [Constant(index)]), rest)) else None
  {
    PoolRow(op);
    hide TakeField, TakeFields, TakeInstruction, ConstantOk, Row, Fits, Accepts, HasPoolIndex;
    var index: u16 := a * 256 + b;
    ShortField(a, b, rest);
    OneField(ConstantU2, false, [a, b] + rest, Constant(index), rest);
    FromPool(op, index, [], pool);
    assert [Constant(index)] + [] == [Constant(index)] && [op] + [a, b] == [op, a, b];
    TakesFixed(op, [ConstantU2], [a, b], [Constant(index)], rest, start, major, pool);
  }

  lemma LocalIndex(op: byte, index: byte, rest: bytes, start: nat, major: nat, pool: Pool)
    requires HasLocal(op) && major >= 45
    ensures TakeInstruction([op, index] + rest, start, major, pool) == Some((Instruction(op, false, [Operand.Local(index)]), rest))
  {
    assert Row(op) == Plain([LocalU1]);
    hide TakeField, TakeFields, TakeInstruction, ConstantOk, Row;
    ByteField(index, rest);
    OneField(LocalU1, false, [index] + rest, Operand.Local(index), rest);
    NoPool(op, false, [Operand.Local(index)], pool);
    assert [op] + [index] == [op, index];
    TakesFixed(op, [LocalU1], [index], [Operand.Local(index)], rest, start, major, pool);
  }

  /** `iinc`. */
  lemma Iinc(index: byte, amount: byte, rest: bytes, start: nat, major: nat, pool: Pool)
    requires major >= 45
    ensures TakeInstruction([0x84, index, amount] + rest, start, major, pool) ==
      Some((Instruction(0x84, false, [Operand.Local(index), Immediate(SignedByte(amount))]), rest))
  {
    hide TakeField, TakeFields, TakeInstruction, ConstantOk;
    var x, y := Operand.Local(index), Immediate(SignedByte(amount));
    ByteField(index, [amount] + rest);
    ByteField(amount, rest);
    assert [index] + ([amount] + rest) == [index, amount] + rest;
    TwoFields(LocalU1, IncrementS1, false, [index, amount] + rest, x, [amount] + rest, y, rest);
    NoPool(0x84, false, [x, y], pool);
    assert [0x84] + [index, amount] == [0x84, index, amount];
    TakesFixed(0x84, [LocalU1, IncrementS1], [index, amount], [x, y], rest, start, major, pool);
  }

  /** Branches of two bytes. */
  lemma ShortBranch(op: byte, a: byte, b: byte, rest: bytes, start: nat, major: nat, pool: Pool)
    requires HasShortBranch(op) && major >= 45
    ensures TakeInstruction([op, a, b] + rest, start, major, pool) == Some((Instruction(op, false, [Branch(SignedShort(a, b))]), rest))
  {
    assert Row(op) == Plain([BranchS2]);
    hide TakeField, TakeFields, TakeInstruction, ConstantOk, Row, SignedShort;
    ShortField(a, b, rest);
    var x := Branch(SignedShort(a, b));
    OneField(BranchS2, false, [a, b] + rest, x, rest);
    NoPool(op, false, [x], pool);
    assert [op] + [a, b] == [op, a, b];
    TakesFixed(op, [BranchS2], [a, b], [x], rest, start, major, pool);
  }

  /** `goto_w` and `jsr_w`: branches of four bytes. */
  lemma LongBranch(op: byte, a: byte, b: byte, c: byte, d: byte, rest: bytes, start: nat, major: nat, pool: Pool)
    requires op in {0xC8, 0xC9} && major >= 45
    ensures -0x8000_0000 <= SignedWord(a, b, c, d) < 0x8000_0000
    ensures TakeInstruction([op, a, b, c, d] + rest, start, major, pool) ==
      Some((Instruction(op, false, [Branch(SignedWord(a, b, c, d))]), rest))
  {
    assert Row(op) == Plain([BranchS4]);
    hide TakeField, TakeFields, TakeInstruction, ConstantOk, Row, SignedWord;
    WordField(a, b, c, d, rest);
    var x := Branch(SignedWord(a, b, c, d));
    OneField(BranchS4, false, [a, b, c, d] + rest, x, rest);
    NoPool(op, false, [x], pool);
    assert [op] + [a, b, c, d] == [op, a, b, c, d];
    TakesFixed(op, [BranchS4], [a, b, c, d], [x], rest, start, major, pool);
  }

  lemma ZeroField(f: Opcodes.Field, s: bytes)
    requires IsZero(f)
    ensures TakeFields([f], false, s) ==
      if f.ZeroU1? then (if s != [] && s[0] == 0 then Some(([], s[1..])) else None)
      else if |s| >= 2 && s[0] == 0 && s[1] == 0 then Some(([], s[2..])) else None
  {
    assert [f][1..] == [];
  }

  lemma FieldThen(f: Opcodes.Field, fs: seq<Opcodes.Field>, s: bytes, op: Operand, rest: bytes)
    requires !IsZero(f) && TakeField(f, false, s) == Some((op, rest))
    ensures TakeFields([f] + fs, false, s) == match TakeFields(fs, false, rest)
      case None => None
      case Some((ops, tail)) => Some(([op] + ops, tail))
  {
    hide TakeField;
    assert ([f] + fs)[1..] == fs;
  }

  lemma InterfaceFields(a: byte, b: byte, count: byte, zero: byte, rest: bytes)
    ensures TakeFields([ConstantU2, CountU1, ZeroU1], false, [a, b, count, zero] + rest) ==
      if zero == 0 then Some(([Constant(a * 256 + b), Count(count)], rest)) else None
  {
    hide TakeField, TakeFields;
    var tail, last := [count, zero] + rest, [zero] + rest;
    var index: u16 := a * 256 + b;
    ShortField(a, b, tail);
    ByteField(count, last);
    assert [count] + last == tail && [a, b] + tail == [a, b, count, zero] + rest && last[1..] == rest;
    ZeroField(ZeroU1, last);
    FieldThen(CountU1, [ZeroU1], tail, Count(count), last);
    FieldThen(ConstantU2, [CountU1, ZeroU1], [a, b] + tail, Constant(index), tail);
    assert [ConstantU2] + [CountU1, ZeroU1] == [ConstantU2, CountU1, ZeroU1] && [CountU1] + [ZeroU1] == [CountU1, ZeroU1];
    assert [Count(count)] + [] == [Count(count)] && [Constant(index)] + [Count(count)] == [Constant(index), Count(count)];
  }

  lemma DynamicFields(a: byte, b: byte, c: byte, d: byte, rest: bytes)
    ensures TakeFields([ConstantU2, ZeroU2], false, [a, b, c, d] + rest) ==
      if c == 0 && d == 0 then Some(([Constant(a * 256 + b)], rest)) else None
  {
    hide TakeField, TakeFields;
    var tail := [c, d] + rest;
    ShortField(a, b, tail);
    assert [a, b] + tail == [a, b, c, d] + rest && tail[2..] == rest;
    ZeroField(ZeroU2, tail);
    FieldThen(ConstantU2, [ZeroU2], [a, b] + tail, Constant(a * 256 + b), tail);
    assert [ConstantU2] + [ZeroU2] == [ConstantU2, ZeroU2];
    assert [Constant(a * 256 + b)] + [] == [Constant(a * 256 + b)];
  }

  /** An instruction whose first operand is a pool index: taken when the constant there is of its category. */
  lemma TakesPooled(op: byte, fs: seq<Opcodes.Field>, operands: bytes, index: u16, others: seq<Operand>, rest: bytes,
                    start: nat, major: nat, pool: Pool)
    requires Row(op).layout == Fixed(fs) && Usable(op, major)
    requires TakeFields(fs, false, operands + rest) == Some(([Constant(index)] + others, rest))
    ensures TakeInstruction([op] + operands + rest, start, major, pool) ==
      if (index as nat) in pool && Fits(pool[index], Row(op).constants)
      then Some((Instruction(op, false, [Constant(index)] + others), rest)) else None
  {
    hide Row, TakeField, TakeFields, TakeInstruction, ConstantOk, Usable, Fits;
    FromPool(op, index, others, pool);
    TakesFixed(op, fs, operands, [Constant(index)] + others, rest, start, major, pool);
  }

  lemma RefusesFields(op: byte, fs: seq<Opcodes.Field>, operands: bytes, rest: bytes, start: nat, major: nat, pool: Pool)
    requires Row(op).layout == Fixed(fs) && TakeFields(fs, false, operands + rest) == None
    ensures TakeInstruction([op] + operands + rest, start, major, pool) == None
  {
    hide TakeInstruction, Row, TakeFields;
    RefusesFixed(op, fs, operands + rest, start, major, pool);
    Assoc([op], operands, rest);
  }

  lemma SpecialRows(major: nat)
    ensures Row(0xB9) == Pooled([ConstantU2, CountU1, ZeroU1], InterfaceRef) && (Usable(0xB9, major) <==> major >= 45)
    ensures Row(0xBA) == Metadata(Fixed([ConstantU2, ZeroU2]), DynamicRef, Some(51)) && (Usable(0xBA, major) <==> major >= 51)
    ensures Row(0xC5) == Pooled([ConstantU2, DimensionsU1], ClassRef) && (Usable(0xC5, major) <==> major >= 45)
  {
  }

  /** `invokeinterface`: an interface method, a count, and a byte that must be zero. */
  lemma InvokeInterface(a: byte, b: byte, count: byte, zero: byte, rest: bytes, start: nat, major: nat, pool: Pool)
    requires major >= 45
    ensures var index := a * 256 + b;
      TakeInstruction([0xB9, a, b, count, zero] + rest, start, major, pool) ==
      if zero == 0 && index in pool && pool[index].InterfaceMethod?
      then Some((Instruction(0xB9, false, [Constant(index), Count(count)]), rest)) else None
  {
    hide TakeField, TakeFields, TakeInstruction, ConstantOk, Row, Usable;
    var fs, operands := [ConstantU2, CountU1, ZeroU1], [a, b, count, zero];
    SpecialRows(major);
    InterfaceFields(a, b, count, zero, rest);
    assert [0xB9] + operands == [0xB9, a, b, count, zero];
    if zero == 0 {
      assert [Constant(a * 256 + b)] + [Count(count)] == [Constant(a * 256 + b), Count(count)];
      TakesPooled(0xB9, fs, operands, a * 256 + b, [Count(count)], rest, start, major, pool);
    } else {
      RefusesFields(0xB9, fs, operands, rest, start, major, pool);
    }
  }

  /** `invokedynamic`: a call site and two zero bytes, since version 51. */
  lemma InvokeDynamicCall(a: byte, b: byte, c: byte, d: byte, rest: bytes, start: nat, major: nat, pool: Pool)
    ensures var index := a * 256 + b;
      TakeInstruction([0xBA, a, b, c, d] + rest, start, major, pool) ==
      if major >= 51 && c == 0 && d == 0 && index in pool && pool[index].InvokeDynamic?
      then Some((Instruction(0xBA, false, [Constant(index)]), rest)) else None
  {
    SpecialRows(major);
    if major < 51 {
      TooNew([0xBA, a, b, c, d] + rest, start, major, pool);
    } else {
      hide TakeField, TakeFields, TakeInstruction, ConstantOk, Row, Usable;
      var fs, operands := [ConstantU2, ZeroU2], [a, b, c, d];
      DynamicFields(a, b, c, d, rest);
      assert [0xBA] + operands == [0xBA, a, b, c, d];
      if c == 0 && d == 0 {
        assert [Constant(a * 256 + b)] + [] == [Constant(a * 256 + b)];
        TakesPooled(0xBA, fs, operands, a * 256 + b, [], rest, start, major, pool);
      } else {
        RefusesFields(0xBA, fs, operands, rest, start, major, pool);
      }
    }
  }

  lemma TooNew(s: bytes, start: nat, major: nat, pool: Pool)
    requires s != [] && !Usable(s[0], major)
    ensures TakeInstruction(s, start, major, pool) == None
  {
  }

  lemma NewArray(a: byte, rest: bytes, start: nat, major: nat, pool: Pool)
    requires major >= 45
    ensures TakeInstruction([0xBC, a] + rest, start, major, pool) == Some((Instruction(0xBC, false, [ArrayType(a)]), rest))
  {
    assert Row(0xBC) == Plain([AtypeU1]);
    hide TakeField, TakeFields, TakeInstruction, ConstantOk, Row;
    ByteField(a, rest);
    OneField(AtypeU1, false, [a] + rest, ArrayType(a), rest);
    NoPool(0xBC, false, [ArrayType(a)], pool);
    assert [0xBC] + [a] == [0xBC, a];
    TakesFixed(0xBC, [AtypeU1], [a], [ArrayType(a)], rest, start, major, pool);
  }

  lemma MultiNewArray(a: byte, b: byte, c: byte, rest: bytes, start: nat, major: nat, pool: Pool)
    requires major >= 45
    ensures var index := a * 256 + b;
      TakeInstruction([0xC5, a, b, c] + rest, start, major, pool) ==
      if index in pool && pool[index].Class? then Some((Instruction(0xC5, false, [Constant(index), Dimensions(c)]), rest)) else None
  {
    hide TakeField, TakeFields, TakeInstruction, ConstantOk, Row, Usable;
    var index: u16 := a * 256 + b;
    SpecialRows(major);
    ShortField(a, b, [c] + rest);
    ByteField(c, rest);
    assert [a, b] + ([c] + rest) == [a, b, c] + rest && [0xC5] + [a, b, c] == [0xC5, a, b, c];
    TwoFields(ConstantU2, DimensionsU1, false, [a, b, c] + rest, Constant(index), [c] + rest, Dimensions(c), rest);
    assert [Constant(index)] + [Dimensions(c)] == [Constant(index), Dimensions(c)];
    TakesPooled(0xC5, [ConstantU2, DimensionsU1], [a, b, c], index, [Dimensions(c)], rest, start, major, pool);
  }

  // ---- wide ---------------------------------------------------------------------------------

  lemma TakesWide(op: byte, fs: seq<Opcodes.Field>, operands: bytes, ops: seq<Operand>, rest: bytes, start: nat, major: nat, pool: Pool)
    requires Row(op).layout == Fixed(fs) && Usable(op, major) && Widenable(op) && Usable(0xC4, major) && Row(0xC4).layout.WidePrefix?
    requires TakeFields(fs, true, operands + rest) == Some((ops, rest)) && ConstantOk(pool, Instruction(op, true, ops))
    ensures TakeInstruction([0xC4, op] + operands + rest, start, major, pool) == Some((Instruction(op, true, ops), rest))
  {
    hide Row, TakeFields, ConstantOk, Usable, Widenable;
    var s := [0xC4, op] + operands + rest;
    assert s[0] == 0xC4 && s[1] == op && s[2..] == operands + rest;
  }

  /** `wide` doubles the local index. */
  lemma WideLocal(op: byte, a: byte, b: byte, rest: bytes, start: nat, major: nat, pool: Pool)
    requires HasLocal(op) && major >= 45
    ensures TakeInstruction([0xC4, op, a, b] + rest, start, major, pool) ==
      Some((Instruction(op, true, [Operand.Local(a * 256 + b)]), rest))
  {
    assert Row(op) == Plain([LocalU1]) && Row(0xC4).layout == WidePrefix && Row(0xC4).since == Some(45);
    hide TakeField, TakeFields, TakeInstruction, ConstantOk, Row;
    var x := Operand.Local(a * 256 + b);
    ShortField(a, b, rest);
    OneField(LocalU1, true, [a, b] + rest, x, rest);
    NoPool(op, true, [x], pool);
    assert [0xC4, op] + [a, b] == [0xC4, op, a, b];
    TakesWide(op, [LocalU1], [a, b], [x], rest, start, major, pool);
  }

  /** And both operands of `iinc`. */
  lemma WideIinc(a: byte, b: byte, c: byte, d: byte, rest: bytes, start: nat, major: nat, pool: Pool)
    requires major >= 45
    ensures TakeInstruction([0xC4, 0x84, a, b, c, d] + rest, start, major, pool) ==
      Some((Instruction(0x84, true, [Operand.Local(a * 256 + b), Immediate(SignedShort(c, d))]), rest))
  {
    assert Row(0x84) == Plain([LocalU1, IncrementS1]) && Row(0xC4).layout == WidePrefix && Row(0xC4).since == Some(45);
    hide TakeField, TakeFields, TakeInstruction, ConstantOk, Row, SignedShort;
    var x, y := Operand.Local(a * 256 + b), Immediate(SignedShort(c, d));
    ShortField(a, b, [c, d] + rest);
    ShortField(c, d, rest);
    assert [a, b] + ([c, d] + rest) == [a, b, c, d] + rest;
    TwoFields(LocalU1, IncrementS1, true, [a, b, c, d] + rest, x, [c, d] + rest, y, rest);
    NoPool(0x84, true, [x, y], pool);
    assert [0xC4, 0x84] + [a, b, c, d] == [0xC4, 0x84, a, b, c, d];
    TakesWide(0x84, [LocalU1, IncrementS1], [a, b, c, d], [x, y], rest, start, major, pool);
  }

  /** Nothing else may be widened. */
  lemma WideRefused(op: byte, rest: bytes, start: nat, major: nat, pool: Pool)
    requires !HasLocal(op) && op != 0x84
    ensures TakeInstruction([0xC4, op] + rest, start, major, pool) == None
  {
    var s := [0xC4, op] + rest;
    assert s[0] == 0xC4 && s[1] == op;
  }

  // ---- bytes that are no instruction ----------------------------------------------------------

  lemma ReservedRefused(op: byte, rest: bytes, start: nat, major: nat, pool: Pool)
    requires IsReserved(op)
    ensures TakeInstruction([op] + rest, start, major, pool) == None
  {
  }

  /** No opcode is older than version 45. */
  lemma TooOld(s: bytes, start: nat, major: nat, pool: Pool)
    requires major < 45
    ensures TakeInstruction(s, start, major, pool) == None
  {
  }

  // ---- switches ---------------------------------------------------------------------------------

  /** Four bytes for each branch, most significant byte first. */
  function BranchWords(ds: seq<i32>): bytes {
    if ds == [] then [] else I4(ds[0]) + BranchWords(ds[1..])
  }

  function BranchOperands(ds: seq<i32>): seq<Operand> {
    if ds == [] then [] else [Branch(ds[0])] + BranchOperands(ds[1..])
  }

  lemma {:induction false} BranchWordsAre(ds: seq<i32>)
    ensures |BranchOperands(ds)| == |ds| && AllBranches(BranchOperands(ds)) && Words(BranchOperands(ds)) == BranchWords(ds)
  {
    if ds != [] { BranchWordsAre(ds[1..]); }
  }

  function TableOperands(other: i32, low: i32, high: i32, ds: seq<i32>): seq<Operand> {
    [Branch(other), TableLow(low), TableHigh(high)] + BranchOperands(ds)
  }

  lemma TableBytes(other: i32, low: i32, high: i32, ds: seq<i32>)
    requires low <= high && |ds| == high - low + 1
    ensures var ops := TableOperands(other, low, high, ds);
      TableShape(ops) && EmitTable(ops) == I4(other) + (I4(low) + (I4(high) + BranchWords(ds)))
      && forall o | o in ops :: !o.Constant?
  {
    hide I4;
    BranchWordsAre(ds);
    assert TableOperands(other, low, high, ds)[3..] == BranchOperands(ds);
  }

  /** `tableswitch`: zeros up to a multiple of four, then the default, the range, and one branch for each key. */
  lemma TableSwitchBytes(pad: nat, other: i32, low: i32, high: i32, ds: seq<i32>, rest: bytes, start: nat, major: nat, pool: Pool)
    requires pad < 4 && (start + 1 + pad) % 4 == 0 && low <= high && |ds| == high - low + 1 && major >= 45
    ensures TakeInstruction([0xAA] + Zeros(pad) + I4(other) + I4(low) + I4(high) + BranchWords(ds) + rest, start, major, pool) ==
      Some((Instruction(0xAA, false, TableOperands(other, low, high, ds)), rest))
  {
    hide I4, BranchWords, Emit, TakeInstruction, TableOperands, Row, ConstantOk, Usable, EmitTable, TableShape, Padding;
    var i := Instruction(0xAA, false, TableOperands(other, low, high, ds));
    TableBytes(other, low, high, ds);
    PadIs(start + 1, pad);
    TableEmits(i, start);
    NoPool(0xAA, false, i.operands, pool);
    SwitchesUsable(major);
    TakeInstructionOf(i, start, major, pool, rest);
    FivePieces(0xAA, Zeros(pad), I4(other), I4(low), I4(high), BranchWords(ds));
  }

  lemma SwitchesUsable(major: nat)
    requires major >= 45
    ensures Usable(0xAA, major) && Usable(0xAB, major)
  {
  }

  lemma FivePieces(op: byte, a: bytes, b: bytes, c: bytes, d: bytes, e: bytes)
    ensures [op] + a + b + c + d + e == [op] + (a + (b + (c + (d + e))))
  {
    Assoc([op] + a + b + c, d, e);
    Assoc([op] + a + b, c, d + e);
    Assoc([op] + a, b, c + (d + e));
    Assoc([op], a, b + (c + (d + e)));
  }

  lemma PadIs(at: nat, pad: nat)
    requires pad < 4 && (at + pad) % 4 == 0
    ensures Padding(at) == pad
  {
  }

  lemma TableEmits(i: Instruction, start: nat)
    requires i.opcode == 0xAA && !i.wide && TableShape(i.operands)
    ensures Emit(i, start) == Some([0xAA] + (Zeros(Padding(start + 1)) + EmitTable(i.operands)))
  {
    hide EmitTable, TableShape;
  }

  lemma LookupEmits(i: Instruction, start: nat)
    requires i.opcode == 0xAB && !i.wide && LookupShape(i.operands) && |i.operands| / 2 < 0x8000_0000
    ensures Emit(i, start) == Some([0xAB] + (Zeros(Padding(start + 1)) + EmitLookup(i.operands)))
  {
    hide EmitLookup, LookupShape;
  }

  /** One key with its branch. */
  datatype Case = Case(key: i32, displacement: i32)

  function CaseWords(cs: seq<Case>): bytes {
    if cs == [] then [] else I4(cs[0].key) + I4(cs[0].displacement) + CaseWords(cs[1..])
  }

  function CaseOperands(cs: seq<Case>): (r: seq<Operand>)
    ensures |r| == 2 * |cs|
  {
    if cs == [] then [] else [LookupKey(cs[0].key), Branch(cs[0].displacement)] + CaseOperands(cs[1..])
  }

  predicate Increasing(cs: seq<Case>) {
    forall i | 0 < i < |cs| :: cs[i - 1].key < cs[i].key
  }

  lemma {:induction false} CasesArePairs(cs: seq<Case>, floor: int)
    requires Increasing(cs) && (cs != [] ==> cs[0].key > floor)
    ensures Pairs(CaseOperands(cs), floor)
    decreases |cs|
  {
    if cs != [] {
      var ops := CaseOperands(cs);
      assert ops[2..] == CaseOperands(cs[1..]);
      assert forall i | 0 < i < |cs[1..]| :: cs[1..][i - 1] == cs[i] && cs[1..][i] == cs[i + 1];
      CasesArePairs(cs[1..], cs[0].key);
    }
  }

  lemma WordsStep(op: Operand, ops: seq<Operand>)
    requires (op.Branch? || op.LookupKey?) && forall o | o in ops :: o.Branch? || o.LookupKey?
    ensures Words([op] + ops) == I4(if op.Branch? then op.displacement else op.key) + Words(ops)
  {
    hide I4;
    assert ([op] + ops)[1..] == ops;
  }

  lemma {:induction false} CaseWordsAre(cs: seq<Case>)
    ensures forall o | o in CaseOperands(cs) :: o.Branch? || o.LookupKey?
    ensures Words(CaseOperands(cs)) == CaseWords(cs)
  {
    hide I4, Words;
    if cs == [] {
      NoWords();
    } else {
      var rest := CaseOperands(cs[1..]);
      var key, branch := LookupKey(cs[0].key), Branch(cs[0].displacement);
      CaseWordsAre(cs[1..]);
      assert [key] + ([branch] + rest) == CaseOperands(cs);
      WordsStep(branch, rest);
      WordsStep(key, [branch] + rest);
      Assoc(I4(cs[0].key), I4(cs[0].displacement), CaseWords(cs[1..]));
    }
  }

  lemma NoWords()
    ensures Words([]) == []
  {
  }

  function LookupOperands(other: i32, cs: seq<Case>): seq<Operand> {
    [Branch(other)] + CaseOperands(cs)
  }

  lemma LookupBytes(other: i32, cs: seq<Case>)
    requires Increasing(cs) && |cs| < 0x8000_0000
    ensures var ops := LookupOperands(other, cs);
      LookupShape(ops) && |ops| / 2 < 0x8000_0000 && EmitLookup(ops) == I4(other) + (I4(|cs|) + CaseWords(cs))
      && forall o | o in ops :: !o.Constant?
  {
    hide I4;
    CasesArePairs(cs, NO_KEY);
    CaseWordsAre(cs);
    PairsAreWords(CaseOperands(cs), NO_KEY);
    assert LookupOperands(other, cs)[1..] == CaseOperands(cs);
  }

  /** `lookupswitch`: zeros up to a multiple of four, then the default, the number of cases, and each key with its branch. */
  lemma LookupSwitchBytes(pad: nat, other: i32, cs: seq<Case>, rest: bytes, start: nat, major: nat, pool: Pool)
    requires pad < 4 && (start + 1 + pad) % 4 == 0 && Increasing(cs) && |cs| < 0x8000_0000 && major >= 45
    ensures TakeInstruction([0xAB] + Zeros(pad) + I4(other) + I4(|cs|) + CaseWords(cs) + rest, start, major, pool) ==
      Some((Instruction(0xAB, false, LookupOperands(other, cs)), rest))
  {
    hide I4, CaseWords, Emit, TakeInstruction, LookupOperands, Row, ConstantOk, Usable, EmitLookup, LookupShape, Padding;
    var i := Instruction(0xAB, false, LookupOperands(other, cs));
    LookupBytes(other, cs);
    PadIs(start + 1, pad);
    LookupEmits(i, start);
    NoPool(0xAB, false, i.operands, pool);
    SwitchesUsable(major);
    TakeInstructionOf(i, start, major, pool, rest);
    FourPieces(0xAB, Zeros(pad), I4(other), I4(|cs|), CaseWords(cs));
  }

  lemma FourPieces(op: byte, a: bytes, b: bytes, c: bytes, d: bytes)
    ensures [op] + a + b + c + d == [op] + (a + (b + (c + d)))
  {
    Assoc([op] + a + b, c, d);
    Assoc([op] + a, b, c + d);
    Assoc([op], a, b + (c + d));
  }

  /** A word is its four bytes, most significant first, in two's complement. */
  lemma WordBytes(a: byte, b: byte, c: byte, d: byte)
    ensures -0x8000_0000 <= SignedWord(a, b, c, d) < 0x8000_0000 && I4(SignedWord(a, b, c, d)) == [a, b, c, d]
  {
    SignedBytes(a, b, c, d);
    U4From(a, b, c, d);
  }
}
