/** Whole code arrays: instruction sizes, layout, and decoding into a stream. */
module CodeArrays {
  import opened Exprs
  import opened Opcodes
  import opened Instructions

  // ---- one instruction ------------------------------------------------------------------

  function OperandCount(fs: seq<Opcodes.Field>): nat {
    if fs == [] then 0 else (if IsZero(fs[0]) then 0 else 1) + OperandCount(fs[1..])
  }

  /** The shape check of the layout pass. */
  predicate Shaped(i: Instruction) {
    (i.wide ==> Widenable(i.opcode))
    && match Row(i.opcode).layout
       case TableSwitch => TableShape(i.operands)
       case LookupSwitch => LookupShape(i.operands)
       case Fixed(fs) => |i.operands| == OperandCount(fs)
       case _ => false
  }

  /** The bytes an instruction takes when it starts at `start`. */
  function Size(i: Instruction, start: nat): (n: nat)
    ensures n > 0
  {
    (if i.wide then 2 else 1)
    + match Row(i.opcode).layout
      case TableSwitch => Padding(start + 1) + 12 + 4 * (if |i.operands| < 3 then 0 else |i.operands| - 3)
      case LookupSwitch => Padding(start + 1) + 8 + 8 * (if |i.operands| < 1 then 0 else (|i.operands| - 1) / 2)
      case Fixed(fs) => FieldsWidth(fs, i.wide)
      case _ => 0
  }

  function OpcodeBytes(i: Instruction): (r: bytes)
    ensures |r| == if i.wide then 2 else 1
  {
    if i.wide then [WIDE, i.opcode] else [i.opcode]
  }

  /** An instruction's bytes at `start`, when every operand has its role and fits its width. */
  function Emit(i: Instruction, start: nat): Option<bytes> {
    if !Shaped(i) then None else
    match Row(i.opcode).layout
    case TableSwitch => Some(OpcodeBytes(i) + (Zeros(Padding(start + 1)) + EmitTable(i.operands)))
    case LookupSwitch =>
      if |i.operands| / 2 >= 0x8000_0000 then None
      else Some(OpcodeBytes(i) + (Zeros(Padding(start + 1)) + EmitLookup(i.operands)))
    case Fixed(fs) =>
      (match EmitFields(fs, i.operands, i.wide)
       case None => None
       case Some(b) => Some(OpcodeBytes(i) + b))
  }

  /** Emission writes exactly what the layout pass reserved. */
  lemma EmitSize(i: Instruction, start: nat)
    requires Emit(i, start).Some?
    ensures |Emit(i, start).value| == Size(i, start)
  {
    hide Row, EmitFields, FieldsWidth, Words, I4, Widenable, TableShape;
    match Row(i.opcode).layout
    case Fixed(fs) => EmitFieldsWidth(fs, i.operands, i.wide);
    case TableSwitch => TableSize(i.operands);
    case LookupSwitch => PairsAreWords(i.operands[1..], NO_KEY);
  }

  lemma TableSize(ops: seq<Operand>)
    requires TableShape(ops)
    ensures |ops| >= 3 && |EmitTable(ops)| == 12 + 4 * (|ops| - 3)
  {
    hide I4, Words;
  }

  function FirstConstant(ops: seq<Operand>): Option<u16> {
    if ops == [] then None
    else if ops[0].Constant? then Some(ops[0].index)
    else FirstConstant(ops[1..])
  }

  /** The constant an instruction names is usable and of the right category. */
  predicate ConstantOk(pool: Pool, i: Instruction) {
    match FirstConstant(i.operands)
    case None => true
    case Some(index) => InPool(pool, index, Row(i.opcode).constants)
  }

  /** Operands after the opcode byte; `at` is where they start. */
  function TakeOperands(opcode: byte, wide: bool, at: nat, s: bytes): Option<(seq<Operand>, bytes)> {
    match Row(opcode).layout
    case TableSwitch =>
      (match TakePadding(Padding(at), s)
       case None => None
       case Some(rest) => TakeTable(rest))
    case LookupSwitch =>
      (match TakePadding(Padding(at), s)
       case None => None
       case Some(rest) => TakeLookup(rest))
    case Fixed(fs) => TakeFields(fs, wide, s)
    case _ => None
  }

  function TakeInstruction(s: bytes, start: nat, major: nat, pool: Pool): Option<(Instruction, bytes)> {
    if |s| == 0 || !Usable(s[0], major) then None else
    var wide := Row(s[0]).layout.WidePrefix?;
    if wide && (|s| < 2 || !Usable(s[1], major) || !Widenable(s[1])) then None else
    var opcode := if wide then s[1] else s[0];
    match TakeOperands(opcode, wide, start + 1, if wide then s[2..] else s[1..])
    case None => None
    case Some((ops, rest)) =>
      var i := Instruction(opcode, wide, ops);
      if ConstantOk(pool, i) then Some((i, rest)) else None
  }

  lemma {:induction false} FieldsCount(fs: seq<Opcodes.Field>, ops: seq<Operand>, wide: bool)
    requires EmitFields(fs, ops, wide).Some?
    ensures |ops| == OperandCount(fs)
  {
    hide EmitField;
    if fs != [] {
      FieldsCount(fs[1..], if IsZero(fs[0]) then ops else ops[1..], wide);
    }
  }

  /** The operands part of an emitted instruction. */
  function EmitOperands(i: Instruction, start: nat): bytes
    requires Emit(i, start).Some?
  {
    match Row(i.opcode).layout
    case TableSwitch => Zeros(Padding(start + 1)) + EmitTable(i.operands)
    case LookupSwitch => Zeros(Padding(start + 1)) + EmitLookup(i.operands)
    case Fixed(fs) => EmitFields(fs, i.operands, i.wide).value
  }

  lemma EmitSplit(i: Instruction, start: nat)
    requires Emit(i, start).Some?
    ensures Emit(i, start).value == OpcodeBytes(i) + EmitOperands(i, start)
  {
    hide Row, EmitFields, EmitTable, EmitLookup, TableShape, LookupShape, Widenable;
  }

  lemma TakeOperandsOf(i: Instruction, start: nat, rest: bytes)
    requires Emit(i, start).Some?
    ensures TakeOperands(i.opcode, i.wide, start + 1, EmitOperands(i, start) + rest) == Some((i.operands, rest))
  {
    hide Row, EmitFields, TakeFields, EmitTable, EmitLookup, TakeTable, TakeLookup, TakePadding, TableShape, LookupShape, Widenable;
    var pad := Padding(start + 1);
    match Row(i.opcode).layout
    case Fixed(fs) => TakeFieldsOf(fs, i.operands, i.wide, rest);
    case TableSwitch =>
      Assoc(Zeros(pad), EmitTable(i.operands), rest);
      TakePaddingOf(pad, EmitTable(i.operands) + rest);
      TakeTableOf(i.operands, rest);
    case LookupSwitch =>
      Assoc(Zeros(pad), EmitLookup(i.operands), rest);
      TakePaddingOf(pad, EmitLookup(i.operands) + rest);
      TakeLookupOf(i.operands, rest);
  }

  lemma ShapedIsNotPrefix(i: Instruction)
    requires Shaped(i)
    ensures !Row(i.opcode).layout.WidePrefix?
  {
  }

  lemma WideIsUsable(major: nat, op: byte)
    requires Usable(op, major)
    ensures Usable(WIDE, major) && Row(WIDE).layout.WidePrefix?
  {
  }

  /** An emitted instruction decodes to itself, whatever follows. */
  lemma TakeInstructionOf(i: Instruction, start: nat, major: nat, pool: Pool, rest: bytes)
    requires Emit(i, start).Some? && Usable(i.opcode, major) && ConstantOk(pool, i)
    ensures TakeInstruction(Emit(i, start).value + rest, start, major, pool) == Some((i, rest))
  {
    hide Row, TakeOperands, EmitOperands, ConstantOk, Emit, Usable, TableShape, LookupShape, Widenable;
    var body := EmitOperands(i, start);
    var s := Emit(i, start).value + rest;
    EmitSplit(i, start);
    Assoc(OpcodeBytes(i), body, rest);
    TakeOperandsOf(i, start, rest);
    assert Shaped(i) by { EmittedIsShaped(i, start); }
    ShapedIsNotPrefix(i);
    WideIsUsable(major, i.opcode);
    assert s[|OpcodeBytes(i)|..] == body + rest;
  }

  lemma EmittedIsShaped(i: Instruction, start: nat)
    requires Emit(i, start).Some?
    ensures Shaped(i)
  {
    hide Row, EmitFields, EmitTable, EmitLookup, TableShape, LookupShape, Widenable;
  }

  lemma TakeOperandsExact(opcode: byte, wide: bool, start: nat, s: bytes)
    requires TakeOperands(opcode, wide, start + 1, s).Some? && (wide ==> Widenable(opcode))
    ensures var (ops, rest) := TakeOperands(opcode, wide, start + 1, s).value;
      var i := Instruction(opcode, wide, ops);
      Emit(i, start).Some? && s == EmitOperands(i, start) + rest
  {
    hide Row, EmitFields, TakeFields, EmitTable, EmitLookup, TakeTable, TakeLookup, TakePadding, TableShape, LookupShape, Widenable;
    var (ops, rest) := TakeOperands(opcode, wide, start + 1, s).value;
    var pad := Padding(start + 1);
    match Row(opcode).layout
    case Fixed(fs) =>
      TakeFieldsExact(fs, wide, s);
      FieldsCount(fs, ops, wide);
    case TableSwitch =>
      TakePaddingExact(pad, s);
      TakeTableExact(TakePadding(pad, s).value);
      Assoc(Zeros(pad), EmitTable(ops), rest);
    case LookupSwitch =>
      TakePaddingExact(pad, s);
      TakeLookupExact(TakePadding(pad, s).value);
      Assoc(Zeros(pad), EmitLookup(ops), rest);
  }

  /** Only what an instruction emits decodes to it. */
  lemma TakeInstructionExact(s: bytes, start: nat, major: nat, pool: Pool)
    requires TakeInstruction(s, start, major, pool).Some?
    ensures var (i, rest) := TakeInstruction(s, start, major, pool).value;
      Usable(i.opcode, major) && ConstantOk(pool, i) && Emit(i, start).Some? && s == Emit(i, start).value + rest
  {
    hide Row, TakeOperands, EmitOperands, ConstantOk, Emit, Usable, Widenable;
    var wide := Row(s[0]).layout.WidePrefix?;
    var opcode := if wide then s[1] else s[0];
    var tail := if wide then s[2..] else s[1..];
    var (i, rest) := TakeInstruction(s, start, major, pool).value;
    if wide { OnlyWide(s[0]); }
    TakeOperandsExact(opcode, wide, start, tail);
    EmitSplit(i, start);
    assert s == OpcodeBytes(i) + tail;
    Assoc(OpcodeBytes(i), EmitOperands(i, start), rest);
  }

  lemma OnlyWide(op: byte)
    requires Row(op).layout.WidePrefix?
    ensures op == WIDE
  {
  }

  // ---- layout -----------------------------------------------------------------------------

  /** Where each instruction starts, and after the last one, where the code ends. */
  function Starts(code: seq<Instruction>, at: nat): (r: seq<nat>)
    ensures |r| == |code| + 1 && r[0] == at
  {
    if code == [] then [at] else [at] + Starts(code[1..], at + Size(code[0], at))
  }

  lemma {:induction false} StartsStep(code: seq<Instruction>, at: nat, k: nat)
    requires k < |code|
    ensures Starts(code, at)[k + 1] == Starts(code, at)[k] + Size(code[k], Starts(code, at)[k])
  {
    if k > 0 { StartsStep(code[1..], at + Size(code[0], at), k - 1); }
  }

  /** Offsets strictly increase. */
  lemma {:induction false} StartsIncrease(code: seq<Instruction>, at: nat, j: nat, k: nat)
    requires j < k <= |code|
    ensures Starts(code, at)[j] < Starts(code, at)[k]
  {
    StartsStep(code, at, k - 1);
    if j < k - 1 { StartsIncrease(code, at, j, k - 1); }
  }

  lemma StartsInjective(code: seq<Instruction>, at: nat, j: nat, k: nat)
    requires j <= |code| && k <= |code| && Starts(code, at)[j] == Starts(code, at)[k]
    ensures j == k
  {
    if j < k { StartsIncrease(code, at, j, k); }
    if k < j { StartsIncrease(code, at, k, j); }
  }

  /** Sizes, and so the layout, ignore operand values. */
  lemma {:induction false} StartsOfAlike(code: seq<Instruction>, js: seq<Instruction>, at: nat)
    requires |code| == |js|
    requires forall k | 0 <= k < |code| :: code[k].opcode == js[k].opcode && code[k].wide == js[k].wide && |code[k].operands| == |js[k].operands|
    ensures Starts(code, at) == Starts(js, at)
  {
    hide Size;
    if code != [] {
      SizeOfAlike(code[0], js[0], at);
      StartsOfAlike(code[1..], js[1..], at + Size(code[0], at));
    }
  }

  lemma SizeOfAlike(i: Instruction, j: Instruction, at: nat)
    requires i.opcode == j.opcode && i.wide == j.wide && |i.operands| == |j.operands|
    ensures Size(i, at) == Size(j, at)
  {
  }

  /** All instructions one after the other, each at its own start. */
  function EmitAll(code: seq<Instruction>, at: nat): Option<bytes> {
    if code == [] then Some([]) else
    match Emit(code[0], at)
    case None => None
    case Some(b) =>
      match EmitAll(code[1..], at + Size(code[0], at))
      case None => None
      case Some(rest) => Some(b + rest)
  }

  /** The code before an instruction is exactly as long as its offset says. */
  lemma {:induction false} EmittedBefore(code: seq<Instruction>, at: nat, k: nat)
    requires EmitAll(code, at).Some? && k <= |code|
    ensures EmitAll(code[..k], at).Some? && at + |EmitAll(code[..k], at).value| == Starts(code, at)[k]
    ensures EmitAll(code[..k], at).value <= EmitAll(code, at).value
  {
    hide Emit, Size;
    if k > 0 {
      EmitSize(code[0], at);
      EmittedBefore(code[1..], at + Size(code[0], at), k - 1);
      assert code[..k][1..] == code[1..][..k - 1] && code[..k][0] == code[0];
    }
  }

  /** Each instruction's own bytes stand between its start and the next one. */
  lemma {:induction false} EmitAllAt(code: seq<Instruction>, at: nat, k: nat)
    requires EmitAll(code, at).Some? && k < |code|
    ensures var starts := Starts(code, at);
      at <= starts[k] < starts[k + 1] <= at + |EmitAll(code, at).value|
      && Emit(code[k], starts[k]) == Some(EmitAll(code, at).value[starts[k] - at..starts[k + 1] - at])
    decreases k
  {
    hide Emit, Size;
    var b := Emit(code[0], at).value;
    var next := at + |b|;
    EmitSize(code[0], at);
    var rest := EmitAll(code[1..], next).value;
    if k == 0 {
      assert (b + rest)[..|b|] == b;
    } else {
      EmitAllAt(code[1..], next, k - 1);
      SliceAfter(b, rest, Starts(code, at)[k] - next, Starts(code, at)[k + 1] - next);
    }
  }

  lemma SliceAfter(b: bytes, rest: bytes, p: nat, q: nat)
    requires p <= q <= |rest|
    ensures (b + rest)[p + |b|..q + |b|] == rest[p..q]
  {
  }

  lemma {:induction false} EmittedLength(code: seq<Instruction>, at: nat)
    requires EmitAll(code, at).Some?
    ensures at + |EmitAll(code, at).value| == Starts(code, at)[|code|]
  {
    EmittedBefore(code, at, |code|);
    assert code[..|code|] == code;
  }
}
