/** The instruction decoder and encoder as they run, over a cursor and a mutable stream. */
module InstructionCoders {
  import opened Exprs
  import opened Opcodes
  import opened Instructions
  import opened CodeArrays
  import opened Relocation

  /** A decoded code array that the encoder rewrites in place. */
  class DecodedCode {
    var instructions: seq<Located>
    var offsets: map<u32, u32>

    ghost function Value(): Stream
      reads this
    {
      Stream(instructions, offsets)
    }

    constructor (instructions: seq<Located>, offsets: map<u32, u32>)
      ensures Value() == Stream(instructions, offsets)
    {
      this.instructions, this.offsets := instructions, offsets;
    }
  }

  // ---- decoding ----------------------------------------------------------------------------

  /** A cursor over a code array. */
  class CodeCursor {
    const code: bytes
    var at: nat

    ghost predicate Valid()
      reads this
    {
      at <= |code|
    }

    ghost function Rest(): bytes
      reads this
      requires Valid()
    {
      code[at..]
    }

    ghost predicate Took<T>(spec: Option<(T, bytes)>, r: Option<T>)
      reads this
      requires Valid()
    {
      match spec
      case None => r.None?
      case Some((v, rest)) => r == Some(v) && Rest() == rest
    }

    constructor (code: bytes)
      ensures Valid() && this.code == code && at == 0
    {
      this.code, at := code, 0;
    }

    method ReadU1() returns (r: Option<byte>)
      requires Valid()
      modifies this
      ensures Valid() && Took(TakeU1(old(Rest())), r)
    {
      if at >= |code| { return None; }
      r := Some(code[at]);
      at := at + 1;
    }

    method ReadU2() returns (r: Option<u16>)
      requires Valid()
      modifies this
      ensures Valid() && Took(TakeU2(old(Rest())), r)
    {
      hide FromU2;
      var a := ReadU1();
      if a.None? { return None; }
      var b := ReadU1();
      if b.None? { return None; }
      return Some(FromU2(a.value, b.value));
    }

    method ReadI4() returns (r: Option<i32>)
      requires Valid()
      modifies this
      ensures Valid() && Took(TakeI4(old(Rest())), r)
    {
      hide FromU4, Signed32;
      var a := ReadU1();
      if a.None? { return None; }
      var b := ReadU1();
      if b.None? { return None; }
      var c := ReadU1();
      if c.None? { return None; }
      var d := ReadU1();
      if d.None? { return None; }
      return Some(Signed32(FromU4(a.value, b.value, c.value, d.value)));
    }

    /** Bytes up to the next multiple of four, all zero. */
    method ReadPadding() returns (ok: bool)
      requires Valid()
      modifies this
      ensures Valid()
      ensures match TakePadding(Padding(old(at)), old(Rest()))
              case None => !ok
              case Some(rest) => ok && Rest() == rest
    {
      var n, i := Padding(at), 0;
      ghost var goal := TakePadding(n, Rest());
      while i < n
        invariant 0 <= i <= n && Valid() && goal == TakePadding(n - i, Rest())
      {
        var b := ReadU1();
        if b.None? || b.value != 0 { return false; }
        i := i + 1;
      }
      return true;
    }

    method ReadTableSwitch() returns (r: Option<seq<Operand>>)
      requires Valid()
      modifies this
      ensures Valid()
      ensures match TakePadding(Padding(old(at)), old(Rest()))
              case None => r.None?
              case Some(rest) => Took(TakeTable(rest), r)
    {
      hide TakePadding, TakeI4, TakeBranches;
      var padded := ReadPadding();
      if !padded { return None; }
      var first := ReadI4();
      if first.None? { return None; }
      var low := ReadI4();
      if low.None? { return None; }
      var high := ReadI4();
      if high.None? || high.value < low.value { return None; }
      var operands := [Branch(first.value), TableLow(low.value), TableHigh(high.value)];
      var n, i := (high.value as int) - low.value + 1, 0;
      ghost var start := Rest();
      while i < n
        invariant 0 <= i <= n && Valid()
        invariant After(operands, TakeBranches(n - i, Rest()))
               == After([Branch(first.value), TableLow(low.value), TableHigh(high.value)], TakeBranches(n, start))
      {
        BranchesStep(operands, n - i, Rest());
        var v := ReadI4();
        if v.None? { return None; }
        operands := operands + [Branch(v.value)];
        i := i + 1;
      }
      BranchesDone(operands, Rest());
      return Some(operands);
    }

    method ReadLookupSwitch() returns (r: Option<seq<Operand>>)
      requires Valid()
      modifies this
      ensures Valid()
      ensures match TakePadding(Padding(old(at)), old(Rest()))
              case None => r.None?
              case Some(rest) => Took(TakeLookup(rest), r)
    {
      hide TakePadding, TakeI4, TakePairs;
      var padded := ReadPadding();
      if !padded { return None; }
      var first := ReadI4();
      if first.None? { return None; }
      var n := ReadI4();
      if n.None? || n.value < 0 { return None; }
      var operands := [Branch(first.value)];
      var i, previous := 0, NO_KEY;
      ghost var start := Rest();
      while i < n.value
        invariant 0 <= i <= n.value && Valid()
        invariant After(operands, TakePairs(n.value - i, previous, Rest())) == After([Branch(first.value)], TakePairs(n.value, NO_KEY, start))
      {
        PairsStep(operands, n.value - i, previous, Rest());
        var key := ReadI4();
        if key.None? || key.value <= previous { return None; }
        var v := ReadI4();
        if v.None? { return None; }
        operands := operands + [LookupKey(key.value), Branch(v.value)];
        previous := key.value;
        i := i + 1;
      }
      PairsDone(operands, previous, Rest());
      return Some(operands);
    }

    /** One operand in the role its manifest field gives it. */
    method ReadField(f: Opcodes.Field, wide: bool) returns (r: Option<Operand>)
      requires Valid() && !IsZero(f)
      modifies this
      ensures Valid() && Took(TakeField(f, wide, old(Rest())), r)
    {
      hide FromU2, FromU4, Signed8, Signed16, Signed32;
      if f.BranchS4? {
        var v := ReadI4();
        return if v.Some? then Some(Branch(v.value)) else None;
      }
      if FieldWidth(f, wide) == 2 {
        var v := ReadU2();
        return if v.Some? then Some(OperandOfU2(f, v.value)) else None;
      }
      if f.ValueS1? && wide { return None; }
      var v := ReadU1();
      return if v.Some? then Some(OperandOfU1(f, v.value)) else None;
    }

    method ReadFields(fs: seq<Opcodes.Field>, wide: bool) returns (r: Option<seq<Operand>>)
      requires Valid()
      modifies this
      ensures Valid() && Took(TakeFields(fs, wide, old(Rest())), r)
    {
      hide TakeFields, TakeField;
      var operands: seq<Operand>, i := [], 0;
      ghost var goal := TakeFields(fs, wide, Rest());
      AfterNothing(goal);
      assert fs[0..] == fs;
      while i < |fs|
        invariant 0 <= i <= |fs| && Valid() && goal == After(operands, TakeFields(fs[i..], wide, Rest()))
      {
        FieldsStep(operands, fs[i..], wide, Rest());
        assert fs[i..][1..] == fs[i + 1..];
        if fs[i].ZeroU1? {
          var z := ReadU1();
          if z.None? || z.value != 0 { return None; }
        } else if fs[i].ZeroU2? {
          var z := ReadU2();
          if z.None? || z.value != 0 { return None; }
        } else {
          var op := ReadField(fs[i], wide);
          if op.None? { return None; }
          operands := operands + [op.value];
        }
        i := i + 1;
      }
      FieldsDone(operands, fs[i..], wide, Rest());
      return Some(operands);
    }

    method ReadOperands(opcode: byte, wide: bool) returns (r: Option<seq<Operand>>)
      requires Valid()
      modifies this
      ensures Valid() && Took(TakeOperands(opcode, wide, old(at), old(Rest())), r)
    {
      hide Row, TakePadding, TakeTable, TakeLookup, TakeFields;
      match Row(opcode).layout {
        case TableSwitch => r := ReadTableSwitch();
        case LookupSwitch => r := ReadLookupSwitch();
        case Fixed(fs) => r := ReadFields(fs, wide);
        case _ => return None;
      }
    }

    method ReadInstruction(major: nat, pool: Pool) returns (r: Option<Instruction>)
      requires Valid()
      modifies this
      ensures Valid() && Took(TakeInstruction(old(Rest()), old(at), major, pool), r)
    {
      hide Row, TakeOperands, ConstantOk, Usable, Widenable;
      ghost var start := at;
      var first := ReadU1();
      if first.None? || !Usable(first.value, major) { return None; }
      var opcode, wide := first.value, Row(first.value).layout.WidePrefix?;
      if wide {
        var second := ReadU1();
        if second.None? || !Usable(second.value, major) || !Widenable(second.value) { return None; }
        opcode := second.value;
        WidenableIsFixed(opcode, start + 1, at, Rest());
      }
      var operands := ReadOperands(opcode, wide);
      if operands.None? { return None; }
      var i := Instruction(opcode, wide, operands.value);
      return if ConstantOk(pool, i) then Some(i) else None;
    }
  }

  /** A two-byte operand in its field's role. */
  function OperandOfU2(f: Opcodes.Field, v: u16): Operand {
    match f
    case LocalU1 => Operand.Local(v)
    case ConstantU2 => Constant(v)
    case BranchS2 => Branch(Signed16(v))
    case _ => Immediate(Signed16(v))
  }

  function OperandOfU1(f: Opcodes.Field, v: byte): Operand {
    match f
    case LocalU1 => Operand.Local(v)
    case ConstantU1 => Constant(v)
    case CountU1 => Count(v)
    case DimensionsU1 => Dimensions(v)
    case AtypeU1 => ArrayType(v)
    case _ => Immediate(Signed8(v))
  }

  /** Only switches care where their operands start, and switches are never wide. */
  lemma WidenableIsFixed(opcode: byte, p: nat, q: nat, s: bytes)
    requires Widenable(opcode)
    ensures TakeOperands(opcode, true, p, s) == TakeOperands(opcode, true, q, s)
  {
  }

  /** A result with operands already read put in front. */
  ghost function After(ops: seq<Operand>, r: Option<(seq<Operand>, bytes)>): Option<(seq<Operand>, bytes)> {
    match r
    case None => None
    case Some((more, rest)) => Some((ops + more, rest))
  }

  lemma AfterNothing(r: Option<(seq<Operand>, bytes)>)
    ensures After([], r) == r
  {
    if r.Some? { assert [] + r.value.0 == r.value.0; }
  }

  lemma AfterMore(ops: seq<Operand>, more: seq<Operand>, r: Option<(seq<Operand>, bytes)>)
    ensures After(ops, After(more, r)) == After(ops + more, r)
  {
    if r.Some? { Assoc(ops, more, r.value.0); }
  }

  lemma BranchesStep(ops: seq<Operand>, n: nat, s: bytes)
    requires n > 0
    ensures After(ops, TakeBranches(n, s)) == match TakeI4(s)
      case None => None
      case Some((v, rest)) => After(ops + [Branch(v)], TakeBranches(n - 1, rest))
  {
    hide TakeI4;
    match TakeI4(s)
    case None =>
    case Some((v, rest)) => AfterMore(ops, [Branch(v)], TakeBranches(n - 1, rest));
  }

  lemma BranchesDone(ops: seq<Operand>, s: bytes)
    ensures After(ops, TakeBranches(0, s)) == Some((ops, s))
  {
    assert ops + [] == ops;
  }

  lemma PairsStep(ops: seq<Operand>, n: nat, floor: int, s: bytes)
    requires n > 0
    ensures After(ops, TakePairs(n, floor, s)) == match TakeI4(s)
      case None => None
      case Some((key, rest)) =>
        if key <= floor then None else match TakeI4(rest)
          case None => None
          case Some((v, tail)) => After(ops + [LookupKey(key), Branch(v)], TakePairs(n - 1, key, tail))
  {
    hide TakeI4;
    match TakeI4(s)
    case None =>
    case Some((key, rest)) =>
      match TakeI4(rest)
      case None =>
      case Some((v, tail)) => AfterMore(ops, [LookupKey(key), Branch(v)], TakePairs(n - 1, key, tail));
  }

  lemma PairsDone(ops: seq<Operand>, floor: int, s: bytes)
    ensures After(ops, TakePairs(0, floor, s)) == Some((ops, s))
  {
    assert ops + [] == ops;
  }

  ghost function AfterOneZero(ops: seq<Operand>, fs: seq<Opcodes.Field>, wide: bool, s: bytes): Option<(seq<Operand>, bytes)> {
    match TakeU1(s)
    case None => None
    case Some((z, rest)) => if z != 0 then None else After(ops, TakeFields(fs, wide, rest))
  }

  ghost function AfterTwoZeros(ops: seq<Operand>, fs: seq<Opcodes.Field>, wide: bool, s: bytes): Option<(seq<Operand>, bytes)> {
    match TakeU2(s)
    case None => None
    case Some((z, rest)) => if z != 0 then None else After(ops, TakeFields(fs, wide, rest))
  }

  ghost function AfterField(ops: seq<Operand>, f: Opcodes.Field, fs: seq<Opcodes.Field>, wide: bool, s: bytes): Option<(seq<Operand>, bytes)>
    requires !IsZero(f)
  {
    match TakeField(f, wide, s)
    case None => None
    case Some((op, rest)) => After(ops + [op], TakeFields(fs, wide, rest))
  }

  lemma FieldsStep(ops: seq<Operand>, fs: seq<Opcodes.Field>, wide: bool, s: bytes)
    requires fs != []
    ensures After(ops, TakeFields(fs, wide, s))
      == if fs[0].ZeroU1? then AfterOneZero(ops, fs[1..], wide, s)
         else if fs[0].ZeroU2? then AfterTwoZeros(ops, fs[1..], wide, s)
         else AfterField(ops, fs[0], fs[1..], wide, s)
  {
    hide TakeField;
    if !IsZero(fs[0]) {
      match TakeField(fs[0], wide, s)
      case None =>
      case Some((op, rest)) => AfterMore(ops, [op], TakeFields(fs[1..], wide, rest));
    }
  }

  lemma FieldsDone(ops: seq<Operand>, fs: seq<Opcodes.Field>, wide: bool, s: bytes)
    requires fs == []
    ensures After(ops, TakeFields(fs, wide, s)) == Some((ops, s))
  {
    assert ops + [] == ops;
  }

  /** A result with instructions already read put in front. */
  ghost function Behind(ls: seq<Located>, r: Option<seq<Located>>): Option<seq<Located>> {
    match r
    case None => None
    case Some(more) => Some(ls + more)
  }

  lemma TakeAllStep(ls: seq<Located>, s: bytes, start: nat, id: nat, major: nat, pool: Pool)
    requires s != []
    ensures Behind(ls, TakeAll(s, start, id, major, pool)) == match TakeInstruction(s, start, major, pool)
      case None => None
      case Some((i, rest)) =>
        if id > U32_MAX || start > U32_MAX || |rest| >= |s| then None
        else Behind(ls + [Located(id, start, i)], TakeAll(rest, start + |s| - |rest|, id + 1, major, pool))
  {
    hide TakeInstruction;
    match TakeInstruction(s, start, major, pool)
    case None =>
    case Some((i, rest)) =>
      if id <= U32_MAX && start <= U32_MAX && |rest| < |s| {
        var more := TakeAll(rest, start + |s| - |rest|, id + 1, major, pool);
        if more.Some? { Assoc(ls, [Located(id, start, i)], more.value); }
      }
  }

  lemma TakeInstructionShrinks(s: bytes, start: nat, major: nat, pool: Pool)
    requires TakeInstruction(s, start, major, pool).Some?
    ensures |TakeInstruction(s, start, major, pool).value.1| < |s|
  {
    hide TakeInstruction, Emit, Usable, ConstantOk;
    TakeInstructionExact(s, start, major, pool);
    EmitSize(TakeInstruction(s, start, major, pool).value.0, start);
  }

  lemma OffsetMapSnoc(ls: seq<Located>, l: Located)
    ensures OffsetMap(ls + [l]) == OffsetMap(ls)[l.offset := l.id]
  {
    assert (ls + [l])[..|ls|] == ls;
  }

  method ValidateBranchTargets(ls: seq<Located>, offsets: map<u32, u32>) returns (ok: bool)
    ensures ok <==> BranchesLand(Stream(ls, offsets))
  {
    var k := 0;
    while k < |ls|
      invariant 0 <= k <= |ls|
      invariant forall j, op | 0 <= j < k && op in ls[j].instruction.operands && op.Branch? ::
        var t := ls[j].offset + op.displacement; 0 <= t <= U32_MAX && t in offsets
    {
      var i, ops := 0, ls[k].instruction.operands;
      while i < |ops|
        invariant 0 <= i <= |ops|
        invariant forall j | 0 <= j < i && ops[j].Branch? ::
          var t := ls[k].offset + ops[j].displacement; 0 <= t <= U32_MAX && t in offsets
      {
        if ops[i].Branch? {
          var t := ls[k].offset + ops[i].displacement;
          if t < 0 || t > U32_MAX || t !in offsets {
            assert ops[i] in ls[k].instruction.operands;
            return false;
          }
        }
        i := i + 1;
      }
      k := k + 1;
    }
    return true;
  }

  method DecodeInstructions(code: bytes, major: nat, pool: Pool) returns (r: Option<DecodedCode>)
    ensures match Decode(code, major, pool)
            case None => r.None?
            case Some(st) => r.Some? && fresh(r.value) && r.value.Value() == st
  {
    hide TakeInstruction, TakeAll, OffsetMap, BranchesLand;
    var cursor := new CodeCursor(code);
    var instructions: seq<Located> := [];
    var offsets: map<u32, u32> := map[];
    ghost var goal := TakeAll(code, 0, 0, major, pool);
    assert Behind([], goal) == goal by { if goal.Some? { assert [] + goal.value == goal.value; } }
    assert OffsetMap([]) == map[] by { OffsetMapNothing(); }
    while cursor.at < |code|
      invariant cursor.Valid() && cursor.code == code
      invariant goal == Behind(instructions, TakeAll(code[cursor.at..], cursor.at, |instructions|, major, pool))
      invariant offsets == OffsetMap(instructions)
      decreases |code| - cursor.at
    {
      var start := cursor.at;
      TakeAllStep(instructions, code[start..], start, |instructions|, major, pool);
      var i := cursor.ReadInstruction(major, pool);
      if i.None? { return None; }
      TakeInstructionShrinks(code[start..], start, major, pool);
      if |instructions| > U32_MAX || start > U32_MAX { return None; }
      var l := Located(|instructions|, start, i.value);
      OffsetMapSnoc(instructions, l);
      offsets := offsets[start := |instructions|];
      instructions := instructions + [l];
    }
    TakeNothing(instructions, code[cursor.at..], cursor.at, |instructions|, major, pool);
    var landed := ValidateBranchTargets(instructions, offsets);
    if !landed { return None; }
    var decoded := new DecodedCode(instructions, offsets);
    return Some(decoded);
  }

  lemma OffsetMapNothing()
    ensures OffsetMap([]) == map[]
  {
  }

  lemma TakeNothing(ls: seq<Located>, s: bytes, start: nat, id: nat, major: nat, pool: Pool)
    requires s == []
    ensures Behind(ls, TakeAll(s, start, id, major, pool)) == Some(ls)
  {
    assert ls + [] == ls;
  }

  // ---- exception handlers ---------------------------------------------------------------------

  datatype HandlerRange = HandlerRange(start: u16, end: u16, handler: u16)

  /** Non-empty, its start and handler at instructions, its end at one or at the code's end. */
  predicate HandlerOk(st: Stream, codeLength: nat, h: HandlerRange) {
    h.start < h.end && h.start in st.offsets && h.handler in st.offsets
    && (h.end == codeLength || h.end in st.offsets)
  }

  /** Where instruction `k` starts, or the code's end after the last one. */
  function StartOf(st: Stream, codeLength: nat, k: nat): nat
    requires k <= |st.instructions|
  {
    if k < |st.instructions| then st.instructions[k].offset else codeLength
  }

  /** The range is the instructions from `first` up to `last`, which it leaves out, and its handler is instruction `target`. */
  predicate RunsFrom(st: Stream, codeLength: nat, h: HandlerRange, first: nat, last: nat, target: nat) {
    first < last <= |st.instructions| && target < |st.instructions| && h.handler == st.instructions[target].offset
    && h.start == StartOf(st, codeLength, first) && h.end == StartOf(st, codeLength, last)
  }

  lemma StartsAre(code: bytes, major: nat, pool: Pool, k: nat)
    requires Relocation.Decode(code, major, pool).Some? && k <= |Relocation.Decode(code, major, pool).value.instructions|
    ensures var st := Relocation.Decode(code, major, pool).value; StartOf(st, |code|, k) == LayoutOf(st)[k]
  {
    hide Relocation.Decode, Tiled, Starts;
    DecodedTiles(code, major, pool);
    var st := Relocation.Decode(code, major, pool).value;
    if k < |st.instructions| { TiledOffset(st.instructions, code, major, pool, k); }
  }

  lemma RunIsOk(code: bytes, major: nat, pool: Pool, h: HandlerRange, first: nat, last: nat, target: nat)
    requires Relocation.Decode(code, major, pool).Some?
    requires RunsFrom(Relocation.Decode(code, major, pool).value, |code|, h, first, last, target)
    ensures HandlerOk(Relocation.Decode(code, major, pool).value, |code|, h)
  {
    hide Relocation.Decode, Tiled, Starts;
    var st := Relocation.Decode(code, major, pool).value;
    DecodedTiles(code, major, pool);
    StartsAre(code, major, pool, first);
    StartsAre(code, major, pool, last);
    StartsIncrease(Plainly(st.instructions), 0, first, last);
  }

  lemma StartsOrdered(code: bytes, major: nat, pool: Pool, j: nat, k: nat)
    requires Relocation.Decode(code, major, pool).Some?
    requires var st := Relocation.Decode(code, major, pool).value;
      j <= |st.instructions| && k <= |st.instructions| && StartOf(st, |code|, j) < StartOf(st, |code|, k)
    ensures j < k
  {
    hide Relocation.Decode, StartOf, Starts;
    var st := Relocation.Decode(code, major, pool).value;
    StartsAre(code, major, pool, j);
    StartsAre(code, major, pool, k);
    if k < j { StartsIncrease(Plainly(st.instructions), 0, k, j); }
  }

  lemma OkIsRun(code: bytes, major: nat, pool: Pool, h: HandlerRange) returns (first: nat, last: nat, target: nat)
    requires Relocation.Decode(code, major, pool).Some? && HandlerOk(Relocation.Decode(code, major, pool).value, |code|, h)
    ensures RunsFrom(Relocation.Decode(code, major, pool).value, |code|, h, first, last, target)
  {
    hide Relocation.Decode, Tiled, Starts, LayoutOf, DistinctIds, DistinctOffsets;
    var st := Relocation.Decode(code, major, pool).value;
    DecodedTiles(code, major, pool);
    first :| 0 <= first < |st.instructions| && st.instructions[first].offset == h.start;
    target :| 0 <= target < |st.instructions| && st.instructions[target].offset == h.handler;
    if h.end == |code| {
      last := |st.instructions|;
    } else {
      last :| 0 <= last < |st.instructions| && st.instructions[last].offset == h.end;
    }
    StartsOrdered(code, major, pool, first, last);
  }

  /** In decoded code a range is accepted exactly when it is a run of at least one whole instruction with a handler. */
  lemma HandlersAreRuns(code: bytes, major: nat, pool: Pool, h: HandlerRange)
    requires Relocation.Decode(code, major, pool).Some?
    ensures var st := Relocation.Decode(code, major, pool).value;
      HandlerOk(st, |code|, h) <==> exists first, last, target :: RunsFrom(st, |code|, h, first, last, target)
  {
    hide Relocation.Decode, RunsFrom, HandlerOk;
    var st := Relocation.Decode(code, major, pool).value;
    if HandlerOk(st, |code|, h) {
      var first, last, target := OkIsRun(code, major, pool, h);
    }
    if first, last, target :| RunsFrom(st, |code|, h, first, last, target) {
      RunIsOk(code, major, pool, h, first, last, target);
    }
  }

  method ValidateHandlers(decoded: DecodedCode, codeLength: nat, handlers: seq<HandlerRange>) returns (ok: bool)
    ensures ok <==> forall h | h in handlers :: HandlerOk(decoded.Value(), codeLength, h)
  {
    var i := 0;
    while i < |handlers|
      invariant 0 <= i <= |handlers|
      invariant forall j | 0 <= j < i :: HandlerOk(decoded.Value(), codeLength, handlers[j])
    {
      var h := handlers[i];
      if h.start >= h.end || h.start !in decoded.offsets || (h.end != codeLength && h.end !in decoded.offsets)
         || h.handler !in decoded.offsets {
        assert !HandlerOk(decoded.Value(), codeLength, handlers[i]) && handlers[i] in handlers;
        return false;
      }
      i := i + 1;
    }
    return true;
  }
}
