/** The relocating encoder as it runs: resolve, lay out, emit, then rewrite the stream in place. */
module Assembler {
  import opened Exprs
  import opened Opcodes
  import opened Instructions
  import opened CodeArrays
  import opened Relocation
  import opened InstructionCoders

  /** Branches by instruction and operand index, each with the identity it goes to. */
  type Targets = map<(nat, nat), u32>

  /** The identities of the branches of the first `k` instructions. */
  ghost predicate Resolved(st: Stream, targets: Targets, k: nat)
    requires k <= |st.instructions|
  {
    forall j, i | 0 <= j < k && 0 <= i < |st.instructions[j].instruction.operands| && st.instructions[j].instruction.operands[i].Branch? ::
      ResolvedAt(st, targets, j, i)
  }

  ghost predicate ResolvedAt(st: Stream, targets: Targets, j: nat, i: nat)
    requires j < |st.instructions| && i < |st.instructions[j].instruction.operands| && st.instructions[j].instruction.operands[i].Branch?
  {
    var to := Target(st, j, st.instructions[j].instruction.operands[i].displacement);
    to < |st.instructions| && (j, i) in targets && targets[(j, i)] == st.instructions[to].id
  }

  /** Every branch of every instruction has a target in the stream. */
  ghost predicate AllResolve(st: Stream) {
    forall k, op | 0 <= k < |st.instructions| && op in st.instructions[k].instruction.operands && op.Branch? ::
      Target(st, k, op.displacement) < |st.instructions|
  }

  method HasDistinctIds(ls: seq<Located>) returns (distinct: bool, ids: set<u32>)
    ensures distinct <==> DistinctIds(ls)
    ensures distinct ==> ids == set l | l in ls :: l.id
  {
    ids := {};
    var k := 0;
    while k < |ls|
      invariant 0 <= k <= |ls|
      invariant forall i, j | 0 <= i < j < k :: ls[i].id != ls[j].id
      invariant forall id :: id in ids <==> exists j :: 0 <= j < k && ls[j].id == id
    {
      if ls[k].id in ids {
        var j :| 0 <= j < k && ls[j].id == ls[k].id;
        return false, ids;
      }
      ids := ids + {ls[k].id};
      k := k + 1;
    }
    return true, ids;
  }

  /** Finds the instruction every branch goes to, through the offset map. */
  method ResolveBranchTargets(code: DecodedCode) returns (r: Option<Targets>)
    ensures var st := code.Value();
      r.Some? <==> DistinctIds(st.instructions) && AllResolve(st)
    ensures r.Some? ==> Resolved(code.Value(), r.value, |code.instructions|)
  {
    hide Resolved, Target;
    ghost var st := code.Value();
    NothingResolved(st);
    var ls := code.instructions;
    var distinct, ids := HasDistinctIds(ls);
    if !distinct { return None; }
    var targets: Targets, k := map[], 0;
    while k < |ls|
      invariant 0 <= k <= |ls| && Resolved(st, targets, k)
      invariant forall j, op | 0 <= j < k && op in ls[j].instruction.operands && op.Branch? :: Target(st, j, op.displacement) < |ls|
    {
      var i, ops := 0, ls[k].instruction.operands;
      while i < |ops|
        invariant 0 <= i <= |ops| && Resolved(st, targets, k)
        invariant forall j | 0 <= j < i && ops[j].Branch? :: ResolvedAt(st, targets, k, j)
      {
        if ops[i].Branch? {
          var t := ls[k].offset + ops[i].displacement;
          TargetFound(st, ids, k, ops[i].displacement);
          if t < 0 || t > U32_MAX || t !in code.offsets || code.offsets[t] !in ids {
            assert ops[i] in ls[k].instruction.operands;
            return None;
          }
          KeepsResolved(st, targets, k, i, code.offsets[t]);
          targets := targets[(k, i) := code.offsets[t]];
        }
        i := i + 1;
      }
      MoreResolved(st, targets, k);
      k := k + 1;
    }
    return Some(targets);
  }

  lemma TargetFound(st: Stream, ids: set<u32>, k: nat, displacement: int)
    requires k < |st.instructions| && ids == set l | l in st.instructions :: l.id
    ensures var t := st.instructions[k].offset + displacement;
      (Target(st, k, displacement) < |st.instructions| <==> 0 <= t <= U32_MAX && t in st.offsets && st.offsets[t] in ids)
      && (Target(st, k, displacement) < |st.instructions| ==> st.offsets[t] == st.instructions[Target(st, k, displacement)].id)
  {
    var t := st.instructions[k].offset + displacement;
    if 0 <= t <= U32_MAX && t in st.offsets {
      var j := IndexOfId(st.instructions, st.offsets[t]);
      if j < |st.instructions| { assert st.instructions[j] in st.instructions; }
    }
  }

  lemma NothingResolved(st: Stream)
    ensures Resolved(st, map[], 0)
  {
  }

  lemma KeepsResolved(st: Stream, targets: Targets, k: nat, i: nat, id: u32)
    requires k < |st.instructions| && Resolved(st, targets, k)
    ensures Resolved(st, targets[(k, i) := id], k)
  {
    hide Target;
    var after := targets[(k, i) := id];
    forall j, m | 0 <= j < k && 0 <= m < |st.instructions[j].instruction.operands| && st.instructions[j].instruction.operands[m].Branch?
      ensures ResolvedAt(st, after, j, m)
    {
      assert ResolvedAt(st, targets, j, m);
    }
  }

  lemma MoreResolved(st: Stream, targets: Targets, k: nat)
    requires k < |st.instructions| && Resolved(st, targets, k)
    requires forall i | 0 <= i < |st.instructions[k].instruction.operands| && st.instructions[k].instruction.operands[i].Branch? ::
      ResolvedAt(st, targets, k, i)
    ensures Resolved(st, targets, k + 1)
    ensures forall op | op in st.instructions[k].instruction.operands && op.Branch? :: Target(st, k, op.displacement) < |st.instructions|
  {
    hide Target;
    forall j, m | 0 <= j < k + 1 && 0 <= m < |st.instructions[j].instruction.operands| && st.instructions[j].instruction.operands[m].Branch?
      ensures ResolvedAt(st, targets, j, m)
    {
      if j < k { assert ResolvedAt(st, targets, j, m); }
    }
  }

  /** Checks every instruction and places it; the end of the code must fit 32 bits too. */
  method Layout(ls: seq<Located>, major: nat) returns (r: Option<seq<u32>>)
    ensures var starts := Starts(Plainly(ls), 0);
      r.Some? <==> AllShaped(ls, major) && Fitting(starts)
    ensures r.Some? ==> r.value == Starts(Plainly(ls), 0)[..|ls|]
  {
    hide Usable, Shaped, Size, Starts;
    ghost var starts := Starts(Plainly(ls), 0);
    var offsets: seq<u32>, cursor, k := [], 0, 0;
    while k < |ls|
      invariant 0 <= k <= |ls| == |starts| - 1 && cursor == starts[k]
      invariant offsets == starts[..k]
      invariant forall j | 0 <= j < k :: Usable(ls[j].instruction.opcode, major) && Shaped(ls[j].instruction)
      invariant forall j | 0 <= j < k :: starts[j] <= U32_MAX
    {
      if !Usable(ls[k].instruction.opcode, major) || !Shaped(ls[k].instruction) {
        assert ls[k] in ls;
        return None;
      }
      if cursor > U32_MAX { return None; }
      StartsStep(Plainly(ls), 0, k);
      assert starts[..k + 1] == starts[..k] + [starts[k]];
      offsets := offsets + [cursor];
      cursor := cursor + Size(ls[k].instruction, cursor);
      k := k + 1;
    }
    if cursor > U32_MAX { return None; }
    return Some(offsets);
  }

  /** New offsets by identity. */
  ghost predicate Placed(ls: seq<Located>, offsets: seq<u32>, places: map<u32, u32>)
    requires |offsets| == |ls|
  {
    forall k | 0 <= k < |ls| :: ls[k].id in places && places[ls[k].id] == offsets[k]
  }

  method Place(ls: seq<Located>, offsets: seq<u32>) returns (places: map<u32, u32>)
    requires |offsets| == |ls| && DistinctIds(ls)
    ensures Placed(ls, offsets, places)
  {
    places := map[];
    var k := 0;
    while k < |ls|
      invariant 0 <= k <= |ls|
      invariant forall j | 0 <= j < k :: ls[j].id in places && places[ls[j].id] == offsets[j]
    {
      places := places[ls[k].id := offsets[k]];
      k := k + 1;
    }
  }

  /** What the emission and the rewriting both need to know. */
  ghost predicate Ready(st: Stream, starts: seq<nat>, targets: Targets, places: map<u32, u32>)
    requires |starts| == |st.instructions| + 1 && Fitting(starts)
  {
    Resolved(st, targets, |st.instructions|) && Placed(st.instructions, starts[..|st.instructions|], places)
  }

  /** The distance to a branch's target, when it fits 32 bits. */
  method Displacement(start: u32, k: nat, i: nat, targets: Targets, places: map<u32, u32>, ghost st: Stream, ghost starts: seq<nat>)
    returns (r: Option<i32>)
    requires |starts| == |st.instructions| + 1 && Fitting(starts) && Ready(st, starts, targets, places)
    requires k < |st.instructions| && start == starts[k]
    requires i < |st.instructions[k].instruction.operands| && st.instructions[k].instruction.operands[i].Branch?
    ensures var d := Shift(st, starts, k, st.instructions[k].instruction.operands[i].displacement);
      if IsI32(d) then r == Some(d) else r.None?
  {
    hide Target;
    assert ResolvedAt(st, targets, k, i);
    var d := (places[targets[(k, i)]] as int) - start;
    return if -0x8000_0000 <= d < 0x8000_0000 then Some(d) else None;
  }

  /** The operands of one instruction with every branch pointed at its target's new place. */
  method Point(l: Located, start: u32, k: nat, targets: Targets, places: map<u32, u32>, ghost st: Stream, ghost starts: seq<nat>)
    returns (r: Option<seq<Operand>>)
    requires |starts| == |st.instructions| + 1 && Fitting(starts) && Ready(st, starts, targets, places)
    requires k < |st.instructions| && start == starts[k] && l.instruction == st.instructions[k].instruction
    ensures ShiftsFit(st, starts, k) ==> r == Some(MoveOperands(st, starts, k))
    ensures !ShiftsFit(st, starts, k) ==> r.None?
  {
    hide Ready, Shift, Target, IsI32;
    var ops, i := l.instruction.operands, 0;
    var out: seq<Operand> := [];
    while i < |ops|
      invariant 0 <= i <= |ops| && |out| == i
      invariant forall j | 0 <= j < i :: out[j] == MoveOperand(st, starts, k, ops[j])
      invariant forall j | 0 <= j < i && ops[j].Branch? :: IsI32(Shift(st, starts, k, ops[j].displacement))
    {
      if ops[i].Branch? {
        var d := Displacement(start, k, i, targets, places, st, starts);
        if d.None? {
          assert ops[i] in ops && !IsI32(Shift(st, starts, k, ops[i].displacement));
          return None;
        }
        out := out + [Branch(d.value)];
      } else {
        out := out + [ops[i]];
      }
      i := i + 1;
    }
    assert out == MoveOperands(st, starts, k);
    return Some(out);
  }

  ghost predicate ShiftsFit(st: Stream, starts: seq<nat>, k: nat)
    requires k < |st.instructions| && |starts| == |st.instructions| + 1
  {
    forall op | op in st.instructions[k].instruction.operands && op.Branch? :: IsI32(Shift(st, starts, k, op.displacement))
  }

  /** Appends one instruction's operands field by field; a switch is padded and written word by word. */
  method EmitBody(code: bytes, i: Instruction, start: nat) returns (r: Option<bytes>)
    requires Shaped(i)
    ensures match Emit(i, start)
            case None => r.None?
            case Some(b) => r == Some(code + b)
  {
    hide Row, EmitFields, EmitTable, EmitLookup, TableShape, LookupShape, Widenable;
    Assoc(code, OpcodeBytes(i), []);
    var out := code + OpcodeBytes(i);
    match Row(i.opcode).layout {
      case TableSwitch =>
        var words := TableWords(out + Zeros(Padding(start + 1)), i.operands);
        Assoc(code + OpcodeBytes(i), Zeros(Padding(start + 1)), EmitTable(i.operands));
        Assoc(code, OpcodeBytes(i), Zeros(Padding(start + 1)) + EmitTable(i.operands));
        return Some(words);
      case LookupSwitch =>
        if |i.operands| / 2 >= 0x8000_0000 { return None; }
        var words := LookupWords(out + Zeros(Padding(start + 1)), i.operands);
        Assoc(code + OpcodeBytes(i), Zeros(Padding(start + 1)), EmitLookup(i.operands));
        Assoc(code, OpcodeBytes(i), Zeros(Padding(start + 1)) + EmitLookup(i.operands));
        return Some(words);
      case Fixed(fs) =>
        r := FieldBytes(out, fs, i.operands, i.wide);
        if r.Some? { Assoc(code, OpcodeBytes(i), EmitFields(fs, i.operands, i.wide).value); }
      case _ => return None;
    }
  }

  method WordBytes(out: bytes, ops: seq<Operand>) returns (r: bytes)
    requires forall op | op in ops :: op.Branch? || op.LookupKey?
    ensures r == out + Words(ops)
  {
    hide I4;
    r := out;
    var i := 0;
    assert ops[0..] == ops;
    while i < |ops|
      invariant 0 <= i <= |ops|
      invariant forall op | op in ops[i..] :: op.Branch? || op.LookupKey?
      invariant r + Words(ops[i..]) == out + Words(ops)
    {
      assert ops[i] in ops[i..] && ops[i..][1..] == ops[i + 1..];
      assert forall op | op in ops[i + 1..] :: op in ops[i..];
      var w := I4(if ops[i].Branch? then ops[i].displacement else ops[i].key);
      Assoc(r, w, Words(ops[i + 1..]));
      r := r + w;
      i := i + 1;
    }
    assert r + [] == r;
  }

  method TableWords(out: bytes, ops: seq<Operand>) returns (r: bytes)
    requires TableShape(ops)
    ensures r == out + EmitTable(ops)
  {
    hide I4, Words;
    var a, b, c := I4(ops[0].displacement), I4(ops[1].low), I4(ops[2].high);
    r := WordBytes(out + a + b + c, ops[3..]);
    Assoc(out + a + b, c, Words(ops[3..]));
    Assoc(out + a, b, c + Words(ops[3..]));
    Assoc(out, a, b + (c + Words(ops[3..])));
  }

  method LookupWords(out: bytes, ops: seq<Operand>) returns (r: bytes)
    requires LookupShape(ops) && |ops| / 2 < 0x8000_0000
    ensures r == out + EmitLookup(ops)
  {
    hide I4, Words;
    PairsAreWords(ops[1..], NO_KEY);
    var a, b := I4(ops[0].displacement), I4((|ops| - 1) / 2);
    r := WordBytes(out + a + b, ops[1..]);
    Assoc(out + a, b, Words(ops[1..]));
    Assoc(out, a, b + Words(ops[1..]));
  }

  method FieldBytes(out: bytes, fs: seq<Opcodes.Field>, ops: seq<Operand>, wide: bool) returns (r: Option<bytes>)
    ensures r == Written(out, EmitFields(fs, ops, wide))
  {
    hide EmitFields, EmitField;
    var code, k, i := out, 0, 0;
    assert fs[0..] == fs && ops[0..] == ops;
    while k < |fs|
      invariant 0 <= k <= |fs| && 0 <= i <= |ops|
      invariant Written(code, EmitFields(fs[k..], ops[i..], wide)) == Written(out, EmitFields(fs, ops, wide))
    {
      FieldWritten(code, fs[k..], ops[i..], wide);
      assert fs[k..][1..] == fs[k + 1..];
      if fs[k].ZeroU1? {
        code := code + [0];
      } else if fs[k].ZeroU2? {
        code := code + [0, 0];
      } else {
        if i >= |ops| { return None; }
        assert ops[i..][1..] == ops[i + 1..];
        var b := EmitField(fs[k], ops[i], wide);
        if b.None? { return None; }
        code := code + b.value;
        i := i + 1;
      }
      k := k + 1;
    }
    assert fs[k..] == [];
    NothingWritten(code, ops[i..], wide);
    return if i == |ops| then Some(code) else None;
  }

  ghost function Written(out: bytes, r: Option<bytes>): Option<bytes> {
    match r
    case None => None
    case Some(b) => Some(out + b)
  }

  lemma FieldWritten(out: bytes, fs: seq<Opcodes.Field>, ops: seq<Operand>, wide: bool)
    requires fs != []
    ensures fs[0].ZeroU1? ==> Written(out, EmitFields(fs, ops, wide)) == Written(out + [0], EmitFields(fs[1..], ops, wide))
    ensures fs[0].ZeroU2? ==> Written(out, EmitFields(fs, ops, wide)) == Written(out + [0, 0], EmitFields(fs[1..], ops, wide))
    ensures !IsZero(fs[0]) && (ops == [] || EmitField(fs[0], ops[0], wide).None?) ==> EmitFields(fs, ops, wide).None?
    ensures !IsZero(fs[0]) && ops != [] && EmitField(fs[0], ops[0], wide).Some? ==>
      Written(out, EmitFields(fs, ops, wide)) == Written(out + EmitField(fs[0], ops[0], wide).value, EmitFields(fs[1..], ops[1..], wide))
  {
    hide EmitField;
    if IsZero(fs[0]) {
      var zeros: bytes := if fs[0].ZeroU1? then [0] else [0, 0];
      if EmitFields(fs[1..], ops, wide).Some? { Assoc(out, zeros, EmitFields(fs[1..], ops, wide).value); }
    } else if ops != [] && EmitField(fs[0], ops[0], wide).Some? && EmitFields(fs[1..], ops[1..], wide).Some? {
      Assoc(out, EmitField(fs[0], ops[0], wide).value, EmitFields(fs[1..], ops[1..], wide).value);
    }
  }

  lemma NothingWritten(out: bytes, ops: seq<Operand>, wide: bool)
    ensures Written(out, EmitFields([], ops, wide)) == if ops == [] then Some(out) else None
  {
    assert out + [] == out;
  }

  /** Emits the whole stream at its new places. */
  method EmitStream(ls: seq<Located>, offsets: seq<u32>, targets: Targets, places: map<u32, u32>, major: nat, ghost st: Stream, ghost starts: seq<nat>)
    returns (r: Option<bytes>)
    requires st.instructions == ls && starts == LayoutOf(st) && |offsets| == |ls| && offsets == starts[..|ls|]
    requires |starts| == |st.instructions| + 1 && Fitting(starts) && Ready(st, starts, targets, places) && AllShaped(ls, major)
    ensures if forall k | 0 <= k < |ls| :: ShiftsFit(st, starts, k)
            then r == EmitAll(Plainly(Moved(st, starts)), 0) else r.None?
  {
    hide Ready, ShiftsFit, Shaped, Usable, Emit, EmitAll, Starts, MoveOperands, MovedAt;
    ghost var moved := Plainly(Moved(st, starts));
    MovedLayout(st, starts);
    var code: bytes, k := [], 0;
    assert Written([], EmitAll(moved, 0)) == EmitAll(moved, 0) by { NothingBefore(EmitAll(moved, 0)); }
    assert moved[0..] == moved && starts[0] == 0;
    while k < |ls|
      invariant 0 <= k <= |ls|
      invariant forall j | 0 <= j < k :: ShiftsFit(st, starts, j)
      invariant Written(code, EmitAll(moved[k..], starts[k])) == EmitAll(moved, 0)
    {
      assert ls[k] in ls;
      var ops := Point(ls[k], offsets[k], k, targets, places, st, starts);
      if ops.None? { return None; }
      MovedInstruction(st, starts, k);
      var i := ls[k].instruction.(operands := ops.value);
      assert i == moved[k];
      MovedStaysShaped(st, starts, k);
      OneWritten(code, moved, starts, k);
      var more := EmitBody(code, i, offsets[k]);
      if more.None? { return None; }
      code := more.value;
      k := k + 1;
    }
    assert moved[k..] == [];
    AllWritten(code, starts[k]);
    return Some(code);
  }

  lemma NothingBefore(r: Option<bytes>)
    ensures Written([], r) == r
  {
    if r.Some? { assert [] + r.value == r.value; }
  }

  lemma AllWritten(code: bytes, at: nat)
    ensures Written(code, EmitAll([], at)) == Some(code)
  {
    assert code + [] == code;
  }

  lemma MovedInstruction(st: Stream, starts: seq<nat>, k: nat)
    requires |starts| == |st.instructions| + 1 && Fitting(starts) && k < |st.instructions|
    ensures Plainly(Moved(st, starts))[k] == st.instructions[k].instruction.(operands := MoveOperands(st, starts, k))
  {
  }

  lemma MovedStaysShaped(st: Stream, starts: seq<nat>, k: nat)
    requires |starts| == |st.instructions| + 1 && Fitting(starts) && k < |st.instructions| && Shaped(st.instructions[k].instruction)
    ensures Shaped(Plainly(Moved(st, starts))[k])
  {
    hide Shaped, Shift;
    MovedShaped(st.instructions[k].instruction, MoveOperands(st, starts, k));
  }

  lemma EmitAllStep(is0: seq<Instruction>, at: nat)
    requires is0 != []
    ensures EmitAll(is0, at) == match Emit(is0[0], at)
      case None => None
      case Some(b) => Written(b, EmitAll(is0[1..], at + Size(is0[0], at)))
  {
    hide Emit, Size;
  }

  lemma OneWritten(code: bytes, is0: seq<Instruction>, starts: seq<nat>, k: nat)
    requires k < |is0| && starts == Starts(is0, 0)
    ensures Written(code, EmitAll(is0[k..], starts[k])) == match Emit(is0[k], starts[k])
      case None => None
      case Some(b) => Written(code + b, EmitAll(is0[k + 1..], starts[k + 1]))
  {
    hide Emit, Size, Starts, EmitAll;
    StartsStep(is0, 0, k);
    EmitAllStep(is0[k..], starts[k]);
    assert is0[k..][1..] == is0[k + 1..];
    match Emit(is0[k], starts[k])
    case None =>
    case Some(b) =>
      var rest := EmitAll(is0[k + 1..], starts[k + 1]);
      if rest.Some? { Assoc(code, b, rest.value); }
  }

  /** Branch operands, then offsets and the offset map, are rewritten; nothing can fail any more. */
  method Rewrite(code: DecodedCode, offsets: seq<u32>, targets: Targets, places: map<u32, u32>, ghost st: Stream, ghost starts: seq<nat>)
    requires st == code.Value() && starts == LayoutOf(st) && offsets == starts[..|st.instructions|]
    requires |starts| == |st.instructions| + 1 && Fitting(starts) && Ready(st, starts, targets, places) && (forall k | 0 <= k < |st.instructions| :: ShiftsFit(st, starts, k))
    modifies code
    ensures code.Value() == Stream(Moved(st, starts), OffsetMap(Moved(st, starts)))
  {
    hide Ready, ShiftsFit, Starts, MoveOperands, OffsetMap;
    ghost var moved := Moved(st, starts);
    var k := 0;
    while k < |code.instructions|
      invariant 0 <= k <= |code.instructions| == |st.instructions|
      invariant forall j | 0 <= j < k :: code.instructions[j] == st.instructions[j].(instruction := moved[j].instruction)
      invariant forall j | k <= j < |st.instructions| :: code.instructions[j] == st.instructions[j]
    {
      var l := code.instructions[k];
      var ops := Point(l, offsets[k], k, targets, places, st, starts);
      assert ops.Some?;
      code.instructions := code.instructions[k := l.(instruction := l.instruction.(operands := ops.value))];
      k := k + 1;
    }
    var rebuilt: map<u32, u32> := map[];
    k := 0;
    OffsetMapNothing();
    assert moved[..0] == [];
    while k < |code.instructions|
      invariant 0 <= k <= |code.instructions| == |st.instructions|
      invariant forall j | 0 <= j < k :: code.instructions[j] == moved[j]
      invariant forall j | k <= j < |st.instructions| :: code.instructions[j] == st.instructions[j].(instruction := moved[j].instruction)
      invariant rebuilt == OffsetMap(moved[..k])
    {
      var l := code.instructions[k].(offset := offsets[k]);
      NewOffset(st, starts, k);
      assert offsets[k] !in rebuilt;
      assert moved[..k + 1] == moved[..k] + [moved[k]];
      OffsetMapSnoc(moved[..k], moved[k]);
      rebuilt := rebuilt[l.offset := l.id];
      code.instructions := code.instructions[k := l];
      k := k + 1;
    }
    assert moved[..k] == moved && code.instructions == moved;
    code.offsets := rebuilt;
  }

  /** No two instructions share a new offset. */
  lemma NewOffset(st: Stream, starts: seq<nat>, k: nat)
    requires starts == LayoutOf(st) && Fitting(starts) && k < |st.instructions|
    ensures starts[k] !in OffsetMap(Moved(st, starts)[..k])
  {
    hide OffsetMap, MoveOperands;
    var before := Moved(st, starts)[..k];
    MovedDistinct(st);
    assert DistinctOffsets(before);
    OffsetMapInverse(before);
    if starts[k] in OffsetMap(before) {
      var j :| 0 <= j < |before| && before[j].offset == starts[k];
      StartsInjective(Plainly(st.instructions), 0, j, k);
    }
  }

  lemma ReachableParts(st: Stream, starts: seq<nat>)
    requires |starts| == |st.instructions| + 1
    ensures Reachable(st, starts) <==> AllResolve(st) && forall k | 0 <= k < |st.instructions| :: ShiftsFit(st, starts, k)
  {
    hide Shift, Target, IsI32;
    if AllResolve(st) && forall k | 0 <= k < |st.instructions| :: ShiftsFit(st, starts, k) {
      forall k, op | 0 <= k < |st.instructions| && op in st.instructions[k].instruction.operands && op.Branch?
        ensures Target(st, k, op.displacement) < |st.instructions| && IsI32(Shift(st, starts, k, op.displacement))
      {
        assert ShiftsFit(st, starts, k);
      }
    }
  }

  /**
    * Encodes a stream after edits: branches keep their instructions, and the
    * stream afterwards describes the bytes. On any failure it is untouched.
    */
  method EncodeInstructions(code: DecodedCode, major: nat) returns (r: Option<bytes>)
    modifies code
    ensures match Encode(old(code.Value()), major)
            case None => r.None? && code.Value() == old(code.Value())
            case Some((b, st)) => r == Some(b) && code.Value() == st
  {
    hide DistinctIds, AllResolve, Resolved, AllShaped, Fitting, Reachable, ShiftsFit, EmitAll, Starts, OffsetMap, Placed;
    ghost var st := code.Value();
    ghost var starts := LayoutOf(st);
    ReachableParts(st, starts);
    var targets := ResolveBranchTargets(code);
    if targets.None? { return None; }
    var offsets := Layout(code.instructions, major);
    if offsets.None? { return None; }
    var places := Place(code.instructions, offsets.value);
    r := EmitStream(code.instructions, offsets.value, targets.value, places, major, st, starts);
    if r.None? { return None; }
    Rewrite(code, offsets.value, targets.value, places, st, starts);
  }
}
