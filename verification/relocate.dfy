/** Streams of located instructions: decoding tiles the code, encoding relocates its branches. */
module Relocation {
  import opened Exprs
  import opened Opcodes
  import opened Instructions
  import opened CodeArrays

  datatype Located = Located(id: u32, offset: u32, instruction: Instruction)

  /** Instructions in order, and the identity of the instruction at each first byte. */
  datatype Stream = Stream(instructions: seq<Located>, offsets: map<u32, u32>)

  function Plainly(ls: seq<Located>): (r: seq<Instruction>)
    ensures |r| == |ls|
    ensures forall k | 0 <= k < |ls| :: r[k] == ls[k].instruction
  {
    seq(|ls|, k requires 0 <= k < |ls| => ls[k].instruction)
  }

  /** Offsets to identities; a later instruction at the same offset would win. */
  function OffsetMap(ls: seq<Located>): map<u32, u32> {
    if ls == [] then map[] else OffsetMap(ls[..|ls| - 1])[ls[|ls| - 1].offset := ls[|ls| - 1].id]
  }

  predicate DistinctOffsets(ls: seq<Located>) {
    forall j, k | 0 <= j < k < |ls| :: ls[j].offset != ls[k].offset
  }

  predicate DistinctIds(ls: seq<Located>) {
    forall j, k | 0 <= j < k < |ls| :: ls[j].id != ls[k].id
  }

  /** With distinct offsets the map is the exact inverse of the listing. */
  lemma {:induction false} OffsetMapInverse(ls: seq<Located>)
    requires DistinctOffsets(ls)
    ensures forall k | 0 <= k < |ls| :: ls[k].offset in OffsetMap(ls) && OffsetMap(ls)[ls[k].offset] == ls[k].id
    ensures forall o | o in OffsetMap(ls) :: exists k :: 0 <= k < |ls| && ls[k].offset == o
  {
    if ls != [] {
      var init, last := ls[..|ls| - 1], ls[|ls| - 1];
      OffsetMapInverse(init);
      assert forall k | 0 <= k < |init| :: init[k] == ls[k];
      forall o | o in OffsetMap(ls) ensures exists k :: 0 <= k < |ls| && ls[k].offset == o {
        if o == last.offset {
          assert ls[|ls| - 1].offset == o;
        } else {
          assert o in OffsetMap(init);
          var k :| 0 <= k < |init| && init[k].offset == o;
          assert ls[k].offset == o;
        }
      }
    }
  }

  /** The place of an identity; the length when it is absent. */
  function IndexOfId(ls: seq<Located>, id: u32): (k: nat)
    ensures k <= |ls| && (k < |ls| ==> ls[k].id == id)
    ensures k == |ls| ==> forall j | 0 <= j < |ls| :: ls[j].id != id
  {
    if ls == [] then 0 else if ls[0].id == id then 0 else 1 + IndexOfId(ls[1..], id)
  }

  lemma IndexOfOwnId(ls: seq<Located>, k: nat)
    requires k < |ls| && DistinctIds(ls)
    ensures IndexOfId(ls, ls[k].id) == k
  {
    var j := IndexOfId(ls, ls[k].id);
    assert j < |ls|;
  }

  /** The instruction a branch of instruction `k` goes to; the length when there is none. */
  function Target(st: Stream, k: nat, displacement: int): (j: nat)
    requires k < |st.instructions|
    ensures j <= |st.instructions|
  {
    var t := st.instructions[k].offset + displacement;
    if 0 <= t <= U32_MAX && t in st.offsets then IndexOfId(st.instructions, st.offsets[t]) else |st.instructions|
  }

  predicate IsI32(v: int) {
    -0x8000_0000 <= v < 0x8000_0000
  }

  /** The displacement of a branch after the layout `starts`. */
  function Shift(st: Stream, starts: seq<nat>, k: nat, displacement: int): int
    requires k < |st.instructions| && |starts| == |st.instructions| + 1
  {
    (starts[Target(st, k, displacement)] as int) - starts[k]
  }

  /** Every branch of the stream reaches an instruction, and still can from its new place. */
  predicate Reachable(st: Stream, starts: seq<nat>)
    requires |starts| == |st.instructions| + 1
  {
    forall k, op | 0 <= k < |st.instructions| && op in st.instructions[k].instruction.operands && op.Branch? ::
      Target(st, k, op.displacement) < |st.instructions| && IsI32(Shift(st, starts, k, op.displacement))
  }

  function MoveOperand(st: Stream, starts: seq<nat>, k: nat, op: Operand): (r: Operand)
    requires k < |st.instructions| && |starts| == |st.instructions| + 1
    ensures !op.Branch? ==> r == op
    ensures op.Branch? <==> r.Branch?
  {
    if op.Branch? && IsI32(Shift(st, starts, k, op.displacement)) then Branch(Shift(st, starts, k, op.displacement)) else op
  }

  function MoveOperands(st: Stream, starts: seq<nat>, k: nat): (r: seq<Operand>)
    requires k < |st.instructions| && |starts| == |st.instructions| + 1
    ensures var ops := st.instructions[k].instruction.operands;
      |r| == |ops| && forall i | 0 <= i < |ops| :: r[i] == MoveOperand(st, starts, k, ops[i])
  {
    var ops := st.instructions[k].instruction.operands;
    seq(|ops|, i requires 0 <= i < |ops| => MoveOperand(st, starts, k, ops[i]))
  }

  predicate Fitting(starts: seq<nat>) {
    forall k | 0 <= k < |starts| :: starts[k] <= U32_MAX
  }

  /** The stream at its new offsets, branches pointed where they pointed before. */
  function Moved(st: Stream, starts: seq<nat>): (r: seq<Located>)
    requires |starts| == |st.instructions| + 1 && Fitting(starts)
    ensures |r| == |st.instructions|
    ensures forall k | 0 <= k < |r| :: r[k] == MovedAt(st, starts, k)
  {
    seq(|st.instructions|, k requires 0 <= k < |st.instructions| => MovedAt(st, starts, k))
  }

  function MovedAt(st: Stream, starts: seq<nat>, k: nat): Located
    requires k < |st.instructions| && |starts| == |st.instructions| + 1 && Fitting(starts)
  {
    var l := st.instructions[k];
    Located(l.id, starts[k], l.instruction.(operands := MoveOperands(st, starts, k)))
  }

  predicate AllShaped(ls: seq<Located>, major: nat) {
    forall l | l in ls :: Usable(l.instruction.opcode, major) && Shaped(l.instruction)
  }

  function LayoutOf(st: Stream): (r: seq<nat>)
    ensures |r| == |st.instructions| + 1
  {
    Starts(Plainly(st.instructions), 0)
  }

  /** Encoding: the bytes, and the stream that describes them. */
  function Encode(st: Stream, major: nat): Option<(bytes, Stream)> {
    var starts := LayoutOf(st);
    if !DistinctIds(st.instructions) || !AllShaped(st.instructions, major) || !Fitting(starts) || !Reachable(st, starts) then None else
    var moved := Moved(st, starts);
    match EmitAll(Plainly(moved), 0)
    case None => None
    case Some(code) => Some((code, Stream(moved, OffsetMap(moved))))
  }

  // ---- what encoding does to the stream ------------------------------------------------------

  lemma MovedLayout(st: Stream, starts: seq<nat>)
    requires |starts| == |st.instructions| + 1 && Fitting(starts)
    ensures Starts(Plainly(Moved(st, starts)), 0) == LayoutOf(st)
  {
    hide Size;
    StartsOfAlike(Plainly(Moved(st, starts)), Plainly(st.instructions), 0);
  }

  lemma MovedDistinct(st: Stream)
    requires Fitting(LayoutOf(st))
    ensures DistinctOffsets(Moved(st, LayoutOf(st)))
    ensures DistinctIds(st.instructions) ==> DistinctIds(Moved(st, LayoutOf(st)))
  {
    var starts := LayoutOf(st);
    forall j, k | 0 <= j < k < |st.instructions| ensures starts[j] != starts[k] {
      StartsIncrease(Plainly(st.instructions), 0, j, k);
    }
  }

  ghost predicate Encoded(st: Stream, major: nat, st': Stream) {
    Encode(st, major).Some? && st' == Encode(st, major).value.1
  }

  /** Every branch reaches the instruction it reached before. */
  lemma BranchKeepsTarget(st: Stream, major: nat, st': Stream, k: nat, i: nat)
    requires Encoded(st, major, st')
    requires k < |st.instructions| && i < |st.instructions[k].instruction.operands|
    requires st.instructions[k].instruction.operands[i].Branch?
    ensures var op, op' := st.instructions[k].instruction.operands[i], st'.instructions[k].instruction.operands[i];
      op'.Branch? && Target(st', k, op'.displacement) == Target(st, k, op.displacement) < |st.instructions|
      && st'.instructions[k].offset + op'.displacement == st'.instructions[Target(st, k, op.displacement)].offset
  {
    hide Encoded, Target, OffsetMap, Starts, DistinctIds, DistinctOffsets, AllShaped;
    var starts := LayoutOf(st);
    var op := st.instructions[k].instruction.operands[i];
    assert op in st.instructions[k].instruction.operands;
    EncodedFacts(st, major, st');
    MovedDistinct(st);
    TargetOf(st'.instructions, k, Shift(st, starts, k, op.displacement), Target(st, k, op.displacement));
  }

  lemma EncodedFacts(st: Stream, major: nat, st': Stream)
    requires Encoded(st, major, st')
    ensures var starts := LayoutOf(st);
      Fitting(starts) && Reachable(st, starts) && DistinctIds(st.instructions) && AllShaped(st.instructions, major)
      && st' == Stream(Moved(st, starts), OffsetMap(Moved(st, starts)))
  {
    hide EmitAll, Starts, OffsetMap, Reachable, AllShaped, DistinctIds;
  }

  /** In a stream of distinct instructions a branch to an offset reaches the instruction there. */
  lemma TargetOf(ls: seq<Located>, k: nat, displacement: int, j: nat)
    requires DistinctIds(ls) && DistinctOffsets(ls) && k < |ls| && j < |ls|
    requires ls[k].offset + displacement == ls[j].offset
    ensures Target(Stream(ls, OffsetMap(ls)), k, displacement) == j
  {
    hide OffsetMap, DistinctIds, DistinctOffsets;
    OffsetMapInverse(ls);
    IndexOfOwnId(ls, j);
  }

  /** Nothing but offsets and branch displacements changes. */
  lemma EncodingKeeps(st: Stream, major: nat, st': Stream)
    requires Encoded(st, major, st')
    ensures |st'.instructions| == |st.instructions|
    ensures forall k | 0 <= k < |st.instructions| ::
      var l, l' := st.instructions[k], st'.instructions[k];
      l'.id == l.id && l'.offset == LayoutOf(st)[k]
      && l'.instruction.opcode == l.instruction.opcode && l'.instruction.wide == l.instruction.wide
      && |l'.instruction.operands| == |l.instruction.operands|
    ensures forall k, i | 0 <= k < |st.instructions| && 0 <= i < |st.instructions[k].instruction.operands| ::
      var op, op' := st.instructions[k].instruction.operands[i], st'.instructions[k].instruction.operands[i];
      op'.Branch? == op.Branch? && (!op.Branch? ==> op' == op)
  {
    hide Shaped, EmitAll, Starts, Usable, OffsetMap, Shift;
  }

  /**
    * Control flow, identities, opcodes, `wide` flags and every other operand
    * survive relocation, however the stream was edited before.
    */
  lemma RelocationPreservesFlow(st: Stream, major: nat, st': Stream)
    requires Encoded(st, major, st')
    ensures |st'.instructions| == |st.instructions|
    ensures forall k | 0 <= k < |st.instructions| :: SameInstruction(st, st', k)
  {
    hide Encoded;
    EncodingKeeps(st, major, st');
    forall k | 0 <= k < |st.instructions| ensures SameInstruction(st, st', k) {
      forall i | 0 <= i < |st.instructions[k].instruction.operands| && st.instructions[k].instruction.operands[i].Branch?
        ensures SameTarget(st, st', k, i)
      {
        BranchKeepsTarget(st, major, st', k, i);
      }
    }
  }

  ghost predicate SameTarget(st: Stream, st': Stream, k: nat, i: nat)
    requires k < |st.instructions| == |st'.instructions|
    requires i < |st.instructions[k].instruction.operands| == |st'.instructions[k].instruction.operands|
  {
    var op, op' := st.instructions[k].instruction.operands[i], st'.instructions[k].instruction.operands[i];
    op.Branch? && op'.Branch? && Target(st', k, op'.displacement) == Target(st, k, op.displacement) < |st.instructions|
  }

  ghost predicate SameInstruction(st: Stream, st': Stream, k: nat)
    requires k < |st.instructions| == |st'.instructions|
  {
    var l, l' := st.instructions[k], st'.instructions[k];
    l'.id == l.id && l'.instruction.opcode == l.instruction.opcode && l'.instruction.wide == l.instruction.wide
    && |l'.instruction.operands| == |l.instruction.operands|
    && forall i | 0 <= i < |l.instruction.operands| ::
      if l.instruction.operands[i].Branch? then SameTarget(st, st', k, i) else l'.instruction.operands[i] == l.instruction.operands[i]
  }

  /** Each offset is the number of bytes written before it, and offsets strictly increase. */
  lemma LayoutMatchesEmission(st: Stream, major: nat, k: nat)
    requires Encode(st, major).Some? && k < |st.instructions|
    ensures var (code, st') := Encode(st, major).value;
      var before := EmitAll(Plainly(st'.instructions)[..k], 0);
      before.Some? && |before.value| == st'.instructions[k].offset && before.value <= code
      && |code| == LayoutOf(st)[|st.instructions|]
      && (k + 1 < |st.instructions| ==> st'.instructions[k].offset < st'.instructions[k + 1].offset)
  {
    hide Shaped, EmitAll, Starts, Usable, OffsetMap, Reachable;
    var starts := LayoutOf(st);
    var moved := Moved(st, starts);
    MovedLayout(st, starts);
    EmittedBefore(Plainly(moved), 0, k);
    EmittedLength(Plainly(moved), 0);
    StartsIncrease(Plainly(st.instructions), 0, k, k + 1);
  }

  lemma MovedShaped(i: Instruction, ops: seq<Operand>)
    requires Shaped(i) && |ops| == |i.operands|
    requires forall k | 0 <= k < |ops| :: ops[k].Branch? == i.operands[k].Branch? && (!ops[k].Branch? ==> ops[k] == i.operands[k])
    ensures Shaped(i.(operands := ops))
  {
    hide Row, Widenable;
    match Row(i.opcode).layout
    case TableSwitch =>
      assert forall op | op in ops[3..] :: op.Branch? by {
        forall op | op in ops[3..] ensures op.Branch? {
          var k :| 0 <= k < |ops| - 3 && ops[3..][k] == op;
          assert i.operands[3..][k] in i.operands[3..];
        }
      }
    case LookupSwitch => MovedPairs(i.operands[1..], ops[1..], NO_KEY);
    case _ =>
  }

  lemma {:induction false} MovedPairs(was: seq<Operand>, ops: seq<Operand>, floor: int)
    requires Pairs(was, floor) && |ops| == |was|
    requires forall k | 0 <= k < |ops| :: ops[k].Branch? == was[k].Branch? && (!ops[k].Branch? ==> ops[k] == was[k])
    ensures Pairs(ops, floor)
  {
    if was != [] { MovedPairs(was[2..], ops[2..], was[0].key); }
  }

  lemma StillReachable(st: Stream, major: nat, st': Stream)
    requires Encoded(st, major, st')
    ensures LayoutOf(st') == LayoutOf(st) && Reachable(st', LayoutOf(st))
    ensures Moved(st', LayoutOf(st)) == st'.instructions
  {
    hide Shaped, EmitAll, Starts, Usable, OffsetMap, Target;
    var starts := LayoutOf(st);
    MovedLayout(st, starts);
    forall k | 0 <= k < |st.instructions| ensures MovedAt(st', starts, k) == st'.instructions[k] {
      var ops' := st'.instructions[k].instruction.operands;
      forall i | 0 <= i < |ops'| ensures MoveOperand(st', starts, k, ops'[i]) == ops'[i] {
        if st.instructions[k].instruction.operands[i].Branch? { BranchKeepsTarget(st, major, st', k, i); }
      }
      assert MoveOperands(st', starts, k) == ops';
    }
    forall k, op | 0 <= k < |st.instructions| && op in st'.instructions[k].instruction.operands && op.Branch?
      ensures Target(st', k, op.displacement) < |st'.instructions| && IsI32(Shift(st', starts, k, op.displacement))
    {
      var i :| 0 <= i < |st'.instructions[k].instruction.operands| && st'.instructions[k].instruction.operands[i] == op;
      BranchKeepsTarget(st, major, st', k, i);
    }
  }

  lemma StillShaped(st: Stream, major: nat, st': Stream)
    requires Encoded(st, major, st')
    ensures AllShaped(st'.instructions, major)
  {
    hide Shaped, EmitAll, Starts, Usable, OffsetMap, Shift, Target;
    forall l | l in st'.instructions ensures Usable(l.instruction.opcode, major) && Shaped(l.instruction) {
      var k :| 0 <= k < |st'.instructions| && st'.instructions[k] == l;
      assert st.instructions[k] in st.instructions;
      MovedShaped(st.instructions[k].instruction, l.instruction.operands);
    }
  }

  /** Encoding again gives the same bytes and changes nothing. */
  lemma EncodingTwice(st: Stream, major: nat)
    requires Encode(st, major).Some?
    ensures var (code, st') := Encode(st, major).value; Encode(st', major) == Some((code, st'))
  {
    hide Shaped, EmitAll, Starts, Usable, OffsetMap, Shift, Target, Reachable, AllShaped;
    var (code, st') := Encode(st, major).value;
    StillReachable(st, major, st');
    StillShaped(st, major, st');
    MovedDistinct(st);
  }

  // ---- decoding --------------------------------------------------------------------------------

  /** Instructions one after another until the code ends. */
  function TakeAll(s: bytes, start: nat, id: nat, major: nat, pool: Pool): Option<seq<Located>>
    decreases |s|
  {
    if s == [] then Some([]) else
    match TakeInstruction(s, start, major, pool)
    case None => None
    case Some((i, rest)) =>
      if id > U32_MAX || start > U32_MAX || |rest| >= |s| then None else
      match TakeAll(rest, start + |s| - |rest|, id + 1, major, pool)
      case None => None
      case Some(ls) => Some([Located(id, start, i)] + ls)
  }

  predicate BranchesLand(st: Stream) {
    forall k, op | 0 <= k < |st.instructions| && op in st.instructions[k].instruction.operands && op.Branch? ::
      var t := st.instructions[k].offset + op.displacement;
      0 <= t <= U32_MAX && t in st.offsets
  }

  function Decode(code: bytes, major: nat, pool: Pool): Option<Stream> {
    match TakeAll(code, 0, 0, major, pool)
    case None => None
    case Some(ls) =>
      var st := Stream(ls, OffsetMap(ls));
      if BranchesLand(st) then Some(st) else None
  }

  /** Numbered from `id` on, laid out from `start` on, shaped, usable, with good constants. */
  ghost predicate Tiled(ls: seq<Located>, s: bytes, start: nat, id: nat, major: nat, pool: Pool) {
    EmitAll(Plainly(ls), start) == Some(s)
    && (forall k | 0 <= k < |ls| :: ls[k].id == id + k && ls[k].offset == Starts(Plainly(ls), start)[k])
    && (forall l | l in ls :: Usable(l.instruction.opcode, major) && Shaped(l.instruction) && ConstantOk(pool, l.instruction))
  }

  lemma TiledStep(l: Located, ls: seq<Located>, b: bytes, s: bytes, start: nat, id: nat, major: nat, pool: Pool)
    requires l.id == id && l.offset == start && Emit(l.instruction, start) == Some(b)
    requires Usable(l.instruction.opcode, major) && ConstantOk(pool, l.instruction)
    requires Tiled(ls, s, start + |b|, id + 1, major, pool)
    ensures Tiled([l] + ls, b + s, start, id, major, pool)
  {
    hide Emit, Shaped, Usable, ConstantOk, Size;
    EmitSize(l.instruction, start);
    EmittedIsShaped(l.instruction, start);
    var all := [l] + ls;
    assert Plainly(all)[1..] == Plainly(ls) && Plainly(all)[0] == l.instruction;
    forall k | 0 <= k < |all| ensures all[k].id == id + k && all[k].offset == Starts(Plainly(all), start)[k] {
      if k > 0 { assert all[k] == ls[k - 1]; }
    }
  }

  /** Decoded instructions tile the code: nothing is skipped, nothing overlaps. */
  lemma {:induction false} TakeAllTiles(s: bytes, start: nat, id: nat, major: nat, pool: Pool)
    requires TakeAll(s, start, id, major, pool).Some?
    ensures Tiled(TakeAll(s, start, id, major, pool).value, s, start, id, major, pool)
    decreases |s|
  {
    hide TakeInstruction, Tiled, Emit, Usable, ConstantOk;
    if s == [] {
      TiledNothing(start, id, major, pool);
    } else {
      var (i, rest) := TakeInstruction(s, start, major, pool).value;
      TakeInstructionExact(s, start, major, pool);
      var b := Emit(i, start).value;
      assert |s| - |rest| == |b|;
      TakeAllTiles(rest, start + |b|, id + 1, major, pool);
      TiledStep(Located(id, start, i), TakeAll(rest, start + |b|, id + 1, major, pool).value, b, rest, start, id, major, pool);
    }
  }

  lemma TiledNothing(start: nat, id: nat, major: nat, pool: Pool)
    ensures Tiled([], [], start, id, major, pool)
  {
  }

  /** Each instruction's own bytes stand at its offset, up to the next one. */
  lemma TiledAt(ls: seq<Located>, s: bytes, start: nat, id: nat, major: nat, pool: Pool, k: nat)
    requires Tiled(ls, s, start, id, major, pool) && k < |ls|
    ensures var starts := Starts(Plainly(ls), start);
      start <= starts[k] < starts[k + 1] <= start + |s|
      && Emit(ls[k].instruction, starts[k]) == Some(s[starts[k] - start..starts[k + 1] - start])
  {
    hide Emit, Size, Starts, EmitAll;
    EmitAllAt(Plainly(ls), start, k);
  }

  lemma TiledDistinct(ls: seq<Located>, s: bytes, start: nat, id: nat, major: nat, pool: Pool)
    requires Tiled(ls, s, start, id, major, pool)
    ensures DistinctOffsets(ls) && DistinctIds(ls)
  {
    forall j, k | 0 <= j < k < |ls| ensures ls[j].offset != ls[k].offset {
      StartsIncrease(Plainly(ls), start, j, k);
    }
  }

  /**
    * A decoded stream starts at 0, tiles the array, numbers instructions in
    * order, maps exactly their first bytes back, and lands every branch on one.
    */
  lemma DecodedTiles(code: bytes, major: nat, pool: Pool)
    requires Decode(code, major, pool).Some?
    ensures var st := Decode(code, major, pool).value;
      Tiled(st.instructions, code, 0, 0, major, pool) && DistinctIds(st.instructions) && DistinctOffsets(st.instructions)
      && (forall k | 0 <= k < |st.instructions| :: st.instructions[k].offset in st.offsets && st.offsets[st.instructions[k].offset] == k)
      && (forall o | o in st.offsets :: exists k :: 0 <= k < |st.instructions| && st.instructions[k].offset == o)
      && LayoutOf(st)[|st.instructions|] == |code|
  {
    hide EmitAll, Starts, OffsetMap, BranchesLand;
    TakeAllTiles(code, 0, 0, major, pool);
    var st := Decode(code, major, pool).value;
    TiledDistinct(st.instructions, code, 0, 0, major, pool);
    OffsetMapInverse(st.instructions);
    EmittedLength(Plainly(st.instructions), 0);
  }

  /** Each decoded instruction is written in the bytes from its own offset to the next one, or to the end. */
  lemma DecodedSlice(code: bytes, major: nat, pool: Pool, k: nat)
    requires Decode(code, major, pool).Some? && k < |Decode(code, major, pool).value.instructions|
    ensures var ls := Decode(code, major, pool).value.instructions;
      var end := if k + 1 < |ls| then ls[k + 1].offset else |code|;
      ls[k].offset < end <= |code| && Emit(ls[k].instruction, ls[k].offset) == Some(code[ls[k].offset..end])
  {
    hide Emit, Size, Starts, EmitAll, Decode, Tiled, OffsetMap;
    DecodedTiles(code, major, pool);
    var ls := Decode(code, major, pool).value.instructions;
    TiledAt(ls, code, 0, 0, major, pool, k);
    TiledOffset(ls, code, major, pool, k);
    if k + 1 < |ls| { TiledOffset(ls, code, major, pool, k + 1); }
  }

  lemma DecodedTarget(code: bytes, major: nat, pool: Pool, k: nat, op: Operand)
    requires Decode(code, major, pool).Some?
    requires var st := Decode(code, major, pool).value; k < |st.instructions| && op in st.instructions[k].instruction.operands && op.Branch?
    ensures var st := Decode(code, major, pool).value;
      Target(st, k, op.displacement) < |st.instructions| && Shift(st, LayoutOf(st), k, op.displacement) == op.displacement
  {
    hide Tiled, Starts, OffsetMap, TakeAll, Target, DistinctIds, DistinctOffsets;
    DecodedTiles(code, major, pool);
    var st := Decode(code, major, pool).value;
    var t := st.instructions[k].offset + op.displacement;
    assert t in st.offsets;
    var j :| 0 <= j < |st.instructions| && st.instructions[j].offset == t;
    TargetOf(st.instructions, k, op.displacement, j);
    TiledOffset(st.instructions, code, major, pool, k);
    TiledOffset(st.instructions, code, major, pool, j);
  }

  lemma TiledOffset(ls: seq<Located>, code: bytes, major: nat, pool: Pool, k: nat)
    requires Tiled(ls, code, 0, 0, major, pool) && k < |ls|
    ensures ls[k].offset == Starts(Plainly(ls), 0)[k]
  {
  }

  lemma DecodedUnmoved(code: bytes, major: nat, pool: Pool)
    requires Decode(code, major, pool).Some? && Fitting(LayoutOf(Decode(code, major, pool).value))
    ensures var st := Decode(code, major, pool).value; Reachable(st, LayoutOf(st)) && Moved(st, LayoutOf(st)) == st.instructions
  {
    hide EmitAll, Starts, OffsetMap, TakeAll, Decode, Target, Shift, Tiled, MoveOperands;
    DecodedTiles(code, major, pool);
    var st := Decode(code, major, pool).value;
    var starts := LayoutOf(st);
    forall k, op | 0 <= k < |st.instructions| && op in st.instructions[k].instruction.operands && op.Branch?
      ensures Target(st, k, op.displacement) < |st.instructions| && IsI32(Shift(st, starts, k, op.displacement))
    {
      DecodedTarget(code, major, pool, k, op);
    }
    forall k | 0 <= k < |st.instructions| ensures MovedAt(st, starts, k) == st.instructions[k] {
      TiledOffset(st.instructions, code, major, pool, k);
      UnmovedOperands(code, major, pool, k);
    }
  }

  lemma UnmovedOperands(code: bytes, major: nat, pool: Pool, k: nat)
    requires Decode(code, major, pool).Some? && k < |Decode(code, major, pool).value.instructions|
    ensures var st := Decode(code, major, pool).value; MoveOperands(st, LayoutOf(st), k) == st.instructions[k].instruction.operands
  {
    hide Starts, Decode, Target, Shift, LayoutOf;
    var st := Decode(code, major, pool).value;
    var ops := st.instructions[k].instruction.operands;
    forall i | 0 <= i < |ops| ensures MoveOperand(st, LayoutOf(st), k, ops[i]) == ops[i] {
      if ops[i].Branch? { DecodedTarget(code, major, pool, k, ops[i]); }
    }
  }

  lemma FittingByEnd(st: Stream)
    ensures Fitting(LayoutOf(st)) <==> LayoutOf(st)[|st.instructions|] <= U32_MAX
  {
    var starts := LayoutOf(st);
    if starts[|st.instructions|] <= U32_MAX {
      forall k | 0 <= k < |starts| ensures starts[k] <= U32_MAX {
        if k < |st.instructions| { StartsIncrease(Plainly(st.instructions), 0, k, |st.instructions|); }
      }
    }
  }

  /**
    * Encoding what was decoded gives back exactly the code array, and leaves
    * the stream alone, for every accepted array whose length fits 32 bits; a
    * longer one can be decoded but not encoded.
    */
  lemma ByteExact(code: bytes, major: nat, pool: Pool)
    requires Decode(code, major, pool).Some?
    ensures var st := Decode(code, major, pool).value;
      Encode(st, major) == if |code| <= U32_MAX then Some((code, st)) else None
  {
    hide EmitAll, Starts, OffsetMap, TakeAll, Reachable, Shaped, Usable;
    DecodedTiles(code, major, pool);
    var st := Decode(code, major, pool).value;
    FittingByEnd(st);
    if |code| <= U32_MAX { DecodedUnmoved(code, major, pool); }
  }

  function Nops(n: nat): (r: bytes)
    ensures |r| == n
  {
    seq(n, i => 0)
  }

  lemma NopTaken(s: bytes, start: nat, major: nat, pool: Pool)
    requires major >= FIRST && s != [] && s[0] == 0
    ensures TakeInstruction(s, start, major, pool) == Some((Instruction(0, false, []), s[1..]))
  {
    assert Row(0) == Plain([]);
    hide Row;
  }

  lemma {:induction false} NopsTaken(n: nat, start: nat, major: nat, pool: Pool)
    requires major >= FIRST && start + n <= U32_MAX + 1
    ensures TakeAll(Nops(n), start, start, major, pool).Some?
    ensures forall l | l in TakeAll(Nops(n), start, start, major, pool).value :: l.instruction.operands == []
    decreases n
  {
    hide TakeInstruction;
    if n > 0 {
      assert Nops(n)[1..] == Nops(n - 1);
      NopTaken(Nops(n), start, major, pool);
      NopsTaken(n - 1, start + 1, major, pool);
    }
  }

  /** There is such an array: as many `nop`s as there are 32-bit offsets. */
  lemma LongestCode(major: nat, pool: Pool)
    requires major >= FIRST
    ensures var code := Nops(U32_MAX + 1);
      Decode(code, major, pool).Some? && Encode(Decode(code, major, pool).value, major).None?
  {
    hide Encode, OffsetMap;
    var code := Nops(U32_MAX + 1);
    NopsTaken(U32_MAX + 1, 0, major, pool);
    ByteExact(code, major, pool);
  }

  // ---- decoding what was encoded -----------------------------------------------------------------

  /** The same instructions numbered in order. */
  function Renumbered(ls: seq<Located>): (r: seq<Located>)
    requires |ls| <= U32_MAX + 1
    ensures |r| == |ls|
    ensures forall k | 0 <= k < |ls| :: r[k] == ls[k].(id := k)
  {
    seq(|ls|, k requires 0 <= k < |ls| => ls[k].(id := k))
  }

  predicate ConstantsOk(pool: Pool, ls: seq<Located>) {
    forall l | l in ls :: ConstantOk(pool, l.instruction)
  }

  function NumberedFrom(is0: seq<Instruction>, start: nat, id: nat): seq<Located>
    requires id + |is0| <= U32_MAX + 1 && Starts(is0, start)[|is0|] <= U32_MAX
  {
    if is0 == [] then [] else
      StartsIncrease(is0, start, 0, |is0|);
      [Located(id, start, is0[0])] + NumberedFrom(is0[1..], start + Size(is0[0], start), id + 1)
  }

  lemma {:induction false} TakeAllOf(is0: seq<Instruction>, start: nat, id: nat, major: nat, pool: Pool)
    requires id + |is0| <= U32_MAX + 1 && Starts(is0, start)[|is0|] <= U32_MAX
    requires forall i | i in is0 :: Usable(i.opcode, major) && ConstantOk(pool, i)
    requires EmitAll(is0, start).Some?
    ensures TakeAll(EmitAll(is0, start).value, start, id, major, pool) == Some(NumberedFrom(is0, start, id))
    decreases |is0|
  {
    hide TakeInstruction, Emit, Size, Usable, ConstantOk;
    if is0 != [] {
      var b := Emit(is0[0], start).value;
      EmitSize(is0[0], start);
      StartsIncrease(is0, start, 0, |is0|);
      var rest := EmitAll(is0[1..], start + |b|).value;
      assert is0[0] in is0;
      TakeInstructionOf(is0[0], start, major, pool, rest);
      TakeAllOf(is0[1..], start + |b|, id + 1, major, pool);
    }
  }

  lemma {:induction false} NumberedAt(is0: seq<Instruction>, start: nat, id: nat, k: nat)
    requires id + |is0| <= U32_MAX + 1 && Starts(is0, start)[|is0|] <= U32_MAX && k < |is0|
    ensures |NumberedFrom(is0, start, id)| == |is0|
    ensures NumberedFrom(is0, start, id)[k].id == id + k
    ensures NumberedFrom(is0, start, id)[k].offset == Starts(is0, start)[k]
    ensures NumberedFrom(is0, start, id)[k].instruction == is0[k]
    decreases |is0|
  {
    hide Size;
    if |is0| > 1 { NumberedAt(is0[1..], start + Size(is0[0], start), id + 1, if k > 0 then k - 1 else 0); }
  }

  /** There are no more instructions than bytes. */
  lemma {:induction false} CountBound(is0: seq<Instruction>, start: nat)
    ensures start + |is0| <= Starts(is0, start)[|is0|]
  {
    hide Size;
    if is0 != [] { CountBound(is0[1..], start + Size(is0[0], start)); }
  }

  lemma NumberedIsRenumbered(ls: seq<Located>)
    requires |ls| <= U32_MAX && Starts(Plainly(ls), 0)[|ls|] <= U32_MAX
    requires forall k | 0 <= k < |ls| :: ls[k].offset == Starts(Plainly(ls), 0)[k]
    ensures NumberedFrom(Plainly(ls), 0, 0) == Renumbered(ls)
  {
    hide Starts, NumberedFrom;
    var is0 := Plainly(ls);
    if ls == [] { NumberedNothing(); }
    forall k | 0 <= k < |ls| ensures |NumberedFrom(is0, 0, 0)| == |ls| && NumberedFrom(is0, 0, 0)[k] == Renumbered(ls)[k] {
      NumberedAt(is0, 0, 0, k);
    }
  }

  lemma NumberedNothing()
    ensures Starts([], 0)[0] == 0 && NumberedFrom([], 0, 0) == []
  {
  }

  /**
    * Decoding encoded bytes gives the relocated instructions back, numbered
    * afresh, provided the constants they name are usable.
    */
  lemma DecodeEncoded(st: Stream, major: nat, pool: Pool)
    requires Encode(st, major).Some? && ConstantsOk(pool, st.instructions)
    ensures var (code, st') := Encode(st, major).value;
      |st'.instructions| <= U32_MAX
      && Decode(code, major, pool) == Some(Stream(Renumbered(st'.instructions), OffsetMap(Renumbered(st'.instructions))))
  {
    hide EmitAll, Starts, OffsetMap, TakeAll, Reachable, Shaped, Usable, ConstantOk, Target, Shift, NumberedFrom;
    var (code, st') := Encode(st, major).value;
    var ls := st'.instructions;
    MovedLayout(st, LayoutOf(st));
    CountBound(Plainly(ls), 0);
    MovedConstants(st, major, pool);
    TakeAllOf(Plainly(ls), 0, 0, major, pool);
    NumberedIsRenumbered(ls);
    LandingKept(st, major);
  }

  lemma MovedConstants(st: Stream, major: nat, pool: Pool)
    requires Encode(st, major).Some? && ConstantsOk(pool, st.instructions)
    ensures forall i | i in Plainly(Encode(st, major).value.1.instructions) :: Usable(i.opcode, major) && ConstantOk(pool, i)
  {
    hide EmitAll, Starts, OffsetMap, Reachable, Shaped, Usable, Target, Shift, FirstConstant, Row;
    var st' := Encode(st, major).value.1;
    forall i | i in Plainly(st'.instructions) ensures Usable(i.opcode, major) && ConstantOk(pool, i) {
      var k :| 0 <= k < |st'.instructions| && st'.instructions[k].instruction == i;
      assert st.instructions[k] in st.instructions;
      SameConstant(st.instructions[k].instruction.operands, i.operands);
    }
  }

  lemma {:induction false} SameConstant(was: seq<Operand>, ops: seq<Operand>)
    requires |ops| == |was|
    requires forall k | 0 <= k < |ops| :: ops[k].Branch? == was[k].Branch? && (!ops[k].Branch? ==> ops[k] == was[k])
    ensures FirstConstant(ops) == FirstConstant(was)
  {
    if ops != [] { SameConstant(was[1..], ops[1..]); }
  }

  lemma LandingKept(st: Stream, major: nat)
    requires Encode(st, major).Some? && |st.instructions| <= U32_MAX
    ensures var ls := Renumbered(Encode(st, major).value.1.instructions); BranchesLand(Stream(ls, OffsetMap(ls)))
  {
    hide Encode, OffsetMap, DistinctOffsets, Moved, Reachable, AllShaped, DistinctIds, Fitting;
    var st' := Encode(st, major).value.1;
    EncodedFacts(st, major, st');
    MovedDistinct(st);
    RenumberedDistinct(st'.instructions);
    var ls := Renumbered(st'.instructions);
    forall k, op | 0 <= k < |ls| && op in ls[k].instruction.operands && op.Branch?
      ensures exists j :: 0 <= j < |ls| && ls[k].offset + op.displacement == ls[j].offset
    {
      LandsOn(st, major, st', k, op);
      var j :| 0 <= j < |ls| && st'.instructions[k].offset + op.displacement == st'.instructions[j].offset;
      assert ls[k].offset + op.displacement == ls[j].offset;
    }
    LandingOffsets(ls);
  }

  lemma LandingOffsets(ls: seq<Located>)
    requires DistinctOffsets(ls)
    requires forall k, op | 0 <= k < |ls| && op in ls[k].instruction.operands && op.Branch? ::
      exists j :: 0 <= j < |ls| && ls[k].offset + op.displacement == ls[j].offset
    ensures BranchesLand(Stream(ls, OffsetMap(ls)))
  {
    hide OffsetMap, DistinctOffsets;
    OffsetMapInverse(ls);
  }

  lemma LandsOn(st: Stream, major: nat, st': Stream, k: nat, op: Operand)
    requires Encoded(st, major, st') && k < |st'.instructions|
    requires op in st'.instructions[k].instruction.operands && op.Branch?
    ensures exists j :: 0 <= j < |st'.instructions| && st'.instructions[k].offset + op.displacement == st'.instructions[j].offset
  {
    hide Encoded;
    EncodingKeeps(st, major, st');
    var i :| 0 <= i < |st'.instructions[k].instruction.operands| && st'.instructions[k].instruction.operands[i] == op;
    LandsAt(st, major, st', k, i);
  }

  lemma RenumberedDistinct(ls: seq<Located>)
    requires |ls| <= U32_MAX && DistinctOffsets(ls)
    ensures DistinctOffsets(Renumbered(ls))
  {
  }

  lemma LandsAt(st: Stream, major: nat, st': Stream, k: nat, i: nat)
    requires Encoded(st, major, st')
    requires k < |st'.instructions| && i < |st'.instructions[k].instruction.operands|
    requires st'.instructions[k].instruction.operands[i].Branch?
    ensures k < |st.instructions| == |st'.instructions| && i < |st.instructions[k].instruction.operands|
    ensures var op := st.instructions[k].instruction.operands[i];
      op.Branch? && Target(st, k, op.displacement) < |st.instructions|
      && st'.instructions[k].offset + st'.instructions[k].instruction.operands[i].displacement
        == st'.instructions[Target(st, k, op.displacement)].offset
  {
    hide Encoded, Target, OffsetMap, Starts, Shift;
    EncodedFacts(st, major, st');
    EncodingKeeps(st, major, st');
    BranchKeepsTarget(st, major, st', k, i);
  }
}
