/** The recursive body of a frame, plain or with back-references, written and read. */
module Body {
  import opened Exprs
  import opened Bits
  import opened Atoms

  // ---- writing ----------------------------------------------------------------------

  /** The sharing state of a dense writer: where each value was written, and the next index. */
  datatype WState = WState(seen: map<Expr, nat>, next: nat)

  /** What stays fixed while one body is written or read. */
  datatype Format = Format(carrier: Carrier, tables: Tables, dense: bool)

  /** Only bit frames have a tag for back-references. */
  predicate Legal(f: Format) {
    f.dense ==> f.carrier.Bitwise?
  }

  function Register(f: Format, e: Expr, w: WState): WState {
    if f.dense then WState(w.seen[e := w.next], w.next + 1) else w
  }

  /** One canonical expression: a back-reference when an equal one was written, its body otherwise. */
  function Enc(f: Format, e: Expr, w: WState): (Units, WState)
    requires Legal(f)
    decreases e, 1
  {
    if f.dense && e in w.seen then (EncTag(f.carrier, REF) + EncUInt(f.carrier, w.seen[e]), w)
    else EncNode(f, e, Register(f, e, w))
  }

  function EncNode(f: Format, e: Expr, w: WState): (Units, WState)
    requires Legal(f)
    decreases e, 0
  {
    var head := EncTag(f.carrier, KindOf(f.carrier, e.head)) + EncFields(f.carrier, f.tables, e.head, |e.kids|);
    if HasTail(e.head) && |e.kids| > 0 then
      var (front, w1) := Enc(f, e.kids[0], w);
      var (tail, w2) := EncKids(f, NamesOf(e.head), e.kids[1..], w1);
      (head + (front + (EncUInt(f.carrier, |e.kids| - 1) + tail)), w2)
    else
      var (front, w1) := EncKids(f, [], e.kids, w);
      (head + front, w1)
  }

  function NamesOf(h: Head): seq<Symbol> {
    if h.Annotated? then h.names else []
  }

  function EncName(f: Format, names: seq<Symbol>): Units {
    if names == [] then [] else EncEntry(f.carrier, f.tables.symbols, names[0])
  }

  function Rest<T>(xs: seq<T>): seq<T> {
    if xs == [] then [] else xs[1..]
  }

  /** Children in order, each after its annotation name when there are names. */
  function EncKids(f: Format, names: seq<Symbol>, ks: seq<Expr>, w: WState): (Units, WState)
    requires Legal(f)
    decreases ks
  {
    if ks == [] then ([], w) else
      var (first, w1) := Enc(f, ks[0], w);
      var (others, w2) := EncKids(f, Rest(names), ks[1..], w1);
      (EncName(f, names) + (first + others), w2)
  }

  // ---- reading ----------------------------------------------------------------------

  /** A completed subtree and its node count. */
  datatype Slot = Slot(expr: Expr, count: nat)

  /** The running state of a reader; a slot is `None` while its subtree is being read. */
  datatype RState = RState(nodes: nat, slots: seq<Option<Slot>>)

  datatype Read<+T> = Read(value: T, rest: Units, state: RState)

  /** Charges `count` nodes against the limit. */
  function Bump(limits: Limits, r: RState, count: nat): Option<RState> {
    if r.nodes + count > limits.maxExprNodes then None else Some(r.(nodes := r.nodes + count))
  }

  function OpenSlot(f: Format, r: RState): RState {
    if f.dense then r.(slots := r.slots + [None]) else r
  }

  function CloseSlot(f: Format, r: RState, slot: nat, e: Expr): RState {
    if f.dense && slot < |r.slots| then r.(slots := r.slots[slot := Some(Slot(e, NodeCount(e)))]) else r
  }

  function Dec(f: Format, limits: Limits, s: Units, depth: nat, r: RState): Option<Read<Expr>>
    decreases if depth > limits.maxDepth then 0 else limits.maxDepth + 1 - depth, 1, 0
  {
    if depth > limits.maxDepth then None else
    match DecTag(f.carrier, s)
    case None => None
    case Some((kind, rest)) =>
      if f.dense && kind == REF then DecRef(f, limits, rest, r)
      else DecNode(f, limits, kind, rest, depth, r)
  }

  function DecRef(f: Format, limits: Limits, s: Units, r: RState): Option<Read<Expr>> {
    match DecCount(f.carrier, s, USIZE_MAX)
    case None => None
    case Some((index, rest)) =>
      if index >= |r.slots| || r.slots[index].None? then None else
      var slot := r.slots[index].value;
      match Bump(limits, r, slot.count)
      case None => None
      case Some(r') => Some(Read(slot.expr, rest, r'))
  }

  function DecNode(f: Format, limits: Limits, kind: nat, s: Units, depth: nat, r: RState): Option<Read<Expr>>
    requires depth <= limits.maxDepth
    decreases limits.maxDepth + 1 - depth, 0, 0
  {
    match Bump(limits, OpenSlot(f, r), 1)
    case None => None
    case Some(r1) =>
      match DecFields(f.carrier, limits, f.tables, kind, s)
      case None => None
      case Some(h) =>
        match DecKids(f, limits, false, h.rest, h.front, depth + 1, r1)
        case None => None
        case Some(front) =>
          if !HasTail(h.head) then
            var e := Expr(h.head, front.value.1);
            Some(Read(e, front.rest, CloseSlot(f, front.state, |r.slots|, e)))
          else
            match DecCount(f.carrier, front.rest, limits.maxTableEntries)
            case None => None
            case Some((n, rest)) =>
              match DecKids(f, limits, h.head.Annotated?, rest, n, depth + 1, front.state)
              case None => None
              case Some(tail) =>
                var head := if h.head.Annotated? then Annotated(tail.value.0) else h.head;
                var e := Expr(head, front.value.1 + tail.value.1);
                Some(Read(e, tail.rest, CloseSlot(f, tail.state, |r.slots|, e)))
  }

  /** An annotation name when one is expected. */
  function DecName(f: Format, named: bool, s: Units): Option<(seq<Symbol>, Units)> {
    if !named then Some(([], s)) else
    match DecEntry(f.carrier, s, f.tables.symbols)
    case None => None
    case Some((x, rest)) => Some(([x], rest))
  }

  function DecKids(f: Format, limits: Limits, named: bool, s: Units, n: nat, depth: nat, r: RState)
    : Option<Read<(seq<Symbol>, seq<Expr>)>>
    decreases if depth > limits.maxDepth then 0 else limits.maxDepth + 1 - depth, 2, n
  {
    if n == 0 then Some(Read(([], []), s, r)) else
    match DecName(f, named, s)
    case None => None
    case Some((name, rest)) =>
      match Dec(f, limits, rest, depth, r)
      case None => None
      case Some(first) =>
        match DecKids(f, limits, named, first.rest, n - 1, depth, first.state)
        case None => None
        case Some(others) =>
          Some(Read((name + others.value.0, [first.value] + others.value.1), others.rest, others.state))
  }

  // ---- what a body needs ------------------------------------------------------------

  /** Levels below the root. */
  function Height(e: Expr): nat
    decreases e, 0
  {
    HeightAll(e.kids)
  }

  /** Levels of a list of children, counted from their parent. */
  function HeightAll(ks: seq<Expr>): nat
    decreases ks
  {
    if ks == [] then 0 else
      var a, b := 1 + Height(ks[0]), HeightAll(ks[1..]);
      if a > b then a else b
  }

  /** Every table entry the body refers to is in the tables. */
  predicate Closed(t: Tables, e: Expr)
    decreases e
  {
    HeadClosed(t, e.head) && forall k | k in e.kids :: Closed(t, k)
  }

  /** Every node is within the decoder's field limits. */
  predicate Fits(c: Carrier, limits: Limits, e: Expr)
    decreases e
  {
    HeadFits(c, limits, e.head, |e.kids|) && forall k | k in e.kids :: Fits(c, limits, k)
  }

  ghost predicate Readable(f: Format, limits: Limits, e: Expr) {
    WellFormed(e) && TablesFit(f.tables) && Closed(f.tables, e) && Fits(f.carrier, limits, e)
  }

  ghost predicate AllReadable(f: Format, limits: Limits, ks: seq<Expr>) {
    forall k | k in ks :: Readable(f, limits, k)
  }

  // ---- writer and reader in step ------------------------------------------------------

  /**
    * The writer's table and the reader's slots agree: they number alike, a
    * registered value is in its completed slot, and the value of a slot still
    * open is larger than `m`, so nothing of size `m` refers to it.
    */
  ghost predicate InStep(f: Format, w: WState, r: RState, m: nat) {
    f.dense ==>
      && w.next == |r.slots| <= r.nodes
      && forall e | e in w.seen :: SlotFor(r, e, w.seen[e], m)
  }

  ghost predicate SlotFor(r: RState, e: Expr, i: nat, m: nat) {
    i < |r.slots|
    && match r.slots[i]
       case Some(slot) => slot == Slot(e, NodeCount(e))
       case None => NodeCount(e) > m
  }

  /** Later registrations use later numbers and keep the earlier ones. */
  ghost predicate WGrows(w: WState, w': WState) {
    w.next <= w'.next
    && (forall e | e in w.seen :: e in w'.seen && w'.seen[e] == w.seen[e])
    && (forall e | e in w'.seen && e !in w.seen :: w.next <= w'.seen[e])
  }

  /** Later slots are all complete and earlier ones are as they were. */
  ghost predicate RGrows(r: RState, r': RState) {
    |r.slots| <= |r'.slots| && r'.slots[..|r.slots|] == r.slots
    && forall i | |r.slots| <= i < |r'.slots| :: r'.slots[i].Some?
  }

  ghost predicate Advanced(f: Format, w: WState, w': WState, r: RState, r': RState, n: nat, m: nat) {
    InStep(f, w', r', m) && r'.nodes == r.nodes + n
    && (f.dense ==> WGrows(w, w') && RGrows(r, r'))
  }

  lemma AdvancedNothing(f: Format, w: WState, r: RState, m: nat)
    requires InStep(f, w, r, m)
    ensures Advanced(f, w, w, r, r, 0, m)
  {
  }

  lemma AdvancedTransitive(f: Format, w0: WState, w1: WState, w2: WState, r0: RState, r1: RState, r2: RState, a: nat, b: nat, m: nat, m': nat)
    requires Advanced(f, w0, w1, r0, r1, a, m) && Advanced(f, w1, w2, r1, r2, b, m')
    ensures Advanced(f, w0, w2, r0, r2, a + b, m')
  {
    if f.dense {
      assert r2.slots[..|r0.slots|] == r2.slots[..|r1.slots|][..|r0.slots|];
      forall i | |r0.slots| <= i < |r2.slots| ensures r2.slots[i].Some? {
        if i < |r1.slots| { assert r2.slots[..|r1.slots|][i] == r1.slots[i]; }
      }
    }
  }

  /** Opening a node registers it under the number the reader gives its slot. */
  lemma OpenInStep(f: Format, limits: Limits, e: Expr, w: WState, r: RState, m: nat)
    requires InStep(f, w, r, m) && NodeCount(e) <= m
    requires f.dense ==> e !in w.seen
    requires r.nodes + 1 <= limits.maxExprNodes
    ensures Bump(limits, OpenSlot(f, r), 1).Some?
    ensures InStep(f, Register(f, e, w), Bump(limits, OpenSlot(f, r), 1).value, NodeCount(e) - 1)
  {
    if f.dense {
      var w1, r1 := Register(f, e, w), Bump(limits, OpenSlot(f, r), 1).value;
      forall x | x in w1.seen ensures SlotFor(r1, x, w1.seen[x], NodeCount(e) - 1) {
        if x != e { assert SlotFor(r, x, w.seen[x], m); }
      }
    }
  }

  /** Closing it completes exactly its own slot. */
  lemma CloseInStep(f: Format, e: Expr, w: WState, w2: WState, r: RState, r1: RState, r2: RState, m: nat)
    requires InStep(f, w, r, m) && NodeCount(e) <= m
    requires f.dense ==> e !in w.seen
    requires r1 == OpenSlot(f, r).(nodes := r.nodes + 1)
    requires Advanced(f, Register(f, e, w), w2, r1, r2, NodeCount(e) - 1, NodeCount(e) - 1)
    ensures Advanced(f, w, w2, r, CloseSlot(f, r2, |r.slots|, e), NodeCount(e), m)
  {
    if f.dense {
      var slot := |r.slots|;
      var w1 := Register(f, e, w);
      var r3 := CloseSlot(f, r2, slot, e);
      assert |r1.slots| == slot + 1;
      assert r2.slots[..slot] == r2.slots[..slot + 1][..slot] == r.slots;
      forall x | x in w2.seen ensures SlotFor(r3, x, w2.seen[x], m) {
        assert SlotFor(r2, x, w2.seen[x], NodeCount(e) - 1);
        var i := w2.seen[x];
        if x in w.seen {
          assert SlotFor(r, x, w.seen[x], m);
          assert i < slot && r3.slots[i] == r2.slots[..slot][i];
        } else if x == e {
          assert i == slot;
        } else {
          assert x !in w1.seen && i >= w1.next;
        }
      }
      assert r3.slots[..slot] == r2.slots[..slot];
    }
  }
}
