/** Reading back what was written: the body round trip, plain and dense. */
module RoundTrips {
  import opened Exprs
  import opened Bits
  import opened Atoms
  import opened Body

  /** Enough room for `n` more nodes, and for `height` more levels below `depth`. */
  predicate Room(limits: Limits, r: RState, depth: nat, n: nat, height: nat) {
    r.nodes + n <= limits.maxExprNodes && depth + height <= limits.maxDepth
  }

  /** A back-reference reaches a completed slot that holds the same value. */
  lemma RefRoundTrip(f: Format, limits: Limits, e: Expr, w: WState, r: RState, depth: nat, rest: Units, m: nat) returns (r': RState)
    requires Legal(f) && f.dense && e in w.seen
    requires InStep(f, w, r, m) && NodeCount(e) <= m
    requires Room(limits, r, depth, NodeCount(e), 0)
    ensures Dec(f, limits, Enc(f, e, w).0 + rest, depth, r) == Some(Read(e, rest, r'))
    ensures Advanced(f, w, Enc(f, e, w).1, r, r', NodeCount(e), m)
  {
    hide DecTag, EncTag, DecCount, EncUInt;
    var i := w.seen[e];
    var tag, index := EncTag(f.carrier, REF), EncUInt(f.carrier, i);
    assert SlotFor(r, e, i, m);
    Assoc(tag, index, rest);
    DecTagOf(f.carrier, REF, index + rest);
    DecCountOf(f.carrier, i, USIZE_MAX, rest);
    r' := r.(nodes := r.nodes + NodeCount(e));
    forall x | x in w.seen ensures SlotFor(r', x, w.seen[x], m) {
      assert SlotFor(r, x, w.seen[x], m);
    }
  }

  /** Every value, read back after any writer and reader that are in step, leaves them in step. */
  lemma {:induction false} ExprRoundTrip(f: Format, limits: Limits, e: Expr, w: WState, r: RState, depth: nat, rest: Units, m: nat) returns (r': RState)
    requires Legal(f) && Readable(f, limits, e)
    requires InStep(f, w, r, m) && NodeCount(e) <= m
    requires Room(limits, r, depth, NodeCount(e), Height(e))
    ensures Dec(f, limits, Enc(f, e, w).0 + rest, depth, r) == Some(Read(e, rest, r'))
    ensures Advanced(f, w, Enc(f, e, w).1, r, r', NodeCount(e), m)
    decreases e, 2
  {
    if f.dense && e in w.seen {
      r' := RefRoundTrip(f, limits, e, w, r, depth, rest, m);
    } else {
      hide *;
      r' := NodeRoundTrip(f, limits, e, w, r, depth, rest, m);
      EncNew(f, e, w);
    }
  }

  lemma EncNew(f: Format, e: Expr, w: WState)
    requires Legal(f) && !(f.dense && e in w.seen)
    ensures Enc(f, e, w) == EncNode(f, e, Register(f, e, w))
  {
  }

  /** A value not yet written: registered on opening, completed on closing. */
  lemma {:induction false} NodeRoundTrip(f: Format, limits: Limits, e: Expr, w: WState, r: RState, depth: nat, rest: Units, m: nat) returns (r': RState)
    requires Legal(f) && Readable(f, limits, e) && !(f.dense && e in w.seen)
    requires InStep(f, w, r, m) && NodeCount(e) <= m
    requires Room(limits, r, depth, NodeCount(e), Height(e))
    ensures var out := EncNode(f, e, Register(f, e, w));
      Dec(f, limits, out.0 + rest, depth, r) == Some(Read(e, rest, r')) && Advanced(f, w, out.1, r, r', NodeCount(e), m)
    decreases e, 1, 1
  {
    hide DecTag, EncTag, DecFields, EncFields, DecCount, EncUInt, KindOf, DecKids, EncKids, DecNode, EncNode, NodeBody, Dec, InStep, Advanced;
    var w1 := Register(f, e, w);
    OpenInStep(f, limits, e, w, r, m);
    var r1 := OpenSlot(f, r).(nodes := r.nodes + 1);
    var kind, body := KindOf(f.carrier, e.head), NodeBody(f, e, w1);
    NodeSplit(f, e, w1);
    Assoc(EncTag(f.carrier, kind), body.0, rest);
    DecOfTag(f, limits, kind, body.0 + rest, depth, r);
    var r2: RState;
    if HasTail(e.head) {
      r2 := TailedRoundTrip(f, limits, e, w1, r, r1, depth, rest);
    } else {
      r2 := FlatRoundTrip(f, limits, e, w1, r, r1, depth, rest);
    }
    CloseInStep(f, e, w, body.1, r, r1, r2, m);
    r' := CloseSlot(f, r2, |r.slots|, e);
  }

  lemma DecOfTag(f: Format, limits: Limits, kind: nat, s: Units, depth: nat, r: RState)
    requires HasTag(f.carrier, kind) && kind < REF && depth <= limits.maxDepth
    ensures Dec(f, limits, EncTag(f.carrier, kind) + s, depth, r) == DecNode(f, limits, kind, s, depth, r)
  {
    hide DecTag, EncTag, DecNode;
    DecTagOf(f.carrier, kind, s);
  }

  /** Everything of a node but its tag. */
  function NodeBody(f: Format, e: Expr, w: WState): (Units, WState)
    requires Legal(f)
  {
    var fields := EncFields(f.carrier, f.tables, e.head, |e.kids|);
    if HasTail(e.head) && |e.kids| > 0 then
      var (front, w1) := Enc(f, e.kids[0], w);
      var (tail, w2) := EncKids(f, NamesOf(e.head), e.kids[1..], w1);
      (fields + (front + (EncUInt(f.carrier, |e.kids| - 1) + tail)), w2)
    else
      var (front, w1) := EncKids(f, [], e.kids, w);
      (fields + front, w1)
  }

  lemma NodeSplit(f: Format, e: Expr, w: WState)
    requires Legal(f)
    ensures EncNode(f, e, w).0 == EncTag(f.carrier, KindOf(f.carrier, e.head)) + NodeBody(f, e, w).0
    ensures EncNode(f, e, w).1 == NodeBody(f, e, w).1
  {
    hide EncTag, EncFields, EncUInt, KindOf;
    var tag, fields := EncTag(f.carrier, KindOf(f.carrier, e.head)), EncFields(f.carrier, f.tables, e.head, |e.kids|);
    if HasTail(e.head) && |e.kids| > 0 {
      var (front, w1) := Enc(f, e.kids[0], w);
      var (tail, w2) := EncKids(f, NamesOf(e.head), e.kids[1..], w1);
      Assoc(tag, fields, front + (EncUInt(f.carrier, |e.kids| - 1) + tail));
    } else {
      var (front, w1) := EncKids(f, [], e.kids, w);
      Assoc(tag, fields, front);
    }
  }

  /** A node whose children all follow its fields at once. */
  lemma {:induction false} FlatRoundTrip(f: Format, limits: Limits, e: Expr, w1: WState, r: RState, r1: RState, depth: nat, rest: Units)
    returns (r2: RState)
    requires Legal(f) && Readable(f, limits, e) && !HasTail(e.head)
    requires r1 == OpenSlot(f, r).(nodes := r.nodes + 1)
    requires InStep(f, w1, r1, NodeCount(e) - 1)
    requires Room(limits, r, depth, NodeCount(e), Height(e))
    ensures DecNode(f, limits, KindOf(f.carrier, e.head), NodeBody(f, e, w1).0 + rest, depth, r)
         == Some(Read(e, rest, CloseSlot(f, r2, |r.slots|, e)))
    ensures Advanced(f, w1, NodeBody(f, e, w1).1, r1, r2, NodeCount(e) - 1, NodeCount(e) - 1)
    decreases e, 1, 0
  {
    hide DecFields, EncFields, DecCount, EncUInt, KindOf, EncKids, DecKids, InStep, WGrows, RGrows, TablesFit, Arity;
    var fields := EncFields(f.carrier, f.tables, e.head, |e.kids|);
    var kids := EncKids(f, [], e.kids, w1);
    Assoc(fields, kids.0, rest);
    DecFieldsOf(f.carrier, limits, f.tables, e.head, |e.kids|, kids.0 + rest);
    r2 := KidsRoundTrip(f, limits, false, [], e.kids, w1, r1, depth + 1, rest, NodeCount(e) - 1);
  }

  /** A call or an annotated node: a first child, a count, and that many more. */
  lemma {:induction false} TailedRoundTrip(f: Format, limits: Limits, e: Expr, w1: WState, r: RState, r1: RState, depth: nat, rest: Units)
    returns (r3: RState)
    requires Legal(f) && Readable(f, limits, e) && HasTail(e.head)
    requires r1 == OpenSlot(f, r).(nodes := r.nodes + 1)
    requires InStep(f, w1, r1, NodeCount(e) - 1)
    requires Room(limits, r, depth, NodeCount(e), Height(e))
    ensures DecNode(f, limits, KindOf(f.carrier, e.head), NodeBody(f, e, w1).0 + rest, depth, r)
         == Some(Read(e, rest, CloseSlot(f, r3, |r.slots|, e)))
    ensures Advanced(f, w1, NodeBody(f, e, w1).1, r1, r3, NodeCount(e) - 1, NodeCount(e) - 1)
    decreases e, 1, 0
  {
    hide DecNode, DecFields, EncFields, DecCount, EncUInt, KindOf, DecKids, EncKids, Dec, Enc, HeightAll, NodeBody, InStep, WGrows, RGrows,
      OpenSlot, CloseSlot;
    var c, m, others := f.carrier, NodeCount(e) - 1, e.kids[1..];
    var front := Enc(f, e.kids[0], w1);
    var tail := EncKids(f, NamesOf(e.head), others, front.1);
    var afterCount := tail.0 + rest;
    var afterFront := EncUInt(c, |others|) + afterCount;
    TailedBody(f, e, w1, rest);
    DecFieldsOf(c, limits, f.tables, e.head, |e.kids|, front.0 + afterFront);
    HeightSplit(e.kids);
    var r2 := ExprRoundTrip(f, limits, e.kids[0], w1, r1, depth + 1, afterFront, m);
    DecCountOf(c, |others|, limits.maxTableEntries, afterCount);
    r3 := KidsRoundTrip(f, limits, e.head.Annotated?, NamesOf(e.head), others, front.1, r2, depth + 1, rest, m);
    AdvancedTransitive(f, w1, front.1, tail.1, r1, r2, r3, NodeCount(e.kids[0]), SumNodes(others), m, m);
    OpenBump(f, limits, r, r1);
    DecTailed(f, limits, KindOf(c, e.head), NodeBody(f, e, w1).0 + rest, depth, r, r1, front.0 + afterFront, afterCount, e, r2, r3, rest);
  }

  lemma OpenBump(f: Format, limits: Limits, r: RState, r1: RState)
    requires r1 == OpenSlot(f, r).(nodes := r.nodes + 1) && r.nodes + 1 <= limits.maxExprNodes
    ensures Bump(limits, OpenSlot(f, r), 1) == Some(r1)
  {
  }

  /** How the reader puts a tailed node together from its parts. */
  lemma DecTailed(f: Format, limits: Limits, kind: nat, s: Units, depth: nat, r: RState, r1: RState, s1: Units, s2: Units, e: Expr, r2: RState, r3: RState, rest: Units)
    requires depth <= limits.maxDepth && HasTail(e.head) && |e.kids| > 0
    requires Bump(limits, OpenSlot(f, r), 1) == Some(r1)
    requires DecFields(f.carrier, limits, f.tables, kind, s) == Some(HeadRead(Announced(e.head), 1, s1))
    requires Dec(f, limits, s1, depth + 1, r1).Some?
    requires var first := Dec(f, limits, s1, depth + 1, r1).value; first.value == e.kids[0] && first.state == r2
    requires DecCount(f.carrier, Dec(f, limits, s1, depth + 1, r1).value.rest, limits.maxTableEntries) == Some((|e.kids[1..]|, s2))
    requires DecKids(f, limits, e.head.Annotated?, s2, |e.kids[1..]|, depth + 1, r2) == Some(Read((NamesOf(e.head), e.kids[1..]), rest, r3))
    ensures DecNode(f, limits, kind, s, depth, r) == Some(Read(e, rest, CloseSlot(f, r3, |r.slots|, e)))
  {
    hide DecFields, DecCount, DecKids, Dec, OpenSlot, CloseSlot, Bump;
    OneKidRead(f, limits, s1, depth + 1, r1);
    AnnouncedBack(e);
  }

  /** The units of a tailed node, opened from the front. */
  lemma TailedBody(f: Format, e: Expr, w: WState, rest: Units)
    requires Legal(f) && HasTail(e.head) && |e.kids| > 0
    ensures var front := Enc(f, e.kids[0], w);
      var tail := EncKids(f, NamesOf(e.head), e.kids[1..], front.1);
      NodeBody(f, e, w).0 + rest
        == EncFields(f.carrier, f.tables, e.head, |e.kids|) + (front.0 + (EncUInt(f.carrier, |e.kids[1..]|) + (tail.0 + rest)))
      && NodeBody(f, e, w).1 == tail.1
  {
    hide EncFields, EncUInt, Enc, EncKids;
    var front := Enc(f, e.kids[0], w);
    var tail := EncKids(f, NamesOf(e.head), e.kids[1..], front.1);
    var fields, count := EncFields(f.carrier, f.tables, e.head, |e.kids|), EncUInt(f.carrier, |e.kids[1..]|);
    Assoc(fields, front.0 + (count + tail.0), rest);
    Assoc(front.0, count + tail.0, rest);
    Assoc(count, tail.0, rest);
  }

  lemma HeightSplit(ks: seq<Expr>)
    requires ks != []
    ensures HeightAll(ks) >= 1 + Height(ks[0]) && HeightAll(ks) >= HeightAll(ks[1..])
  {
  }

  lemma AnnouncedBack(e: Expr)
    requires HasTail(e.head) && |e.kids| > 0
    ensures Expr(if e.head.Annotated? then Annotated(NamesOf(e.head)) else Announced(e.head), [e.kids[0]] + e.kids[1..]) == e
  {
  }

  lemma OneKidRead(f: Format, limits: Limits, s: Units, depth: nat, r: RState)
    ensures DecKids(f, limits, false, s, 1, depth, r)
         == match Dec(f, limits, s, depth, r)
            case None => None
            case Some(k) => Some(Read(([], [k.value]), k.rest, k.state))
  {
    hide Dec;
    match Dec(f, limits, s, depth, r)
    case None =>
    case Some(k) => var none: seq<Symbol> := []; assert none + none == none; assert [k.value] + [] == [k.value];
  }

  lemma {:induction false} KidsRoundTrip(f: Format, limits: Limits, named: bool, names: seq<Symbol>, ks: seq<Expr>, w: WState, r: RState, depth: nat, rest: Units, m: nat)
    returns (r': RState)
    requires Legal(f) && AllReadable(f, limits, ks)
    requires |names| == if named then |ks| else 0
    requires TablesFit(f.tables) && forall x | x in names :: x in f.tables.symbols
    requires InStep(f, w, r, m) && SumNodes(ks) <= m
    requires r.nodes + SumNodes(ks) <= limits.maxExprNodes && depth + HeightAll(ks) <= limits.maxDepth + 1
    ensures DecKids(f, limits, named, EncKids(f, names, ks, w).0 + rest, |ks|, depth, r)
         == Some(Read((names, ks), rest, r'))
    ensures Advanced(f, w, EncKids(f, names, ks, w).1, r, r', SumNodes(ks), m)
    decreases ks, 0
  {
    hide DecEntry, EncEntry, Enc, Dec, InStep, WGrows, RGrows, NodeCount, Height, Fits, Closed;
    if ks == [] {
      assert [] + rest == rest;
      AdvancedNothing(f, w, r, m);
      r' := r;
    } else {
      var name := EncName(f, names);
      var first := Enc(f, ks[0], w);
      var others := EncKids(f, Rest(names), ks[1..], first.1);
      var tail := first.0 + (others.0 + rest);
      Assoc(name, first.0 + others.0, rest);
      Assoc(first.0, others.0, rest);
      DecNameOf(f, named, names, tail);
      var r1 := ExprRoundTrip(f, limits, ks[0], w, r, depth, others.0 + rest, m);
      r' := KidsRoundTrip(f, limits, named, Rest(names), ks[1..], first.1, r1, depth, rest, m);
      AdvancedTransitive(f, w, first.1, others.1, r, r1, r', NodeCount(ks[0]), SumNodes(ks[1..]), m, m);
      assert ks == [ks[0]] + ks[1..];
    }
  }

  /** The name of the next child, when there are names. */
  lemma DecNameOf(f: Format, named: bool, names: seq<Symbol>, rest: Units)
    requires TablesFit(f.tables) && (forall x | x in names :: x in f.tables.symbols) && (named <==> names != [])
    ensures var first := if named then [names[0]] else [];
      DecName(f, named, EncName(f, names) + rest) == Some((first, rest)) && first + Rest(names) == names
  {
    hide DecEntry, EncEntry;
    if named {
      DecEntryOf(f.carrier, f.tables.symbols, names[0], rest);
      assert names == [names[0]] + names[1..];
    } else {
      assert [] + rest == rest;
      assert [] + [] == names;
    }
  }
}
