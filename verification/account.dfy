/** What a successful read guarantees about any input, back-references included. */
module Accounting {
  import opened Exprs
  import opened Bits
  import opened Atoms
  import opened Body
  import opened Numbers

  /** Shaped like an expression, and in a byte frame within every field limit. */
  ghost predicate Sized(c: Carrier, limits: Limits, e: Expr) {
    WellFormed(e) && (c.Binary? ==> Fits(c, limits, e))
  }

  ghost predicate AllSized(c: Carrier, limits: Limits, es: seq<Expr>) {
    forall e | e in es :: Sized(c, limits, e)
  }

  ghost predicate SlotGood(c: Carrier, limits: Limits, slot: Option<Slot>) {
    slot.Some? ==> slot.value.count == NodeCount(slot.value.expr) && Sized(c, limits, slot.value.expr)
  }

  /** Completed slots carry their true node counts. */
  ghost predicate SlotsGood(c: Carrier, limits: Limits, r: RState) {
    forall i | 0 <= i < |r.slots| :: SlotGood(c, limits, r.slots[i])
  }

  /** Reading charged exactly `n` nodes, within the limit. */
  ghost predicate Charged(f: Format, limits: Limits, r: RState, r': RState, n: nat) {
    r'.nodes == r.nodes + n && (n > 0 ==> r'.nodes <= limits.maxExprNodes)
    && SlotsGood(f.carrier, limits, r') && |r.slots| <= |r'.slots|
  }

  predicate HeadSized(c: Carrier, limits: Limits, h: Head, n: nat) {
    Arity(h, n) && (c.Binary? ==> HeadFits(c, limits, h, n))
  }

  /** The head just read and its announced children make a node, or wait for a counted tail. */
  predicate HeadReady(c: Carrier, limits: Limits, h: HeadRead) {
    if HasTail(h.head) then h.front == 1 && (h.head == Call || h.head == Annotated([]))
    else HeadSized(c, limits, h.head, h.front)
  }

  lemma TakePayloadLength(c: Carrier, s: Units, n: nat)
    ensures TakePayload(c, s, n).Some? ==> |TakePayload(c, s, n).value.0| == n
  {
  }

  lemma DecBytesLength(c: Carrier, s: Units, limit: usize)
    ensures DecBytes(c, s, limit).Some? ==> |DecBytes(c, s, limit).value.0| <= limit
  {
    hide DecUInt;
    match DecCount(c, s, limit)
    case None =>
    case Some((n, rest)) => TakePayloadLength(c, rest, n);
  }

  lemma DecFieldsFacts(c: Carrier, limits: Limits, t: Tables, kind: nat, s: Units)
    requires DecFields(c, limits, t, kind, s).Some? && HasTag(c, kind)
    ensures HeadReady(c, limits, DecFields(c, limits, t, kind, s).value)
  {
    hide DecUInt, DecEntry, DecMode, DecBytes, IsUtf8, SmallUint, IntegerBits, DecMagnitude, DecimalText;
    DecBytesLength(c, s, limits.maxStringBytes);
    DecBytesLength(c, s, limits.maxBlobBytes);
    if kind == 19 && c.Binary? && DecEntry(c, s, t.domains).Some? {
      DecBytesLength(c, DecEntry(c, s, t.domains).value.1, limits.maxStringBytes);
    }
  }

  lemma DecTagKind(c: Carrier, s: Units)
    ensures DecTag(c, s).Some? ==> HasTag(c, DecTag(c, s).value.0)
  {
  }

  /** Every read charges the node count of what it returns, a back-reference its whole expansion. */
  lemma {:induction false} DecFacts(f: Format, limits: Limits, s: Units, depth: nat, r: RState)
    requires SlotsGood(f.carrier, limits, r)
    requires Dec(f, limits, s, depth, r).Some?
    ensures var d := Dec(f, limits, s, depth, r).value;
      Sized(f.carrier, limits, d.value) && Charged(f, limits, r, d.state, NodeCount(d.value))
      && (!f.dense ==> depth + Height(d.value) <= limits.maxDepth)
    decreases if depth > limits.maxDepth then 0 else limits.maxDepth + 1 - depth, 1, 0
  {
    hide DecTag, DecNode, DecCount, Sized, NodeCount, Height;
    var (kind, rest) := DecTag(f.carrier, s).value;
    DecTagKind(f.carrier, s);
    if f.dense && kind == REF {
      var (index, _) := DecCount(f.carrier, rest, USIZE_MAX).value;
      assert SlotGood(f.carrier, limits, r.slots[index]);
    } else {
      DecNodeFacts(f, limits, kind, rest, depth, r);
    }
  }

  lemma {:induction false} DecNodeFacts(f: Format, limits: Limits, kind: nat, s: Units, depth: nat, r: RState)
    requires SlotsGood(f.carrier, limits, r) && depth <= limits.maxDepth && HasTag(f.carrier, kind)
    requires DecNode(f, limits, kind, s, depth, r).Some?
    ensures var d := DecNode(f, limits, kind, s, depth, r).value;
      Sized(f.carrier, limits, d.value) && Charged(f, limits, r, d.state, NodeCount(d.value))
      && (!f.dense ==> depth + Height(d.value) <= limits.maxDepth)
    decreases limits.maxDepth + 1 - depth, 0, 0
  {
    hide DecFields, DecKids, DecCount, Sized, NodeCount, Height, HeightAll, SlotsGood, HeadSized;
    var r1 := Bump(limits, OpenSlot(f, r), 1).value;
    OpenGood(f, limits, r);
    DecFieldsFacts(f.carrier, limits, f.tables, kind, s);
    var h := DecFields(f.carrier, limits, f.tables, kind, s).value;
    DecKidsFacts(f, limits, false, h.rest, h.front, depth + 1, r1);
    var front := DecKids(f, limits, false, h.rest, h.front, depth + 1, r1).value;
    if !HasTail(h.head) {
      var e := Expr(h.head, front.value.1);
      NodeFacts(f.carrier, limits, e);
      CloseGood(f, limits, front.state, |r.slots|, e);
    } else {
      var (n, rest) := DecCount(f.carrier, front.rest, limits.maxTableEntries).value;
      DecKidsFacts(f, limits, h.head.Annotated?, rest, n, depth + 1, front.state);
      var tail := DecKids(f, limits, h.head.Annotated?, rest, n, depth + 1, front.state).value;
      var head := if h.head.Annotated? then Annotated(tail.value.0) else h.head;
      var e := Expr(head, front.value.1 + tail.value.1);
      TailSized(f.carrier, limits, head, front.value.1, tail.value.1);
      SumNodesAppend(front.value.1, tail.value.1);
      HeightAllAppend(front.value.1, tail.value.1);
      NodeFacts(f.carrier, limits, e);
      CloseGood(f, limits, tail.state, |r.slots|, e);
    }
  }

  lemma OpenGood(f: Format, limits: Limits, r: RState)
    requires SlotsGood(f.carrier, limits, r) && Bump(limits, OpenSlot(f, r), 1).Some?
    ensures SlotsGood(f.carrier, limits, Bump(limits, OpenSlot(f, r), 1).value)
  {
    hide Sized, NodeCount;
  }

  lemma CloseGood(f: Format, limits: Limits, r: RState, slot: nat, e: Expr)
    requires SlotsGood(f.carrier, limits, r) && Sized(f.carrier, limits, e)
    ensures SlotsGood(f.carrier, limits, CloseSlot(f, r, slot, e))
  {
    hide Sized, NodeCount;
  }

  lemma TailSized(c: Carrier, limits: Limits, h: Head, front: seq<Expr>, tail: seq<Expr>)
    requires h == Call || (h.Annotated? && |h.names| == |tail|)
    requires |front| == 1 && |tail| <= limits.maxTableEntries
    requires AllSized(c, limits, front) && AllSized(c, limits, tail)
    ensures HeadSized(c, limits, h, |front + tail|) && AllSized(c, limits, front + tail)
  {
    hide Sized;
  }

  lemma NodeFacts(c: Carrier, limits: Limits, e: Expr)
    requires HeadSized(c, limits, e.head, |e.kids|) && AllSized(c, limits, e.kids)
    ensures Sized(c, limits, e) && NodeCount(e) == 1 + SumNodes(e.kids) && Height(e) == HeightAll(e.kids)
  {
    hide HeadFits, Arity, SumNodes, HeightAll;
    forall k | k in e.kids ensures WellFormed(k) && (c.Binary? ==> Fits(c, limits, k)) {
      assert Sized(c, limits, k);
    }
  }

  lemma {:induction false} HeightAllAppend(a: seq<Expr>, b: seq<Expr>)
    ensures HeightAll(a + b) == if HeightAll(a) > HeightAll(b) then HeightAll(a) else HeightAll(b)
  {
    hide Height;
    if a == [] {
      assert a + b == b;
    } else {
      assert (a + b)[1..] == a[1..] + b;
      HeightAllAppend(a[1..], b);
    }
  }

  lemma {:induction false} DecKidsFacts(f: Format, limits: Limits, named: bool, s: Units, n: nat, depth: nat, r: RState)
    requires SlotsGood(f.carrier, limits, r) && depth <= limits.maxDepth + 1
    requires DecKids(f, limits, named, s, n, depth, r).Some?
    ensures var d := DecKids(f, limits, named, s, n, depth, r).value;
      |d.value.0| == (if named then n else 0) && |d.value.1| == n && AllSized(f.carrier, limits, d.value.1)
      && Charged(f, limits, r, d.state, SumNodes(d.value.1))
      && (!f.dense ==> depth + HeightAll(d.value.1) <= limits.maxDepth + 1)
    decreases if depth > limits.maxDepth then 0 else limits.maxDepth + 1 - depth, 2, n
  {
    hide Dec, DecEntry, Sized, NodeCount, Height, SlotsGood;
    if n > 0 {
      var (name, rest) := DecName(f, named, s).value;
      DecFacts(f, limits, rest, depth, r);
      var first := Dec(f, limits, rest, depth, r).value;
      DecKidsFacts(f, limits, named, first.rest, n - 1, depth, first.state);
      var others := DecKids(f, limits, named, first.rest, n - 1, depth, first.state).value;
      OneMoreKid(f.carrier, limits, first.value, others.value.1);
    }
  }

  lemma OneMoreKid(c: Carrier, limits: Limits, e: Expr, es: seq<Expr>)
    requires Sized(c, limits, e) && AllSized(c, limits, es)
    ensures AllSized(c, limits, [e] + es)
    ensures SumNodes([e] + es) == NodeCount(e) + SumNodes(es) && NodeCount(e) > 0
    ensures HeightAll([e] + es) == if 1 + Height(e) > HeightAll(es) then 1 + Height(e) else HeightAll(es)
  {
    hide Sized, Height;
    assert ([e] + es)[1..] == es;
  }
}
