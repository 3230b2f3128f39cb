/** What dense frames share: every distinct value is written out once, and pointed at from then on. */
module Sharing {
  import opened Exprs
  import opened Bits
  import opened Atoms
  import opened Body

  /** A value and everything inside it, each once. */
  function Subvalues(e: Expr): (r: set<Expr>)
    ensures e in r
    decreases e, 0
  {
    {e} + SubvaluesOf(e.kids)
  }

  function SubvaluesOf(ks: seq<Expr>): set<Expr>
    decreases ks
  {
    if ks == [] then {} else Subvalues(ks[0]) + SubvaluesOf(ks[1..])
  }

  /** Whatever was written and has at most `m` nodes was written with all its parts. */
  ghost predicate Complete(w: WState, m: nat) {
    forall x | x in w.seen && NodeCount(x) <= m :: Subvalues(x) <= w.seen.Keys
  }

  lemma {:induction false} SubvaluesTransitive(x: Expr, e: Expr)
    requires x in Subvalues(e)
    ensures Subvalues(x) <= Subvalues(e)
    decreases e, 0
  {
    if x != e { SubvaluesOfTransitive(x, e.kids); }
  }

  lemma {:induction false} SubvaluesOfTransitive(x: Expr, ks: seq<Expr>)
    requires x in SubvaluesOf(ks)
    ensures Subvalues(x) <= SubvaluesOf(ks)
    decreases ks
  {
    if x in Subvalues(ks[0]) {
      SubvaluesTransitive(x, ks[0]);
    } else {
      SubvaluesOfTransitive(x, ks[1..]);
    }
  }

  /** Every value in `all` is in the table after, with everything else as it was, and one new number each. */
  ghost predicate Shares(w: WState, w': WState, all: set<Expr>) {
    w'.seen.Keys == w.seen.Keys + all && w'.next == w.next + |all - w.seen.Keys| && Numbered(w, w')
  }

  /** Earlier numbers stay, and later values get the numbers from `w.next` on. */
  ghost predicate Numbered(w: WState, w': WState) {
    (forall x | x in w.seen :: x in w'.seen && w'.seen[x] == w.seen[x])
    && (forall x | x in w'.seen && x !in w.seen :: w.next <= w'.seen[x] < w'.next)
  }

  lemma SharesNothing(w: WState)
    ensures Shares(w, w, {})
  {
    assert {} - w.seen.Keys == {};
  }

  lemma SharesBoth(w: WState, w1: WState, w2: WState, a: set<Expr>, b: set<Expr>)
    requires Shares(w, w1, a) && Shares(w1, w2, b)
    ensures Shares(w, w2, a + b)
  {
    hide Numbered;
    NewInBoth(w.seen.Keys, a, b, w1.seen.Keys, w2.seen.Keys);
    NumberedBoth(w, w1, w2);
  }

  lemma NewInBoth<T>(s: set<T>, a: set<T>, b: set<T>, s1: set<T>, s2: set<T>)
    requires s1 == s + a && s2 == s1 + b
    ensures s2 == s + (a + b) && |(a + b) - s| == |a - s| + |b - s1|
  {
    assert (a + b) - s == (a - s) + (b - s1);
  }

  lemma NumberedBoth(w: WState, w1: WState, w2: WState)
    requires Numbered(w, w1) && Numbered(w1, w2) && w.next <= w1.next <= w2.next
    ensures Numbered(w, w2)
  {
  }

  lemma CompleteAfter(w: WState, w': WState, all: set<Expr>, m: nat)
    requires Complete(w, m) && w'.seen.Keys == w.seen.Keys + all
    requires forall x | x in all :: Subvalues(x) <= all
    ensures Complete(w', m)
  {
    hide Subvalues, NodeCount;
    forall x | x in w'.seen && NodeCount(x) <= m ensures Subvalues(x) <= w'.seen.Keys {
      assert x in w.seen.Keys || x in all;
    }
  }

  /**
    * Dense writing leaves every part of the value in the table and takes one
    * number, and so writes one body, for each part that was not there before.
    */
  lemma {:induction false} WritesEachOnce(f: Format, e: Expr, w: WState, m: nat)
    requires Legal(f) && f.dense && Complete(w, m) && NodeCount(e) <= m
    ensures Shares(w, Enc(f, e, w).1, Subvalues(e)) && Complete(Enc(f, e, w).1, m)
    decreases e, 2
  {
    if e in w.seen {
      assert Subvalues(e) - w.seen.Keys == {} && w.seen.Keys == w.seen.Keys + Subvalues(e);
    } else {
      NodeWritesEachOnce(f, e, w, m);
    }
  }

  lemma {:induction false} NodeWritesEachOnce(f: Format, e: Expr, w: WState, m: nat)
    requires Legal(f) && f.dense && Complete(w, m) && NodeCount(e) <= m && e !in w.seen
    ensures Shares(w, Enc(f, e, w).1, Subvalues(e)) && Complete(Enc(f, e, w).1, m)
    decreases e, 1
  {
    hide EncTag, EncFields, EncUInt, KindOf, Subvalues, Shares, Complete, EncKids;
    var w1 := WState(w.seen[e := w.next], w.next + 1);
    Opens(e, w, m);
    var w2 := Enc(f, e, w).1;
    NewState(f, e, w);
    if HasTail(e.head) && |e.kids| > 0 {
      TailedKids(f, e, w1);
    } else {
      KidsWriteEachOnce(f, [], e.kids, w1, NodeCount(e) - 1);
    }
    SharesBoth(w, w1, w2, {e}, SubvaluesOf(e.kids));
    assert Shares(w, w2, Subvalues(e)) by { Whole(e); }
    Closes(e, w, w2, m);
  }

  /** A new value is given the next number, and then its children are written. */
  lemma NewState(f: Format, e: Expr, w: WState)
    requires Legal(f) && f.dense && e !in w.seen
    ensures var w1 := WState(w.seen[e := w.next], w.next + 1);
      Enc(f, e, w).1 ==
        if HasTail(e.head) && e.kids != [] then EncKids(f, NamesOf(e.head), e.kids[1..], Enc(f, e.kids[0], w1).1).1
        else EncKids(f, [], e.kids, w1).1
  {
    hide EncTag, EncFields, EncUInt, KindOf, EncKids;
  }

  lemma Whole(e: Expr)
    ensures Subvalues(e) == {e} + SubvaluesOf(e.kids)
  {
  }

  lemma Opens(e: Expr, w: WState, m: nat)
    requires Complete(w, m) && NodeCount(e) <= m && e !in w.seen
    ensures var w1 := WState(w.seen[e := w.next], w.next + 1); Shares(w, w1, {e}) && Complete(w1, NodeCount(e) - 1)
  {
    hide Shares, Subvalues, NodeCount;
    var w1 := WState(w.seen[e := w.next], w.next + 1);
    OneMore(e, w);
    forall x | x in w1.seen && NodeCount(x) <= NodeCount(e) - 1 ensures Subvalues(x) <= w1.seen.Keys {
      assert x in w.seen && Subvalues(x) <= w.seen.Keys;
    }
  }

  lemma OneMore(e: Expr, w: WState)
    requires e !in w.seen
    ensures Shares(w, WState(w.seen[e := w.next], w.next + 1), {e})
    ensures w.seen.Keys <= w.seen[e := w.next].Keys && forall x | x in w.seen[e := w.next] :: x in w.seen || x == e
  {
    assert {e} - w.seen.Keys == {e};
  }

  lemma Closes(e: Expr, w: WState, w2: WState, m: nat)
    requires Complete(w, m) && Shares(w, w2, Subvalues(e))
    ensures Complete(w2, m)
  {
    hide Subvalues;
    forall x | x in Subvalues(e) ensures Subvalues(x) <= Subvalues(e) { SubvaluesTransitive(x, e); }
    CompleteAfter(w, w2, Subvalues(e), m);
  }

  /** A first child apart from the others, as calls and annotations write it. */
  lemma {:induction false} TailedKids(f: Format, e: Expr, w: WState)
    requires Legal(f) && f.dense && Complete(w, NodeCount(e) - 1) && e.kids != []
    ensures Shares(w, EncKids(f, NamesOf(e.head), e.kids[1..], Enc(f, e.kids[0], w).1).1, SubvaluesOf(e.kids))
    decreases e, 0
  {
    hide Enc, EncKids, Shares, Complete, Subvalues;
    var m := NodeCount(e) - 1;
    var w1 := Enc(f, e.kids[0], w).1;
    WritesEachOnce(f, e.kids[0], w, m);
    KidsWriteEachOnce(f, NamesOf(e.head), e.kids[1..], w1, m);
    SharesBoth(w, w1, EncKids(f, NamesOf(e.head), e.kids[1..], w1).1, Subvalues(e.kids[0]), SubvaluesOf(e.kids[1..]));
  }

  lemma {:induction false} KidsWriteEachOnce(f: Format, names: seq<Symbol>, ks: seq<Expr>, w: WState, m: nat)
    requires Legal(f) && f.dense && Complete(w, m) && SumNodes(ks) <= m
    ensures var w' := EncKids(f, names, ks, w).1; Shares(w, w', SubvaluesOf(ks)) && Complete(w', m)
    decreases ks
  {
    hide Enc, EncName, Shares, Complete, Subvalues;
    if ks == [] {
      SharesNothing(w);
    } else {
      var w1 := Enc(f, ks[0], w).1;
      WritesEachOnce(f, ks[0], w, m);
      KidsWriteEachOnce(f, Rest(names), ks[1..], w1, m);
      SharesBoth(w, w1, EncKids(f, names, ks, w).1, Subvalues(ks[0]), SubvaluesOf(ks[1..]));
    }
  }

  /** From a fresh writer: as many numbers, and so as many bodies, as there are distinct values inside. */
  lemma FreshSharing(f: Format, e: Expr)
    requires Legal(f) && f.dense
    ensures var w := Enc(f, e, WState(map[], 0)).1; w.seen.Keys == Subvalues(e) && w.next == |Subvalues(e)|
  {
    hide Enc, Subvalues;
    WritesEachOnce(f, e, WState(map[], 0), NodeCount(e));
    assert Subvalues(e) - {} == Subvalues(e) && {} + Subvalues(e) == Subvalues(e);
  }

  /** A value already written costs its tag and its number, and changes nothing. */
  lemma KnownIsReference(f: Format, e: Expr, w: WState)
    requires Legal(f) && f.dense && e in w.seen
    ensures Enc(f, e, w) == (EncTag(f.carrier, REF) + EncUInt(f.carrier, w.seen[e]), w)
  {
    hide EncTag, EncUInt, EncNode;
  }

  /** Writing a list is writing its front and then the others. */
  lemma {:induction false} KidsSplit(f: Format, names: seq<Symbol>, ks: seq<Expr>, w: WState, j: nat)
    requires Legal(f) && j <= |ks|
    ensures var (front, w1) := EncKids(f, names, ks[..j], w);
      var (others, w2) := EncKids(f, After(names, j), ks[j..], w1);
      EncKids(f, names, ks, w) == (front + others, w2)
    decreases j
  {
    hide Enc, EncName;
    if j == 0 {
      assert ks[0..] == ks && ks[..0] == [];
      assert [] + EncKids(f, names, ks, w).0 == EncKids(f, names, ks, w).0;
    } else {
      var (first, w1) := Enc(f, ks[0], w);
      assert ks[..j][1..] == ks[1..][..j - 1] && ks[1..][j - 1..] == ks[j..];
      KidsSplit(f, Rest(names), ks[1..], w1, j - 1);
      var (front, v1) := EncKids(f, Rest(names), ks[1..][..j - 1], w1);
      var (others, v2) := EncKids(f, After(names, j), ks[j..], v1);
      assert After(Rest(names), j - 1) == After(names, j);
      Assoc(first, front, others);
      Assoc(EncName(f, names), first + front, others);
    }
  }

  /** The names left for the children from `j` on. */
  function After(names: seq<Symbol>, j: nat): seq<Symbol> {
    if j <= |names| then names[j..] else []
  }

  /** A child that an earlier sibling is or holds costs a reference to where it was written. */
  lemma SharedSibling(f: Format, names: seq<Symbol>, ks: seq<Expr>, w: WState, j: nat)
    requires Legal(f) && f.dense && Complete(w, SumNodes(ks)) && j < |ks| && ks[j] in SubvaluesOf(ks[..j])
    ensures var (front, w1) := EncKids(f, names, ks[..j], w);
      ks[j] in w1.seen
      && EncKids(f, names, ks, w) ==
        (front + (EncName(f, After(names, j)) + (EncTag(f.carrier, REF) + EncUInt(f.carrier, w1.seen[ks[j]])
           + EncKids(f, After(names, j + 1), ks[j + 1..], w1).0)),
         EncKids(f, After(names, j + 1), ks[j + 1..], w1).1)
  {
    hide Enc, EncName, EncTag, EncUInt, Complete, Subvalues, SubvaluesOf;
    var w1 := EncKids(f, names, ks[..j], w).1;
    KidsSplit(f, names, ks, w, j);
    assert SumNodes(ks[..j]) <= SumNodes(ks) by {
      SumNodesAppend(ks[..j], ks[j..]);
      assert ks[..j] + ks[j..] == ks;
    }
    KidsWriteEachOnce(f, names, ks[..j], w, SumNodes(ks));
    assert ks[j] in w1.seen.Keys;
    KnownIsReference(f, ks[j], w1);
    assert ks[j..][1..] == ks[j + 1..] && Rest(After(names, j)) == After(names, j + 1);
  }

  /**
    * Reading a reference gives the completed value in its slot and charges all
    * its nodes; a number beyond the slots, a slot still open, a value too large
    * for the node limit, and any reference in a plain frame are refused.
    */
  lemma ReferenceExactly(f: Format, limits: Limits, i: usize, rest: Units, depth: nat, r: RState)
    requires f.carrier.Bitwise?
    ensures Dec(f, limits, EncTag(f.carrier, REF) + (VBits(i) + rest), depth, r) ==
      if f.dense && depth <= limits.maxDepth && i < |r.slots| && r.slots[i].Some?
         && r.nodes + r.slots[i].value.count <= limits.maxExprNodes
      then Some(Read(r.slots[i].value.expr, rest, r.(nodes := r.nodes + r.slots[i].value.count)))
      else None
  {
    hide DecTag, EncTag, DecCount;
    DecTagOf(f.carrier, REF, VBits(i) + rest);
    DecCountOf(f.carrier, i, USIZE_MAX, rest);
    if f.dense {
      hide VBits;
    } else if depth <= limits.maxDepth {
      NoReferenceFields(f, limits, VBits(i) + rest);
    }
  }

  lemma NoReferenceFields(f: Format, limits: Limits, s: Units)
    ensures DecFields(f.carrier, limits, f.tables, REF, s) == None
  {
  }
}
