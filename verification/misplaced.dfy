/** A located tree whose origins the bit codec puts on the wrong nodes, and what comes back. */
module Misplaced {
  import Order
  import opened Exprs
  import opened Bits
  import opened Canonical
  import opened Grouping
  import opened Atoms
  import opened Body
  import opened SideTables
  import opened Origins
  import opened Wire
  import opened Frames
  import opened Codecs

  const SOMEWHERE: Origin := Origin(0, [], 0, 4, [])

  /** The set of `true` and nil, `true` first and with an origin. */
  function MisplacedTree(): LocatedTree {
    var yes, nil := Expr(Bool(true), []), Expr(Nil, []);
    LocatedTree(Expr(Set, [yes, nil]), None, [LocatedTree(yes, Some(SOMEWHERE), []), LocatedTree(nil, None, [])])
  }

  lemma LeafCanon(h: Head)
    requires h == Nil || h.Bool?
    ensures Canon(Expr(h, [])) == Expr(h, [])
  {
    assert CanonAll([]) == [];
  }

  lemma LeafTree(h: Head, o: Option<Origin>)
    requires h == Nil || h.Bool?
    ensures CanonTree(LocatedTree(Expr(h, []), o, [])) == LocatedTree(Expr(h, []), o, [])
  {
    assert CanonTrees([]) == [] && Roots([]) == [];
  }

  lemma LeafKey(h: Head, o: Option<Origin>)
    requires h == Nil || h == Bool(true)
    ensures TreeKeys([LocatedTree(Expr(h, []), o, [])]) == if h == Nil then [0, 0] else [1, 1, 0]
  {
    var t := LocatedTree(Expr(h, []), o, []);
    LeafCanon(h);
    assert Roots([t]) == [Expr(h, [])];
    assert CanonAll([Expr(h, [])]) == [Expr(h, [])];
    assert RawKeys([Expr(h, [])]) == RawKey(Expr(h, [])) + [];
    assert RawKey(Expr(h, [])) == HeadCode(h) + ([0] + []);
  }

  lemma ChunksTwo<T>(a: T, b: T)
    ensures Chunks([a, b], 1) == [[a], [b]] && Flatten([[b], [a]]) == [b, a]
  {
    assert [a, b][..1] == [a] && [a, b][1..] == [b] && [b][..1] == [b] && [b][1..] == [];
    assert Chunks([b], 1) == [[b]] + Chunks([], 1);
    assert [[b], [a]][1..] == [[a]] && [[a]][1..] == [];
    assert Flatten([[a]]) == [a] + Flatten([]);
  }

  lemma SwapTwo<T>(a: T, b: T, key: seq<T> -> Order.Code)
    requires Order.Less(key([b]), key([a]))
    ensures ArrangeBy([a, b], 1, key) == [b, a]
  {
    hide Order.Less, Chunks, Flatten;
    ChunksTwo(a, b);
    var x, y := Order.Item(key([a]), [a]), Order.Item(key([b]), [b]);
    assert Keyed([[a], [b]], key) == [x, y];
    SortTwo(x, y);
    assert Unkeyed([y, x]) == [[b], [a]];
  }

  lemma SortTwo<T>(x: Order.Item<T>, y: Order.Item<T>)
    requires Order.Less(y.key, x.key)
    ensures Order.Sort([x, y]) == [y, x]
  {
    hide Order.Less;
    assert [x, y][1..] == [y] && [y][1..] == [];
    assert Order.Sort([y]) == Order.Insert(y, []) == [y];
    assert Order.Insert(x, [y]) == [y] + Order.Insert(x, []);
  }

  lemma MisplacedRebuilt()
    ensures var t := MisplacedTree(); CanonTree(t).children == [t.children[1], t.children[0]]
  {
    var t := MisplacedTree();
    var yes, nil := t.children[0], t.children[1];
    LeafTree(Bool(true), Some(SOMEWHERE));
    LeafTree(Nil, None);
    CanonTreesIsMap(t.children);
    assert CanonTrees(t.children) == [yes, nil];
    LeafKey(Bool(true), Some(SOMEWHERE));
    LeafKey(Nil, None);
    SwapTwo(yes, nil, TreeKeys);
  }

  lemma TwoLeavesPreorder(t: LocatedTree)
    requires |t.children| == 2 && t.children[0].children == [] && t.children[1].children == []
    ensures Preorder(t) == [t.origin, t.children[0].origin, t.children[1].origin]
  {
    var a, b := t.children[0], t.children[1];
    assert t.children[1..] == [b] && [b][1..] == [];
    assert PreorderAll([]) == [];
    assert Preorder(b) == [b.origin] + [] && PreorderAll([b]) == Preorder(b) + [];
    assert Preorder(a) == [a.origin] + [] && PreorderAll(t.children) == Preorder(a) + PreorderAll([b]);
  }

  lemma MisplacedIsValid()
    ensures Validated(MisplacedTree())
  {
  }

  // ---- the frame, and what it reads as ---------------------------------------------------------

  /** What comes back: the sorted set, with the origin of `true` on nil. */
  function ReceivedTree(): LocatedTree {
    var yes, nil := Expr(Bool(true), []), Expr(Nil, []);
    LocatedTree(Expr(Set, [nil, yes]), None, [LocatedTree(nil, Some(SOMEWHERE), []), LocatedTree(yes, None, [])])
  }

  lemma MisplacedCanon()
    ensures Canon(MisplacedTree().expr) == ReceivedTree().expr
  {
    hide Canon, Validated;
    var t := MisplacedTree();
    MisplacedIsValid();
    MisplacedRebuilt();
    CanonTreeExpr(t);
    CanonTreeTop(t);
    RootsOfTwo(t.children[1], t.children[0]);
  }

  lemma CanonTreeTop(t: LocatedTree)
    ensures CanonTree(t).expr == Expr(t.expr.head, Roots(CanonTree(t).children))
  {
  }

  lemma RootsOfTwo(a: LocatedTree, b: LocatedTree)
    ensures Roots([a, b]) == [a.expr, b.expr]
  {
    assert [a, b][1..] == [b] && [b][1..] == [];
    assert Roots([b]) == [b.expr] + Roots([]);
  }

  lemma DealLeaf(h: Head, o: Option<Origin>)
    ensures Deal(Expr(h, []), [o]) == LocatedTree(Expr(h, []), o, []) && NodeCount(Expr(h, [])) == 1
  {
    assert DealAll([], [o][1..]) == [] && Roots([]) == [];
  }

  lemma DealTwoLeaves(h: Head, a: Head, b: Head, os: seq<Option<Origin>>)
    requires |os| == 3
    ensures var x, y := Expr(a, []), Expr(b, []);
      Deal(Expr(h, [x, y]), os) == LocatedTree(Expr(h, [x, y]), os[0], [LocatedTree(x, os[1], []), LocatedTree(y, os[2], [])])
  {
    var x, y := Expr(a, []), Expr(b, []);
    DealLeaf(a, os[1]);
    DealLeaf(b, os[2]);
    var tail := os[1..];
    assert tail[..1] == [os[1]] && tail[1..] == [os[2]] && [os[2]][..1] == [os[2]] && [os[2]][1..] == [];
    assert [x, y][1..] == [y] && [y][1..] == [];
    var p, q := LocatedTree(x, os[1], []), LocatedTree(y, os[2], []);
    assert DealAll([y], [os[2]]) == [q] + DealAll([], []);
    assert DealAll([x, y], tail) == [p] + DealAll([y], [os[2]]);
    assert [p] + [q] == [p, q] && [p, q][1..] == [q] && [q][1..] == [];
    assert Roots([p, q]) == [x] + Roots([q]) && Roots([q]) == [y] + Roots([]);
  }

  /** The origin of `true` comes back on nil. */
  lemma OriginMisplaced(limits: Limits)
    requires Decodable(Bitwise, limits, MisplacedTree().expr) && AllWithin(limits, Preorder(MisplacedTree()))
    requires |TreeFrame(Bitwise, MisplacedTree())| <= limits.maxFrameBytes
    ensures EncodeTree(Bitwise, MisplacedTree(), true) == Some(TreeFrame(Bitwise, MisplacedTree()))
    ensures Decode(Bitwise, limits, TreeFrame(Bitwise, MisplacedTree()))
         == Some(Parts(TablesOf(MisplacedTree().expr), ReceivedTree(), TREE))
  {
    hide TreeFrame, Decode, Canon, TablesOf, AllWithin, Preorder, Decodable, Deal, EncodeTree;
    var t := MisplacedTree();
    MisplacedIsValid();
    BitwiseTreeDeals(limits, t);
    MisplacedCanon();
    TwoLeavesPreorder(t);
    DealTwoLeaves(Set, Nil, Bool(true), [None, Some(SOMEWHERE), None]);
  }

  // ---- limits that leave room for it ----------------------------------------------------------------

  const ROOM: Limits := Limits(200, 0, 0, 2, 3, 1, 0)

  lemma LeafMentions(h: Head)
    requires h == Nil || h == Bool(true)
    ensures SymbolsOf(Expr(h, [])) == {} && DomainsOf(Expr(h, [])) == {}
    ensures WellFormed(Expr(h, [])) && Fits(Bitwise, ROOM, Expr(h, []))
    ensures NodeCount(Expr(h, [])) == 1 && Height(Expr(h, [])) == 0
  {
  }

  lemma MisplacedMentions()
    ensures TablesOf(MisplacedTree().expr) == Tables([], [], [])
  {
    hide TablesOf, SymbolsOf, DomainsOf;
    var e := MisplacedTree().expr;
    LeafMentions(Nil);
    LeafMentions(Bool(true));
    NothingMentioned(e);
    NothingTabled(TablesOf(e), e);
  }

  lemma NothingMentioned(e: Expr)
    requires e.head == Set && forall k | k in e.kids :: SymbolsOf(k) == {} && DomainsOf(k) == {}
    ensures SymbolsOf(e) == {} && DomainsOf(e) == {}
  {
  }

  lemma NothingTabled(t: Tables, e: Expr)
    requires t == TablesOf(e) && SymbolsOf(e) == {} && DomainsOf(e) == {}
    ensures t == Tables([], [], [])
  {
    assert SymbolsOf(e) + DomainsOf(e) == {} && Namespaces({}) == {};
    SymbolTableUnique([], {});
    TextTableUnique([], {});
  }

  lemma UIntSize(n: nat)
    requires n < 8
    ensures |EncUInt(Bitwise, n)| <= 8
  {
    hide VBits, BitLength, Pow2;
    VBitsLength(n);
    SmallLength(n);
    SmallLength(BitLength(n) + 1);
  }

  lemma SmallLength(n: nat)
    requires n < 8
    ensures BitLength(n) <= 3
  {
    assert Pow2(3) == 8;
    hide Pow2, BitLength;
    BitLengthAtMost(n, 3);
  }

  lemma HeaderSize()
    ensures |EncHeader(Bitwise, TREE, Tables([], [], []))| <= 40
  {
    hide EncUInt;
    UIntSize(0);
    UIntSize(VERSION);
    UIntSize(TREE);
  }

  lemma LeafSize(f: Format, h: Head, w: WState)
    requires f.carrier == Bitwise && !f.dense && (h == Nil || h == Bool(true))
    ensures Enc(f, Expr(h, []), w).1 == w && |Enc(f, Expr(h, []), w).0| == 6
  {
    assert EncKids(f, [], [], w) == ([], w);
  }

  lemma BodySize(f: Format, w: WState)
    requires f.carrier == Bitwise && !f.dense
    ensures |Enc(f, ReceivedTree().expr, w).0| <= 26
  {
    hide EncUInt, BitsOf;
    var e := ReceivedTree().expr;
    var nil, yes := e.kids[0], e.kids[1];
    UIntSize(2);
    LeafSize(f, Nil, w);
    LeafSize(f, Bool(true), w);
    assert e.kids[1..] == [yes] && [yes][1..] == [];
    assert EncKids(f, [], [], w) == ([], w);
    assert |EncKids(f, [], [yes], w).0| == 6;
    assert |EncKids(f, [], e.kids, w).0| == 12;
  }

  lemma OriginsSize()
    ensures |EncTree(Bitwise, MisplacedTree())| <= 43
  {
    hide EncUInt;
    var t := MisplacedTree();
    EncTreeIsPreorder(Bitwise, t);
    TwoLeavesPreorder(t);
    UIntSize(0);
    UIntSize(4);
    assert |EncMaybe(Bitwise, Some(SOMEWHERE))| <= 41;
    ThreeMaybes(None, Some(SOMEWHERE), None);
  }

  lemma ThreeMaybes(a: Option<Origin>, b: Option<Origin>, d: Option<Origin>)
    ensures EncMaybes(Bitwise, [a, b, d]) == EncMaybe(Bitwise, a) + (EncMaybe(Bitwise, b) + (EncMaybe(Bitwise, d) + []))
  {
    hide EncMaybe;
    assert [a, b, d][1..] == [b, d] && [b, d][1..] == [d] && [d][1..] == [];
    assert EncMaybes(Bitwise, [d]) == EncMaybe(Bitwise, d) + EncMaybes(Bitwise, []);
    assert EncMaybes(Bitwise, [b, d]) == EncMaybe(Bitwise, b) + EncMaybes(Bitwise, [d]);
  }

  lemma {:induction false} PackSize(bits: Units)
    requires IsBits(bits)
    ensures |Pack(bits)| <= |bits|
  {
    hide OneByte;
    if |bits| >= 8 { PackSize(bits[8..]); }
  }

  lemma FrameSize(e: Expr, t: Tables, trailer: Units)
    requires Clean(Bitwise, trailer) && t == TablesOf(e)
    requires |EncHeader(Bitwise, TREE, t)| <= 40 && |Enc(FormatOf(Bitwise, TREE, t), Canon(e), FRESH_WRITER).0| <= 26 && |trailer| <= 43
    ensures |Frame(Bitwise, TREE, e, trailer)| <= 109
  {
    hide EncHeader, Enc, Canon, TablesOf, Pack;
    CleanFrame(Bitwise, TREE, t, Canon(e), trailer);
    PackSize(FrameUnits(Bitwise, TREE, t, Canon(e), trailer));
  }

  lemma MisplacedSize()
    ensures |TreeFrame(Bitwise, MisplacedTree())| <= ROOM.maxFrameBytes
  {
    hide EncHeader, Enc, EncTree, Canon, TablesOf, Frame, MisplacedTree, ReceivedTree, Preorder, EncMaybes;
    var t := MisplacedTree();
    EncTreeIsPreorder(Bitwise, t);
    CleanMaybes(Bitwise, Preorder(t));
    MisplacedCanon();
    MisplacedMentions();
    HeaderSize();
    BodySize(FormatOf(Bitwise, TREE, Tables([], [], [])), FRESH_WRITER);
    OriginsSize();
    FrameSize(t.expr, Tables([], [], []), EncTree(Bitwise, t));
  }

  lemma SetOfTwo(x: Expr, y: Expr)
    requires WellFormed(x) && WellFormed(y) && Fits(Bitwise, ROOM, x) && Fits(Bitwise, ROOM, y)
    requires NodeCount(x) == NodeCount(y) == 1 && Height(x) == Height(y) == 0
    ensures var e := Expr(Set, [x, y]); WellFormed(e) && Fits(Bitwise, ROOM, e) && NodeCount(e) == 3 && Height(e) == 1
  {
    assert [x, y][1..] == [y] && [y][1..] == [];
    assert SumNodes([y]) == 1 && SumNodes([x, y]) == 2;
    assert HeightAll([y]) == 1 && HeightAll([x, y]) == 1;
  }

  lemma MisplacedFits()
    ensures Decodable(Bitwise, ROOM, MisplacedTree().expr) && AllWithin(ROOM, Preorder(MisplacedTree()))
  {
    hide TablesOf, WellFormed, Fits, NodeCount, Height, Preorder;
    LeafMentions(Nil);
    LeafMentions(Bool(true));
    MisplacedMentions();
    TwoLeavesPreorder(MisplacedTree());
    SetOfTwo(Expr(Bool(true), []), Expr(Nil, []));
  }

  /** The same with limits that leave just room: a valid tree whose origin moves from `true` to nil. */
  lemma OriginMoves()
    ensures EncodeTree(Bitwise, MisplacedTree(), true).Some?
    ensures Decode(Bitwise, ROOM, EncodeTree(Bitwise, MisplacedTree(), true).value) == Some(Parts(Tables([], [], []), ReceivedTree(), TREE))
    ensures MisplacedTree().children[0].expr.head == Bool(true) && MisplacedTree().children[0].origin == Some(SOMEWHERE)
    ensures ReceivedTree().children[0].expr.head == Nil && ReceivedTree().children[0].origin == Some(SOMEWHERE)
  {
    hide TreeFrame, Decode, Canon, TablesOf, AllWithin, Preorder, Decodable, EncodeTree;
    MisplacedFits();
    MisplacedSize();
    MisplacedMentions();
    OriginMisplaced(ROOM);
  }
}
