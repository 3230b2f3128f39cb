/** Canonical form: maps and sets listed in key order, at every level. */
module Canonical {
  import opened Order
  import opened Grouping
  import opened Exprs

  /** Maps sort pairs of children, sets sort single children, nothing else sorts. */
  function GroupWidth(h: Head): nat {
    if h.Map? then 2 else if h.Set? then 1 else 0
  }

  /** Children in collection order: maps and sets sort theirs, everything else keeps them. */
  function Arrange(h: Head, ks: seq<Expr>): seq<Expr> {
    ArrangeBy(ks, GroupWidth(h), RawKeys)
  }

  lemma {:induction false} SumOfFlatten(gs: seq<seq<Expr>>, hs: seq<seq<Expr>>)
    requires multiset(gs) == multiset(hs)
    ensures SumNodes(Flatten(gs)) == SumNodes(Flatten(hs))
    decreases |gs|
  {
    SameLength(gs, hs);
    if gs != [] {
      assert gs[0] in multiset(hs);
      var j :| 0 <= j < |hs| && hs[j] == gs[0];
      WithoutMultiset(gs, 0);
      WithoutMultiset(hs, j);
      SumOfFlatten(Without(gs, 0), Without(hs, j));
      FlattenWithout(gs, 0);
      FlattenWithout(hs, j);
    }
  }

  /** `ys` with its `j`-th element taken out. */
  function Without<T>(ys: seq<T>, j: nat): seq<T>
    requires j < |ys|
  {
    ys[..j] + ys[j + 1..]
  }

  lemma WithoutMultiset<T>(ys: seq<T>, j: nat)
    requires j < |ys|
    ensures multiset(Without(ys, j)) == multiset(ys) - multiset{ys[j]}
    ensures multiset(ys) == multiset(Without(ys, j)) + multiset{ys[j]}
  {
    assert ys == ys[..j] + ([ys[j]] + ys[j + 1..]);
  }

  lemma {:induction false} FlattenWithout(gs: seq<seq<Expr>>, j: nat)
    requires j < |gs|
    ensures SumNodes(Flatten(gs)) == SumNodes(Flatten(Without(gs, j))) + SumNodes(gs[j])
  {
    hide SumNodes;
    SumNodesAppend(gs[0], Flatten(gs[1..]));
    if j == 0 {
      assert Without(gs, 0) == gs[1..];
    } else {
      FlattenWithout(gs[1..], j - 1);
      var rest := Without(gs[1..], j - 1);
      assert Without(gs, j) == [gs[0]] + rest && Without(gs, j)[1..] == rest;
      SumNodesAppend(gs[0], Flatten(rest));
    }
  }

  lemma ArrangeFacts(h: Head, ks: seq<Expr>)
    requires h.Map? ==> |ks| % 2 == 0
    ensures |Arrange(h, ks)| == |ks|
    ensures SumNodes(Arrange(h, ks)) == SumNodes(ks)
    ensures forall k :: k in Arrange(h, ks) <==> k in ks
  {
    hide ArrangeBy, SumNodes;
    var w := GroupWidth(h);
    ArrangeByMembers(ks, w, RawKeys);
    if w != 0 {
      var js := Arrange(h, ks);
      ArrangeByMoves(ks, w, RawKeys);
      SumOfFlatten(Chunks(js, w), Chunks(ks, w));
      FlattenChunks(ks, w);
      FlattenChunks(js, w);
    } else {
      ArrangeByNothing(ks);
    }
  }

  lemma ArrangeByNothing(ks: seq<Expr>)
    ensures ArrangeBy(ks, 0, RawKeys) == ks
  {
  }

  /** The canonical form of an expression. */
  function Canon(e: Expr): Expr
    decreases e
  {
    Expr(e.head, Arrange(e.head, CanonAll(e.kids)))
  }

  function CanonAll(ks: seq<Expr>): (r: seq<Expr>)
    ensures |r| == |ks|
    decreases ks
  {
    if ks == [] then [] else [Canon(ks[0])] + CanonAll(ks[1..])
  }

  lemma {:induction false} CanonAllIsMap(ks: seq<Expr>)
    ensures CanonAll(ks) == MapSeq(Canon, ks)
  {
    if ks != [] { CanonAllIsMap(ks[1..]); }
  }

  lemma CanonAllMember(ks: seq<Expr>, k: Expr)
    ensures k in CanonAll(ks) <==> exists j | 0 <= j < |ks| :: k == Canon(ks[j])
  {
    hide Canon;
    CanonAllIsMap(ks);
  }

  /** The children of the canonical form are the canonical forms of the children. */
  lemma CanonKids(e: Expr)
    requires e.head.Map? ==> |e.kids| % 2 == 0
    ensures forall k | k in e.kids :: Canon(k) in Canon(e).kids
    ensures forall c | c in Canon(e).kids :: exists k :: k in e.kids && c == Canon(k)
  {
    hide Arrange;
    ArrangeFacts(e.head, CanonAll(e.kids));
    forall k | k in e.kids ensures Canon(k) in Canon(e).kids {
      CanonAllMember(e.kids, Canon(k));
    }
    forall c | c in Canon(e).kids ensures exists k :: k in e.kids && c == Canon(k) {
      CanonAllMember(e.kids, c);
      var j :| 0 <= j < |e.kids| && c == Canon(e.kids[j]);
      assert e.kids[j] in e.kids;
    }
  }

  lemma CanonHead(e: Expr)
    ensures Canon(e).head == e.head
  {
  }

  /** The key the writers sort by: the code of the canonical form. */
  function CanonicalKey(e: Expr): Code {
    RawKey(Canon(e))
  }

  /** Value equality: the same canonical form. */
  predicate CanonicalEq(a: Expr, b: Expr) {
    Canon(a) == Canon(b)
  }

  /** A canonical form is well formed and as large as the expression it stands for. */
  lemma {:induction false} CanonWellFormed(e: Expr)
    requires WellFormed(e)
    ensures WellFormed(Canon(e))
    ensures NodeCount(Canon(e)) == NodeCount(e)
    decreases e
  {
    hide Arrange;
    ArrangeFacts(e.head, CanonAll(e.kids));
    CanonAllNodes(e.kids);
    CanonKids(e);
    forall c | c in Canon(e).kids ensures WellFormed(c) {
      var k :| k in e.kids && c == Canon(k);
      CanonWellFormed(k);
    }
  }

  lemma {:induction false} CanonAllNodes(ks: seq<Expr>)
    requires forall k | k in ks :: WellFormed(k)
    ensures SumNodes(CanonAll(ks)) == SumNodes(ks)
    decreases ks
  {
    if ks != [] {
      CanonWellFormed(ks[0]);
      CanonAllNodes(ks[1..]);
    }
  }

  /** Canonicalization is idempotent. */
  lemma {:induction false} CanonIdempotent(e: Expr)
    requires WellFormed(e)
    ensures Canon(Canon(e)) == Canon(e)
    decreases e
  {
    hide ArrangeBy;
    var ks, c := CanonAll(e.kids), Canon(e);
    CanonKids(e);
    forall d | d in c.kids ensures Canon(d) == d {
      var k :| k in e.kids && d == Canon(k);
      CanonIdempotent(k);
    }
    CanonAllFixed(c.kids);
    ArrangeByTwice(ks, GroupWidth(e.head), RawKeys);
  }

  lemma {:induction false} CanonAllFixed(ks: seq<Expr>)
    requires forall k | k in ks :: Canon(k) == k
    ensures CanonAll(ks) == ks
  {
    hide Canon;
    CanonAllIsMap(ks);
  }

  /** Keys decide value equality. */
  lemma KeyDecidesEquality(a: Expr, b: Expr)
    ensures CanonicalKey(a) == CanonicalKey(b) <==> CanonicalEq(a, b)
  {
    if CanonicalKey(a) == CanonicalKey(b) {
      RawKeyInjective(Canon(a), Canon(b), [], []);
    }
  }

  // ---- the writers' order: sort what was given, then recurse -----------------

  /** The canonical keys of a run of given children. */
  function CanonicalKeys(g: seq<Expr>): Code {
    RawKeys(CanonAll(g))
  }

  /** The given children in the order the writers visit them. */
  function Visited(h: Head, ks: seq<Expr>): seq<Expr> {
    ArrangeBy(ks, GroupWidth(h), CanonicalKeys)
  }

  lemma CanonicalKeysOfMap(g: seq<Expr>)
    ensures CanonicalKeys(g) == RawKeys(MapSeq(Canon, g))
  {
    CanonAllIsMap(g);
  }

  /** Sorting given children by key and then canonicalizing them lists the canonical children. */
  lemma VisitedIsCanonical(e: Expr)
    ensures CanonAll(Visited(e.head, e.kids)) == Canon(e).kids
  {
    hide ArrangeBy, RawKeys;
    forall g: seq<Expr> ensures CanonicalKeys(g) == RawKeys(MapSeq(Canon, g)) {
      CanonicalKeysOfMap(g);
    }
    ArrangeByMap(Canon, e.kids, GroupWidth(e.head), CanonicalKeys, RawKeys);
    CanonAllIsMap(e.kids);
    CanonAllIsMap(Visited(e.head, e.kids));
  }

  // ---- insertion order does not matter ---------------------------------------

  lemma KeyedDetermined(gs: seq<seq<Expr>>, w: nat)
    requires forall g | g in gs :: |g| == w
    ensures KeyDetermines(Keyed(gs, RawKeys))
  {
    var k := Keyed(gs, RawKeys);
    forall i, j | 0 <= i < |k| && 0 <= j < |k| && k[i].key == k[j].key ensures k[i] == k[j] {
      assert gs[i] in gs && gs[j] in gs;
      RawKeysInjective(gs[i], gs[j], [], []);
    }
  }

  lemma {:induction false} MapMultiset<T, U>(f: T -> U, xs: seq<T>, ys: seq<T>)
    requires multiset(xs) == multiset(ys)
    ensures multiset(MapSeq(f, xs)) == multiset(MapSeq(f, ys))
    decreases |xs|
  {
    SameLength(xs, ys);
    if xs != [] {
      assert xs[0] in multiset(ys);
      var j :| 0 <= j < |ys| && ys[j] == xs[0];
      WithoutMultiset(xs, 0);
      WithoutMultiset(ys, j);
      MapMultiset(f, Without(xs, 0), Without(ys, j));
      MapWithout(f, xs, 0);
      MapWithout(f, ys, j);
    }
  }

  lemma MapWithout<T, U>(f: T -> U, xs: seq<T>, j: nat)
    requires j < |xs|
    ensures multiset(MapSeq(f, xs)) == multiset(MapSeq(f, Without(xs, j))) + multiset{f(xs[j])}
  {
    WithoutMultiset(MapSeq(f, xs), j);
    assert MapSeq(f, Without(xs, j)) == Without(MapSeq(f, xs), j);
  }

  lemma KeyedMultiset(gs: seq<seq<Expr>>, hs: seq<seq<Expr>>)
    requires multiset(gs) == multiset(hs)
    ensures multiset(Keyed(gs, RawKeys)) == multiset(Keyed(hs, RawKeys))
  {
    var f := (g: seq<Expr>) => Item(RawKeys(g), g);
    MapMultiset(f, gs, hs);
    assert Keyed(gs, RawKeys) == MapSeq(f, gs) && Keyed(hs, RawKeys) == MapSeq(f, hs);
  }

  /** Map entries and set members in any insertion order are the same value. */
  lemma InsertionOrderIrrelevant(h: Head, ks: seq<Expr>, js: seq<Expr>)
    requires h.Map? || h.Set?
    requires multiset(Chunks(ks, GroupWidth(h))) == multiset(Chunks(js, GroupWidth(h)))
    ensures CanonicalEq(Expr(h, ks), Expr(h, js))
  {
    var w := GroupWidth(h);
    var each := (g: seq<Expr>) => MapSeq(Canon, g);
    CanonAllIsMap(ks);
    CanonAllIsMap(js);
    ChunksOfMap(Canon, ks, w);
    ChunksOfMap(Canon, js, w);
    MapMultiset(each, Chunks(ks, w), Chunks(js, w));
    KeyedMultiset(Chunks(CanonAll(ks), w), Chunks(CanonAll(js), w));
    KeyedDetermined(Chunks(CanonAll(ks), w), w);
    SortDependsOnMultiset(Keyed(Chunks(CanonAll(ks), w), RawKeys), Keyed(Chunks(CanonAll(js), w), RawKeys));
  }

  /** Equal parts give equal wholes, so reordering at any depth is invisible. */
  lemma {:induction false} CanonCongruence(h: Head, ks: seq<Expr>, js: seq<Expr>)
    requires |ks| == |js|
    requires forall i | 0 <= i < |ks| :: CanonicalEq(ks[i], js[i])
    ensures CanonicalEq(Expr(h, ks), Expr(h, js))
  {
    CanonAllIsMap(ks);
    CanonAllIsMap(js);
    assert MapSeq(Canon, ks) == MapSeq(Canon, js);
  }

  /** The parts of equal nodes: the same entries, the same members, or equal children one by one. */
  ghost predicate SameParts(h: Head, ks: seq<Expr>, js: seq<Expr>) {
    match h
    case Map => multiset(Chunks(CanonAll(ks), 2)) == multiset(Chunks(CanonAll(js), 2))
    case Set => multiset(Chunks(CanonAll(ks), 1)) == multiset(Chunks(CanonAll(js), 1))
    case _ => |ks| == |js| && forall i | 0 <= i < |ks| :: CanonicalEq(ks[i], js[i])
  }

  lemma SameChunks(ks: seq<Expr>, js: seq<Expr>, w: nat)
    requires w > 0
    ensures ArrangeBy(ks, w, RawKeys) == ArrangeBy(js, w, RawKeys) <==> multiset(Chunks(ks, w)) == multiset(Chunks(js, w))
  {
    hide Chunks, Sort, Flatten;
    ArrangeByMoves(ks, w, RawKeys);
    ArrangeByMoves(js, w, RawKeys);
    if multiset(Chunks(ks, w)) == multiset(Chunks(js, w)) {
      KeyedMultiset(Chunks(ks, w), Chunks(js, w));
      KeyedDetermined(Chunks(ks, w), w);
      SortDependsOnMultiset(Keyed(Chunks(ks, w), RawKeys), Keyed(Chunks(js, w), RawKeys));
    }
  }

  /**
    * Values are equal exactly when their nodes are of one kind and have the same
    * parts: only maps and sets ignore order, and only that of entries and members.
    */
  lemma EqualityExactly(a: Expr, b: Expr)
    ensures CanonicalEq(a, b) <==> a.head == b.head && SameParts(a.head, a.kids, b.kids)
  {
    hide Canon, CanonAll, ArrangeBy, Chunks;
    CanonTop(a);
    CanonTop(b);
    if a.head == b.head {
      if a.head.Map? {
        SameChunks(CanonAll(a.kids), CanonAll(b.kids), 2);
      } else if a.head.Set? {
        SameChunks(CanonAll(a.kids), CanonAll(b.kids), 1);
      } else {
        ArrangeByNothing(CanonAll(a.kids));
        ArrangeByNothing(CanonAll(b.kids));
        SameInOrder(a.kids, b.kids);
      }
    }
  }

  lemma SameInOrder(ks: seq<Expr>, js: seq<Expr>)
    ensures CanonAll(ks) == CanonAll(js) <==> |ks| == |js| && forall i | 0 <= i < |ks| :: CanonicalEq(ks[i], js[i])
  {
    hide Canon, CanonAll;
    CanonAllIsMap(ks);
    CanonAllIsMap(js);
    if |ks| == |js| && forall i | 0 <= i < |ks| :: CanonicalEq(ks[i], js[i]) {
      assert MapSeq(Canon, ks) == MapSeq(Canon, js);
    }
    if CanonAll(ks) == CanonAll(js) {
      forall i | 0 <= i < |ks| ensures CanonicalEq(ks[i], js[i]) {
        assert MapSeq(Canon, ks)[i] == MapSeq(Canon, js)[i];
      }
    }
  }

  lemma CanonTop(e: Expr)
    ensures Canon(e) == Expr(e.head, ArrangeBy(CanonAll(e.kids), GroupWidth(e.head), RawKeys))
  {
  }

  // ---- comparing key pairs by concatenation -----------------------------------

  lemma {:induction false} LessAppend(a: Code, b: Code, c: Code, d: Code)
    requires !(a <= b) && !(b <= a)
    ensures Less(a + c, b + d) <==> Less(a, b)
  {
    var x, y := a + c, b + d;
    assert a != [] && b != [];
    if a[0] == b[0] {
      assert a == [a[0]] + a[1..] && b == [b[0]] + b[1..];
      assert x[1..] == a[1..] + c && y[1..] == b[1..] + d;
      assert !(a[1..] <= b[1..]) && !(b[1..] <= a[1..]);
      LessAppend(a[1..], b[1..], c, d);
    }
  }

  lemma {:induction false} LessCommonPrefix(a: Code, c: Code, d: Code)
    ensures Less(a + c, a + d) <==> Less(c, d)
  {
    if a == [] {
      assert a + c == c && a + d == d;
    } else {
      assert (a + c)[1..] == a[1..] + c && (a + d)[1..] == a[1..] + d;
      LessCommonPrefix(a[1..], c, d);
    }
  }

  lemma RawKeysTwo(k: Expr, v: Expr)
    ensures RawKeys([k, v]) == RawKey(k) + RawKey(v)
  {
    assert [k, v][1..] == [v] && [v][1..] == [];
    assert RawKeys([v]) == RawKey(v) + [];
  }

  /** The order on concatenated keys is the order on (key, value) key pairs. */
  lemma PairKeyOrder(k1: Expr, v1: Expr, k2: Expr, v2: Expr)
    ensures Less(RawKeys([k1, v1]), RawKeys([k2, v2]))
       <==> Less(RawKey(k1), RawKey(k2)) || (RawKey(k1) == RawKey(k2) && Less(RawKey(v1), RawKey(v2)))
  {
    hide RawKey, RawKeys, Less;
    RawKeysTwo(k1, v1);
    RawKeysTwo(k2, v2);
    var a, b := RawKey(k1), RawKey(k2);
    var c, d := RawKey(v1), RawKey(v2);
    if a == b {
      LessCommonPrefix(a, c, d);
      LessIrreflexive(a);
    } else {
      if a <= b { RawKeyPrefixFree(k1, k2); }
      if b <= a { RawKeyPrefixFree(k2, k1); }
      LessAppend(a, b, c, d);
    }
  }

  /** No code is a proper prefix of another. */
  lemma RawKeyPrefixFree(a: Expr, b: Expr)
    requires RawKey(a) <= RawKey(b)
    ensures a == b
  {
    hide RawKey;
    var r := RawKey(b)[|RawKey(a)|..];
    assert RawKey(b) + [] == RawKey(a) + r;
    RawKeyInjective(a, b, r, []);
  }
}
