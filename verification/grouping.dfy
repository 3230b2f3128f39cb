/** Sorting a list in consecutive groups: the pairs of a map, the members of a set. */
module Grouping {
  import opened Order

  /** Consecutive runs of `w` elements. */
  function Chunks<T>(ks: seq<T>, w: nat): (r: seq<seq<T>>)
    requires w > 0
    ensures forall g | g in r :: |g| == w
  {
    if |ks| < w then [] else [ks[..w]] + Chunks(ks[w..], w)
  }

  function Flatten<T>(gs: seq<seq<T>>): seq<T> {
    if gs == [] then [] else gs[0] + Flatten(gs[1..])
  }

  /** Attaches its key to every run. */
  function Keyed<T>(gs: seq<seq<T>>, key: seq<T> -> Code): (r: seq<Item<seq<T>>>)
    ensures |r| == |gs|
    ensures forall i | 0 <= i < |r| :: r[i] == Item(key(gs[i]), gs[i])
  {
    seq(|gs|, i requires 0 <= i < |gs| => Item(key(gs[i]), gs[i]))
  }

  function Unkeyed<T>(gs: seq<Item<seq<T>>>): (r: seq<seq<T>>)
    ensures |r| == |gs|
    ensures forall i | 0 <= i < |r| :: r[i] == gs[i].value
  {
    seq(|gs|, i requires 0 <= i < |gs| => gs[i].value)
  }

  /** Runs of `w` in key order, runs with equal keys as they stood; no width, no sorting. */
  function ArrangeBy<T>(ks: seq<T>, w: nat, key: seq<T> -> Code): seq<T> {
    if w == 0 then ks else Flatten(Unkeyed(Sort(Keyed(Chunks(ks, w), key))))
  }

  predicate Even(w: nat, n: nat) {
    w == 0 || w == 1 || (w == 2 && n % 2 == 0)
  }

  lemma {:induction false} FlattenChunks<T>(ks: seq<T>, w: nat)
    requires w > 0 && Even(w, |ks|)
    ensures Flatten(Chunks(ks, w)) == ks
    ensures w * |Chunks(ks, w)| == |ks|
  {
    if |ks| >= w {
      FlattenChunks(ks[w..], w);
      assert ks == ks[..w] + ks[w..];
    }
  }

  lemma {:induction false} ChunksFlatten<T>(gs: seq<seq<T>>, w: nat)
    requires w > 0
    requires forall g | g in gs :: |g| == w
    ensures Chunks(Flatten(gs), w) == gs
  {
    if gs != [] {
      assert gs[0] in gs;
      ChunksFlatten(gs[1..], w);
      var g, rest := gs[0], Flatten(gs[1..]);
      assert (g + rest)[..w] == g && (g + rest)[w..] == rest;
    }
  }

  lemma {:induction false} FlattenLength<T>(gs: seq<seq<T>>, w: nat)
    requires w == 1 || w == 2
    requires forall g | g in gs :: |g| == w
    ensures |Flatten(gs)| == w * |gs|
  {
    if gs != [] {
      assert gs[0] in gs;
      FlattenLength(gs[1..], w);
    }
  }

  lemma {:induction false} FlattenMembers<T>(gs: seq<seq<T>>, k: T)
    ensures k in Flatten(gs) <==> exists g :: g in gs && k in g
  {
    if gs != [] {
      FlattenMembers(gs[1..], k);
      assert forall g :: g in gs <==> g == gs[0] || g in gs[1..];
    }
  }

  lemma UnkeyedKeyed<T>(gs: seq<seq<T>>, key: seq<T> -> Code)
    ensures Unkeyed(Keyed(gs, key)) == gs
  {
  }

  lemma {:induction false} InsertUnkeyed<T>(x: Item<seq<T>>, xs: seq<Item<seq<T>>>)
    ensures multiset(Unkeyed(Insert(x, xs))) == multiset(Unkeyed(xs)) + multiset{x.value}
  {
    hide Less, Unkeyed;
    UnkeyedHead(x, xs);
    if |xs| > 0 && Less(xs[0].key, x.key) {
      InsertUnkeyed(x, xs[1..]);
      UnkeyedHead(xs[0], Insert(x, xs[1..]));
      UnkeyedHead(xs[0], xs[1..]);
      assert xs == [xs[0]] + xs[1..];
    }
  }

  lemma UnkeyedHead<T>(x: Item<seq<T>>, xs: seq<Item<seq<T>>>)
    ensures multiset(Unkeyed([x] + xs)) == multiset{x.value} + multiset(Unkeyed(xs))
  {
    assert Unkeyed([x] + xs) == [x.value] + Unkeyed(xs);
  }

  lemma {:induction false} SortUnkeyed<T>(xs: seq<Item<seq<T>>>)
    ensures multiset(Unkeyed(Sort(xs))) == multiset(Unkeyed(xs))
  {
    if xs != [] {
      SortUnkeyed(xs[1..]);
      InsertUnkeyed(xs[0], Sort(xs[1..]));
      assert Unkeyed(xs) == [xs[0].value] + Unkeyed(xs[1..]);
    }
  }

  lemma MultisetMembers<T>(xs: seq<T>, ys: seq<T>)
    requires multiset(xs) == multiset(ys)
    ensures forall x :: x in xs <==> x in ys
  {
    forall x ensures x in xs <==> x in ys {
      assert x in xs <==> x in multiset(xs);
      assert x in ys <==> x in multiset(ys);
    }
  }

  /** Arranging only moves whole runs. */
  lemma ArrangeByMoves<T>(ks: seq<T>, w: nat, key: seq<T> -> Code)
    requires w > 0
    ensures multiset(Chunks(ArrangeBy(ks, w, key), w)) == multiset(Chunks(ks, w))
  {
    var gs := Keyed(Chunks(ks, w), key);
    SortUnkeyed(gs);
    UnkeyedKeyed(Chunks(ks, w), key);
    MultisetMembers(Unkeyed(Sort(gs)), Chunks(ks, w));
    ChunksFlatten(Unkeyed(Sort(gs)), w);
  }

  lemma ArrangeByMembers<T>(ks: seq<T>, w: nat, key: seq<T> -> Code)
    requires Even(w, |ks|)
    ensures |ArrangeBy(ks, w, key)| == |ks|
    ensures forall k :: k in ArrangeBy(ks, w, key) <==> k in ks
  {
    if w != 0 {
      var cs := Chunks(ks, w);
      var gs := Unkeyed(Sort(Keyed(cs, key)));
      SortUnkeyed(Keyed(cs, key));
      UnkeyedKeyed(cs, key);
      MultisetMembers(gs, cs);
      FlattenChunks(ks, w);
      FlattenLength(gs, w);
      forall k ensures k in Flatten(gs) <==> k in ks {
        FlattenMembers(cs, k);
        FlattenMembers(gs, k);
      }
    }
  }

  lemma KeyedUnkeyed<T(!new)>(cs: seq<seq<T>>, key: seq<T> -> Code)
    ensures Keyed(Unkeyed(Sort(Keyed(cs, key))), key) == Sort(Keyed(cs, key))
  {
    SortProperties(Keyed(cs, key));
    var s := Sort(Keyed(cs, key));
    forall i | 0 <= i < |s| ensures Keyed(Unkeyed(s), key)[i] == s[i] {
      assert s[i] in s;
    }
  }

  /** What is arranged is a fixed point, ties included. */
  lemma ArrangeByTwice<T(!new)>(ks: seq<T>, w: nat, key: seq<T> -> Code)
    ensures ArrangeBy(ArrangeBy(ks, w, key), w, key) == ArrangeBy(ks, w, key)
  {
    if w != 0 {
      var cs := Chunks(ks, w);
      var gs := Sort(Keyed(cs, key));
      SortProperties(Keyed(cs, key));
      SortUnkeyed(Keyed(cs, key));
      UnkeyedKeyed(cs, key);
      MultisetMembers(Unkeyed(gs), cs);
      ChunksFlatten(Unkeyed(gs), w);
      KeyedUnkeyed(cs, key);
      SortOfSorted(gs);
    }
  }

  // ---- arranging and mapping commute ---------------------------------------------

  function MapSeq<T, U>(f: T -> U, xs: seq<T>): (r: seq<U>)
    ensures |r| == |xs|
    ensures forall i | 0 <= i < |xs| :: r[i] == f(xs[i])
  {
    seq(|xs|, i requires 0 <= i < |xs| => f(xs[i]))
  }

  lemma {:induction false} ChunksOfMap<T, U>(f: T -> U, ks: seq<T>, w: nat)
    requires w > 0
    ensures Chunks(MapSeq(f, ks), w) == MapSeq(g => MapSeq(f, g), Chunks(ks, w))
  {
    hide MapSeq;
    if |ks| >= w {
      ChunksOfMap(f, ks[w..], w);
      MapSeqSplit(f, ks, w);
      MapSeqHead(g => MapSeq(f, g), ks[..w], Chunks(ks[w..], w));
    }
  }

  lemma MapSeqSplit<T, U>(f: T -> U, ks: seq<T>, w: nat)
    requires w <= |ks|
    ensures MapSeq(f, ks)[..w] == MapSeq(f, ks[..w]) && MapSeq(f, ks)[w..] == MapSeq(f, ks[w..])
  {
  }

  lemma MapSeqHead<T, U>(f: T -> U, x: T, xs: seq<T>)
    ensures MapSeq(f, [x] + xs) == [f(x)] + MapSeq(f, xs)
  {
  }

  lemma {:induction false} FlattenOfMap<T, U>(f: T -> U, gs: seq<seq<T>>, ms: seq<seq<U>>)
    requires |ms| == |gs| && forall i | 0 <= i < |gs| :: ms[i] == MapSeq(f, gs[i])
    ensures Flatten(ms) == MapSeq(f, Flatten(gs))
  {
    if gs != [] {
      FlattenOfMap(f, gs[1..], ms[1..]);
      assert MapSeq(f, gs[0] + Flatten(gs[1..])) == MapSeq(f, gs[0]) + MapSeq(f, Flatten(gs[1..]));
    }
  }

  /** Sorting by the key of the image and then mapping is mapping and then sorting. */
  lemma ArrangeByMap<T, U>(f: T -> U, ks: seq<T>, w: nat, key: seq<T> -> Code, image: seq<U> -> Code)
    requires forall g | |g| == w :: key(g) == image(MapSeq(f, g))
    ensures ArrangeBy(MapSeq(f, ks), w, image) == MapSeq(f, ArrangeBy(ks, w, key))
  {
    hide Keyed, MapItems, Sort, Flatten, MapSeq, Unkeyed;
    if w != 0 {
      var each := g => MapSeq(f, g);
      var cs := Chunks(ks, w);
      var ms := Chunks(MapSeq(f, ks), w);
      ChunksOfMap(f, ks, w);
      ChunkKeys(f, cs, w, key, image);
      assert ms == MapSeq(each, cs);
      KeyedOfMap(cs, ms, each, key, image);
      SortMap(Keyed(cs, key), each);
      FlattenSorted(f, Sort(Keyed(cs, key)));
    }
  }

  /** Keying images and mapping keyed items give the same items. */
  lemma KeyedOfMap<T, U>(cs: seq<seq<T>>, ms: seq<seq<U>>, each: seq<T> -> seq<U>, key: seq<T> -> Code, image: seq<U> -> Code)
    requires |ms| == |cs| && forall i | 0 <= i < |cs| :: ms[i] == each(cs[i]) && key(cs[i]) == image(ms[i])
    ensures Keyed(ms, image) == MapItems(Keyed(cs, key), each)
  {
  }

  lemma ChunkKeys<T, U>(f: T -> U, cs: seq<seq<T>>, w: nat, key: seq<T> -> Code, image: seq<U> -> Code)
    requires forall g | |g| == w :: key(g) == image(MapSeq(f, g))
    requires forall c | c in cs :: |c| == w
    ensures forall i | 0 <= i < |cs| :: key(cs[i]) == image(MapSeq(f, cs[i]))
  {
    hide MapSeq;
    forall i | 0 <= i < |cs| ensures key(cs[i]) == image(MapSeq(f, cs[i])) { assert cs[i] in cs; }
  }

  lemma FlattenSorted<T, U>(f: T -> U, s: seq<Item<seq<T>>>)
    ensures Flatten(Unkeyed(MapItems(s, g => MapSeq(f, g)))) == MapSeq(f, Flatten(Unkeyed(s)))
  {
    hide Flatten, MapSeq;
    FlattenOfMap(f, Unkeyed(s), Unkeyed(MapItems(s, g => MapSeq(f, g))));
  }
}
