/** Lexicographic order on codes, a stable sort by code, and sorted duplicate-free listings. */
module Order {
  type Code = seq<nat>

  datatype Item<+T> = Item(key: Code, value: T)

  /** Strict lexicographic order; a proper prefix comes first. */
  predicate Less(a: Code, b: Code) {
    |b| > 0 && (|a| == 0 || a[0] < b[0] || (a[0] == b[0] && Less(a[1..], b[1..])))
  }

  lemma {:induction false} LessIrreflexive(a: Code)
    ensures !Less(a, a)
  {
    if |a| > 0 { LessIrreflexive(a[1..]); }
  }

  lemma {:induction false} LessTransitive(a: Code, b: Code, c: Code)
    requires Less(a, b) && Less(b, c)
    ensures Less(a, c)
  {
    if |a| > 0 && a[0] == b[0] && b[0] == c[0] { LessTransitive(a[1..], b[1..], c[1..]); }
  }

  lemma {:induction false} LessTotal(a: Code, b: Code)
    ensures a == b || Less(a, b) || Less(b, a)
  {
    if |a| > 0 && |b| > 0 && a[0] == b[0] {
      LessTotal(a[1..], b[1..]);
      assert a == [a[0]] + a[1..] && b == [b[0]] + b[1..];
    }
  }

  /** Weak order: not strictly after. */
  predicate LessEq(a: Code, b: Code) {
    !Less(b, a)
  }

  lemma LessEqTransitive(a: Code, b: Code, c: Code)
    requires LessEq(a, b) && LessEq(b, c)
    ensures LessEq(a, c)
  {
    LessTotal(a, b);
    LessTotal(b, c);
    if Less(c, a) {
      if a == b || b == c {
      } else {
        LessTransitive(b, c, a);
      }
    }
  }

  ghost predicate Sorted<T(!new)>(xs: seq<Item<T>>) {
    forall i, j | 0 <= i < j < |xs| :: LessEq(xs[i].key, xs[j].key)
  }

  /** Puts `x` before the first item whose key is not smaller, so equal keys keep their order. */
  function Insert<T>(x: Item<T>, xs: seq<Item<T>>): (r: seq<Item<T>>)
    ensures |r| == |xs| + 1
  {
    if |xs| > 0 && Less(xs[0].key, x.key) then [xs[0]] + Insert(x, xs[1..]) else [x] + xs
  }

  /** Stable sort by key. */
  function Sort<T>(xs: seq<Item<T>>): (r: seq<Item<T>>)
    ensures |r| == |xs|
  {
    if xs == [] then [] else Insert(xs[0], Sort(xs[1..]))
  }

  lemma {:induction false} InsertElements<T(!new)>(x: Item<T>, xs: seq<Item<T>>)
    ensures multiset(Insert(x, xs)) == multiset(xs) + multiset{x}
    ensures forall y :: y in Insert(x, xs) <==> y == x || y in xs
  {
    if |xs| > 0 && Less(xs[0].key, x.key) {
      InsertElements(x, xs[1..]);
      assert xs == [xs[0]] + xs[1..];
    }
  }

  lemma {:induction false} InsertSorted<T(!new)>(x: Item<T>, xs: seq<Item<T>>)
    requires Sorted(xs)
    ensures Sorted(Insert(x, xs))
  {
    if |xs| > 0 && Less(xs[0].key, x.key) {
      InsertSorted(x, xs[1..]);
      InsertElements(x, xs[1..]);
      var r := Insert(x, xs[1..]);
      forall j | 0 <= j < |r| ensures LessEq(xs[0].key, r[j].key) {
        assert r[j] in r;
        if r[j] == x {
          if Less(x.key, xs[0].key) { LessTransitive(x.key, xs[0].key, x.key); LessIrreflexive(x.key); }
        } else {
          assert r[j] in xs[1..];
        }
      }
    } else if |xs| > 0 {
      forall j | 0 <= j < |xs| ensures LessEq(x.key, xs[j].key) {
        if j > 0 { LessEqTransitive(x.key, xs[0].key, xs[j].key); }
      }
    }
  }

  lemma {:induction false} SortProperties<T(!new)>(xs: seq<Item<T>>)
    ensures Sorted(Sort(xs))
    ensures multiset(Sort(xs)) == multiset(xs)
    ensures forall y :: y in Sort(xs) <==> y in xs
  {
    if xs != [] {
      var x, rest := xs[0], xs[1..];
      SortProperties(rest);
      InsertSorted(x, Sort(rest));
      InsertElements(x, Sort(rest));
      assert xs == [x] + rest;
    }
  }

  /** Sorting what is already sorted changes nothing, ties included. */
  lemma {:induction false} SortOfSorted<T(!new)>(xs: seq<Item<T>>)
    requires Sorted(xs)
    ensures Sort(xs) == xs
  {
    if xs != [] {
      SortOfSorted(xs[1..]);
      assert xs == [xs[0]] + xs[1..];
    }
  }

  /** Items with equal keys are equal. */
  ghost predicate KeyDetermines<T(!new)>(xs: seq<Item<T>>) {
    forall i, j | 0 <= i < |xs| && 0 <= j < |xs| && xs[i].key == xs[j].key :: xs[i] == xs[j]
  }

  /** Two sorted arrangements of the same items start alike when the key determines the item. */
  lemma SortedHead<T(!new)>(xs: seq<Item<T>>, ys: seq<Item<T>>)
    requires Sorted(xs) && Sorted(ys) && xs != [] && ys != []
    requires multiset(xs) == multiset(ys) && KeyDetermines(xs)
    ensures xs[0] == ys[0]
  {
    assert xs[0] in multiset(ys);
    assert ys[0] in multiset(xs);
    var i :| 0 <= i < |ys| && ys[i] == xs[0];
    var j :| 0 <= j < |xs| && xs[j] == ys[0];
    LessTotal(xs[0].key, ys[0].key);
    assert i > 0 ==> LessEq(ys[0].key, ys[i].key);
    assert j > 0 ==> LessEq(xs[0].key, xs[j].key);
  }

  lemma MultisetTail<T>(xs: seq<T>, ys: seq<T>)
    requires xs != [] && ys != [] && xs[0] == ys[0] && multiset(xs) == multiset(ys)
    ensures multiset(xs[1..]) == multiset(ys[1..])
  {
    assert xs == [xs[0]] + xs[1..] && ys == [ys[0]] + ys[1..];
    assert multiset(xs[1..]) == multiset(xs) - multiset{xs[0]};
    assert multiset(ys[1..]) == multiset(ys) - multiset{ys[0]};
  }

  lemma SameLength<T>(xs: seq<T>, ys: seq<T>)
    requires multiset(xs) == multiset(ys)
    ensures |xs| == |ys|
  {
    assert |multiset(xs)| == |xs| && |multiset(ys)| == |ys|;
  }

  /** When the key determines the item, the sorted order depends only on which items there are. */
  lemma {:induction false} SortedUnique<T(!new)>(xs: seq<Item<T>>, ys: seq<Item<T>>)
    requires Sorted(xs) && Sorted(ys) && multiset(xs) == multiset(ys) && KeyDetermines(xs)
    ensures xs == ys
    decreases |xs|
  {
    SameLength(xs, ys);
    if xs != [] {
      SortedHead(xs, ys);
      MultisetTail(xs, ys);
      var x, y := xs[1..], ys[1..];
      assert KeyDetermines(x);
      SortedUnique(x, y);
      assert xs == [xs[0]] + x && ys == [ys[0]] + y;
    }
  }

  lemma KeyDeterminesSort<T(!new)>(xs: seq<Item<T>>)
    requires KeyDetermines(xs)
    ensures KeyDetermines(Sort(xs))
  {
    SortProperties(xs);
    var s := Sort(xs);
    forall i, j | 0 <= i < |s| && 0 <= j < |s| && s[i].key == s[j].key ensures s[i] == s[j] {
      assert s[i] in xs && s[j] in xs;
    }
  }

  lemma SortDependsOnMultiset<T(!new)>(xs: seq<Item<T>>, ys: seq<Item<T>>)
    requires multiset(xs) == multiset(ys) && KeyDetermines(xs)
    ensures Sort(xs) == Sort(ys)
  {
    SortProperties(xs);
    SortProperties(ys);
    KeyDeterminesSort(xs);
    SortedUnique(Sort(xs), Sort(ys));
  }

  /** Applies `f` to the values and leaves the keys alone. */
  function MapItems<T, U>(xs: seq<Item<T>>, f: T -> U): (r: seq<Item<U>>)
    ensures |r| == |xs|
    ensures forall i | 0 <= i < |xs| :: r[i] == Item(xs[i].key, f(xs[i].value))
  {
    seq(|xs|, i requires 0 <= i < |xs| => Item(xs[i].key, f(xs[i].value)))
  }

  lemma {:induction false} InsertMap<T, U>(x: Item<T>, xs: seq<Item<T>>, f: T -> U)
    ensures Insert(Item(x.key, f(x.value)), MapItems(xs, f)) == MapItems(Insert(x, xs), f)
  {
    if |xs| > 0 && Less(xs[0].key, x.key) {
      InsertMap(x, xs[1..], f);
      assert MapItems(xs, f)[1..] == MapItems(xs[1..], f);
    }
  }

  /** A change of values that keeps keys commutes with the stable sort. */
  lemma {:induction false} SortMap<T, U>(xs: seq<Item<T>>, f: T -> U)
    ensures Sort(MapItems(xs, f)) == MapItems(Sort(xs), f)
  {
    if xs != [] {
      SortMap(xs[1..], f);
      assert MapItems(xs, f)[1..] == MapItems(xs[1..], f);
      InsertMap(xs[0], Sort(xs[1..]), f);
    }
  }

  // ---- ordered sets -----------------------------------------------------

  /** The content of an ordered set: keys strictly increase. */
  ghost predicate Strict<T(!new)>(xs: seq<Item<T>>) {
    forall i, j | 0 <= i < j < |xs| :: Less(xs[i].key, xs[j].key)
  }

  /** Ordered-set insertion: an equal key is already present and nothing changes. */
  function SetInsert<T>(x: Item<T>, xs: seq<Item<T>>): seq<Item<T>> {
    if xs == [] then [x]
    else if xs[0].key == x.key then xs
    else if Less(xs[0].key, x.key) then [xs[0]] + SetInsert(x, xs[1..])
    else [x] + xs
  }

  lemma {:induction false} SetInsertProperties<T(!new)>(x: Item<T>, xs: seq<Item<T>>)
    requires Strict(xs)
    requires forall y | y in xs && y.key == x.key :: y == x
    ensures Strict(SetInsert(x, xs))
    ensures forall y :: y in SetInsert(x, xs) <==> y == x || y in xs
  {
    if xs == [] {
    } else if xs[0].key == x.key {
      assert xs[0] in xs;
    } else if Less(xs[0].key, x.key) {
      SetInsertProperties(x, xs[1..]);
      var r := SetInsert(x, xs[1..]);
      forall j | 0 <= j < |r| ensures Less(xs[0].key, r[j].key) {
        assert r[j] in r;
        if r[j] != x { assert r[j] in xs[1..]; }
      }
      assert xs == [xs[0]] + xs[1..];
    } else {
      LessTotal(xs[0].key, x.key);
      forall j | 0 <= j < |xs| ensures Less(x.key, xs[j].key) {
        if j > 0 { LessTransitive(x.key, xs[0].key, xs[j].key); }
      }
    }
  }

  /** A strictly increasing listing is determined by its elements. */
  lemma {:induction false} StrictUnique<T(!new)>(xs: seq<Item<T>>, ys: seq<Item<T>>)
    requires Strict(xs) && Strict(ys)
    requires forall x :: x in xs <==> x in ys
    ensures xs == ys
  {
    if ys != [] { assert ys[0] in ys; }
    if xs != [] {
      assert xs[0] in ys && ys != [];
      assert ys[0] in xs;
      var i :| 0 <= i < |ys| && ys[i] == xs[0];
      var j :| 0 <= j < |xs| && xs[j] == ys[0];
      if i > 0 && j > 0 {
        LessTransitive(xs[0].key, xs[j].key, xs[0].key);
        LessIrreflexive(xs[0].key);
      }
      assert xs[0] == ys[0];
      forall x ensures x in xs[1..] <==> x in ys[1..] {
        StrictTail(xs, x);
        StrictTail(ys, x);
      }
      StrictUnique(xs[1..], ys[1..]);
    }
  }

  lemma StrictTail<T(!new)>(xs: seq<Item<T>>, x: Item<T>)
    requires Strict(xs) && xs != []
    ensures x in xs[1..] <==> x in xs && x != xs[0]
  {
    if x in xs[1..] {
      var i :| 0 <= i < |xs| - 1 && xs[1..][i] == x;
      LessIrreflexive(x.key);
    }
  }

  /** The strictly increasing listing of a set whose elements have distinct keys. */
  ghost function Listing<T(!new)>(s: set<Item<T>>): (r: seq<Item<T>>)
    requires forall x, y | x in s && y in s && x.key == y.key :: x == y
    ensures Strict(r)
    ensures forall x :: x in r <==> x in s
  {
    if s == {} then [] else
      var x :| x in s;
      SetInsertProperties(x, Listing(s - {x}));
      SetInsert(x, Listing(s - {x}))
  }
}
