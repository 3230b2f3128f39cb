/** What a section does to the tables built so far, and when it is refused. */
module ConfigTrees {
  import opened Exprs
  import opened TomlText
  import opened Config

  // ---- looking up a path -------------------------------------------------------------------------

  function Child(es: seq<Entry>, key: bytes): Option<Value> {
    var i := KeyIndex(es, key);
    if i == |es| then None else Some(es[i].value)
  }

  /** The value under a path of keys, through tables only. */
  function At(es: seq<Entry>, path: seq<bytes>): Option<Value>
    decreases |path|
  {
    if path == [] then Some(Tab(es)) else
    match Child(es, path[0])
    case None => None
    case Some(v) =>
      if |path| == 1 then Some(v) else if v.Tab? then At(v.entries, path[1..]) else None
  }

  /** A key's child is the value of its first entry. */
  lemma {:induction false} ChildExactly(es: seq<Entry>, key: bytes)
    ensures Child(es, key) == None <==> forall e | e in es :: e.key != key
    ensures forall i | 0 <= i < |es| && es[i].key == key && (forall j | 0 <= j < i :: es[j].key != key) :: Child(es, key) == Some(es[i].value)
  {
    var k := KeyIndex(es, key);
    FirstIndex(es, key);
    if k == |es| {
      assert !HasKey(es, key);
    } else {
      assert es[k] in es;
    }
  }

  lemma {:induction false} FirstIndex(es: seq<Entry>, key: bytes)
    ensures forall j | 0 <= j < KeyIndex(es, key) :: es[j].key != key
  {
    if es != [] && es[0].key != key {
      FirstIndex(es[1..], key);
      forall j | 0 <= j < KeyIndex(es, key) ensures es[j].key != key {
        if j > 0 { assert es[j] == es[1..][j - 1]; }
      }
    }
  }

  lemma {:induction false} ChildAppended(es: seq<Entry>, e: Entry, key: bytes)
    requires !HasKey(es, e.key)
    ensures Child(es + [e], key) == if key == e.key then Some(e.value) else Child(es, key)
  {
    IndexAppended(es, e, key);
    assert (es + [e])[|es|] == e;
  }

  lemma {:induction false} IndexAppended(es: seq<Entry>, e: Entry, key: bytes)
    requires !HasKey(es, e.key)
    ensures KeyIndex(es + [e], key) == if key == e.key then |es| else if KeyIndex(es, key) < |es| then KeyIndex(es, key) else |es| + 1
  {
    if es == [] {
      assert [] + [e] == [e] && [e][1..] == [];
    } else {
      assert es[0] in es && (forall x | x in es[1..] :: x in es);
      assert (es + [e])[1..] == es[1..] + [e];
      assert !HasKey(es[1..], e.key);
      IndexAppended(es[1..], e, key);
    }
  }

  lemma ChildReplaced(es: seq<Entry>, i: nat, v: Value, key: bytes)
    requires i < |es| && KeyIndex(es, es[i].key) == i
    ensures Child(es[i := Entry(es[i].key, v)], key) == if key == es[i].key then Some(v) else Child(es, key)
  {
    IndexReplaced(es, i, v, key);
  }

  lemma {:induction false} IndexReplaced(es: seq<Entry>, i: nat, v: Value, key: bytes)
    requires i < |es|
    ensures KeyIndex(es[i := Entry(es[i].key, v)], key) == KeyIndex(es, key)
  {
    var fs := es[i := Entry(es[i].key, v)];
    if es[0].key != key {
      if i == 0 {
        assert fs[1..] == es[1..];
      } else {
        assert fs[1..] == es[1..][i - 1 := Entry(es[1..][i - 1].key, v)];
        IndexReplaced(es[1..], i - 1, v, key);
      }
    }
  }

  // ---- merging -------------------------------------------------------------------------------------

  predicate NewKeys(target: seq<Entry>, source: seq<Entry>) {
    Distinct(source) && forall s, t | s in source && t in target :: s.key != t.key
  }

  /** Merging appends, in order, exactly when no key is there twice. */
  lemma {:induction false} MergeExactly(target: seq<Entry>, source: seq<Entry>)
    ensures Merge(target, source) == if NewKeys(target, source) then Some(target + source) else None
    decreases |source|
  {
    if source == [] {
      assert target + [] == target;
    } else {
      var grown, rest := target + [source[0]], source[1..];
      MergeExactly(grown, rest);
      assert grown + rest == target + source;
      assert source[0] in source;
      NewKeysStep(target, source);
    }
  }

  lemma NewKeysStep(target: seq<Entry>, source: seq<Entry>)
    requires source != []
    ensures NewKeys(target, source) <==> !HasKey(target, source[0].key) && NewKeys(target + [source[0]], source[1..])
  {
    var first, rest := source[0], source[1..];
    assert forall i | 0 <= i < |rest| :: rest[i] == source[i + 1];
    assert forall s :: s in source <==> s == first || s in rest;
    assert forall t :: t in target + [first] <==> t in target || t == first;
    if NewKeys(target, source) {
      forall s | s in rest ensures s.key != first.key { var i :| 0 <= i < |rest| && rest[i] == s; }
    }
    if !HasKey(target, first.key) && NewKeys(target + [first], rest) {
      forall i, j | 0 <= i < j < |source| ensures source[i].key != source[j].key {
        assert source[j] == rest[j - 1] && rest[j - 1] in rest;
        if i > 0 { assert source[i] == rest[i - 1]; } else { assert first in target + [first]; }
      }
    }
  }

  // ---- inserting a section -----------------------------------------------------------------------------

  /** What a section makes of the value it finds under its path. */
  function Added(was: Option<Value>, table: seq<Entry>, repeated: bool): Option<Value> {
    match was
    case None => Some(if repeated then Arr([Tab(table)]) else Tab(table))
    case Some(Tab(es)) => if !repeated && NewKeys(es, table) then Some(Tab(es + table)) else None
    case Some(Arr(items)) => if repeated then Some(Arr(items + [Tab(table)])) else None
    case _ => None
  }

  /** Nothing but tables on the way to the end of a path. */
  predicate Passable(es: seq<Entry>, path: seq<bytes>) {
    forall k | 0 < k < |path| :: At(es, path[..k]).Some? ==> At(es, path[..k]).value.Tab?
  }

  lemma PassableStep(es: seq<Entry>, path: seq<bytes>)
    requires |path| > 1
    ensures Passable(es, path) <==>
      match Child(es, path[0]) case None => true case Some(v) => v.Tab? && Passable(v.entries, path[1..])
  {
    hide Child;
    assert path[..1] == [path[0]];
    assert At(es, path[..1]) == Child(es, path[0]);
    forall k | 1 < k < |path| ensures At(es, path[..k]) ==
      match Child(es, path[0]) case None => None case Some(v) => if v.Tab? then At(v.entries, path[1..][..k - 1]) else None
    {
      assert path[..k][1..] == path[1..][..k - 1] && path[..k][0] == path[0];
    }
    match Child(es, path[0])
    case None =>
    case Some(v) =>
      if v.Tab? {
        if Passable(es, path) {
          forall k | 0 < k < |path[1..]|
            ensures At(v.entries, path[1..][..k]).Some? ==> At(v.entries, path[1..][..k]).value.Tab?
          {
            assert At(es, path[..k + 1]) == At(v.entries, path[1..][..k + 1 - 1]);
          }
        }
        if Passable(v.entries, path[1..]) {
          forall k | 0 < k < |path| ensures At(es, path[..k]).Some? ==> At(es, path[..k]).value.Tab? {
            if k > 1 { assert At(es, path[..k]) == At(v.entries, path[1..][..k - 1]); }
          }
        }
      }
  }

  /** The entries after a section below the key at the head of its path. */
  lemma InsertOne(es: seq<Entry>, key: bytes, table: seq<Entry>, repeated: bool)
    ensures var r := Insert(es, [key], table, repeated);
      match Added(Child(es, key), table, repeated)
      case None => r == None
      case Some(v) => r.Some? && (forall k :: Child(r.value, k) == if k == key then Some(v) else Child(es, k))
  {
    hide Merge, NewKeys;
    var i := KeyIndex(es, key);
    if i == |es| {
      forall v: Value, k ensures Child(es + [Entry(key, v)], k) == if k == key then Some(v) else Child(es, k) {
        ChildAppended(es, Entry(key, v), k);
      }
    } else {
      forall v: Value, k ensures Child(es[i := Entry(key, v)], k) == if k == key then Some(v) else Child(es, k) {
        ChildReplaced(es, i, v, k);
      }
      if es[i].value.Tab? { MergeExactly(es[i].value.entries, table); }
    }
  }

  lemma InsertBelow(es: seq<Entry>, path: seq<bytes>, table: seq<Entry>, repeated: bool)
    requires |path| > 1
    ensures var r := Insert(es, path, table, repeated);
      var was := Child(es, path[0]);
      if was.Some? && !was.value.Tab? then r == None else
      match Insert(if was.Some? then was.value.entries else [], path[1..], table, repeated)
      case None => r == None
      case Some(inner) => r.Some? && (forall k :: Child(r.value, k) == if k == path[0] then Some(Tab(inner)) else Child(es, k))
  {
    var i := KeyIndex(es, path[0]);
    var below := Insert(if i < |es| && es[i].value.Tab? then es[i].value.entries else [], path[1..], table, repeated);
    hide InsertRegular, InsertRepeated;
    if below.Some? {
      var v := Tab(below.value);
      if i == |es| {
        forall k ensures Child(es + [Entry(path[0], v)], k) == if k == path[0] then Some(v) else Child(es, k) {
          ChildAppended(es, Entry(path[0], v), k);
        }
      } else {
        forall k ensures Child(es[i := Entry(path[0], v)], k) == if k == path[0] then Some(v) else Child(es, k) {
          ChildReplaced(es, i, v, k);
        }
      }
    }
  }

  /**
    * A section is taken exactly when only tables stand on its way and what is
    * under its path admits it, and then that value is the section added to it.
    */
  lemma {:induction false} InsertExactly(es: seq<Entry>, path: seq<bytes>, table: seq<Entry>, repeated: bool)
    requires path != []
    ensures var r, v := Insert(es, path, table, repeated), Added(At(es, path), table, repeated);
      if Passable(es, path) && v.Some? then r.Some? && At(r.value, path) == v else r == None
    decreases |path|
  {
    hide Insert, Child, Added, Passable;
    if |path| == 1 {
      assert path == [path[0]];
      InsertOne(es, path[0], table, repeated);
      ShortPath(es, path);
    } else {
      InsertBelow(es, path, table, repeated);
      PassableStep(es, path);
      var was := Child(es, path[0]);
      var below := if was.Some? && was.value.Tab? then was.value.entries else [];
      InsertExactly(below, path[1..], table, repeated);
      if was.None? { NothingThere(path[1..]); }
    }
  }

  lemma ShortPath(es: seq<Entry>, path: seq<bytes>)
    requires |path| == 1
    ensures Passable(es, path) && At(es, path) == Child(es, path[0])
  {
  }

  lemma NothingThere(path: seq<bytes>)
    requires path != []
    ensures Passable([], path) && At([], path) == None
  {
    forall k | 0 < k < |path| ensures At([], path[..k]) == None {
      assert path[..k][0] == path[0];
    }
  }

  /** And nothing changes anywhere else. */
  lemma {:induction false} InsertElsewhere(es: seq<Entry>, path: seq<bytes>, table: seq<Entry>, repeated: bool, q: seq<bytes>)
    requires path != [] && Insert(es, path, table, repeated).Some? && !(q <= path) && !(path <= q)
    ensures At(Insert(es, path, table, repeated).value, q) == At(es, q)
    decreases |path|
  {
    hide Insert, Child, Added;
    if |path| == 1 {
      assert path == [path[0]];
      InsertOne(es, path[0], table, repeated);
      assert q != [] && (q[0] == path[0] ==> path <= q);
    } else {
      InsertBelow(es, path, table, repeated);
      if q[0] == path[0] {
        var was := Child(es, path[0]);
        var below := if was.Some? && was.value.Tab? then was.value.entries else [];
        TailsApart(path, q);
        InsertElsewhere(below, path[1..], table, repeated, q[1..]);
        if was.None? { NothingThere(q[1..]); }
      }
    }
  }

  lemma TailsApart(path: seq<bytes>, q: seq<bytes>)
    requires path != [] && q != [] && path[0] == q[0] && !(q <= path) && !(path <= q)
    ensures !(q[1..] <= path[1..]) && !(path[1..] <= q[1..]) && |q| > 1
  {
    assert path == [path[0]] + path[1..] && q == [q[0]] + q[1..];
  }

  /** Entries keep their places, and a new key comes last. */
  lemma InsertAppends(es: seq<Entry>, path: seq<bytes>, table: seq<Entry>, repeated: bool)
    requires path != [] && Insert(es, path, table, repeated).Some?
    ensures var r := Insert(es, path, table, repeated).value;
      |es| <= |r| && (forall i | 0 <= i < |es| :: r[i].key == es[i].key)
      && |r| == if Child(es, path[0]).Some? then |es| else |es| + 1
  {
    hide Merge;
  }
}
