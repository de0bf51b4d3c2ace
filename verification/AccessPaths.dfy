/** Where a node stands in a value.  A C++ pointer or reference into a tree of values is the list of
    keys that leads to it: std::map never moves its elements. */
module AccessPaths {
  import opened JsonValues

  type Path = seq<Key>

  /** The key selects among the children of a value of this kind. */
  predicate Fits(v: Value, k: Key) {
    if k.Index? then v.data.Arr? else v.data.Obj?
  }

  function EntriesOf(v: Value): Entries
    requires v.data.Arr? || v.data.Obj?
  {
    if v.data.Arr? then v.data.items else v.data.members
  }

  predicate HasChild(v: Value, k: Key) {
    Fits(v, k) && Find(EntriesOf(v), k).Some?
  }

  function ChildAt(v: Value, k: Key): Value
    requires HasChild(v, k)
  {
    Find(EntriesOf(v), k).value
  }

  function WithEntries(v: Value, es: Entries): Value
    requires v.data.Arr? || v.data.Obj?
  {
    v.(data := if v.data.Arr? then Arr(es) else Obj(es))
  }

  function WithChild(v: Value, k: Key, x: Value): Value
    requires Fits(v, k)
  {
    WithEntries(v, Put(EntriesOf(v), k, x))
  }

  predicate InTree(v: Value, path: Path)
    decreases |path|
  {
    path == [] || (HasChild(v, path[0]) && InTree(ChildAt(v, path[0]), path[1..]))
  }

  function GetAt(v: Value, path: Path): Value
    requires InTree(v, path)
    decreases |path|
  {
    if path == [] then v else GetAt(ChildAt(v, path[0]), path[1..])
  }

  /** Assigns `x` to the node at `path`. */
  function SetAt(v: Value, path: Path, x: Value): Value
    requires InTree(v, path)
    decreases |path|
  {
    if path == [] then x else WithChild(v, path[0], SetAt(ChildAt(v, path[0]), path[1..], x))
  }

  lemma WithChildLaws(v: Value, k: Key, x: Value)
    requires Fits(v, k)
    ensures var w := WithChild(v, k, x); HasChild(w, k) && ChildAt(w, k) == x
  {
    PutFind(EntriesOf(v), k, x, k);
  }

  lemma {:induction false} PutTwice(es: Entries, k: Key, x: Value, y: Value)
    ensures Put(Put(es, k, x), k, y) == Put(es, k, y)
  {
    if es.Cons? {
      PutTwice(es.rest, k, x, y);
    }
  }

  lemma WithChildTwice(v: Value, k: Key, x: Value, y: Value)
    requires Fits(v, k)
    ensures WithChild(WithChild(v, k, x), k, y) == WithChild(v, k, y)
  {
    PutTwice(EntriesOf(v), k, x, y);
  }

  lemma {:induction false} SetGet(v: Value, path: Path, x: Value)
    requires InTree(v, path)
    ensures InTree(SetAt(v, path, x), path) && GetAt(SetAt(v, path, x), path) == x
    decreases |path|
  {
    if path != [] {
      SetGet(ChildAt(v, path[0]), path[1..], x);
      WithChildLaws(v, path[0], SetAt(ChildAt(v, path[0]), path[1..], x));
    }
  }

  lemma {:induction false} SetTwice(v: Value, path: Path, x: Value, y: Value)
    requires InTree(v, path)
    ensures InTree(SetAt(v, path, x), path) && SetAt(SetAt(v, path, x), path, y) == SetAt(v, path, y)
    decreases |path|
  {
    SetGet(v, path, x);
    if path != [] {
      var c := ChildAt(v, path[0]);
      SetTwice(c, path[1..], x, y);
      WithChildLaws(v, path[0], SetAt(c, path[1..], x));
      WithChildTwice(v, path[0], SetAt(c, path[1..], x), SetAt(c, path[1..], y));
    }
  }

  /** A child of the node at `path` is the node at `path + [k]`. */
  lemma {:induction false} Extend(v: Value, path: Path, k: Key)
    requires InTree(v, path) && HasChild(GetAt(v, path), k)
    ensures InTree(v, path + [k]) && GetAt(v, path + [k]) == ChildAt(GetAt(v, path), k)
    decreases |path|
  {
    if path != [] {
      Extend(ChildAt(v, path[0]), path[1..], k);
      assert (path + [k])[1..] == path[1..] + [k];
    } else {
      assert [k][1..] == [];
    }
  }

  lemma {:induction false} SetExtend(v: Value, path: Path, k: Key, x: Value)
    requires InTree(v, path) && HasChild(GetAt(v, path), k)
    ensures InTree(v, path + [k])
    ensures SetAt(v, path + [k], x) == SetAt(v, path, WithChild(GetAt(v, path), k, x))
    decreases |path|
  {
    Extend(v, path, k);
    if path != [] {
      SetExtend(ChildAt(v, path[0]), path[1..], k, x);
      assert (path + [k])[1..] == path[1..] + [k];
    } else {
      assert [k][1..] == [];
    }
  }

  lemma ChildOrdered(v: Value, k: Key)
    requires Ordered(v) && HasChild(v, k)
    ensures Ordered(ChildAt(v, k))
  {
    FindOrdered(EntriesOf(v), k);
  }

  lemma WithChildOrdered(v: Value, k: Key, x: Value)
    requires Ordered(v) && Ordered(x) && Fits(v, k)
    ensures Ordered(WithChild(v, k, x))
  {
    PutOrdered(EntriesOf(v), k, x);
  }

  lemma {:induction false} GetOrdered(v: Value, path: Path)
    requires InTree(v, path) && Ordered(v)
    ensures Ordered(GetAt(v, path))
    decreases |path|
  {
    if path != [] {
      ChildOrdered(v, path[0]);
      GetOrdered(ChildAt(v, path[0]), path[1..]);
    }
  }

  lemma {:induction false} SetOrdered(v: Value, path: Path, x: Value)
    requires InTree(v, path) && Ordered(v) && Ordered(x)
    ensures Ordered(SetAt(v, path, x))
    decreases |path|
  {
    if path != [] {
      ChildOrdered(v, path[0]);
      SetOrdered(ChildAt(v, path[0]), path[1..], x);
      WithChildOrdered(v, path[0], SetAt(ChildAt(v, path[0]), path[1..], x));
    }
  }

  /** Assigning what is there changes nothing. */
  lemma {:induction false} SetSame(v: Value, path: Path)
    requires InTree(v, path) && Ordered(v)
    ensures SetAt(v, path, GetAt(v, path)) == v
    decreases |path|
  {
    if path != [] {
      ChildOrdered(v, path[0]);
      OrderedSorted(EntriesOf(v));
      SetSame(ChildAt(v, path[0]), path[1..]);
      PutSame(EntriesOf(v), path[0]);
    }
  }
}
