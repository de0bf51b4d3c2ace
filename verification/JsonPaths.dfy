/** Json::Path on its list of arguments: `make` walks down from a root and makes the nodes on its way,
    `resolve` walks down and makes nothing. */
module JsonPaths {
  import opened Bytes
  import opened JsonValues
  import opened AccessPaths
  import opened Canonical
  import SparseArrays

  /** Every node along the path is null, absent, or of the kind that the next key selects from. */
  predicate Open(v: Value, path: Path)
    decreases |path|
  {
    path == [] || v.data.Null? || (Fits(v, path[0]) && (HasChild(v, path[0]) ==> Open(ChildAt(v, path[0]), path[1..])))
  }

  /** operator[] with the key: a null becomes a container of its kind, an absent child null. */
  function Made(v: Value, k: Key): (w: Value)
    requires v.data.Null? || Fits(v, k)
    ensures HasChild(w, k)
  {
    var w := if v.data.Null? then Value(if k.Index? then Arr(Nil) else Obj(Nil), 0, 0) else v;
    WithChildLaws(w, k, NULL_VALUE);
    if HasChild(w, k) then w else WithChild(w, k, NULL_VALUE)
  }

  /** The root after make. */
  function MakeAt(v: Value, path: Path): Value
    requires Open(v, path)
    decreases |path|
  {
    if path == [] then v
    else
      var w := Made(v, path[0]);
      MadeOpen(v, path);
      WithChild(w, path[0], MakeAt(ChildAt(w, path[0]), path[1..]))
  }

  lemma MadeOpen(v: Value, path: Path)
    requires path != [] && Open(v, path)
    ensures Open(ChildAt(Made(v, path[0]), path[0]), path[1..])
  {
    hide Find, Put;
    var k := path[0];
    if !HasChild(v, k) {
      MadeNull(v, k);
    }
  }

  lemma MadeNull(v: Value, k: Key)
    requires (v.data.Null? || Fits(v, k)) && !HasChild(v, k)
    ensures ChildAt(Made(v, k), k) == NULL_VALUE
  {
    hide Put;
    var w := if v.data.Null? then Value(if k.Index? then Arr(Nil) else Obj(Nil), 0, 0) else v;
    WithChildLaws(w, k, NULL_VALUE);
  }

  /** Where resolve ends; nothing if it gives up on the way. */
  function Resolved(v: Value, path: Path): Option<Value>
    decreases |path|
  {
    if path == [] then Some(v)
    else
      match path[0]
      case Index(i) =>
        if !v.data.Arr? || i >= Size32(v.data.items) then None else Resolved(Child(v.data.items, path[0]), path[1..])
      case Name(_) =>
        if !HasChild(v, path[0]) then None else Resolved(ChildAt(v, path[0]), path[1..])
  }

  /** resolve(root): null when it gives up. */
  function Seen(v: Value, path: Path): Value {
    match Resolved(v, path) case Some(x) => x case None => NULL_VALUE
  }

  /** ArrayIndex has 32 bits, the length of a name 30. */
  predicate Narrow(path: Path) {
    forall i :: 0 <= i < |path| ==> WellFormedKey(path[i], path[i].Index?)
  }

  /** The length of what is or becomes an array. */
  function Extent(v: Value): nat {
    if v.data.Arr? then ArraySize(v.data.items) else 0
  }

  /** No array along the path has, or gets, the slot 2^32 - 1, with which its size would wrap to 0. */
  predicate Roomy(v: Value, path: Path)
    decreases |path|
  {
    path == []
    || ((path[0].Index? ==> path[0].i < INDEX_LIMIT - 1 && Extent(v) < INDEX_LIMIT)
        && Roomy(Next(v, path[0]), path[1..]))
  }

  /** Where make changes what no other path leads to.  An array along the path whose size has wrapped shows
      nothing, before and after; one that gets the slot 2^32 - 1 hides all that it showed. */
  predicate Undisturbed(v: Value, path: Path)
    decreases |path|
  {
    if path == [] || (path[0].Index? && Extent(v) == INDEX_LIMIT) then true
    else if path[0] == Index(INDEX_LIMIT - 1) then v.data.Arr? ==> AllNull(v.data.items)
    else Undisturbed(Next(v, path[0]), path[1..])
  }

  predicate AllNull(es: Entries) {
    es.Cons? ==> es.val == NULL_VALUE && AllNull(es.rest)
  }

  function Next(v: Value, k: Key): Value {
    if HasChild(v, k) then ChildAt(v, k) else NULL_VALUE
  }

  lemma {:induction false} MakeReaches(v: Value, path: Path)
    requires Open(v, path)
    ensures InTree(MakeAt(v, path), path)
    decreases |path|
  {
    hide Find, Put;
    if path != [] {
      var w := Made(v, path[0]);
      MadeOpen(v, path);
      MakeReaches(ChildAt(w, path[0]), path[1..]);
      WithChildLaws(w, path[0], MakeAt(ChildAt(w, path[0]), path[1..]));
    }
  }

  lemma MadeChild(v: Value, k: Key)
    requires v.data.Null? || Fits(v, k)
    ensures ChildAt(Made(v, k), k) == Next(v, k)
  {
    hide Put, Find;
    if !HasChild(v, k) {
      MadeNull(v, k);
    }
  }

  /** What a child of an array means for its size. */
  lemma ChildInSize(v: Value, i: nat)
    requires v.data.Arr? && WellFormed(v.data)
    ensures HasChild(v, Index(i)) ==> i < ArraySize(v.data.items)
  {
    hide WellFormedEntries;
    WellFormedSlots(v.data.items);
    SparseArrays.SizeBounds(v.data.items, i);
  }

  lemma {:induction false} WellFormedSlots(es: Entries)
    requires WellFormedEntries(es, true)
    ensures SparseArrays.Slots(es)
  {
    if es.Cons? {
      WellFormedSlots(es.rest);
    }
  }

  lemma ArraySlots(v: Value)
    requires v.data.Arr? && WellFormed(v.data)
    ensures Sorted(v.data.items) && SparseArrays.Slots(v.data.items)
  {
    WellFormedSlots(v.data.items);
  }

  /** The size of an array after operator[](i) and an assignment to its result. */
  lemma AssignedSize(v: Value, i: nat, x: Value)
    requires (v.data.Null? || v.data.Arr?) && WellFormed(v.data)
    ensures var m := WithChild(Made(v, Index(i)), Index(i), x);
      m.data.Arr? && Extent(m) == if i < Extent(v) then Extent(v) else i + 1
  {
    hide Put, Find, WellFormed, Sorted, SparseArrays.Slots, SparseArrays.ListOf, SparseArrays.Padded;
    var es := if v.data.Arr? then v.data.items else Nil;
    if v.data.Arr? {
      ArraySlots(v);
    } else {
      NoSlots();
    }
    SparseArrays.PutSlots(es, i, NULL_VALUE);
    SparseArrays.PutList(es, i, x);
    SparseArrays.PutList(es, i, NULL_VALUE);
    SparseArrays.PutList(Put(es, Index(i), NULL_VALUE), i, x);
  }

  lemma NoSlots()
    ensures Sorted(Nil) && SparseArrays.Slots(Nil)
  {}

  lemma ExtentLimit(v: Value)
    requires WellFormed(v.data)
    ensures Extent(v) <= INDEX_LIMIT
    ensures v.data.Arr? ==> Size32(v.data.items) == if Extent(v) == INDEX_LIMIT then 0 else Extent(v)
  {
    if v.data.Arr? {
      SizeLimit(v.data.items);
    }
  }

  /** A value written through make is what resolve returns; or nothing, exactly when some size wraps on the
      way. */
  lemma {:induction false} ResolveMade(v: Value, path: Path, x: Value)
    requires WellFormed(v.data) && Open(v, path) && Narrow(path)
    ensures InTree(MakeAt(v, path), path)
    ensures Resolved(SetAt(MakeAt(v, path), path, x), path) == if Roomy(v, path) then Some(x) else None
    decreases |path|
  {
    hide Put, Find, WellFormed, WellFormedEntries, Size32;
    MakeReaches(v, path);
    if path != [] {
      var k := path[0];
      var w := Made(v, k);
      var c := ChildAt(w, k);
      MadeChild(v, k);
      MadeOpen(v, path);
      NextWellFormed(v, k);
      ResolveMade(c, path[1..], x);
      WithChildLaws(w, k, MakeAt(c, path[1..]));
      var y := SetAt(MakeAt(c, path[1..]), path[1..], x);
      WithChildTwice(w, k, MakeAt(c, path[1..]), y);
      WithChildLaws(w, k, y);
      ExtentLimit(v);
      ResolveMadeStep(v, path, y);
    }
  }

  /** resolve at the first key of the path, when `y` has been put there. */
  lemma ResolveMadeStep(v: Value, path: Path, y: Value)
    requires path != [] && WellFormed(v.data) && (v.data.Null? || Fits(v, path[0])) && Narrow(path)
    ensures var m := WithChild(Made(v, path[0]), path[0], y);
      Resolved(m, path)
        == if path[0].Index? && (path[0].i == INDEX_LIMIT - 1 || Extent(v) == INDEX_LIMIT) then None
           else Resolved(y, path[1..])
  {
    hide Put, Find, WellFormed, WellFormedEntries, Size32, ArraySize;
    var k := path[0];
    WithChildLaws(Made(v, k), k, y);
    if k.Index? {
      var m := WithChild(Made(v, k), k, y);
      ExtentLimit(v);
      AssignedSize(v, k.i, y);
      WrappedSize(m.data.items);
    }
  }

  lemma WrappedSize(es: Entries)
    ensures ArraySize(es) == INDEX_LIMIT ==> Size32(es) == 0
  {}

  lemma NextWellFormed(v: Value, k: Key)
    requires WellFormed(v.data)
    ensures WellFormed(Next(v, k).data)
  {
    if HasChild(v, k) {
      FindWellFormed(EntriesOf(v), k, v.data.Arr?);
    }
  }

  lemma SeenNothing(path: Path)
    ensures Seen(NULL_VALUE, path) == NULL_VALUE
  {}

  /** The key that is not there leads to null. */
  lemma SeenAbsent(v: Value, path: Path)
    requires path != [] && !HasChild(v, path[0])
    ensures Seen(v, path) == NULL_VALUE
  {
    if path[0].Index? && v.data.Arr? {
      SeenNothing(path[1..]);
    }
  }

  /** One step of resolve through a child that is there. */
  lemma SeenChild(v: Value, path: Path)
    requires path != [] && HasChild(v, path[0]) && WellFormed(v.data)
    requires v.data.Arr? ==> ArraySize(v.data.items) < INDEX_LIMIT
    ensures Seen(v, path) == Seen(ChildAt(v, path[0]), path[1..])
  {
    hide WellFormed;
    if path[0].Index? {
      ChildInSize(v, path[0].i);
    }
  }

  lemma MadeOther(v: Value, k: Key, x: Value, q: Key)
    requires (v.data.Null? || Fits(v, k)) && q != k
    ensures var m := WithChild(Made(v, k), k, x);
      (HasChild(m, q) <==> HasChild(v, q)) && (HasChild(v, q) ==> ChildAt(m, q) == ChildAt(v, q))
  {
    hide Put;
    var es := if v.data.Null? then Nil else EntriesOf(v);
    PutFind(es, k, NULL_VALUE, q);
    PutFind(es, k, x, q);
    PutFind(Put(es, k, NULL_VALUE), k, x, q);
  }

  lemma {:induction false} MakeWellFormed(v: Value, path: Path)
    requires WellFormed(v.data) && Open(v, path) && Narrow(path)
    ensures WellFormed(MakeAt(v, path).data)
    decreases |path|
  {
    hide Put, Find, WellFormed;
    if path != [] {
      var k := path[0];
      MadeChild(v, k);
      MadeOpen(v, path);
      NextWellFormed(v, k);
      MakeWellFormed(Next(v, k), path[1..]);
      AssignedWellFormed(v, k, MakeAt(Next(v, k), path[1..]));
    }
  }

  lemma AssignedWellFormed(v: Value, k: Key, x: Value)
    requires (v.data.Null? || Fits(v, k)) && WellFormedKey(k, k.Index?) && WellFormed(v.data) && WellFormed(x.data)
    ensures WellFormed(WithChild(Made(v, k), k, x).data)
  {
    hide Put, Find;
    var es := if v.data.Null? then Nil else EntriesOf(v);
    PutSorted(es, k, NULL_VALUE);
    PutSorted(es, k, x);
    PutSorted(Put(es, k, NULL_VALUE), k, x);
    PutWellFormed(es, k, NULL_VALUE);
    PutWellFormed(es, k, x);
    PutWellFormed(Put(es, k, NULL_VALUE), k, x);
  }

  lemma {:induction false} PutWellFormed(es: Entries, k: Key, x: Value)
    requires WellFormedEntries(es, k.Index?) && WellFormedKey(k, k.Index?) && WellFormed(x.data)
    ensures WellFormedEntries(Put(es, k, x), k.Index?)
  {
    if es.Cons? {
      PutWellFormed(es.rest, k, x);
    }
  }

  /** No path leads to anything in an array whose size has wrapped. */
  lemma SeenWrapped(v: Value, path: Path)
    requires v.data.Arr? && Extent(v) == INDEX_LIMIT && path != []
    ensures Seen(v, path) == NULL_VALUE
  {
    WrappedSize(v.data.items);
  }

  lemma {:induction false} AllNullFind(es: Entries, k: Key)
    requires AllNull(es)
    ensures Find(es, k) == None || Find(es, k) == Some(NULL_VALUE)
  {
    if es.Cons? {
      AllNullFind(es.rest, k);
    }
  }

  /** Nor in an array of nulls, or in a null. */
  lemma SeenNulls(v: Value, path: Path)
    requires (v.data.Arr? && AllNull(v.data.items)) || v.data.Null?
    requires path != []
    ensures Seen(v, path) == NULL_VALUE
  {
    hide AllNull, Find, Size32;
    if v.data.Arr? {
      AllNullFind(v.data.items, path[0]);
      SeenNothing(path[1..]);
    }
  }

  /** A child that is no null is in the way. */
  lemma {:induction false} NotAllNull(es: Entries) returns (k: Key)
    requires !AllNull(es) && Sorted(es) && WellFormedEntries(es, true)
    ensures k.Index? && Find(es, k).Some? && Find(es, k).value != NULL_VALUE
  {
    if es.val != NULL_VALUE {
      k := es.key;
    } else {
      k := NotAllNull(es.rest);
      AboveNotFound(es.key, es.rest);
    }
  }

  /** Both sides of make, below the first key of its path. */
  lemma SeenBelow(v: Value, k: Key, y: Value, q: Path)
    requires q != [] && q[0] == k && WellFormed(v.data) && (v.data.Null? || Fits(v, k))
    requires k.Index? ==> k.i < INDEX_LIMIT - 1 && Extent(v) < INDEX_LIMIT
    requires WellFormedKey(k, k.Index?) && WellFormed(y.data)
    ensures Seen(WithChild(Made(v, k), k, y), q) == Seen(y, q[1..])
    ensures Seen(v, q) == Seen(Next(v, k), q[1..])
  {
    hide Put, Find, WellFormed, Resolved, Size32, ArraySize;
    var m := WithChild(Made(v, k), k, y);
    AssignedWellFormed(v, k, y);
    WithChildLaws(Made(v, k), k, y);
    if k.Index? {
      AssignedSize(v, k.i, y);
    }
    SeenChild(m, q);
    if HasChild(v, k) {
      SeenChild(v, q);
    } else {
      SeenAbsent(v, q);
      SeenNothing(q[1..]);
    }
  }

  /** And along any other key. */
  lemma SeenBeside(v: Value, k: Key, y: Value, q: Path)
    requires q != [] && q[0] != k && WellFormed(v.data) && (v.data.Null? || Fits(v, k))
    requires k.Index? ==> k.i < INDEX_LIMIT - 1 && Extent(v) < INDEX_LIMIT
    requires WellFormedKey(k, k.Index?) && WellFormed(y.data)
    ensures Seen(WithChild(Made(v, k), k, y), q) == Seen(v, q)
  {
    hide Put, Find, WellFormed, Resolved, Size32, ArraySize;
    var m := WithChild(Made(v, k), k, y);
    AssignedWellFormed(v, k, y);
    if k.Index? {
      AssignedSize(v, k.i, y);
    }
    MadeOther(v, k, y, q[0]);
    if HasChild(v, q[0]) {
      SeenChild(m, q);
      SeenChild(v, q);
    } else {
      SeenAbsent(m, q);
      SeenAbsent(v, q);
    }
  }

  /** Where an array on the way wraps, or has wrapped, make leaves nothing to see beyond it. */
  lemma SeenHidden(v: Value, i: nat, y: Value, q: Path)
    requires q != [] && i < INDEX_LIMIT && WellFormed(v.data) && (v.data.Null? || v.data.Arr?)
    requires i == INDEX_LIMIT - 1 || Extent(v) == INDEX_LIMIT
    ensures Seen(WithChild(Made(v, Index(i)), Index(i), y), q) == NULL_VALUE
  {
    hide Put, Find, WellFormed, Resolved, Size32, ArraySize;
    ExtentLimit(v);
    AssignedSize(v, i, y);
    SeenWrapped(WithChild(Made(v, Index(i)), Index(i), y), q);
  }

  /** Where nothing gets hidden, make changes what no path sees but those to the nodes on its way. */
  lemma {:induction false} MakeUnseen(v: Value, p: Path, q: Path)
    requires WellFormed(v.data) && Open(v, p) && Narrow(p) && Undisturbed(v, p) && !(q < p)
    ensures Seen(MakeAt(v, p), q) == Seen(v, q)
    decreases |p|
  {
    hide Put, Find, WellFormed, Resolved, ArraySize, AllNull;
    if p != [] {
      var k := p[0];
      MadeChild(v, k);
      MadeOpen(v, p);
      NextWellFormed(v, k);
      var y := MakeAt(Next(v, k), p[1..]);
      MakeWellFormed(Next(v, k), p[1..]);
      ExtentLimit(v);
      assert q != [];
      if k.Index? && Extent(v) == INDEX_LIMIT {
        SeenHidden(v, k.i, y, q);
        SeenWrapped(v, q);
      } else if k == Index(INDEX_LIMIT - 1) {
        SeenHidden(v, k.i, y, q);
        SeenNulls(v, q);
      } else if q[0] == k {
        Tails(p, q);
        MakeUnseen(Next(v, k), p[1..], q[1..]);
        SeenBelow(v, k, y, q);
      } else {
        SeenBeside(v, k, y, q);
      }
    }
  }

  /** A path that sees a change. */
  lemma {:induction false} MakeSeen(v: Value, p: Path) returns (q: Path)
    requires WellFormed(v.data) && Open(v, p) && Narrow(p) && !Undisturbed(v, p)
    ensures !(q < p) && Seen(MakeAt(v, p), q) != Seen(v, q)
    decreases |p|
  {
    hide Put, Find, WellFormed, Resolved, ArraySize, AllNull, Sorted, WellFormedEntries;
    var k := p[0];
    MadeChild(v, k);
    MadeOpen(v, p);
    NextWellFormed(v, k);
    var y := MakeAt(Next(v, k), p[1..]);
    MakeWellFormed(Next(v, k), p[1..]);
    ExtentLimit(v);
    if k == Index(INDEX_LIMIT - 1) {
      q := HiddenChild(v);
      SeenHidden(v, k.i, y, q);
    } else {
      var r := MakeSeen(Next(v, k), p[1..]);
      q := [k] + r;
      assert q[1..] == r;
      Heads(p, q);
      SeenBelow(v, k, y, q);
    }
  }

  lemma HiddenChild(v: Value) returns (q: Path)
    requires v.data.Arr? && WellFormed(v.data) && Extent(v) < INDEX_LIMIT && !AllNull(v.data.items)
    ensures |q| == 1 && q[0].Index? && q[0].i < Extent(v) && Seen(v, q) != NULL_VALUE
  {
    hide Find, AllNull;
    var k := NotAllNull(v.data.items);
    q := [k];
    ChildInSize(v, k.i);
    SeenChild(v, q);
    assert q[1..] == [];
  }

  /** make changes what resolve gives for no path but those to the nodes on its way, exactly when it hides
      nothing in an array whose size wraps. */
  lemma MakeFrame(v: Value, p: Path)
    requires WellFormed(v.data) && Open(v, p) && Narrow(p)
    ensures (forall q: Path :: !(q < p) ==> Seen(MakeAt(v, p), q) == Seen(v, q)) <==> Undisturbed(v, p)
  {
    hide Seen, MakeAt, Undisturbed, Open, WellFormed;
    if Undisturbed(v, p) {
      forall q: Path | !(q < p) ensures Seen(MakeAt(v, p), q) == Seen(v, q) {
        MakeUnseen(v, p, q);
      }
    } else {
      var q := MakeSeen(v, p);
    }
  }

  lemma Heads(p: Path, q: Path)
    requires p != [] && q != [] && p[0] == q[0] && !(q[1..] < p[1..])
    ensures !(q < p)
  {}

  lemma Tails(p: Path, q: Path)
    requires p != [] && q != [] && p[0] == q[0] && !(q < p)
    ensures !(q[1..] < p[1..])
  {}

  /** What make does is all on its way: a node that is there already, and is no null, is left as it is. */
  lemma {:induction false} MadeNothing(v: Value, path: Path)
    requires Ordered(v) && Open(v, path) && InTree(MakeAt(v, path), path)
    requires !GetAt(MakeAt(v, path), path).data.Null?
    ensures MakeAt(v, path) == v
    decreases |path|
  {
    hide Put, Find;
    if path != [] {
      var k := path[0];
      var w := Made(v, k);
      MadeChild(v, k);
      MadeOpen(v, path);
      var y := MakeAt(Next(v, k), path[1..]);
      MakeReaches(Next(v, k), path[1..]);
      WithChildLaws(w, k, y);
      if HasChild(v, k) {
        ChildOrdered(v, k);
        MadeNothing(Next(v, k), path[1..]);
        OrderedSorted(EntriesOf(v));
        PutSame(EntriesOf(v), k);
      } else {
        MadeNothing(NULL_VALUE, path[1..]);
        GetOfNull(path[1..]);
      }
    }
  }

  lemma GetOfNull(path: Path)
    requires Open(NULL_VALUE, path) && MakeAt(NULL_VALUE, path) == NULL_VALUE && InTree(NULL_VALUE, path)
    ensures GetAt(NULL_VALUE, path).data.Null?
  {}

  /** One more key. */
  lemma {:induction false} OpenExtend(v: Value, path: Path, k: Key)
    requires Open(v, path) && InTree(MakeAt(v, path), path)
    ensures var node := GetAt(MakeAt(v, path), path);
      Open(v, path + [k]) <==> node.data.Null? || Fits(node, k)
    decreases |path|
  {
    hide Put, Find, Made;
    if path != [] {
      var w := Made(v, path[0]);
      MadeChild(v, path[0]);
      MadeOpen(v, path);
      var c := Next(v, path[0]);
      MakeReaches(c, path[1..]);
      WithChildLaws(w, path[0], MakeAt(c, path[1..]));
      OpenExtend(c, path[1..], k);
      assert (path + [k])[1..] == path[1..] + [k];
    } else {
      assert [k][1..] == [];
    }
  }

  lemma {:induction false} MakeExtend(v: Value, path: Path, k: Key)
    requires Ordered(v) && Open(v, path) && Open(v, path + [k]) && InTree(MakeAt(v, path), path)
    requires var node := GetAt(MakeAt(v, path), path); node.data.Null? || Fits(node, k)
    ensures MakeAt(v, path + [k]) == SetAt(MakeAt(v, path), path, Made(GetAt(MakeAt(v, path), path), k))
    decreases |path|
  {
    hide Put, Find, Made;
    if path != [] {
      var w := Made(v, path[0]);
      MadeChild(v, path[0]);
      MadeOpen(v, path);
      MadeOpen(v, path + [k]);
      var c := Next(v, path[0]);
      MakeReaches(c, path[1..]);
      assert (path + [k])[1..] == path[1..] + [k];
      WithChildLaws(w, path[0], MakeAt(c, path[1..]));
      NextOrdered(v, path[0]);
      MakeExtend(c, path[1..], k);
      var made := MakeAt(c, path[1..]);
      WithChildTwice(w, path[0], made, SetAt(made, path[1..], Made(GetAt(made, path[1..]), k)));
    } else {
      assert [k][1..] == [];
      MadeSame(v, k);
    }
  }

  lemma MadeSame(v: Value, k: Key)
    requires Ordered(v) && (v.data.Null? || Fits(v, k))
    ensures WithChild(Made(v, k), k, ChildAt(Made(v, k), k)) == Made(v, k)
  {
    hide Put, Find;
    var w := if v.data.Null? then Value(if k.Index? then Arr(Nil) else Obj(Nil), 0, 0) else v;
    if HasChild(w, k) {
      OrderedSorted(EntriesOf(w));
      PutSame(EntriesOf(w), k);
    } else {
      MadeNull(v, k);
      WithChildTwice(w, k, NULL_VALUE, NULL_VALUE);
    }
  }

  lemma NextOrdered(v: Value, k: Key)
    requires Ordered(v)
    ensures Ordered(Next(v, k))
  {
    if HasChild(v, k) {
      ChildOrdered(v, k);
    }
  }

  lemma {:induction false} MakeOrdered(v: Value, path: Path)
    requires Ordered(v) && Open(v, path)
    ensures Ordered(MakeAt(v, path))
    decreases |path|
  {
    hide Put, Find;
    if path != [] {
      var k := path[0];
      MadeChild(v, k);
      MadeOpen(v, path);
      NextOrdered(v, k);
      MakeOrdered(Next(v, k), path[1..]);
      MadeOrdered(v, k);
      WithChildOrdered(Made(v, k), k, MakeAt(Next(v, k), path[1..]));
    }
  }

  lemma MadeOrdered(v: Value, k: Key)
    requires Ordered(v) && (v.data.Null? || Fits(v, k))
    ensures Ordered(Made(v, k))
  {
    hide Put, Find;
    var w := if v.data.Null? then Value(if k.Index? then Arr(Nil) else Obj(Nil), 0, 0) else v;
    WithChildOrdered(w, k, NULL_VALUE);
  }

  // ----- What resolve and make answer ----------------------------------------------------------

  /** The key leads nowhere from this node: a missing member, an index at or above size(), or a node of
      another kind. */
  predicate Barred(node: Value, k: Key) {
    if k.Index? then !node.data.Arr? || k.i >= Size32(node.data.items)
    else !node.data.Obj? || Find(node.data.members, k) == None
  }

  /** The key is an index below size() with no element at it. */
  predicate Gap(node: Value, k: Key) {
    k.Index? && node.data.Arr? && k.i < Size32(node.data.items) && Find(node.data.items, k) == None
  }

  /** The first `i` keys of the path lead to a node. */
  predicate Leads(v: Value, path: Path, i: nat)
    requires i <= |path|
  {
    InTree(v, path[..i])
  }

  /** One key further. */
  lemma LeadsOn(v: Value, path: Path, i: nat)
    requires path != [] && i < |path| && HasChild(v, path[0])
    ensures Leads(v, path, i + 1) <==> Leads(ChildAt(v, path[0]), path[1..], i)
    ensures Leads(v, path, i + 1) ==> GetAt(v, path[..i + 1]) == GetAt(ChildAt(v, path[0]), path[1..][..i])
  {
    assert path[..i + 1][1..] == path[1..][..i];
  }

  /** A barred key anywhere on the way: nothing. */
  lemma {:induction false} ResolvedBarred(v: Value, path: Path, i: nat)
    requires i < |path| && Leads(v, path, i) && Barred(GetAt(v, path[..i]), path[i])
    ensures Resolved(v, path) == None
    decreases i
  {
    hide Find, Size32;
    if i > 0 {
      assert path[..i][0] == path[0];
      LeadsOn(v, path, i - 1);
      ResolvedBarred(ChildAt(v, path[0]), path[1..], i - 1);
    }
  }

  /** A gap: null at the end of the path, and nothing beyond it. */
  lemma {:induction false} ResolvedGap(v: Value, path: Path, i: nat)
    requires i < |path| && Leads(v, path, i) && Gap(GetAt(v, path[..i]), path[i])
    requires forall j :: 0 <= j < i && Leads(v, path, j) ==> !Barred(GetAt(v, path[..j]), path[j])
    ensures Resolved(v, path) == if i + 1 == |path| then Some(NULL_VALUE) else None
    decreases i
  {
    hide Find, Size32;
    if i > 0 {
      assert path[..i][0] == path[0];
      LeadsOn(v, path, i - 1);
      NotBarredBelow(v, path, i);
      ResolvedGap(ChildAt(v, path[0]), path[1..], i - 1);
    }
  }

  lemma NotBarredBelow(v: Value, path: Path, i: nat)
    requires 0 < i <= |path| && HasChild(v, path[0])
    requires forall j :: 0 <= j < i && Leads(v, path, j) ==> !Barred(GetAt(v, path[..j]), path[j])
    ensures !Barred(v, path[0])
    ensures var c, tail := ChildAt(v, path[0]), path[1..];
      forall j :: 0 <= j < i - 1 && Leads(c, tail, j) ==> !Barred(GetAt(c, tail[..j]), tail[j])
  {
    hide Find, Size32, Barred;
    assert Leads(v, path, 0);
    var c, tail := ChildAt(v, path[0]), path[1..];
    forall j | 0 <= j < i - 1 && Leads(c, tail, j) ensures !Barred(GetAt(c, tail[..j]), tail[j]) {
      LeadsOn(v, path, j);
      assert Leads(v, path, j + 1);
    }
  }

  /** A path that leads all the way, with no key barred: its end. */
  lemma {:induction false} ResolvedEnd(v: Value, path: Path)
    requires InTree(v, path)
    requires forall j :: 0 <= j < |path| && Leads(v, path, j) ==> !Barred(GetAt(v, path[..j]), path[j])
    ensures Resolved(v, path) == Some(GetAt(v, path))
    decreases |path|
  {
    hide Find, Size32;
    if path != [] {
      NotBarredBelow(v, path, |path|);
      ResolvedEnd(ChildAt(v, path[0]), path[1..]);
    }
  }

  /** The first key that finds no child: every path that does not lead to a node has one. */
  lemma {:induction false} FirstMissing(v: Value, path: Path) returns (i: nat)
    requires !InTree(v, path)
    ensures i < |path| && Leads(v, path, i) && !HasChild(GetAt(v, path[..i]), path[i])
    decreases |path|
  {
    hide Find;
    if HasChild(v, path[0]) {
      var k := FirstMissing(ChildAt(v, path[0]), path[1..]);
      LeadsOn(v, path, k);
      i := k + 1;
    } else {
      i := 0;
    }
  }

  /** make passes unless some node that is there is neither null nor of the kind its next key needs. */
  lemma {:induction false} OpenMeans(v: Value, path: Path)
    ensures Open(v, path) <==>
      forall i :: 0 <= i < |path| && Leads(v, path, i) ==>
        GetAt(v, path[..i]).data.Null? || Fits(GetAt(v, path[..i]), path[i])
    decreases |path|
  {
    hide Find;
    if path != [] {
      assert Leads(v, path, 0);
      if HasChild(v, path[0]) {
        var c, tail := ChildAt(v, path[0]), path[1..];
        OpenMeans(c, tail);
        forall i | 0 <= i < |tail|
          ensures Leads(v, path, i + 1) <==> Leads(c, tail, i)
          ensures Leads(v, path, i + 1) ==> GetAt(v, path[..i + 1]) == GetAt(c, tail[..i])
        {
          LeadsOn(v, path, i);
        }
        if Open(c, tail) {
          forall i | 0 <= i < |path| && Leads(v, path, i)
            ensures i > 0 ==> GetAt(v, path[..i]).data.Null? || Fits(GetAt(v, path[..i]), path[i])
          {
            assert i > 0 ==> Leads(c, tail, i - 1);
          }
        } else {
          var i :| 0 <= i < |tail| && Leads(c, tail, i)
            && !(GetAt(c, tail[..i]).data.Null? || Fits(GetAt(c, tail[..i]), tail[i]));
          assert Leads(v, path, i + 1);
        }
      } else {
        forall i | 0 < i < |path| ensures !Leads(v, path, i) {
          assert path[..i][0] == path[0];
        }
      }
    }
  }

  lemma AnswerMeans(v: Value, path: Path)
    ensures (exists i :: 0 <= i < |path| && Leads(v, path, i) && Barred(GetAt(v, path[..i]), path[i])) ==>
      Resolved(v, path) == None
    ensures (forall i :: 0 <= i < |path| && Leads(v, path, i) ==> !Barred(GetAt(v, path[..i]), path[i])) ==>
      && (InTree(v, path) ==> Resolved(v, path) == Some(GetAt(v, path)))
      && (!InTree(v, path) ==>
            exists i :: 0 <= i < |path| && Leads(v, path, i) && Gap(GetAt(v, path[..i]), path[i])
                        && Resolved(v, path) == if i + 1 == |path| then Some(NULL_VALUE) else None)
  {
    hide Resolved, Find, Size32;
    if i :| 0 <= i < |path| && Leads(v, path, i) && Barred(GetAt(v, path[..i]), path[i]) {
      ResolvedBarred(v, path, i);
    } else if InTree(v, path) {
      ResolvedEnd(v, path);
    } else {
      var i := FirstMissing(v, path);
      ResolvedGap(v, path, i);
    }
  }

  lemma Appended(path: Path, i: nat)
    requires i < |path|
    ensures path[..i + 1] == path[..i] + [path[i]]
  {}

  /** A root value that paths are made in. */
  class Document {
    var root: Value

    constructor (v: Value)
      ensures root == v
    {
      root := v;
    }

    /** operator[] on the node at `node`: false when it throws, the node being of another kind. */
    method Subscript(node: Path, k: Key) returns (ok: bool)
      requires InTree(root, node)
      modifies this
      ensures ok <==> old(GetAt(root, node)).data.Null? || Fits(old(GetAt(root, node)), k)
      ensures root == if ok then SetAt(old(root), node, Made(GetAt(old(root), node), k)) else old(root)
    {
      var v := GetAt(root, node);
      if v.data.Null? {
        v := Value(if k.Index? then Arr(Nil) else Obj(Nil), 0, 0);
      } else if !Fits(v, k) {
        return false;
      }
      if !HasChild(v, k) {
        v := WithChild(v, k, NULL_VALUE);
      }
      root := SetAt(root, node, v);
      return true;
    }

    /** make: the node at the path, reached by operator[] key by key.  It throws exactly when a node on
        the way is of another kind, and has then made nothing. */
    method Make(path: Path) returns (ok: bool, node: Path)
      requires Ordered(root)
      modifies this
      ensures ok <==> Open(old(root), path)
      ensures ok <==> forall i :: 0 <= i < |path| && Leads(old(root), path, i) ==>
        GetAt(old(root), path[..i]).data.Null? || Fits(GetAt(old(root), path[..i]), path[i])
      ensures ok ==> node == path && InTree(root, node) && root == MakeAt(old(root), path)
      ensures !ok ==> root == old(root)
    {
      OpenMeans(root, path);
      hide Put, Find, Made, Open, MakeAt, InTree, GetAt, SetAt, Leads;
      ghost var v := root;
      node := [];
      var i := 0;
      EmptyPath(v);
      while i < |path|
        invariant i <= |path| && node == path[..i]
        invariant Open(v, node) && root == MakeAt(v, node) && InTree(root, node)
      {
        Appended(path, i);
        OpenExtend(v, node, path[i]);
        ghost var before := root;
        ok := Subscript(node, path[i]);
        if !ok {
          MadeNothing(v, node);
          OpenPrefix(v, path, i + 1);
          return false, node;
        }
        MakeExtend(v, node, path[i]);
        node := node + [path[i]];
        MakeReaches(v, node);
        i := i + 1;
      }
      assert path[..i] == path;
      return true, node;
    }

    /** resolve(root, defaultValue): the default value as soon as a key on the way is barred; otherwise the
        node at the path, null standing for a missing element below size(). */
    method Resolve(path: Path, defaultValue: Value) returns (v: Value)
      ensures v == match Resolved(root, path) case Some(x) => x case None => defaultValue
      ensures (exists i :: 0 <= i < |path| && Leads(root, path, i) && Barred(GetAt(root, path[..i]), path[i])) ==>
        v == defaultValue
      ensures (forall i :: 0 <= i < |path| && Leads(root, path, i) ==> !Barred(GetAt(root, path[..i]), path[i])) ==>
        && (InTree(root, path) ==> v == GetAt(root, path))
        && (!InTree(root, path) ==>
              exists i :: 0 <= i < |path| && Leads(root, path, i) && Gap(GetAt(root, path[..i]), path[i])
                          && v == if i + 1 == |path| then NULL_VALUE else defaultValue)
    {
      AnswerMeans(root, path);
      hide Find, ArraySize, Barred, Gap, Leads;
      v := root;
      var i := 0;
      assert path[0..] == path;
      while i < |path|
        invariant i <= |path| && Resolved(v, path[i..]) == Resolved(root, path)
      {
        assert path[i..][1..] == path[i + 1..];
        if path[i].Index? {
          if !v.data.Arr? || path[i].i >= Size32(v.data.items) {
            return defaultValue;
          }
          v := Child(v.data.items, path[i]);
        } else {
          if !v.data.Obj? || Find(v.data.members, path[i]).None? {
            return defaultValue;
          }
          v := Child(v.data.members, path[i]);
        }
        i := i + 1;
      }
    }

    /** What is written through make is what resolve returns, unless an array size wraps on the way; and no
        other path sees a change but those to the nodes on its way, unless make hides something; both
        unless a node of another kind stops make. */
    method WriteThenRead(path: Path, x: Value, other: Path) returns (ok: bool, seen: Value, elsewhere: Value)
      requires WellFormed(root.data) && Ordered(root) && Narrow(path)
      modifies this
      ensures ok <==> Open(old(root), path)
      ensures ok ==> seen == if Roomy(old(root), path) then x else NULL_VALUE
      ensures !ok || (Undisturbed(old(root), path) && !(other < path)) ==> elsewhere == Seen(old(root), other)
    {
      hide MakeAt, Resolved, Open, Roomy, Undisturbed;
      var node;
      ok, node := Make(path);
      elsewhere := Resolve(other, NULL_VALUE);
      if ok {
        if Undisturbed(old(root), path) && !(other < path) {
          MakeUnseen(old(root), path, other);
        }
        ResolveMade(old(root), path, x);
        root := SetAt(root, node, x);
      }
      seen := Resolve(path, NULL_VALUE);
    }
  }

  lemma EmptyPath(v: Value)
    ensures Open(v, []) && MakeAt(v, []) == v && InTree(v, [])
  {}

  lemma {:induction false} OpenPrefix(v: Value, path: Path, n: nat)
    requires n <= |path|
    ensures Open(v, path) ==> Open(v, path[..n])
    decreases |path|
  {
    if n > 0 && HasChild(v, path[0]) {
      OpenPrefix(ChildAt(v, path[0]), path[1..], n - 1);
      assert path[..n][1..] == path[1..][..n - 1];
    }
  }
}
