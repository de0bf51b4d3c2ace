/** Arrays of Json::Value: a map from the indices that were touched, read as a list that is null
    everywhere else. */
module SparseArrays {
  import opened Bytes
  import opened JsonValues

  type ArrayIndex = n: nat | n < INDEX_LIMIT

  /** Every key is an index. */
  predicate Slots(es: Entries) {
    es.Nil? || (es.key.Index? && Slots(es.rest))
  }

  /** A null or an array: the values that array operations accept. */
  predicate ArrayLike(v: Value) {
    v.data.Null? || (v.data.Arr? && Sorted(v.data.items) && Slots(v.data.items))
  }

  function Items(v: Value): Entries
    requires v.data.Null? || v.data.Arr?
  {
    if v.data.Null? then Nil else v.data.items
  }

  predicate Present(es: Entries, i: nat) {
    Find(es, Index(i)).Some?
  }

  /** The list an array stands for. */
  function ListOf(es: Entries): (s: seq<Value>)
    ensures |s| == ArraySize(es)
  {
    seq(ArraySize(es), i requires 0 <= i => Child(es, Index(i)))
  }

  function Listed(v: Value): seq<Value>
    requires v.data.Null? || v.data.Arr?
  {
    ListOf(Items(v))
  }

  /** No slot is missing. */
  predicate Dense(es: Entries) {
    forall i :: 0 <= i < ArraySize(es) ==> Present(es, i)
  }

  function Nulls(n: nat): (s: seq<Value>)
    ensures |s| == n
  {
    seq(n, i => NULL_VALUE)
  }

  function Padded(s: seq<Value>, n: nat): (t: seq<Value>)
    ensures |t| == if n <= |s| then |s| else n
  {
    if n <= |s| then s else s + Nulls(n - |s|)
  }

  // ----- The map and the list ------------------------------------------------------------------

  lemma {:induction false} SizeBounds(es: Entries, i: nat)
    requires Sorted(es) && Slots(es)
    ensures Present(es, i) ==> i < ArraySize(es)
    ensures ArraySize(es) > 0 ==> Present(es, ArraySize(es) - 1)
    ensures ArraySize(es) == 0 ==> es.Nil?
  {
    if es.Cons? && es.rest.Cons? {
      SizeBounds(es.rest, i);
      if i == es.key.i {
        AboveSize(es.key, es.rest);
      }
    } else if es.Cons? {
      assert Find(es.rest, Index(i)) == None;
    }
  }

  lemma {:induction false} AboveSize(k: Key, es: Entries)
    requires k.Index? && Sorted(es) && Slots(es) && Above(k, es) && es.Cons?
    ensures k.i < ArraySize(es)
    decreases es
  {
    if es.rest.Cons? {
      AboveSize(es.key, es.rest);
    }
  }

  /** The size is the only number with a slot just below it and none from it on. */
  lemma SizeUnique(es: Entries, n: nat)
    requires Sorted(es) && Slots(es)
    requires n == 0 || Present(es, n - 1)
    requires forall i: nat :: n <= i ==> !Present(es, i)
    ensures ArraySize(es) == n
  {
    if n > 0 {
      SizeBounds(es, n - 1);
    }
    SizeBounds(es, 0);
    var m := ArraySize(es);
    assert m > 0 ==> Present(es, m - 1);
  }

  lemma {:induction false} PutSlots(es: Entries, i: nat, x: Value)
    requires Sorted(es) && Slots(es)
    ensures Sorted(Put(es, Index(i), x)) && Slots(Put(es, Index(i), x))
  {
    PutSorted(es, Index(i), x);
    if es.Cons? {
      PutSlots(es.rest, i, x);
    }
  }

  lemma {:induction false} EraseSlots(es: Entries, i: nat)
    requires Sorted(es) && Slots(es)
    ensures Sorted(Erase(es, Index(i))) && Slots(Erase(es, Index(i)))
  {
    EraseFind(es, Index(i), Index(i));
    if es.Cons? && es.key != Index(i) {
      EraseSlots(es.rest, i);
    }
  }

  /** Assigning a slot assigns the list at that index, after padding it with nulls to reach it. */
  lemma PutList(es: Entries, i: nat, x: Value)
    requires Sorted(es) && Slots(es)
    ensures var t := Put(es, Index(i), x);
      Sorted(t) && Slots(t) && ListOf(t) == Padded(ListOf(es), i + 1)[i := x]
  {
    hide Put, Sorted, Slots, ArraySize, Find;
    var t := Put(es, Index(i), x);
    var n := if i < ArraySize(es) then ArraySize(es) else i + 1;
    PutSlots(es, i, x);
    forall j: nat ensures Find(t, Index(j)) == if j == i then Some(x) else Find(es, Index(j)) {
      PutFind(es, Index(i), x, Index(j));
    }
    forall j: nat | n <= j ensures !Present(t, j) {
      SizeBounds(es, j);
    }
    SizeBounds(es, i);
    SizeUnique(t, n);
    var list := Padded(ListOf(es), i + 1)[i := x];
    forall j | 0 <= j < n ensures ListOf(t)[j] == list[j] {
      SizeBounds(es, j);
    }
  }

  /** Dense arrays stay dense when a slot up to their end is assigned. */
  lemma PutDense(es: Entries, i: nat, x: Value)
    requires Sorted(es) && Slots(es) && Dense(es) && i <= ArraySize(es)
    ensures Dense(Put(es, Index(i), x))
  {
    hide Put, Sorted, Slots, ArraySize, Find;
    var t := Put(es, Index(i), x);
    PutList(es, i, x);
    assert |ListOf(t)| == ArraySize(t);
    forall j | 0 <= j < ArraySize(t) ensures Present(t, j) {
      PutFind(es, Index(i), x, Index(j));
      assert j < ArraySize(es) ==> Present(es, j);
    }
  }

  /** Erasing the last slot shortens the list by one exactly when the slot before it is there. */
  lemma EraseLast(es: Entries)
    requires Sorted(es) && Slots(es) && ArraySize(es) > 0
    ensures var n := ArraySize(es); var t := Erase(es, Index(n - 1)); var list := ListOf(es);
      && Sorted(t) && Slots(t) && ArraySize(t) < n && ListOf(t) == list[..ArraySize(t)]
      && (ArraySize(t) == n - 1 <==> n == 1 || Present(es, n - 2))
      && (Dense(es) ==> Dense(t))
  {
    hide Erase, Sorted, Slots, ArraySize, Find;
    var n := ArraySize(es);
    SizeBounds(es, 0);
    var t := Erase(es, Index(n - 1));
    EraseSlots(es, n - 1);
    forall j: nat ensures Find(t, Index(j)) == if j == n - 1 then None else Find(es, Index(j)) {
      EraseFind(es, Index(n - 1), Index(j));
    }
    SizeBounds(t, n - 1);
    var m := ArraySize(t);
    if m > n - 1 {
      assert Present(t, m - 1);
      SizeBounds(es, m - 1);
    }
    if n == 1 || Present(es, n - 2) {
      if n > 1 {
        SizeBounds(t, n - 2);
      }
    }
    forall j | 0 <= j < m ensures ListOf(t)[j] == ListOf(es)[j] {}
    if Dense(es) {
      forall j | 0 <= j < m ensures Present(t, j) {
        assert Present(es, j);
      }
    }
  }

  /** The list with a null put in at `i`. */
  function Gap(s: seq<Value>, i: nat): seq<Value>
    requires i <= |s|
  {
    s[..i] + [NULL_VALUE] + s[i..]
  }

  /** The list with positions [from, i) holding what was one further on. */
  function ShiftedLeft(s: seq<Value>, from: nat, i: nat): seq<Value>
    requires from <= i < |s|
  {
    s[..from] + s[from + 1..i + 1] + s[i..]
  }

  lemma GapStep(s: seq<Value>, i: nat)
    requires 0 < i <= |s|
    ensures Gap(s, i)[i := s[i - 1]][i - 1 := NULL_VALUE] == Gap(s, i - 1)
    ensures Gap(s, i)[i] == NULL_VALUE && Gap(s, i)[i - 1] == s[i - 1]
  {}

  lemma ShiftStep(s: seq<Value>, from: nat, i: nat)
    requires from <= i && i + 1 < |s|
    ensures ShiftedLeft(s, from, i)[i := s[i + 1]] == ShiftedLeft(s, from, i + 1)
    ensures ShiftedLeft(s, from, i)[i + 1] == s[i + 1] && |ShiftedLeft(s, from, i)| == |s|
  {}

  /** A Json::Value holding a null or an array, updated in place. */
  class ArrayCell {
    var value: Value

    constructor (v: Value)
      requires ArrayLike(v) && ArraySize(Items(v)) <= INDEX_LIMIT
      ensures value == v && Valid()
    {
      value := v;
    }

    predicate Valid()
      reads `value
    {
      ArrayLike(value) && ArraySize(Items(value)) <= INDEX_LIMIT
    }

    /** The slot 2^32 - 1 is there: size() wraps to 0. */
    predicate Full()
      reads `value
      requires ArrayLike(value)
    {
      ArraySize(Items(value)) == INDEX_LIMIT
    }

    function List(): seq<Value>
      reads `value
      requires ArrayLike(value)
    {
      Listed(value)
    }

    predicate Has(i: nat)
      reads `value
      requires ArrayLike(value)
    {
      Present(Items(value), i)
    }

    ghost predicate AllPresent()
      reads `value
      requires ArrayLike(value)
    {
      Dense(Items(value))
    }

    /** size(), in 32 bits. */
    method Size() returns (n: ArrayIndex)
      requires Valid()
      ensures n == if Full() then 0 else |List()|
    {
      n := if value.data.Null? then 0 else Size32(value.data.items);
    }

    /** operator[](index): a null becomes an array, a missing slot is made, holding null. */
    method Access(index: ArrayIndex)
      requires Valid()
      modifies `value
      ensures Valid() && value.data.Arr? && Has(index)
      ensures List() == Padded(old(List()), index + 1)
      ensures forall j: nat :: Has(j) == (j == index || old(Has(j)))
      ensures old(AllPresent()) && index <= |old(List())| ==> AllPresent()
    {
      hide Put, Sorted, Slots, ArraySize, Find;
      EmptyArray();
      if value.data.Null? {
        value := Value(Arr(Nil), 0, 0);
      }
      ghost var es := value.data.items;
      if !Present(value.data.items, index) {
        PutList(es, index, NULL_VALUE);
        if Dense(es) && index <= ArraySize(es) {
          PutDense(es, index, NULL_VALUE);
        }
        forall j: nat ensures Present(Put(es, Index(index), NULL_VALUE), j) == (j == index || Present(es, j)) {
          PutFind(es, Index(index), NULL_VALUE, Index(j));
        }
        SizeBounds(es, index);
        value := value.(data := Arr(Put(value.data.items, Index(index), NULL_VALUE)));
      }
      SizeBounds(es, index);
    }

    /** Assigns the reference that operator[](index) returned. */
    method Assign(index: ArrayIndex, x: Value)
      requires Valid() && value.data.Arr? && Has(index)
      modifies `value
      ensures Valid() && value.data.Arr? && index < |old(List())| && List() == old(List())[index := x]
      ensures forall j: nat :: Has(j) == old(Has(j))
      ensures old(AllPresent()) ==> AllPresent()
    {
      hide Put, Sorted, Slots, ArraySize, Find;
      ghost var es := value.data.items;
      SizeBounds(es, index);
      PutList(es, index, x);
      if Dense(es) {
        PutDense(es, index, x);
      }
      forall j: nat ensures Present(Put(es, Index(index), x), j) == Present(es, j) {
        PutFind(es, Index(index), x, Index(j));
      }
      value := value.(data := Arr(Put(value.data.items, Index(index), x)));
    }

    /** append: emplace at size(), which does nothing when that slot is taken. */
    method Append(x: Value)
      requires Valid()
      modifies `value
      ensures Valid()
      ensures !old(Full()) ==> List() == old(List()) + [x]
      ensures old(Full()) ==> List() == if old(Has(0)) then old(List()) else old(List())[0 := x]
      ensures old(AllPresent()) && !old(Full()) ==> AllPresent()
    {
      hide Put, Sorted, Slots, ArraySize, Find, ListOf, Dense;
      EmptyArray();
      ghost var list := List();
      if value.data.Null? {
        value := Value(Arr(Nil), 0, 0);
      }
      var n := Size();
      SizeBounds(value.data.items, n);
      if !Present(value.data.items, n) {
        Access(n);
        Assign(n, x);
        PaddedByOne(list, x);
      }
    }

    /** One round of the loop of insert: the slots `i` and `i - 1` are made, and swapped. */
    method MoveUp(i: ArrayIndex)
      requires Valid() && 0 < i <= |List()|
      modifies `value
      ensures Valid() && value.data.Arr?
      ensures List() == Padded(old(List()), i + 1)[i := old(List())[i - 1]][i - 1 := Padded(old(List()), i + 1)[i]]
      ensures old(AllPresent()) ==> AllPresent()
    {
      hide Sorted, Slots, ArraySize, Find, ListOf, Dense, ArrayLike;
      Access(i - 1);
      Access(i);
      var moved := Slot(i - 1);
      var other := Slot(i);
      Assign(i, moved);
      Assign(i - 1, other);
    }

    method Slot(i: ArrayIndex) returns (v: Value)
      requires Valid() && i < |List()|
      ensures v == List()[i]
    {
      v := Child(Items(value), Index(i));
    }

    /** insert: the elements from the end down to `index` move up one by one, by swaps. */
    method Insert(index: ArrayIndex, x: Value) returns (ok: bool)
      requires Valid()
      modifies `value
      ensures Valid()
      ensures !old(Full()) ==> ok == (index <= |old(List())|)
      ensures !ok ==> value == old(value)
      ensures ok && !old(Full()) ==> List() == old(List())[..index] + [x] + old(List())[index..]
      ensures old(Full()) ==> ok == (index == 0) && (ok ==> List() == old(List())[0 := x])
      ensures old(AllPresent()) ==> AllPresent()
    {
      hide Sorted, Slots, ArraySize, Find, ListOf, Dense, ArrayLike;
      var length := Size();
      if index > length {
        return false;
      }
      ghost var list := List();
      ghost var full := Full();
      var i := length;
      while i > index
        invariant index <= i <= length && Valid()
        invariant List() == if i == length || full then list else Gap(list, i)
        invariant old(AllPresent()) ==> AllPresent()
      {
        PaddedGap(list, i);
        GapStep(list, i);
        MoveUp(i);
        i := i - 1;
      }
      Access(index);
      Assign(index, x);
      if !full {
        PaddedGap(list, index);
        assert Gap(list, index)[index := x] == list[..index] + [x] + list[index..];
      }
      return true;
    }

    /** removeIndex: the elements after `index` move down one by one, and the last slot is erased. */
    method RemoveIndex(index: ArrayIndex) returns (ok: bool, removed: Value)
      requires value.data.Arr? ==> Valid()
      modifies `value
      ensures ok <==> old(value).data.Arr? && old(Present(value.data.items, index))
      ensures !ok ==> value == old(value)
      ensures ok ==> Valid() && index < |old(List())| && removed == old(List())[index]
      ensures ok ==> List() <= old(List())[..index] + old(List())[index + 1..]
      ensures ok ==>
        (List() == old(List())[..index] + old(List())[index + 1..]
         <==> index + 1 < |old(List())| || index == 0 || old(Has(index - 1)))
      ensures ok && old(AllPresent()) ==> AllPresent()
    {
      hide Sorted, Slots, ArraySize, Find, ListOf, Dense, ShiftedLeft;
      removed := NULL_VALUE;
      if !value.data.Arr? || !Present(value.data.items, index) {
        return false, removed;
      }
      ghost var list := List();
      SizeBounds(value.data.items, index);
      removed := Slot(index);
      var oldSize := Size();
      // oldSize - 1, in unsigned arithmetic
      var last: ArrayIndex := (oldSize - 1 + INDEX_LIMIT) % INDEX_LIMIT;
      assert last == |list| - 1;
      var i := index;
      NothingShifted(list, index);
      while i < last
        invariant index <= i <= last && Valid() && value.data.Arr?
        invariant i == index ==> value == old(value)
        invariant i > index ==> Has(i - 1)
        invariant Has(i) && List() == ShiftedLeft(list, index, i)
        invariant old(AllPresent()) ==> AllPresent()
      {
        ShiftStep(list, index, i);
        Access(i + 1);
        var next := Slot(i + 1);
        Access(i);
        Assign(i, next);
        i := i + 1;
      }
      ShiftedAll(list, index);
      EraseLast(value.data.items);
      value := value.(data := Arr(Erase(value.data.items, Index(last))));
      return true, removed;
    }

    /** resize: false when the assertion at its end fails. */
    method Resize(newSize: ArrayIndex) returns (ok: bool)
      requires Valid()
      modifies `value
      ensures Valid()
      ensures !old(Full()) && newSize > |old(List())| ==> List() == Padded(old(List()), newSize)
      ensures newSize <= |old(List())| && (!old(Full()) || newSize == 0) ==> List() <= old(List())[..newSize]
      ensures old(Full()) && newSize > 0 ==> List() == old(List())
      ensures ok <==> old(Full()) || newSize == 0 || newSize > |old(List())| || old(Has(newSize - 1))
      ensures ok && !old(Full()) ==> |List()| == newSize
      ensures !ok ==> |List()| < newSize
      ensures old(AllPresent()) && !old(Full()) ==> ok && AllPresent()
    {
      hide Sorted, Slots, ArraySize, Find, ListOf, Dense;
      EmptyArray();
      if value.data.Null? {
        value := Value(Arr(Nil), 0, 0);
      }
      var oldSize := Size();
      if newSize == 0 {
        value := Value(Arr(Nil), 0, 0);
        return true;
      }
      ghost var list := List();
      if newSize > oldSize {
        var i := oldSize;
        while i < newSize
          invariant oldSize <= i <= newSize && Valid() && value.data.Arr?
          invariant List() == Padded(list, i)
          invariant old(AllPresent()) ==> AllPresent()
        {
          PaddedTwice(list, i);
          Access(i);
          i := i + 1;
        }
        return true;
      }
      var index := newSize;
      ghost var before := value.data.items;
      while index < oldSize
        invariant newSize <= index <= oldSize && Valid() && value.data.Arr?
        invariant forall j: nat ::
          Find(value.data.items, Index(j)) == if newSize <= j < index then None else Find(before, Index(j))
      {
        ghost var es := value.data.items;
        EraseSlots(es, index);
        forall j: nat
          ensures Find(Erase(es, Index(index)), Index(j)) == if j == index then None else Find(es, Index(j))
        {
          EraseFind(es, Index(index), Index(j));
        }
        EraseSize(es, index);
        value := value.(data := Arr(Erase(value.data.items, Index(index))));
        index := index + 1;
      }
      Prefix(before, value.data.items, newSize);
      var size := Size();
      return size == newSize;
    }
  }

  lemma PaddedTwice(s: seq<Value>, i: nat)
    ensures Padded(Padded(s, i), i + 1) == Padded(s, i + 1)
  {}

  lemma EraseSize(es: Entries, i: nat)
    requires Sorted(es) && Slots(es)
    ensures ArraySize(Erase(es, Index(i))) <= ArraySize(es)
  {
    hide Erase, Sorted, Slots, ArraySize, Find;
    var t := Erase(es, Index(i));
    EraseSlots(es, i);
    SizeBounds(t, 0);
    var n := ArraySize(t);
    if n > 0 {
      EraseFind(es, Index(i), Index(n - 1));
      SizeBounds(es, n - 1);
    }
  }

  /** What is left when all the slots from `n` on are erased: the first `n` elements, but for the
      missing ones at their end. */
  lemma Prefix(es: Entries, t: Entries, n: nat)
    requires Sorted(es) && Slots(es) && Sorted(t) && Slots(t) && 0 < n <= ArraySize(es)
    requires forall j: nat :: Find(t, Index(j)) == if n <= j < ArraySize(es) then None else Find(es, Index(j))
    ensures ArraySize(t) <= n && ListOf(t) == ListOf(es)[..ArraySize(t)]
    ensures ArraySize(t) == n <==> Present(es, n - 1)
    ensures Dense(es) ==> ArraySize(t) == n && Dense(t)
  {
    hide Sorted, Slots, ArraySize, Find;
    var m := ArraySize(t);
    SizeBounds(t, n - 1);
    if m > 0 {
      SizeBounds(es, m - 1);
    }
    forall j | 0 <= j < m ensures ListOf(t)[j] == ListOf(es)[j] {}
    if Dense(es) {
      assert Present(es, n - 1);
      forall j | 0 <= j < m ensures Present(t, j) {
        assert Present(es, j);
      }
    }
  }

  lemma ShiftedAll(s: seq<Value>, from: nat)
    requires from < |s|
    ensures |ShiftedLeft(s, from, |s| - 1)| == |s|
    ensures ShiftedLeft(s, from, |s| - 1)[..|s| - 1] == s[..from] + s[from + 1..]
  {}

  lemma NothingShifted(s: seq<Value>, from: nat)
    requires from < |s|
    ensures ShiftedLeft(s, from, from) == s
  {}

  lemma PaddedByOne(s: seq<Value>, x: Value)
    ensures Padded(s, |s| + 1)[|s| := x] == s + [x]
  {}

  lemma PaddedGap(s: seq<Value>, i: nat)
    requires i <= |s|
    ensures Padded(if i == |s| then s else Gap(s, i), i + 1) == Gap(s, i)
  {}

  /** An array of size 6 with slots 0 and 5 only: without slot 5 its size is 1, not 5. */
  lemma SparseSizes(x: Value, y: Value)
    ensures var es := Put(Put(Nil, Index(0), x), Index(5), y);
      ArraySize(es) == 6 && ArraySize(Erase(es, Index(5))) == 1
  {}

  lemma EmptyArray()
    ensures Sorted(Nil) && Slots(Nil) && ArraySize(Nil) == 0 && ListOf(Nil) == [] && Dense(Nil)
  {}
}
