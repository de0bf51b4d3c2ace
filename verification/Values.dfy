/** Json::Value: a payload with the span of bytes it was read from.  Arrays and objects share one
    ordered map from keys to values, kept here as the list of its entries in key order. */
module JsonValues {
  import opened Bytes

  const MIN_INT: int := -0x8000_0000_0000_0000
  const MAX_INT: int := 0x7FFF_FFFF_FFFF_FFFF
  const MAX_UINT: int := 0xFFFF_FFFF_FFFF_FFFF

  /** Value::CZString: an array index or a member name. */
  datatype Key = Index(i: nat) | Name(n: bytes)

  /** The longest string a Value holds: its length goes before it in a block of at most maxInt bytes. */
  const MAX_STRING: nat := 0x7FFF_FFFF - 4 - 1

  /** The length, in bytes, from which on a member name is too long. */
  const NAME_LIMIT: nat := 0x4000_0000

  /** What Value(const String&) takes from a string: the length goes through 32 bits. */
  function Stored(s: bytes): (r: bytes)
    ensures |s| < 0x1_0000_0000 ==> r == s
  {
    s[..|s| % 0x1_0000_0000]
  }

  /** The finite doubles are kept as exact reals; rounding is not modelled. */
  datatype Double = NaN | NegInf | PosInf | Finite(r: real)

  datatype Payload =
    | Null
    | Int(i: int)
    | UInt(u: int)
    | Real(d: Double)
    | Str(s: bytes)
    | Bool(b: bool)
    | Arr(items: Entries)
    | Obj(members: Entries)

  datatype Value = Value(data: Payload, start: int, limit: int)

  datatype Entries = Nil | Cons(key: Key, val: Value, rest: Entries)

  /** Value::nullSingleton(). */
  const NULL_VALUE := Value(Null, 0, 0)

  // ----- Strings in memcmp order ---------------------------------------------------------------

  function MemCmp(a: bytes, b: bytes, n: nat): int
    requires n <= |a| && n <= |b|
    decreases n
  {
    if n == 0 then 0
    else if a[0] < b[0] then -1
    else if b[0] < a[0] then 1
    else MemCmp(a[1..], b[1..], n - 1)
  }

  /** memcmp over the common length, then the shorter string first. */
  predicate StringLess(a: bytes, b: bytes) {
    var comp := MemCmp(a, b, Min(|a|, |b|));
    if comp < 0 then true
    else if comp > 0 then false
    else |a| < |b|
  }

  lemma {:induction false} StringOrder(a: bytes, b: bytes)
    ensures StringLess(a, b) ==> !StringLess(b, a) && a != b
    ensures a == b || StringLess(a, b) || StringLess(b, a)
    decreases |a|
  {
    if a != [] && b != [] && a[0] == b[0] {
      StringOrder(a[1..], b[1..]);
      assert a == [a[0]] + a[1..] && b == [b[0]] + b[1..];
    }
  }

  lemma {:induction false} StringLessTransitive(a: bytes, b: bytes, c: bytes)
    requires StringLess(a, b) && StringLess(b, c)
    ensures StringLess(a, c)
    decreases |a|
  {
    if a != [] && b != [] && c != [] && a[0] == b[0] && b[0] == c[0] {
      StringLessTransitive(a[1..], b[1..], c[1..]);
    }
  }

  // ----- Keys ----------------------------------------------------------------------------------

  /** CZString::operator<.  The source never compares an index with a name; indices come first here. */
  predicate KeyLess(a: Key, b: Key) {
    match a
    case Index(i) => b.Name? || i < b.i
    case Name(n) => b.Name? && StringLess(n, b.n)
  }

  lemma KeyOrder(a: Key, b: Key)
    ensures KeyLess(a, b) ==> !KeyLess(b, a) && a != b
    ensures a == b || KeyLess(a, b) || KeyLess(b, a)
  {
    if a.Name? && b.Name? {
      StringOrder(a.n, b.n);
    }
  }

  lemma KeyLessTransitive(a: Key, b: Key, c: Key)
    requires KeyLess(a, b) && KeyLess(b, c)
    ensures KeyLess(a, c)
  {
    if a.Name? && b.Name? && c.Name? {
      StringLessTransitive(a.n, b.n, c.n);
    }
  }

  // ----- The ordered map -----------------------------------------------------------------------

  function Count(es: Entries): nat {
    match es
    case Nil => 0
    case Cons(_, _, rest) => 1 + Count(rest)
  }

  /** Every key of `es` comes after `k`. */
  predicate Above(k: Key, es: Entries) {
    es.Nil? || (KeyLess(k, es.key) && Above(k, es.rest))
  }

  predicate Sorted(es: Entries) {
    es.Nil? || (Above(es.key, es.rest) && Sorted(es.rest))
  }

  /** Every map inside the value is in key order. */
  predicate Ordered(v: Value) {
    match v.data
    case Arr(es) => EntriesOrdered(es)
    case Obj(es) => EntriesOrdered(es)
    case _ => true
  }

  predicate EntriesOrdered(es: Entries) {
    es.Nil? || (Above(es.key, es.rest) && Ordered(es.val) && EntriesOrdered(es.rest))
  }

  function Find(es: Entries, k: Key): Option<Value> {
    match es
    case Nil => None
    case Cons(key, val, rest) => if key == k then Some(val) else Find(rest, k)
  }

  /** Assigns `v` at `k`, inserting the entry where lower_bound puts it. */
  function Put(es: Entries, k: Key, v: Value): Entries {
    match es
    case Nil => Cons(k, v, Nil)
    case Cons(key, val, rest) =>
      if key == k then Cons(k, v, rest)
      else if KeyLess(k, key) then Cons(k, v, es)
      else Cons(key, val, Put(rest, k, v))
  }

  /** What a constant map holds at `k`: null where there is no entry. */
  function Child(es: Entries, k: Key): Value {
    match Find(es, k) case Some(v) => v case None => NULL_VALUE
  }

  /** One more than the highest index of an array. */
  function ArraySize(es: Entries): nat {
    match es
    case Nil => 0
    case Cons(key, _, rest) => if rest.Nil? then (if key.Index? then key.i + 1 else 0) else ArraySize(rest)
  }

  /** ArrayIndex has 32 bits. */
  const INDEX_LIMIT: nat := 0x1_0000_0000

  /** What size() returns: it wraps to 0 where the highest index is 2^32 - 1. */
  function Size32(es: Entries): (n: nat)
    ensures n <= ArraySize(es)
    ensures ArraySize(es) < INDEX_LIMIT ==> n == ArraySize(es)
  {
    ArraySize(es) % INDEX_LIMIT
  }

  function Erase(es: Entries, k: Key): Entries {
    match es
    case Nil => Nil
    case Cons(key, val, rest) => if key == k then rest else Cons(key, val, Erase(rest, k))
  }

  lemma {:induction false} AboveTransitive(j: Key, k: Key, es: Entries)
    requires KeyLess(j, k) && Above(k, es)
    ensures Above(j, es)
  {
    if es.Cons? {
      KeyLessTransitive(j, k, es.key);
      AboveTransitive(j, k, es.rest);
    }
  }

  lemma {:induction false} AboveNotFound(k: Key, es: Entries)
    requires Above(k, es)
    ensures Find(es, k) == None && Erase(es, k) == es
  {
    if es.Cons? {
      KeyOrder(k, es.key);
      AboveNotFound(k, es.rest);
    }
  }

  lemma {:induction false} PutFind(es: Entries, k: Key, v: Value, q: Key)
    ensures Find(Put(es, k, v), q) == if q == k then Some(v) else Find(es, q)
  {
    if es.Cons? {
      PutFind(es.rest, k, v, q);
    }
  }

  lemma {:induction false} PutSorted(es: Entries, k: Key, v: Value)
    requires Sorted(es)
    ensures Sorted(Put(es, k, v))
    ensures forall j :: Above(j, es) && KeyLess(j, k) ==> Above(j, Put(es, k, v))
  {
    if es.Cons? {
      KeyOrder(k, es.key);
      if KeyLess(k, es.key) {
        AboveTransitive(k, es.key, es.rest);
      } else if k != es.key {
        PutSorted(es.rest, k, v);
      }
    }
  }

  lemma {:induction false} EraseFind(es: Entries, k: Key, q: Key)
    requires Sorted(es)
    ensures Sorted(Erase(es, k))
    ensures Find(Erase(es, k), q) == if q == k then None else Find(es, q)
    ensures forall j :: Above(j, es) ==> Above(j, Erase(es, k))
  {
    if es.Cons? {
      if es.key == k {
        AboveNotFound(k, es.rest);
        forall j | Above(j, es) ensures Above(j, es.rest) {}
      } else {
        EraseFind(es.rest, k, q);
      }
    }
  }

  /** An ordered map is determined by what its keys hold. */
  lemma {:induction false} MapExtensional(a: Entries, b: Entries)
    requires Sorted(a) && Sorted(b)
    requires forall k :: Find(a, k) == Find(b, k)
    ensures a == b
  {
    if a.Cons? {
      assert Find(b, a.key) == Find(a, a.key) == Some(a.val);
    }
    if b.Cons? {
      assert Find(a, b.key) == Find(b, b.key) == Some(b.val);
      KeyOrder(a.key, b.key);
      if KeyLess(a.key, b.key) {
        AboveTransitive(a.key, b.key, b.rest);
        AboveNotFound(a.key, b.rest);
      } else if KeyLess(b.key, a.key) {
        AboveTransitive(b.key, a.key, a.rest);
        AboveNotFound(b.key, a.rest);
      } else {
        AboveNotFound(a.key, a.rest);
        AboveNotFound(b.key, b.rest);
        forall k ensures Find(a.rest, k) == Find(b.rest, k) {
          assert Find(a, k) == Find(b, k);
        }
        MapExtensional(a.rest, b.rest);
      }
    }
  }

  lemma {:induction false} OrderedSorted(es: Entries)
    requires EntriesOrdered(es)
    ensures Sorted(es)
  {
    if es.Cons? {
      OrderedSorted(es.rest);
    }
  }

  lemma {:induction false} FindOrdered(es: Entries, k: Key)
    requires EntriesOrdered(es) && Find(es, k).Some?
    ensures Ordered(Find(es, k).value)
  {
    if es.key != k {
      FindOrdered(es.rest, k);
    }
  }

  lemma {:induction false} PutOrdered(es: Entries, k: Key, v: Value)
    requires EntriesOrdered(es) && Ordered(v)
    ensures EntriesOrdered(Put(es, k, v))
  {
    OrderedSorted(es);
    if es.Cons? {
      KeyOrder(k, es.key);
      if KeyLess(k, es.key) {
        AboveTransitive(k, es.key, es.rest);
      } else if k != es.key {
        PutOrdered(es.rest, k, v);
        PutSorted(es.rest, k, v);
      }
    }
  }

  lemma {:induction false} PutSame(es: Entries, k: Key)
    requires Sorted(es) && Find(es, k).Some?
    ensures Put(es, k, Find(es, k).value) == es
  {
    if es.key != k {
      if KeyLess(k, es.key) {
        AboveTransitive(k, es.key, es.rest);
        AboveNotFound(k, es.rest);
      } else {
        PutSame(es.rest, k);
      }
    }
  }
}
