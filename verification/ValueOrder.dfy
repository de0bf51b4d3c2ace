/** Value::operator<, operator== and compare: recursive, and blind to the spans of the values. */
module ValueOrder {
  import opened Bytes
  import opened JsonValues

  function Rank(p: Payload): nat {
    match p
    case Null => 0
    case Int(_) => 1
    case UInt(_) => 2
    case Real(_) => 3
    case Str(_) => 4
    case Bool(_) => 5
    case Arr(_) => 6
    case Obj(_) => 7
  }

  function Size(p: Payload): nat {
    match p
    case Arr(es) => 1 + EntriesSize(es)
    case Obj(es) => 1 + EntriesSize(es)
    case _ => 1
  }

  function EntriesSize(es: Entries): nat {
    match es
    case Nil => 0
    case Cons(_, val, rest) => 1 + Size(val.data) + EntriesSize(rest)
  }

  /** The IEEE `<`: false as soon as one side is NaN. */
  predicate DoubleLess(a: Double, b: Double) {
    match (a, b)
    case (NaN, _) => false
    case (_, NaN) => false
    case (NegInf, _) => b != NegInf
    case (_, NegInf) => false
    case (_, PosInf) => a != PosInf
    case (PosInf, _) => false
    case (Finite(x), Finite(y)) => x < y
  }

  predicate DoubleEqual(a: Double, b: Double) { a == b && a != NaN }

  /** Value::operator<. */
  predicate Less(a: Payload, b: Payload)
    decreases Size(a) + Size(b)
  {
    if Rank(a) != Rank(b) then Rank(a) < Rank(b)
    else match a
      case Null => false
      case Int(i) => i < b.i
      case UInt(u) => u < b.u
      case Real(d) => DoubleLess(d, b.d)
      case Str(s) => StringLess(s, b.s)
      case Bool(x) => !x && b.b
      case Arr(es) => if Count(es) != Count(b.items) then Count(es) < Count(b.items) else LexLess(es, b.items)
      case Obj(es) => if Count(es) != Count(b.members) then Count(es) < Count(b.members) else LexLess(es, b.members)
  }

  /** operator< on std::map: the first pair that differs decides. */
  predicate LexLess(x: Entries, y: Entries)
    decreases EntriesSize(x) + EntriesSize(y)
  {
    match (x, y)
    case (_, Nil) => false
    case (Nil, _) => true
    case (Cons(j, v, xs), Cons(k, w, ys)) =>
      if KeyLess(j, k) || (!KeyLess(k, j) && Less(v.data, w.data)) then true
      else if KeyLess(k, j) || (!KeyLess(j, k) && Less(w.data, v.data)) then false
      else LexLess(xs, ys)
  }

  /** Value::operator==. */
  predicate Equal(a: Payload, b: Payload) {
    match (a, b)
    case (Null, Null) => true
    case (Int(i), Int(j)) => i == j
    case (UInt(i), UInt(j)) => i == j
    case (Real(d), Real(e)) => DoubleEqual(d, e)
    case (Str(s), Str(t)) => s == t
    case (Bool(x), Bool(y)) => x == y
    case (Arr(x), Arr(y)) => Count(x) == Count(y) && EntriesEqual(x, y)
    case (Obj(x), Obj(y)) => Count(x) == Count(y) && EntriesEqual(x, y)
    case _ => false
  }

  predicate EntriesEqual(x: Entries, y: Entries) {
    match (x, y)
    case (Nil, Nil) => true
    case (Cons(j, v, xs), Cons(k, w, ys)) => j == k && Equal(v.data, w.data) && EntriesEqual(xs, ys)
    case _ => false
  }

  /** Value::compare. */
  function Compare(a: Payload, b: Payload): int {
    if Less(a, b) then -1 else if Less(b, a) then 1 else 0
  }

  predicate NaNFree(p: Payload) {
    match p
    case Real(d) => d != NaN
    case Arr(es) => EntriesNaNFree(es)
    case Obj(es) => EntriesNaNFree(es)
    case _ => true
  }

  predicate EntriesNaNFree(es: Entries) {
    es.Nil? || (NaNFree(es.val.data) && EntriesNaNFree(es.rest))
  }

  lemma {:induction false} EntriesEqualCount(x: Entries, y: Entries)
    requires EntriesEqual(x, y)
    ensures Count(x) == Count(y)
  {
    if x.Cons? {
      EntriesEqualCount(x.rest, y.rest);
    }
  }

  /** Equal values are equal to the same values. */
  lemma {:induction false} EqualSubstitutes(a: Payload, b: Payload, c: Payload)
    requires Equal(a, b)
    ensures Equal(a, c) <==> Equal(b, c)
  {
    match (a, b, c)
    case (Arr(x), Arr(y), Arr(z)) => EntriesEqualSubstitutes(x, y, z);
    case (Obj(x), Obj(y), Obj(z)) => EntriesEqualSubstitutes(x, y, z);
    case _ =>
  }

  lemma {:induction false} EntriesEqualSubstitutes(x: Entries, y: Entries, z: Entries)
    requires EntriesEqual(x, y)
    ensures EntriesEqual(x, z) <==> EntriesEqual(y, z)
  {
    if x.Cons? && z.Cons? {
      EqualSubstitutes(x.val.data, y.val.data, z.val.data);
      EntriesEqualSubstitutes(x.rest, y.rest, z.rest);
    }
  }

  /** Equality is reflexive exactly on the values that hold no NaN. */
  lemma {:induction false} EqualReflexive(a: Payload)
    ensures Equal(a, a) <==> NaNFree(a)
  {
    match a
    case Arr(es) => EntriesEqualReflexive(es);
    case Obj(es) => EntriesEqualReflexive(es);
    case _ =>
  }

  lemma {:induction false} EntriesEqualReflexive(es: Entries)
    ensures EntriesEqual(es, es) <==> EntriesNaNFree(es)
  {
    if es.Cons? {
      EqualReflexive(es.val.data);
      EntriesEqualReflexive(es.rest);
    }
  }

  /** Of <, == and >, exactly one holds between two NaN-free values. */
  lemma {:induction false} Trichotomy(a: Payload, b: Payload)
    requires NaNFree(a) && NaNFree(b)
    ensures !(Less(a, b) && Less(b, a))
    ensures Equal(a, b) <==> !Less(a, b) && !Less(b, a)
    decreases Size(a) + Size(b)
  {
    match (a, b)
    case (Str(s), Str(t)) => StringOrder(s, t); StringOrder(t, s);
    case (Arr(x), Arr(y)) => LexTrichotomy(x, y);
    case (Obj(x), Obj(y)) => LexTrichotomy(x, y);
    case _ =>
  }

  lemma {:induction false} LexTrichotomy(x: Entries, y: Entries)
    requires EntriesNaNFree(x) && EntriesNaNFree(y)
    ensures !(LexLess(x, y) && LexLess(y, x))
    ensures EntriesEqual(x, y) <==> !LexLess(x, y) && !LexLess(y, x)
    decreases EntriesSize(x) + EntriesSize(y)
  {
    if x.Cons? && y.Cons? {
      KeyOrder(x.key, y.key);
      KeyOrder(y.key, x.key);
      Trichotomy(x.val.data, y.val.data);
      LexTrichotomy(x.rest, y.rest);
    }
  }

  /** compare is 0 exactly when operator== holds, and flips its sign with its arguments. */
  lemma CompareZeroIffEqual(a: Payload, b: Payload)
    requires NaNFree(a) && NaNFree(b)
    ensures Compare(a, b) == 0 <==> Equal(a, b)
    ensures Compare(b, a) == -Compare(a, b)
  {
    Trichotomy(a, b);
  }

  /** NaN breaks both: two values that are neither less nor equal, yet compare as 0. */
  lemma NaNBreaksCompare()
    ensures var a := Real(NaN); !Equal(a, a) && Compare(a, a) == 0
  {}

  /** operator< is transitive, and stays so when one of its two steps is operator==. */
  lemma {:induction false} Transitive(a: Payload, b: Payload, c: Payload)
    requires NaNFree(a) && NaNFree(b) && NaNFree(c)
    requires !Less(b, a) && !Less(c, b)
    ensures !Less(c, a)
    ensures Less(a, b) || Less(b, c) ==> Less(a, c)
    decreases Size(a) + Size(b) + Size(c)
  {
    Trichotomy(a, b);
    Trichotomy(b, c);
    Trichotomy(a, c);
    if Rank(a) == Rank(b) == Rank(c) {
      match a
      case Str(s) => StringSteps(s, b.s, c.s);
      case Arr(es) =>
        if Count(es) == Count(b.items) == Count(c.items) {
          LexTransitive(es, b.items, c.items);
        }
      case Obj(es) =>
        if Count(es) == Count(b.members) == Count(c.members) {
          LexTransitive(es, b.members, c.members);
        }
      case _ =>
    }
  }

  lemma StringSteps(a: bytes, b: bytes, c: bytes)
    requires !StringLess(b, a) && !StringLess(c, b)
    ensures !StringLess(c, a)
    ensures StringLess(a, b) || StringLess(b, c) ==> StringLess(a, c)
  {
    StringOrder(a, b);
    StringOrder(b, c);
    StringOrder(a, c);
    if StringLess(a, b) && StringLess(b, c) {
      StringLessTransitive(a, b, c);
    }
  }

  lemma {:induction false} LexTransitive(x: Entries, y: Entries, z: Entries)
    requires EntriesNaNFree(x) && EntriesNaNFree(y) && EntriesNaNFree(z)
    requires !LexLess(y, x) && !LexLess(z, y)
    ensures !LexLess(z, x)
    ensures LexLess(x, y) || LexLess(y, z) ==> LexLess(x, z)
    decreases EntriesSize(x) + EntriesSize(y) + EntriesSize(z)
  {
    LexTrichotomy(x, y);
    LexTrichotomy(y, z);
    LexTrichotomy(x, z);
    if x.Cons? && y.Cons? && z.Cons? {
      KeyOrder(x.key, y.key);
      KeyOrder(y.key, z.key);
      KeyOrder(x.key, z.key);
      if KeyLess(x.key, y.key) && KeyLess(y.key, z.key) {
        KeyLessTransitive(x.key, y.key, z.key);
      } else if x.key == y.key == z.key {
        Trichotomy(x.val.data, y.val.data);
        Trichotomy(y.val.data, z.val.data);
        Trichotomy(x.val.data, z.val.data);
        Transitive(x.val.data, y.val.data, z.val.data);
        if Equal(x.val.data, y.val.data) && Equal(y.val.data, z.val.data) {
          Transitive(z.val.data, y.val.data, x.val.data);
          LexTransitive(x.rest, y.rest, z.rest);
        }
      }
    }
  }

  // ----- What the order means ------------------------------------------------------------------

  /** Strings: a proper prefix first, or the smaller byte where they first differ. */
  predicate StringFirst(s: bytes, t: bytes) { s < t || LowerByte(s, t) }

  /** Indices in order, names as strings. */
  predicate KeyFirst(j: Key, k: Key) {
    (j.Index? && k.Index? && j.i < k.i) || (j.Name? && k.Name? && StringFirst(j.n, k.n)) || (j.Index? && k.Name?)
  }

  /** Doubles on the extended line; NaN is not on it. */
  predicate DoubleFirst(a: Double, b: Double) {
    || (a.NegInf? && (b.Finite? || b.PosInf?))
    || (a.Finite? && (b.PosInf? || (b.Finite? && a.r < b.r)))
  }

  /** The kinds in the order of ValueType: null, int, uint, real, string, boolean, array, object. */
  predicate KindFirst(a: Payload, b: Payload) {
    || (a.Null? && !b.Null?)
    || (a.Int? && (b.UInt? || b.Real? || b.Str? || b.Bool? || b.Arr? || b.Obj?))
    || (a.UInt? && (b.Real? || b.Str? || b.Bool? || b.Arr? || b.Obj?))
    || (a.Real? && (b.Str? || b.Bool? || b.Arr? || b.Obj?))
    || (a.Str? && (b.Bool? || b.Arr? || b.Obj?))
    || (a.Bool? && (b.Arr? || b.Obj?))
    || (a.Arr? && b.Obj?)
  }

  function KeyAt(es: Entries, n: nat): Key
    requires n < Count(es)
  {
    if n == 0 then es.key else KeyAt(es.rest, n - 1)
  }

  function DataAt(es: Entries, n: nat): Payload
    requires n < Count(es)
  {
    if n == 0 then es.val.data else DataAt(es.rest, n - 1)
  }

  /** The n-th entries have the same key, and values of which neither is less. */
  predicate Level(x: Entries, y: Entries, n: nat)
    requires n < Count(x) && n < Count(y)
  {
    && KeyAt(x, n) == KeyAt(y, n)
    && !Less(DataAt(x, n), DataAt(y, n)) && !Less(DataAt(y, n), DataAt(x, n))
  }

  /** The n-th entries are the first that are not level, and that of `x` comes first. */
  predicate FirstAt(x: Entries, y: Entries, n: nat)
    requires n < Count(x) && n < Count(y)
  {
    && (forall i :: 0 <= i < n ==> Level(x, y, i))
    && (KeyFirst(KeyAt(x, n), KeyAt(y, n)) || (KeyAt(x, n) == KeyAt(y, n) && Less(DataAt(x, n), DataAt(y, n))))
  }

  /** Containers: fewer entries first; for as many, the first entry whose key or value differs decides. */
  predicate EntriesFirst(x: Entries, y: Entries) {
    || Count(x) < Count(y)
    || (Count(x) == Count(y) && exists n :: 0 <= n < Count(x) && FirstAt(x, y, n))
  }

  /** What operator< stands for. */
  predicate First(a: Payload, b: Payload) {
    || KindFirst(a, b)
    || (a.Int? && b.Int? && a.i < b.i)
    || (a.UInt? && b.UInt? && a.u < b.u)
    || (a.Real? && b.Real? && DoubleFirst(a.d, b.d))
    || (a.Str? && b.Str? && StringFirst(a.s, b.s))
    || (a.Bool? && b.Bool? && !a.b && b.b)
    || (a.Arr? && b.Arr? && EntriesFirst(a.items, b.items))
    || (a.Obj? && b.Obj? && EntriesFirst(a.members, b.members))
  }

  lemma {:induction false} StringLessMeans(s: bytes, t: bytes)
    ensures StringLess(s, t) <==> StringFirst(s, t)
    decreases |s|
  {
    if s != [] && t != [] {
      if s[0] == t[0] {
        StringLessMeans(s[1..], t[1..]);
        LowerByteTail(s, t);
        assert s < t <==> s[1..] < t[1..];
      } else {
        LowerAt(s, t, 0);
      }
    }
  }

  lemma LowerByteTail(s: bytes, t: bytes)
    requires s != [] && t != [] && s[0] == t[0]
    ensures LowerByte(s, t) <==> LowerByte(s[1..], t[1..])
  {
    if LowerByte(s, t) {
      var i :| 0 <= i < |s| && i < |t| && s[..i] == t[..i] && s[i] < t[i];
      SameBefore(s, t, i);
      assert s[1..][..i - 1] == t[1..][..i - 1];
    }
    if LowerByte(s[1..], t[1..]) {
      var i :| 0 <= i < |s[1..]| && i < |t[1..]| && s[1..][..i] == t[1..][..i] && s[1..][i] < t[1..][i];
      assert s[..i + 1] == [s[0]] + s[1..][..i] && t[..i + 1] == [t[0]] + t[1..][..i];
      assert s[i + 1] < t[i + 1];
    }
  }

  lemma KeyLessMeans(j: Key, k: Key)
    ensures KeyLess(j, k) <==> KeyFirst(j, k)
  {
    if j.Name? && k.Name? {
      StringLessMeans(j.n, k.n);
    }
  }

  lemma {:induction false} LexLessMeans(x: Entries, y: Entries)
    requires Count(x) == Count(y)
    ensures LexLess(x, y) <==> exists n :: 0 <= n < Count(x) && FirstAt(x, y, n)
    decreases x
  {
    hide Less, KeyLess, KeyFirst;
    if x.Cons? {
      LexLessMeans(x.rest, y.rest);
      KeyLessMeans(x.key, y.key);
      KeyLessMeans(y.key, x.key);
      KeyOrder(x.key, y.key);
      KeyOrder(y.key, x.key);
      FirstAtRest(x, y);
    }
  }

  /** The first entries decide, or they are level and the others decide. */
  lemma FirstAtRest(x: Entries, y: Entries)
    requires x.Cons? && y.Cons? && Count(x) == Count(y)
    ensures (exists n :: 0 <= n < Count(x) && FirstAt(x, y, n)) <==>
      FirstAt(x, y, 0) || (Level(x, y, 0) && exists n :: 0 <= n < Count(x.rest) && FirstAt(x.rest, y.rest, n))
  {
    hide Less, KeyFirst;
    forall n | 0 <= n < Count(x.rest)
      ensures FirstAt(x, y, n + 1) <==> Level(x, y, 0) && FirstAt(x.rest, y.rest, n)
    {
      FirstAtNext(x, y, n);
    }
    if exists n :: 0 <= n < Count(x) && FirstAt(x, y, n) {
      var n :| 0 <= n < Count(x) && FirstAt(x, y, n);
      assert n > 0 ==> FirstAt(x.rest, y.rest, n - 1);
    }
    if Level(x, y, 0) && exists n :: 0 <= n < Count(x.rest) && FirstAt(x.rest, y.rest, n) {
      var n :| 0 <= n < Count(x.rest) && FirstAt(x.rest, y.rest, n);
      assert FirstAt(x, y, n + 1);
    }
  }

  lemma FirstAtNext(x: Entries, y: Entries, n: nat)
    requires x.Cons? && y.Cons? && n < Count(x.rest) && n < Count(y.rest)
    ensures FirstAt(x, y, n + 1) <==> Level(x, y, 0) && FirstAt(x.rest, y.rest, n)
  {
    hide Less, KeyFirst;
    if FirstAt(x, y, n + 1) {
      forall i | 0 <= i < n ensures Level(x.rest, y.rest, i) {
        assert Level(x, y, i + 1);
      }
      assert Level(x, y, 0);
    }
    if Level(x, y, 0) && FirstAt(x.rest, y.rest, n) {
      forall i | 0 <= i < n + 1 ensures Level(x, y, i) {
        assert i > 0 ==> Level(x.rest, y.rest, i - 1);
      }
    }
  }

  /** operator< by what the values hold. */
  lemma LessMeans(a: Payload, b: Payload)
    ensures Less(a, b) <==> First(a, b)
  {
    hide LexLess, StringLess, StringFirst, FirstAt;
    match (a, b)
    case (Str(s), Str(t)) => StringLessMeans(s, t);
    case (Arr(x), Arr(y)) => if Count(x) == Count(y) { LexLessMeans(x, y); }
    case (Obj(x), Obj(y)) => if Count(x) == Count(y) { LexLessMeans(x, y); }
    case _ =>
  }

  /** compare tells which of the two comes first. */
  lemma CompareMeans(a: Payload, b: Payload)
    ensures Compare(a, b) == if First(a, b) then -1 else if First(b, a) then 1 else 0
  {
    hide Less, First;
    LessMeans(a, b);
    LessMeans(b, a);
  }

  predicate EqualAt(x: Entries, y: Entries, n: nat)
    requires n < Count(x) && n < Count(y)
  {
    KeyAt(x, n) == KeyAt(y, n) && Equal(DataAt(x, n), DataAt(y, n))
  }

  /** operator== on containers: as many entries, with the same keys and equal values one by one. */
  lemma {:induction false} EntriesEqualMeans(x: Entries, y: Entries)
    ensures EntriesEqual(x, y) <==> Count(x) == Count(y) && forall n :: 0 <= n < Count(x) ==> EqualAt(x, y, n)
  {
    hide Equal;
    if x.Cons? && y.Cons? {
      EntriesEqualMeans(x.rest, y.rest);
      if Count(x) == Count(y) {
        forall n | 0 <= n < Count(x.rest) ensures EqualAt(x, y, n + 1) <==> EqualAt(x.rest, y.rest, n) {}
        if forall n :: 0 <= n < Count(x) ==> EqualAt(x, y, n) {
          assert EqualAt(x, y, 0);
          forall n | 0 <= n < Count(x.rest) ensures EqualAt(x.rest, y.rest, n) {
            assert EqualAt(x, y, n + 1);
          }
        }
        if EntriesEqual(x, y) {
          forall n | 0 <= n < Count(x) ensures EqualAt(x, y, n) {
            assert n > 0 ==> EqualAt(x.rest, y.rest, n - 1);
          }
        }
      }
    }
  }

  /** operator== by what the values hold. */
  lemma EqualMeans(a: Payload, b: Payload)
    ensures Equal(a, b) <==>
      || (a.Null? && b.Null?) || (a.Int? && b.Int? && a.i == b.i) || (a.UInt? && b.UInt? && a.u == b.u)
      || (a.Real? && b.Real? && a.d == b.d && a.d != NaN)
      || (a.Str? && b.Str? && a.s == b.s) || (a.Bool? && b.Bool? && a.b == b.b)
      || (a.Arr? && b.Arr? && EntriesAlike(a.items, b.items))
      || (a.Obj? && b.Obj? && EntriesAlike(a.members, b.members))
  {
    hide EntriesEqual, EqualAt;
    match (a, b)
    case (Arr(x), Arr(y)) => EntriesEqualMeans(x, y);
    case (Obj(x), Obj(y)) => EntriesEqualMeans(x, y);
    case _ =>
  }

  predicate EntriesAlike(x: Entries, y: Entries) {
    Count(x) == Count(y) && forall n :: 0 <= n < Count(x) ==> EqualAt(x, y, n)
  }
}
