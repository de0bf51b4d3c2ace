/** What a writer writes, the reader reads back. */
module RoundTrip {
  import opened Bytes
  import opened JsonValues
  import opened Numbers
  import opened Grammar
  import opened Canonical
  import opened ValueOrder
  import Strings
  import Utf8
  import Scanner
  import ReaderSpec
  import Verdicts

  type Parser = bytes -> Option<Double>

  /** How deep arrays and objects nest; a scalar counts 1. */
  function Nesting(p: Payload): nat
    decreases Size(p), 0
  {
    match p
    case Arr(es) => 1 + ItemsNesting(es, 0)
    case Obj(es) => 1 + MembersNesting(es)
    case _ => 1
  }

  function ItemsNesting(es: Entries, i: nat): nat
    decreases EntriesSize(es), 2, if i < Size32(es) then Size32(es) - i else 0
  {
    if i >= Size32(es) then 0
    else
      ItemSize(es, i);
      Max(Nesting(Item(es, i)), ItemsNesting(es, i + 1))
  }

  function MembersNesting(es: Entries): nat
    decreases EntriesSize(es), 1
  {
    match es
    case Nil => 0
    case Cons(_, val, rest) => Max(Nesting(val.data), MembersNesting(rest))
  }

  /** A string that survives the style: any with emitUTF8, well-formed UTF-8 without. */
  predicate KeepsString(s: bytes, style: Style) {
    style.emitUTF8 || Utf8.WellFormed(s)
  }

  /** A double that survives the trip through its text. */
  predicate KeepsDouble(d: Double, style: Style, toDouble: Parser) {
    && d != NaN && style.showDouble(d).TNumber?
    && var n := style.showDouble(d).n; !IsInteger(n) && toDouble(NumberText(n)) == Some(d)
  }

  /** Everything in the value survives. */
  predicate Keeps(p: Payload, style: Style, toDouble: Parser) {
    match p
    case Real(d) => KeepsDouble(d, style, toDouble)
    case Str(s) => KeepsString(s, style)
    case Arr(es) => KeepsEntries(es, style, toDouble)
    case Obj(es) => KeepsEntries(es, style, toDouble)
    case _ => true
  }

  predicate KeepsEntries(es: Entries, style: Style, toDouble: Parser) {
    es.Cons? ==>
      && (es.key.Name? ==> KeepsString(es.key.n, style))
      && Keeps(es.val.data, style, toDouble) && KeepsEntries(es.rest, style, toDouble)
  }

  /** How far an array reaches: with `wrap` as far as size() tells, otherwise to its last slot. */
  function Extent(es: Entries, wrap: bool): (n: nat)
    ensures n <= ArraySize(es)
  {
    if wrap then Size32(es) else ArraySize(es)
  }

  /** The value with its missing array slots null and its small unsigned integers signed: with `wrap`, cut
      off where sizes wrap. */
  function ReadBack(p: Payload, wrap: bool): Payload
    decreases Size(p), 0
  {
    match p
    case UInt(u) => if u <= MAX_INT then Int(u) else p
    case Arr(es) => Arr(ReadBackItems(es, 0, wrap))
    case Obj(es) => Obj(ReadBackMembers(es, wrap))
    case _ => p
  }

  function ReadBackItems(es: Entries, i: nat, wrap: bool): Entries
    decreases EntriesSize(es), 2, if i < Extent(es, wrap) then Extent(es, wrap) - i else 0
  {
    if i >= Extent(es, wrap) then Nil
    else
      ItemSize(es, i);
      Cons(Index(i), Value(ReadBack(Item(es, i), wrap), 0, 0), ReadBackItems(es, i + 1, wrap))
  }

  function ReadBackMembers(es: Entries, wrap: bool): Entries
    decreases EntriesSize(es), 1
  {
    match es
    case Nil => Nil
    case Cons(key, val, rest) => Cons(key, Value(ReadBack(val.data, wrap), 0, 0), ReadBackMembers(rest, wrap))
  }

  // ----- Sizes that wrap -----------------------------------------------------------------------

  /** No array in the value has the slot 2^32 - 1, with which size() wraps to 0. */
  predicate Unwrapped(p: Payload) {
    match p
    case Arr(es) => ArraySize(es) < INDEX_LIMIT && UnwrappedEntries(es)
    case Obj(es) => UnwrappedEntries(es)
    case _ => true
  }

  predicate UnwrappedEntries(es: Entries) {
    es.Cons? ==> Unwrapped(es.val.data) && UnwrappedEntries(es.rest)
  }

  lemma {:induction false} FindUnwrapped(es: Entries, k: Key)
    requires UnwrappedEntries(es) && Find(es, k).Some?
    ensures Unwrapped(Find(es, k).value.data)
  {
    if es.key != k {
      FindUnwrapped(es.rest, k);
    }
  }

  lemma {:induction false} FindNaNFree(es: Entries, k: Key)
    requires EntriesNaNFree(es) && Find(es, k).Some?
    ensures NaNFree(Find(es, k).value.data)
  {
    if es.key != k {
      FindNaNFree(es.rest, k);
    }
  }

  /** The entries from the n-th on hold no wrapped size if no item does. */
  lemma {:induction false} ItemsUnwrapped(es: Entries, n: nat)
    requires Sorted(es) && WellFormedEntries(es, true) && n <= Count(es)
    requires forall i :: 0 <= i < ArraySize(es) ==> Unwrapped(Item(es, i))
    ensures UnwrappedEntries(Drop(es, n))
    decreases Count(es) - n
  {
    hide Unwrapped, Sorted, WellFormedEntries;
    DropAll(es);
    if n < Count(es) {
      DropStep(es, n);
      FindDrop(es, n);
      DropBelowSize(es, n);
      assert Unwrapped(Item(es, Drop(es, n).key.i));
      ItemsUnwrapped(es, n + 1);
    }
  }

  lemma {:induction false} DropBelowSize(es: Entries, n: nat)
    requires Sorted(es) && WellFormedEntries(es, true) && n < Count(es)
    ensures Drop(es, n).Cons? && Drop(es, n).key.Index? && Drop(es, n).key.i < ArraySize(es)
  {
    if n > 0 {
      DropBelowSize(es.rest, n - 1);
    } else {
      KeyBelowSize(es);
    }
  }

  /** Cutting off what sizes that wrap hide shows exactly when some size does wrap. */
  lemma {:induction false} WrapShows(p: Payload)
    requires WellFormed(p) && NaNFree(p)
    ensures Equal(ReadBack(p, true), ReadBack(p, false)) <==> Unwrapped(p)
    decreases Size(p), 0
  {
    hide WellFormedEntries, EntriesNaNFree, UnwrappedEntries, ReadBackItems, ReadBackMembers, Sorted;
    match p
    case Arr(es) => WrapShowsArray(es);
    case Obj(es) =>
      ReadBackMembersCount(es, true);
      ReadBackMembersCount(es, false);
      WrapShowsMembers(es);
    case _ =>
  }

  lemma {:induction false} WrapShowsArray(es: Entries)
    requires WellFormed(Arr(es)) && EntriesNaNFree(es)
    ensures Equal(ReadBack(Arr(es), true), ReadBack(Arr(es), false)) <==> Unwrapped(Arr(es))
    decreases EntriesSize(es), 3
  {
    hide WellFormedEntries, EntriesNaNFree, ReadBackItems, Sorted, Item, Size32;
    SizeLimit(es);
    ReadBackItemsCount(es, 0, true);
    ReadBackItemsCount(es, 0, false);
    if ArraySize(es) < INDEX_LIMIT {
      WrapShowsItems(es, 0);
      if UnwrappedEntries(es) {
        forall i | 0 <= i < ArraySize(es) ensures Unwrapped(Item(es, i)) {
          ItemUnwrapped(es, i);
        }
      } else if forall i :: 0 <= i < ArraySize(es) ==> Unwrapped(Item(es, i)) {
        ItemsUnwrapped(es, 0);
      }
    }
  }

  lemma ItemUnwrapped(es: Entries, i: nat)
    requires UnwrappedEntries(es)
    ensures Unwrapped(Item(es, i))
  {
    if Find(es, Index(i)).Some? {
      FindUnwrapped(es, Index(i));
    }
  }

  lemma {:induction false} WrapShowsItems(es: Entries, i: nat)
    requires WellFormed(Arr(es)) && EntriesNaNFree(es) && Size32(es) == ArraySize(es)
    ensures EntriesEqual(ReadBackItems(es, i, true), ReadBackItems(es, i, false))
      <==> forall k :: i <= k < ArraySize(es) ==> Unwrapped(Item(es, k))
    decreases EntriesSize(es), 2, if i < ArraySize(es) then ArraySize(es) - i else 0
  {
    hide WellFormedEntries, EntriesNaNFree, Sorted, Item, ReadBack, Equal, Unwrapped, Size32, ArraySize;
    if i < ArraySize(es) {
      ItemSize(es, i);
      ItemWellFormed(es, i);
      ItemNaNFree(es, i);
      WrapShows(Item(es, i));
      WrapShowsItems(es, i + 1);
    }
  }

  lemma ItemNaNFree(es: Entries, i: nat)
    requires EntriesNaNFree(es)
    ensures NaNFree(Item(es, i))
  {
    if Find(es, Index(i)).Some? {
      FindNaNFree(es, Index(i));
    }
  }

  lemma {:induction false} WrapShowsMembers(es: Entries)
    requires WellFormedEntries(es, false) && EntriesNaNFree(es)
    ensures EntriesEqual(ReadBackMembers(es, true), ReadBackMembers(es, false)) <==> UnwrappedEntries(es)
    decreases EntriesSize(es), 1
  {
    if es.Cons? {
      WrapShows(es.val.data);
      WrapShowsMembers(es.rest);
    }
  }

  lemma {:induction false} ReadBackItemsCount(es: Entries, i: nat, wrap: bool)
    ensures Count(ReadBackItems(es, i, wrap)) == if i < Extent(es, wrap) then Extent(es, wrap) - i else 0
    decreases if i < Extent(es, wrap) then Extent(es, wrap) - i else 0
  {
    hide Extent, ReadBack, Item;
    if i < Extent(es, wrap) {
      ReadBackItemsCount(es, i + 1, wrap);
    }
  }

  lemma {:induction false} ReadBackMembersCount(es: Entries, wrap: bool)
    ensures Count(ReadBackMembers(es, wrap)) == Count(es)
  {
    hide ReadBack;
    if es.Cons? {
      ReadBackMembersCount(es.rest, wrap);
    }
  }

  /** An array that is lost: with one slot, the last possible one, it is written as `[]`. */
  lemma LostArray(style: Style)
    ensures var p := Arr(Cons(Index(INDEX_LIMIT - 1), Value(Bool(true), 0, 0), Nil));
      && WellFormed(p) && !Unwrapped(p)
      && Text(Canon(p, style)) == "[]" && ReadBack(p, true) == Arr(Nil)
  {
    var es := Cons(Index(INDEX_LIMIT - 1), Value(Bool(true), 0, 0), Nil);
    assert Size32(es) == 0;
    assert CanonElements(es, 0, style) == NoElement;
    assert "[" + ([] + "]") == "[]";
  }

  // ----- The canonical tree is a readable JSON text --------------------------------------------

  lemma {:induction false} FindKeeps(es: Entries, k: Key, style: Style, toDouble: Parser)
    requires KeepsEntries(es, style, toDouble) && Find(es, k).Some?
    ensures Keeps(Find(es, k).value.data, style, toDouble)
  {
    if es.key != k {
      FindKeeps(es.rest, k, style, toDouble);
    }
  }

  lemma ItemKeeps(es: Entries, i: nat, style: Style, toDouble: Parser)
    requires KeepsEntries(es, style, toDouble)
    ensures Keeps(Item(es, i), style, toDouble)
  {
    if Find(es, Index(i)).Some? {
      FindKeeps(es, Index(i), style, toDouble);
    }
  }

  lemma {:induction false} KeepsNaNFree(p: Payload, style: Style, toDouble: Parser)
    requires Keeps(p, style, toDouble)
    ensures NaNFree(p)
  {
    match p
    case Arr(es) => EntriesKeepNaNFree(es, style, toDouble);
    case Obj(es) => EntriesKeepNaNFree(es, style, toDouble);
    case _ =>
  }

  lemma {:induction false} EntriesKeepNaNFree(es: Entries, style: Style, toDouble: Parser)
    requires KeepsEntries(es, style, toDouble)
    ensures EntriesNaNFree(es)
  {
    if es.Cons? {
      KeepsNaNFree(es.val.data, style, toDouble);
      EntriesKeepNaNFree(es.rest, style, toDouble);
    }
  }

  /** Every array that is written has fewer than 2^31 elements: the reader counts them in an int. */
  predicate Countable(p: Payload) {
    match p
    case Arr(es) => Size32(es) == 0 || (Size32(es) <= MAX_INT32 && CountableEntries(es))
    case Obj(es) => CountableEntries(es)
    case _ => true
  }

  predicate CountableEntries(es: Entries) {
    es.Cons? ==> Countable(es.val.data) && CountableEntries(es.rest)
  }

  lemma {:induction false} ItemCountable(es: Entries, i: nat)
    requires CountableEntries(es)
    ensures Countable(Item(es, i))
  {
    if es.Cons? {
      ItemCountable(es.rest, i);
    }
  }

  lemma QuoteKept(s: bytes, style: Style)
    requires KeepsString(s, style)
    ensures var cs := Strings.Quote(s, style.emitUTF8); ValidCharacters(cs) && StringValue(cs) == s
  {
    assert s[0..] == s;
    if style.emitUTF8 {
      Strings.QuoteRoundTripRaw(s, 0);
    } else {
      Strings.QuoteRoundTripAscii(s, 0);
    }
  }

  ghost predicate Good(t: Tree, toDouble: Parser, depth: nat) {
    ValidTree(t, toDouble) && Standard(t) && InLimits(t, true, toDouble) && Depth(t) == depth
  }

  lemma {:induction false} CanonGood(p: Payload, style: Style, toDouble: Parser)
    requires WellFormed(p) && Keeps(p, style, toDouble) && Countable(p) && !style.dropNulls && AllSpace(style.gap)
    ensures Good(Canon(p, style), toDouble, Nesting(p))
    decreases Size(p), 0
  {
    hide IntegerNumber, Strings.Quote, ValidNumber, CanonElements, CanonMembers, ItemsNesting, MembersNesting;
    hide ElementsInLimits, MembersInLimits, ValidElements, ValidMembers;
    match p
    case Int(i) => IntegerGood(i, toDouble);
    case UInt(u) => IntegerGood(u, toDouble);
    case Str(s) => QuoteKept(s, style);
    case Arr(es) => CanonElementsGood(es, 0, style, toDouble);
    case Obj(es) => CanonMembersGood(es, {}, style, toDouble);
    case Real(d) => NumberLoose(style.showDouble(d).n);
    case _ =>
  }

  lemma IntegerGood(i: int, toDouble: Parser)
    requires MIN_INT <= i <= MAX_UINT
    ensures Good(TNumber(IntegerNumber(i)), toDouble, 1)
    ensures NumberValue(IntegerNumber(i), toDouble) == if i <= MAX_INT then Int(i) else UInt(i)
  {
    IntegerNumberValid(i);
    ValShow(if i < 0 then -i else i);
  }

  lemma {:induction false} CanonElementsGood(es: Entries, i: nat, style: Style, toDouble: Parser)
    requires WellFormedEntries(es, true) && KeepsEntries(es, style, toDouble)
    requires (i < Size32(es) ==> CountableEntries(es)) && !style.dropNulls && AllSpace(style.gap)
    ensures var t := CanonElements(es, i, style);
      ValidElements(t, toDouble) && StandardElements(t) && ElementsInLimits(t, true, toDouble)
      && ElementsDepth(t) == ItemsNesting(es, i)
      && ElementCount(t) == if i < Size32(es) then Size32(es) - i else 0
    decreases EntriesSize(es), 2, if i < Size32(es) then Size32(es) - i else 0
  {
    if i < Size32(es) {
      ItemSize(es, i);
      ItemCountable(es, i);
      ItemKeeps(es, i, style, toDouble);
      ItemWellFormed(es, i);
      CanonGood(Item(es, i), style, toDouble);
      CanonElementsGood(es, i + 1, style, toDouble);
    }
  }

  lemma {:induction false} CanonMembersGood(es: Entries, seen: set<bytes>, style: Style, toDouble: Parser)
    requires Sorted(es) && WellFormedEntries(es, false) && KeepsEntries(es, style, toDouble) && CountableEntries(es)
    requires forall n :: n in seen ==> Above(Name(n), es)
    requires !style.dropNulls && AllSpace(style.gap)
    ensures var t := CanonMembers(es, style);
      ValidMembers(t, toDouble) && StandardMembers(t) && MembersInLimits(t, seen, true, toDouble)
      && MembersDepth(t) == MembersNesting(es)
    decreases EntriesSize(es), 1
  {
    if es.Cons? {
      SpaceGap(style.gap);
      QuoteKept(es.key.n, style);
      KeyOrder(es.key, es.key);
      CanonGood(es.val.data, style, toDouble);
      CanonMembersGood(es.rest, seen + {es.key.n}, style, toDouble);
    }
  }

  // ----- Its value is the value written --------------------------------------------------------

  function Append(a: Entries, b: Entries): Entries {
    match a
    case Nil => b
    case Cons(key, val, rest) => Cons(key, val, Append(rest, b))
  }

  predicate Below(es: Entries, k: Key) {
    es.Cons? ==> KeyLess(es.key, k) && Below(es.rest, k)
  }

  lemma {:induction false} PutAppends(acc: Entries, k: Key, v: Value)
    requires Below(acc, k)
    ensures Put(acc, k, v) == Append(acc, Cons(k, v, Nil))
  {
    if acc.Cons? {
      KeyOrder(acc.key, k);
      PutAppends(acc.rest, k, v);
    }
  }

  lemma {:induction false} BelowAppend(acc: Entries, k: Key, v: Value, next: Key)
    requires Below(acc, k) && KeyLess(k, next)
    ensures Below(Append(acc, Cons(k, v, Nil)), next)
  {
    if acc.Cons? {
      KeyLessTransitive(acc.key, k, next);
      BelowAppend(acc.rest, k, v, next);
    }
  }

  lemma {:induction false} AppendAssociative(a: Entries, k: Key, v: Value, b: Entries)
    ensures Append(Append(a, Cons(k, v, Nil)), b) == Append(a, Cons(k, v, b))
  {
    if a.Cons? {
      AppendAssociative(a.rest, k, v, b);
    }
  }

  lemma {:induction false} DenoteCanon(p: Payload, style: Style, toDouble: Parser, at: int)
    requires WellFormed(p) && Keeps(p, style, toDouble) && Countable(p) && !style.dropNulls && AllSpace(style.gap)
    ensures ValidTree(Canon(p, style), toDouble)
    ensures Equal(Denote(Canon(p, style), at, toDouble).data, ReadBack(p, true))
    decreases Size(p), 0
  {
    CanonGood(p, style, toDouble);
    match p
    case Int(i) => IntegerGood(i, toDouble);
    case UInt(u) => IntegerGood(u, toDouble);
    case Str(s) => QuoteKept(s, style);
    case Arr(es) =>
      var l := DenoteItems(es, 0, Nil, style, toDouble, at + 1);
      EntriesEqualCount(l, ReadBackItems(es, 0, true));
    case Obj(es) =>
      var l := DenoteNames(es, Nil, style, toDouble, at + 1);
      EntriesEqualCount(l, ReadBackMembers(es, true));
    case _ =>
  }

  lemma {:induction false} DenoteItems(es: Entries, i: nat, acc: Entries, style: Style, toDouble: Parser, at: int)
    returns (l: Entries)
    requires WellFormedEntries(es, true) && KeepsEntries(es, style, toDouble)
    requires (i < Size32(es) ==> CountableEntries(es)) && !style.dropNulls && AllSpace(style.gap)
    requires Below(acc, Index(i))
    ensures ValidElements(CanonElements(es, i, style), toDouble)
    ensures DenoteElements(CanonElements(es, i, style), at, i, acc, toDouble) == Append(acc, l)
    ensures EntriesEqual(l, ReadBackItems(es, i, true))
    decreases EntriesSize(es), 2, if i < Size32(es) then Size32(es) - i else 0
  {
    hide Canon, Denote, Text, Put, ValidTree, Keeps, KeepsEntries, ReadBack, Equal, Item, Size32, ArraySize, WellFormed,
      WellFormedEntries, Countable, CountableEntries, ElementsInLimits, ElementsDepth, ItemsNesting, ElementCount;
    CanonElementsGood(es, i, style, toDouble);
    if i >= Size32(es) {
      AppendNil(acc);
      return Nil;
    }
    var t := Canon(Item(es, i), style);
    var v := Denote(t, at, toDouble);
    ItemSize(es, i);
    ItemCountable(es, i);
    ItemKeeps(es, i, style, toDouble);
    ItemWellFormed(es, i);
    DenoteCanon(Item(es, i), style, toDouble, at);
    PutAppends(acc, Index(i), v);
    BelowAppend(acc, Index(i), v, Index(i + 1));
    var rest := DenoteItems(es, i + 1, Append(acc, Cons(Index(i), v, Nil)), style, toDouble, at + |Text(t)| + 1);
    AppendAssociative(acc, Index(i), v, rest);
    l := Cons(Index(i), v, rest);
  }

  lemma {:induction false} AppendNil(acc: Entries)
    ensures Append(acc, Nil) == acc
  {
    if acc.Cons? {
      AppendNil(acc.rest);
    }
  }

  lemma {:induction false} DenoteNames(es: Entries, acc: Entries, style: Style, toDouble: Parser, at: int)
    returns (l: Entries)
    requires Sorted(es) && WellFormedEntries(es, false) && KeepsEntries(es, style, toDouble) && CountableEntries(es)
    requires !style.dropNulls && AllSpace(style.gap) && (es.Cons? ==> Below(acc, es.key))
    ensures ValidMembers(CanonMembers(es, style), toDouble)
    ensures DenoteMembers(CanonMembers(es, style), at, acc, toDouble) == Append(acc, l)
    ensures EntriesEqual(l, ReadBackMembers(es, true))
    decreases EntriesSize(es), 1
  {
    hide CanonMembers, Canon, Denote, DenoteMembers, Text, NameText, Strings.Quote, Put, ValidTree, ValidMembers, Keeps,
      ReadBack, Equal, Gap, AllSpace, WellFormed, Countable;
    CanonMembersGood(es, {}, style, toDouble);
    if es.Nil? {
      AppendNil(acc);
      NoNames(style, toDouble, at, acc);
      return Nil;
    }
    var ms := CanonMembers(es, style);
    var q := at + |NameText(ms)| + |style.gap|;
    var t := Canon(es.val.data, style);
    DenoteCanon(es.val.data, style, toDouble, q);
    var v := Denote(t, q, toDouble);
    DenoteFirst(es, acc, style, toDouble, at);
    PutAppends(acc, es.key, v);
    if es.rest.Cons? {
      BelowAppend(acc, es.key, v, es.rest.key);
    }
    var rest := DenoteNames(es.rest, Append(acc, Cons(es.key, v, Nil)), style, toDouble, q + |Text(t)| + 1);
    AppendAssociative(acc, es.key, v, rest);
    l := Cons(es.key, v, rest);
  }

  lemma NoNames(style: Style, toDouble: Parser, at: int, acc: Entries)
    ensures ValidMembers(CanonMembers(Nil, style), toDouble)
    ensures DenoteMembers(CanonMembers(Nil, style), at, acc, toDouble) == acc
  {}

  /** What the first member denotes. */
  lemma DenoteFirst(es: Entries, acc: Entries, style: Style, toDouble: Parser, at: int)
    requires es.Cons? && es.key.Name? && KeepsEntries(es, style, toDouble)
    requires ValidMembers(CanonMembers(es, style), toDouble)
    ensures CanonMembers(es, style).Member? && ValidMembers(CanonMembers(es.rest, style), toDouble)
    ensures ValidTree(Canon(es.val.data, style), toDouble)
    ensures var ms := CanonMembers(es, style);
      var q := at + |NameText(ms)| + |style.gap|;
      var t := Canon(es.val.data, style);
      DenoteMembers(ms, at, acc, toDouble)
        == DenoteMembers(CanonMembers(es.rest, style), q + |Text(t)| + 1, Put(acc, es.key, Denote(t, q, toDouble)),
                         toDouble)
  {
    hide Canon, Denote, DenoteMembers, Text, NameText, LabelName, ValidLabel, Strings.Quote, Put, ValidTree, Keeps, Gap,
      AllSpace;
    LabelKept(es.key.n, style);
    DenoteMember(CanonMembers(es, style), at, acc, toDouble);
  }

  lemma LabelKept(s: bytes, style: Style)
    requires KeepsString(s, style)
    ensures var l := Quoted(Strings.Quote(s, style.emitUTF8)); ValidLabel(l) && LabelName(l) == s
  {
    hide Strings.Quote, StringValue, ValidCharacters;
    QuoteKept(s, style);
  }

  lemma DenoteMember(ms: Members, at: int, acc: Entries, toDouble: Parser)
    requires ms.Member? && ValidMembers(ms, toDouble)
    ensures var q := at + |NameText(ms)| + |ms.before2|;
      DenoteMembers(ms, at, acc, toDouble)
        == DenoteMembers(ms.rest, q + |Text(ms.value)| + |ms.after| + 1,
                         Put(acc, Name(LabelName(ms.name)), Denote(ms.value, q, toDouble)), toDouble)
  {
    hide Denote, Text, NameText, ValidTree, Put, Gap, AllSpace, LabelName, ValidLabel;
  }

  // ----- Whitespace does not matter ------------------------------------------------------------

  /** The same data, whatever the spans. */
  predicate SameData(p: Payload, q: Payload) {
    match (p, q)
    case (Arr(x), Arr(y)) => SameEntries(x, y)
    case (Obj(x), Obj(y)) => SameEntries(x, y)
    case (Arr(_), _) => false
    case (Obj(_), _) => false
    case _ => p == q
  }

  predicate SameEntries(x: Entries, y: Entries) {
    match (x, y)
    case (Nil, Nil) => true
    case (Cons(j, v, xs), Cons(k, w, ys)) => j == k && SameData(v.data, w.data) && SameEntries(xs, ys)
    case _ => false
  }

  lemma {:induction false} PutSameEntries(x: Entries, y: Entries, k: Key, v: Value, w: Value)
    requires SameEntries(x, y) && SameData(v.data, w.data)
    ensures SameEntries(Put(x, k, v), Put(y, k, w))
  {
    if x.Cons? {
      PutSameEntries(x.rest, y.rest, k, v, w);
    }
  }

  lemma {:induction false} SameEqual(p: Payload, q: Payload, r: Payload)
    requires SameData(p, q) && Equal(q, r)
    ensures Equal(p, r)
  {
    match (p, q, r)
    case (Arr(x), Arr(y), Arr(z)) => SameEntriesEqual(x, y, z); EntriesEqualCount(x, z);
    case (Obj(x), Obj(y), Obj(z)) => SameEntriesEqual(x, y, z); EntriesEqualCount(x, z);
    case _ =>
  }

  lemma {:induction false} SameEntriesEqual(x: Entries, y: Entries, z: Entries)
    requires SameEntries(x, y) && EntriesEqual(y, z)
    ensures EntriesEqual(x, z)
  {
    if x.Cons? {
      SameEqual(x.val.data, y.val.data, z.val.data);
      SameEntriesEqual(x.rest, y.rest, z.rest);
    }
  }

  /** A tree is as readable as its bare tree. */
  lemma {:induction false} BareGood(t: Tree, toDouble: Parser)
    requires Spaced(t) && Good(Bare(t), toDouble, Depth(Bare(t)))
    ensures Good(t, toDouble, Depth(Bare(t)))
  {
    match t
    case TArray(_, es) => BareElementsGood(es, toDouble);
    case TObject(ws, ms) =>
      SpaceGap(ws);
      BareMembersGood(ms, {}, toDouble);
    case _ =>
  }

  lemma NotDropped(t: Tree)
    ensures Standard(Bare(t)) ==> !t.TDropped?
  {}

  lemma {:induction false} BareElementsGood(es: Elements, toDouble: Parser)
    requires SpacedElements(es)
    requires var b := BareElements(es);
      ValidElements(b, toDouble) && StandardElements(b) && ElementsInLimits(b, true, toDouble)
    ensures ElementCount(es) == ElementCount(BareElements(es))
    ensures ValidElements(es, toDouble) && StandardElements(es) && ElementsInLimits(es, true, toDouble)
    ensures ElementsDepth(es) == ElementsDepth(BareElements(es))
    decreases es
  {
    hide ValidTree, Standard, InLimits, Depth, Bare, Spaced, AllSpace, Gap;
    if es.Element? {
      SpaceGap(es.before);
      SpaceGap(es.after);
      NotDropped(es.value);
      BareGood(es.value, toDouble);
      BareElementsGood(es.rest, toDouble);
    }
  }

  lemma {:induction false} BareMembersGood(ms: Members, seen: set<bytes>, toDouble: Parser)
    requires SpacedMembers(ms)
    requires var b := BareMembers(ms);
      ValidMembers(b, toDouble) && StandardMembers(b) && MembersInLimits(b, seen, true, toDouble)
    ensures ValidMembers(ms, toDouble) && StandardMembers(ms) && MembersInLimits(ms, seen, true, toDouble)
    ensures MembersDepth(ms) == MembersDepth(BareMembers(ms))
    decreases ms
  {
    hide ValidTree, Standard, InLimits, Depth, Bare, Spaced, LabelName, ValidLabel, AllSpace, Gap;
    if ms.Member? {
      SpaceGap(ms.before);
      SpaceGap(ms.before2);
      SpaceGap(ms.after);
      NotDropped(ms.value);
      BareGood(ms.value, toDouble);
      BareMembersGood(ms.rest, seen + {LabelName(ms.name)}, toDouble);
    }
  }

  lemma {:induction false} BareSameData(t: Tree, toDouble: Parser, at: int, bareAt: int)
    requires ValidTree(t, toDouble) && ValidTree(Bare(t), toDouble)
    ensures SameData(Denote(t, at, toDouble).data, Denote(Bare(t), bareAt, toDouble).data)
  {
    match t
    case TArray(_, es) => BareSameElements(es, toDouble, at + 1, bareAt + 1, 0, Nil, Nil);
    case TObject(_, ms) => BareSameMembers(ms, toDouble, at + 1, bareAt + 1, Nil, Nil);
    case _ =>
  }

  lemma {:induction false} BareSameElements(es: Elements, toDouble: Parser, at: int, bareAt: int, i: nat,
                                            acc: Entries, bareAcc: Entries)
    requires ValidElements(es, toDouble) && ValidElements(BareElements(es), toDouble) && SameEntries(acc, bareAcc)
    ensures SameEntries(DenoteElements(es, at, i, acc, toDouble),
                        DenoteElements(BareElements(es), bareAt, i, bareAcc, toDouble))
    decreases es
  {
    hide Denote, Text, Put, ValidTree, Bare, Gap;
    if es.Element? {
      var p := at + |es.before|;
      BareSameData(es.value, toDouble, p, bareAt);
      var v, w := Denote(es.value, p, toDouble), Denote(Bare(es.value), bareAt, toDouble);
      PutSameEntries(acc, bareAcc, Index(i), v, w);
      BareSameElements(es.rest, toDouble, p + |Text(es.value)| + |es.after| + 1,
        bareAt + |Text(Bare(es.value))| + 1, i + 1, Put(acc, Index(i), v), Put(bareAcc, Index(i), w));
    }
  }

  lemma {:induction false} BareSameMembers(ms: Members, toDouble: Parser, at: int, bareAt: int, acc: Entries,
                                           bareAcc: Entries)
    requires ValidMembers(ms, toDouble) && ValidMembers(BareMembers(ms), toDouble) && SameEntries(acc, bareAcc)
    ensures SameEntries(DenoteMembers(ms, at, acc, toDouble), DenoteMembers(BareMembers(ms), bareAt, bareAcc, toDouble))
    decreases ms
  {
    hide Denote, Text, Put, ValidTree, LabelName, ValidLabel, Bare, NameText, Gap;
    if ms.Member? {
      var p, q := at + |NameText(ms)| + |ms.before2|, bareAt + |NameText(BareMembers(ms))|;
      var name := LabelName(ms.name);
      BareSameData(ms.value, toDouble, p, q);
      var v, w := Denote(ms.value, p, toDouble), Denote(Bare(ms.value), q, toDouble);
      PutSameEntries(acc, bareAcc, Name(name), v, w);
      BareSameMembers(ms.rest, toDouble, p + |Text(ms.value)| + |ms.after| + 1, q + |Text(Bare(ms.value))| + 1,
        Put(acc, Name(name), v), Put(bareAcc, Name(name), w));
    }
  }

  /** A tree is as readable as its bare tree, and denotes the same data. */
  lemma BareDenotes(t: Tree, toDouble: Parser, at: int, bareAt: int)
    requires Spaced(t) && Good(Bare(t), toDouble, Depth(Bare(t)))
    ensures Good(t, toDouble, Depth(Bare(t)))
    ensures SameData(Denote(t, at, toDouble).data, Denote(Bare(t), bareAt, toDouble).data)
  {
    hide Denote, Bare, Spaced, Depth, SameData, InLimits, ValidTree, Standard;
    BareGood(t, toDouble);
    BareSameData(t, toDouble, at, bareAt);
  }

  // ----- The theorem ---------------------------------------------------------------------------

  /** The limits within which a value is read. */
  predicate Accepts(f: Scanner.Features, p: Payload) {
    Nesting(p) <= f.stackLimit && Countable(p) && (f.strictRoot ==> p.Arr? || p.Obj?)
  }

  /** The parse gave back the value: with missing array slots null, unsigned integers that fit signed,
      and the arrays empty whose size wraps; so it is the value that was written exactly when no size
      wraps. */
  predicate CameBack(p: Payload, status: ReaderSpec.Status, errors: seq<ReaderSpec.ErrorInfo>, root: Value) {
    && status == ReaderSpec.Success && errors == [] && Equal(root.data, ReadBack(p, true))
    && (Equal(root.data, ReadBack(p, false)) <==> Unwrapped(p))
  }

  /** Any layout of a value's tree is readable, and denotes the value. */
  lemma LayoutDenotes(p: Payload, style: Style, toDouble: Parser, t: Tree, at: int)
    requires WellFormed(p) && Keeps(p, style, toDouble) && Countable(p) && !style.dropNulls && style.gap == []
    requires Spaced(t) && Bare(t) == Canon(p, style)
    ensures Good(t, toDouble, Nesting(p)) && Equal(Denote(t, at, toDouble).data, ReadBack(p, true))
  {
    hide Denote, ReadBack, Canon, WellFormed, Countable, Equal, SameData, Bare, Spaced, Keeps, Nesting, InLimits,
      ValidTree, Depth;
    CanonGood(p, style, toDouble);
    DenoteCanon(p, style, toDouble, 0);
    BareDenotes(t, toDouble, at, 0);
    SameEqual(Denote(t, at, toDouble).data, Denote(Bare(t), 0, toDouble).data, ReadBack(p, true));
  }

  /** Document round trip: however whitespace is laid out in the text of a value, and around it, the
      text parses without an error to the value that was written. */
  lemma DocumentRoundTrip(p: Payload, style: Style, f: Scanner.Features, lead: bytes, t: Tree, trail: bytes,
                          root: Value)
    requires WellFormed(p) && Keeps(p, style, f.toDouble) && !style.dropNulls && style.gap == []
    requires Spaced(t) && Bare(t) == Canon(p, style)
    requires Accepts(f, p) && AllSpace(lead) && AllSpace(trail)
    ensures var o := ReaderSpec.Parse(f, lead + Text(t) + trail, root); CameBack(p, o.status, o.errors, o.value)
  {
    hide ReaderSpec.Parse, Denote, Text, ReadBack, Canon, WellFormed, Unwrapped, Countable, Equal, Bare, Spaced, Keeps,
      Nesting, InLimits, ValidTree, NaNFree, AllSpace, Depth;
    LayoutDenotes(p, style, f.toDouble, t, |lead|);
    LimitsRelax(t, f.rejectDupKeys, f.toDouble);
    RootKind(t, p, style);
    Verdicts.ParseJsonText(f, lead, t, trail, root);
    KeepsNaNFree(p, style, f.toDouble);
    WrapShows(p);
    EqualSubstitutes(Denote(t, |lead|, f.toDouble).data, ReadBack(p, true), ReadBack(p, false));
  }

  lemma RootKind(t: Tree, p: Payload, style: Style)
    requires Bare(t) == Canon(p, style)
    ensures p.Arr? ==> t.TArray?
    ensures p.Obj? ==> t.TObject?
  {}

  lemma {:induction false} LimitsRelax(t: Tree, unique: bool, toDouble: Parser)
    requires ValidTree(t, toDouble) && InLimits(t, true, toDouble)
    ensures InLimits(t, unique, toDouble)
  {
    match t
    case TArray(_, es) => ElementsLimitsRelax(es, unique, toDouble);
    case TObject(_, ms) => MembersLimitsRelax(ms, {}, unique, toDouble);
    case _ =>
  }

  lemma {:induction false} ElementsLimitsRelax(es: Elements, unique: bool, toDouble: Parser)
    requires ValidElements(es, toDouble) && ElementsInLimits(es, true, toDouble)
    ensures ElementsInLimits(es, unique, toDouble)
  {
    if es.Element? {
      LimitsRelax(es.value, unique, toDouble);
      ElementsLimitsRelax(es.rest, unique, toDouble);
    }
  }

  lemma {:induction false} MembersLimitsRelax(ms: Members, seen: set<bytes>, unique: bool, toDouble: Parser)
    requires ValidMembers(ms, toDouble) && MembersInLimits(ms, seen, true, toDouble)
    ensures MembersInLimits(ms, seen, unique, toDouble)
    decreases ms
  {
    if ms.Member? {
      LimitsRelax(ms.value, unique, toDouble);
      MembersLimitsRelax(ms.rest, seen + {LabelName(ms.name)}, unique, toDouble);
    }
  }
}
