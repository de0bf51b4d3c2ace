/** StyledWriter cuts member names at a NUL; a value with such a name never comes back from its text. */
module Truncation {
  import opened Bytes
  import opened JsonValues
  import opened Grammar
  import opened Canonical
  import opened ValueOrder
  import opened StyledWriting
  import opened RoundTrip
  import Strings
  import Scanner
  import ReaderSpec
  import Verdicts

  // ----- No name in the text holds a NUL -------------------------------------------------------

  predicate TreeNulFree(t: Tree) {
    match t
    case TArray(_, es) => ElementsNulFree(es)
    case TObject(_, ms) => MembersNulFree(ms)
    case _ => true
  }

  predicate ElementsNulFree(es: Elements) {
    es.Element? ==> TreeNulFree(es.value) && ElementsNulFree(es.rest)
  }

  predicate MembersNulFree(ms: Members) {
    ms.Member? ==>
      && ValidLabel(ms.name) && NulFree(LabelName(ms.name)) && TreeNulFree(ms.value) && MembersNulFree(ms.rest)
  }

  /** The text written is JSON, with names that end before any NUL. */
  lemma {:induction false} CutTree(p: Payload, style: Style, toDouble: Parser)
    requires WellFormed(p) && Keeps(p, style, toDouble)
    requires !style.emitUTF8 && !style.dropNulls && AllSpace(style.gap)
    ensures var t := Canon(Truncate(p), style); ValidTree(t, toDouble) && Standard(t) && TreeNulFree(t)
    decreases Size(p), 0
  {
    hide IntegerNumber, Strings.Quote, ValidNumber, CanonElements, CanonMembers, ValidElements, ValidMembers;
    match p
    case Int(i) => IntegerGood(i, toDouble);
    case UInt(u) => IntegerGood(u, toDouble);
    case Str(s) => QuoteKept(s, style);
    case Arr(es) => CutElements(es, 0, style, toDouble);
    case Obj(es) => CutMembers(es, style, toDouble);
    case Real(d) => NumberLoose(style.showDouble(d).n);
    case _ =>
  }

  lemma {:induction false} CutElements(es: Entries, i: nat, style: Style, toDouble: Parser)
    requires WellFormedEntries(es, true) && KeepsEntries(es, style, toDouble)
    requires !style.emitUTF8 && !style.dropNulls && AllSpace(style.gap)
    ensures var t := CanonElements(TruncateEntries(es), i, style);
      ValidElements(t, toDouble) && StandardElements(t) && ElementsNulFree(t)
    decreases EntriesSize(es), 2, if i < Size32(es) then Size32(es) - i else 0
  {
    hide Canon, Item, Truncate, Size32, ValidTree, TreeNulFree, Keeps, WellFormed;
    TruncateSize(es);
    if i < Size32(es) {
      ItemSize(es, i);
      ItemKeeps(es, i, style, toDouble);
      ItemWellFormed(es, i);
      TruncateItem(es, i);
      CutTree(Item(es, i), style, toDouble);
      CutElements(es, i + 1, style, toDouble);
    }
  }

  lemma {:induction false} CutMembers(es: Entries, style: Style, toDouble: Parser)
    requires WellFormedEntries(es, false) && KeepsEntries(es, style, toDouble)
    requires !style.emitUTF8 && !style.dropNulls && AllSpace(style.gap)
    ensures var t := CanonMembers(TruncateEntries(es), style);
      ValidMembers(t, toDouble) && StandardMembers(t) && MembersNulFree(t)
    decreases EntriesSize(es), 1
  {
    hide Canon, ValidTree, TreeNulFree, Strings.Quote, StringValue, ValidCharacters;
    if es.Cons? {
      SpaceGap(style.gap);
      CutName(NameBytes(es.key), style);
      CutTree(es.val.data, style, toDouble);
      CutMembers(es.rest, style, toDouble);
    }
  }

  lemma CutName(s: bytes, style: Style)
    requires KeepsString(s, style) && !style.emitUTF8
    ensures var cs := Strings.Quote(UpToNul(s), style.emitUTF8); ValidCharacters(cs) && NulFree(StringValue(cs))
  {
    hide Strings.Quote, StringValue, ValidCharacters;
    UpToNulPrefix(s);
    if |UpToNul(s)| < |s| {
      Utf8Prefix(s, |UpToNul(s)|, 0);
    }
    QuoteKept(UpToNul(s), style);
  }

  // ----- In any layout -------------------------------------------------------------------------

  lemma {:induction false} LayoutNulFree(t: Tree, toDouble: Parser)
    requires Spaced(t) && ValidTree(Bare(t), toDouble) && Standard(Bare(t)) && TreeNulFree(Bare(t))
    ensures ValidTree(t, toDouble) && Standard(t) && TreeNulFree(t)
  {
    match t
    case TArray(_, es) => ElementsLayoutNulFree(es, toDouble);
    case TObject(ws, ms) => SpaceGap(ws); MembersLayoutNulFree(ms, toDouble);
    case _ =>
  }

  lemma {:induction false} ElementsLayoutNulFree(es: Elements, toDouble: Parser)
    requires SpacedElements(es) && ValidElements(BareElements(es), toDouble) && StandardElements(BareElements(es))
    requires ElementsNulFree(BareElements(es))
    ensures ValidElements(es, toDouble) && StandardElements(es) && ElementsNulFree(es)
  {
    if es.Element? {
      SpaceGap(es.before);
      SpaceGap(es.after);
      LayoutNulFree(es.value, toDouble);
      ElementsLayoutNulFree(es.rest, toDouble);
    }
  }

  lemma {:induction false} MembersLayoutNulFree(ms: Members, toDouble: Parser)
    requires SpacedMembers(ms) && ValidMembers(BareMembers(ms), toDouble) && StandardMembers(BareMembers(ms))
    requires MembersNulFree(BareMembers(ms))
    ensures ValidMembers(ms, toDouble) && StandardMembers(ms) && MembersNulFree(ms)
  {
    hide StringValue, ValidCharacters, AllSpace;
    if ms.Member? {
      SpaceGap(ms.before);
      SpaceGap(ms.before2);
      SpaceGap(ms.after);
      LayoutNulFree(ms.value, toDouble);
      MembersLayoutNulFree(ms.rest, toDouble);
    }
  }

  // ----- Nor in what it denotes ----------------------------------------------------------------

  lemma {:induction false} PutNulFree(es: Entries, k: Key, v: Value)
    requires EntriesNulFree(es) && NulFree(NameBytes(k)) && NamesNulFree(v.data)
    ensures EntriesNulFree(Put(es, k, v))
  {
    if es.Cons? {
      PutNulFree(es.rest, k, v);
    }
  }

  lemma {:induction false} DenotedNulFree(t: Tree, p: int, toDouble: Parser)
    requires ValidTree(t, toDouble) && TreeNulFree(t)
    ensures NamesNulFree(Denote(t, p, toDouble).data)
  {
    hide Text, Size32, ValidNumber, NumberValue, StringValue, Stored;
    match t
    case TNumber(n) => NumberHasNoNames(n, toDouble);
    case TArray(_, es) => ElementsDenotedNulFree(es, p + 1, 0, Nil, toDouble);
    case TObject(_, ms) => MembersDenotedNulFree(ms, p + 1, Nil, toDouble);
    case _ =>
  }

  lemma NumberHasNoNames(n: Number, toDouble: Parser)
    requires ValidTree(TNumber(n), toDouble)
    ensures NamesNulFree(NumberValue(n, toDouble))
  {}

  lemma {:induction false} ElementsDenotedNulFree(es: Elements, p: int, i: nat, acc: Entries, toDouble: Parser)
    requires ValidElements(es, toDouble) && ElementsNulFree(es) && EntriesNulFree(acc)
    ensures EntriesNulFree(DenoteElements(es, p, i, acc, toDouble))
    decreases es
  {
    hide Text, Denote, ValidTree, TreeNulFree, Put, NamesNulFree;
    if es.Element? {
      var v := Denote(es.value, p + |es.before|, toDouble);
      DenotedNulFree(es.value, p + |es.before|, toDouble);
      PutNulFree(acc, Index(i), v);
      ElementsDenotedNulFree(es.rest, p + |es.before| + |Text(es.value)| + |es.after| + 1, i + 1,
        Put(acc, Index(i), v), toDouble);
    }
  }

  lemma {:induction false} MembersDenotedNulFree(ms: Members, p: int, acc: Entries, toDouble: Parser)
    requires ValidMembers(ms, toDouble) && MembersNulFree(ms) && EntriesNulFree(acc)
    ensures EntriesNulFree(DenoteMembers(ms, p, acc, toDouble))
    decreases ms
  {
    hide Text, NameText, Denote, ValidTree, TreeNulFree, Put, NamesNulFree, StringValue, ValidCharacters;
    if ms.Member? {
      var q := p + |NameText(ms)| + |ms.before2|;
      var k, v := Name(LabelName(ms.name)), Denote(ms.value, q, toDouble);
      DenotedNulFree(ms.value, q, toDouble);
      PutNulFree(acc, k, v);
      MembersDenotedNulFree(ms.rest, q + |Text(ms.value)| + |ms.after| + 1, Put(acc, k, v), toDouble);
    }
  }

  // ----- While the value has one ---------------------------------------------------------------

  lemma {:induction false} EqualNulFree(a: Payload, b: Payload)
    requires Equal(a, b) && NamesNulFree(a)
    ensures NamesNulFree(b)
  {
    match (a, b)
    case (Arr(x), Arr(y)) =>
      EntriesEqualSize(x, y);
      if Size32(x) != 0 {
        EntriesEqualNulFree(x, y);
      }
    case (Obj(x), Obj(y)) => EntriesEqualNulFree(x, y);
    case _ =>
  }

  lemma {:induction false} EntriesEqualNulFree(x: Entries, y: Entries)
    requires EntriesEqual(x, y) && EntriesNulFree(x)
    ensures EntriesNulFree(y)
  {
    if x.Cons? {
      EqualNulFree(x.val.data, y.val.data);
      EntriesEqualNulFree(x.rest, y.rest);
    }
  }

  lemma {:induction false} EntriesEqualSize(x: Entries, y: Entries)
    requires EntriesEqual(x, y)
    ensures ArraySize(x) == ArraySize(y) && Size32(x) == Size32(y)
  {
    if x.Cons? {
      EntriesEqualSize(x.rest, y.rest);
    }
  }

  /** The names of the value are those of the value that should come back. */
  lemma {:induction false} ReadBackNulFree(p: Payload)
    requires WellFormed(p) && NamesNulFree(ReadBack(p, true))
    ensures NamesNulFree(p)
    decreases Size(p), 0
  {
    hide WellFormedEntries, ReadBackItems, ReadBackMembers, Sorted, EntriesNulFree, Size32;
    match p
    case Arr(es) =>
      SizeLimit(es);
      if Size32(es) != 0 {
        ItemsSize(es, 0);
        ReadBackItemsNulFree(es, 0);
        ItemsNulFree(es, 0);
      }
    case Obj(es) => ReadBackMembersNulFree(es);
    case _ =>
  }

  lemma {:induction false} ItemsSize(es: Entries, i: nat)
    requires i < Size32(es) == ArraySize(es) < INDEX_LIMIT
    ensures ArraySize(ReadBackItems(es, i, true)) == Size32(ReadBackItems(es, i, true)) == Size32(es)
    decreases Size32(es) - i
  {
    hide ReadBack, Item;
    if i + 1 < Size32(es) {
      ItemsSize(es, i + 1);
    } else {
      assert ReadBackItems(es, i + 1, true) == Nil;
    }
  }

  lemma {:induction false} ReadBackItemsNulFree(es: Entries, i: nat)
    requires WellFormed(Arr(es)) && EntriesNulFree(ReadBackItems(es, i, true)) && Size32(es) == ArraySize(es)
    ensures forall k :: i <= k < ArraySize(es) ==> NamesNulFree(Item(es, k))
    decreases EntriesSize(es), 2, if i < ArraySize(es) then ArraySize(es) - i else 0
  {
    hide WellFormedEntries, Sorted, Item, ReadBack, NamesNulFree, Size32, ArraySize;
    if i < ArraySize(es) {
      ItemSize(es, i);
      ItemWellFormed(es, i);
      ReadBackNulFree(Item(es, i));
      ReadBackItemsNulFree(es, i + 1);
    }
  }

  lemma {:induction false} ItemsNulFree(es: Entries, n: nat)
    requires Sorted(es) && WellFormedEntries(es, true) && n <= Count(es)
    requires forall i :: 0 <= i < ArraySize(es) ==> NamesNulFree(Item(es, i))
    ensures EntriesNulFree(Drop(es, n))
    decreases Count(es) - n
  {
    hide NamesNulFree, Sorted, WellFormedEntries;
    DropAll(es);
    if n < Count(es) {
      DropStep(es, n);
      FindDrop(es, n);
      DropBelowSize(es, n);
      assert NamesNulFree(Item(es, Drop(es, n).key.i));
      ItemsNulFree(es, n + 1);
    }
  }

  lemma {:induction false} ReadBackMembersNulFree(es: Entries)
    requires WellFormedEntries(es, false) && EntriesNulFree(ReadBackMembers(es, true))
    ensures EntriesNulFree(es)
    decreases EntriesSize(es), 1
  {
    hide NamesNulFree, ReadBack, WellFormed;
    if es.Cons? {
      ReadBackNulFree(es.val.data);
      ReadBackMembersNulFree(es.rest);
    }
  }

  // ----- The theorem ---------------------------------------------------------------------------

  /** Whatever the limits and features of the reader, and however the text is laid out: a value with a NUL in
      a name that is written does not come back. */
  lemma CutLost(p: Payload, style: Style, f: Scanner.Features, lead: bytes, t: Tree, trail: bytes, root: Value)
    requires WellFormed(p) && Keeps(p, style, f.toDouble) && !NamesNulFree(p)
    requires !style.emitUTF8 && !style.dropNulls && style.gap == []
    requires Spaced(t) && Bare(t) == Canon(Truncate(p), style) && AllSpace(lead) && AllSpace(trail)
    ensures var o := ReaderSpec.Parse(f, lead + Text(t) + trail, root); !CameBack(p, o.status, o.errors, o.value)
  {
    hide ReaderSpec.Parse, Denote, Text, ReadBack, Canon, Truncate, NamesNulFree, WellFormed, Unwrapped,
      Verdicts.Verdict;
    CutTree(p, style, f.toDouble);
    LayoutNulFree(t, f.toDouble);
    Verdicts.ParseVerdict(f, lead, t, trail, root);
    DenotedNulFree(t, |lead|, f.toDouble);
    if Equal(Denote(t, |lead|, f.toDouble).data, ReadBack(p, true)) {
      EqualNulFree(Denote(t, |lead|, f.toDouble).data, ReadBack(p, true));
      ReadBackNulFree(p);
    }
  }
}
