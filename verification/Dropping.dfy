/** Writing without nulls, and reading the text back with nulls in their places. */
module Dropping {
  import opened Bytes
  import opened JsonValues
  import opened Numbers
  import opened Grammar
  import opened Canonical
  import opened ValueOrder
  import opened RoundTrip
  import opened Completeness
  import opened Verdicts
  import Extensions
  import opened Layouts
  import Scanner
  import ReaderSpec

  // ----- What dropping loses -------------------------------------------------------------------

  /** An array of a single null: without it, nothing is left between its brackets. */
  predicate Lone(p: Payload) { p.Arr? && Size32(p.items) == 1 && Item(p.items, 0).Null? }

  /** No such array is written. */
  predicate NoLone(p: Payload) {
    match p
    case Arr(es) => Size32(es) == 0 || (!Lone(p) && NoLoneEntries(es))
    case Obj(es) => NoLoneEntries(es)
    case _ => true
  }

  predicate NoLoneEntries(es: Entries) {
    es.Cons? ==> NoLone(es.val.data) && NoLoneEntries(es.rest)
  }

  /** The value with those arrays empty. */
  function Emptied(p: Payload): Payload {
    match p
    case Arr(es) => Arr(if Lone(p) then Nil else EmptiedEntries(es))
    case Obj(es) => Obj(EmptiedEntries(es))
    case _ => p
  }

  function EmptiedEntries(es: Entries): Entries {
    match es
    case Nil => Nil
    case Cons(key, val, rest) => Cons(key, val.(data := Emptied(val.data)), EmptiedEntries(rest))
  }

  lemma {:induction false} EmptiedItem(es: Entries, i: nat)
    ensures Item(EmptiedEntries(es), i) == Emptied(Item(es, i))
  {
    if es.Cons? {
      EmptiedItem(es.rest, i);
    }
  }

  lemma {:induction false} EmptiedKeys(es: Entries, k: Key)
    ensures ArraySize(EmptiedEntries(es)) == ArraySize(es) && Size32(EmptiedEntries(es)) == Size32(es)
    ensures Above(k, EmptiedEntries(es)) <==> Above(k, es)
    ensures Sorted(EmptiedEntries(es)) <==> Sorted(es)
  {
    if es.Cons? {
      EmptiedKeys(es.rest, k);
      EmptiedKeys(es.rest, es.key);
    }
  }

  // ----- Emptied values are as writable as values ----------------------------------------------

  lemma {:induction false} EmptiedKept(p: Payload, style: Style, toDouble: Parser)
    requires WellFormed(p) && Keeps(p, style, toDouble)
    ensures WellFormed(Emptied(p)) && Keeps(Emptied(p), style.(dropNulls := false), toDouble)
  {
    match p
    case Arr(es) =>
      EmptiedKeys(es, Index(0));
      EmptiedEntriesKept(es, true, style, toDouble);
    case Obj(es) =>
      EmptiedKeys(es, Index(0));
      EmptiedEntriesKept(es, false, style, toDouble);
    case _ =>
  }

  lemma {:induction false} EmptiedEntriesKept(es: Entries, indices: bool, style: Style, toDouble: Parser)
    requires WellFormedEntries(es, indices) && KeepsEntries(es, style, toDouble)
    ensures WellFormedEntries(EmptiedEntries(es), indices)
    ensures KeepsEntries(EmptiedEntries(es), style.(dropNulls := false), toDouble)
  {
    if es.Cons? {
      EmptiedKept(es.val.data, style, toDouble);
      EmptiedEntriesKept(es.rest, indices, style, toDouble);
    }
  }

  lemma {:induction false} EmptiedCountable(p: Payload)
    requires Countable(p)
    ensures Countable(Emptied(p))
  {
    match p
    case Arr(es) =>
      EmptiedKeys(es, Index(0));
      if Size32(es) != 0 {
        EmptiedEntriesCountable(es);
      }
    case Obj(es) => EmptiedEntriesCountable(es);
    case _ =>
  }

  lemma {:induction false} EmptiedEntriesCountable(es: Entries)
    requires CountableEntries(es)
    ensures CountableEntries(EmptiedEntries(es))
  {
    if es.Cons? {
      EmptiedCountable(es.val.data);
      EmptiedEntriesCountable(es.rest);
    }
  }

  lemma {:induction false} EmptiedNesting(p: Payload)
    ensures 1 <= Nesting(Emptied(p)) <= Nesting(p)
    decreases Size(p), 0
  {
    match p
    case Arr(es) =>
      EmptiedKeys(es, Index(0));
      EmptiedItemsNesting(es, 0);
    case Obj(es) => EmptiedMembersNesting(es);
    case _ =>
  }

  lemma {:induction false} EmptiedItemsNesting(es: Entries, i: nat)
    ensures ItemsNesting(EmptiedEntries(es), i) <= ItemsNesting(es, i)
    decreases EntriesSize(es), 2, if i < Size32(es) then Size32(es) - i else 0
  {
    hide Item, Size32, Emptied;
    EmptiedKeys(es, Index(0));
    if i < Size32(es) {
      ItemSize(es, i);
      EmptiedItem(es, i);
      EmptiedNesting(Item(es, i));
      EmptiedItemsNesting(es, i + 1);
    }
  }

  lemma {:induction false} EmptiedMembersNesting(es: Entries)
    ensures MembersNesting(EmptiedEntries(es)) <= MembersNesting(es)
    decreases EntriesSize(es), 1
  {
    if es.Cons? {
      EmptiedNesting(es.val.data);
      EmptiedMembersNesting(es.rest);
    }
  }

  // ----- Trees ---------------------------------------------------------------------------------

  /** Nothing but a dropped null between the brackets. */
  predicate Alone(es: Elements) { es.Element? && es.value.TDropped? && es.rest.NoElement? }

  /** The tree with its nulls written, and the arrays empty in which one stood alone. */
  function Filled(t: Tree): Tree {
    match t
    case TDropped => TNull
    case TArray(ws, es) => TArray(ws, if Alone(es) then NoElement else FilledElements(es))
    case TObject(ws, ms) => TObject(ws, FilledMembers(ms))
    case _ => t
  }

  function FilledElements(es: Elements): Elements {
    match es
    case Element(before, value, after, rest) => Element(before, Filled(value), after, FilledElements(rest))
    case _ => es
  }

  function FilledMembers(ms: Members): Members {
    match ms
    case Member(_, _, _, _, value, _, rest) => ms.(value := Filled(value), rest := FilledMembers(rest))
    case _ => ms
  }

  /** The tree of a value without nulls, with its nulls written, is the tree of the emptied value. */
  lemma {:induction false} FilledCanon(p: Payload, style: Style)
    requires style.dropNulls
    ensures Filled(Canon(p, style)) == Canon(Emptied(p), style.(dropNulls := false))
    decreases Size(p), 0
  {
    match p
    case Arr(es) =>
      CanonAlone(es, style);
      FilledCanonElements(es, 0, style);
      assert CanonElements(Nil, 0, style.(dropNulls := false)) == NoElement;
    case Obj(es) => FilledCanonMembers(es, style);
    case _ =>
  }

  lemma CanonAlone(es: Entries, style: Style)
    requires style.dropNulls
    ensures Alone(CanonElements(es, 0, style)) <==> Lone(Arr(es))
  {
    hide Size32, Item;
    if 0 < Size32(es) {
      assert CanonElements(es, 1, style).NoElement? <==> Size32(es) <= 1;
    }
  }

  lemma {:induction false} FilledCanonElements(es: Entries, i: nat, style: Style)
    requires style.dropNulls
    ensures FilledElements(CanonElements(es, i, style))
      == CanonElements(EmptiedEntries(es), i, style.(dropNulls := false))
    decreases EntriesSize(es), 2, if i < Size32(es) then Size32(es) - i else 0
  {
    hide Item, Size32, Emptied, Filled, Canon;
    EmptiedKeys(es, Index(0));
    if i < Size32(es) {
      ItemSize(es, i);
      EmptiedItem(es, i);
      FilledCanon(Item(es, i), style);
      FilledCanonElements(es, i + 1, style);
    }
  }

  lemma {:induction false} FilledCanonMembers(es: Entries, style: Style)
    requires style.dropNulls
    ensures FilledMembers(CanonMembers(es, style)) == CanonMembers(EmptiedEntries(es), style.(dropNulls := false))
    decreases EntriesSize(es), 1
  {
    hide Emptied, Filled, Canon;
    if es.Cons? {
      FilledCanon(es.val.data, style);
      FilledCanonMembers(es.rest, style);
    }
  }

  // ----- Layouts -------------------------------------------------------------------------------

  /** The same text with the whitespace behind a dropped null before it, and arrays of nothing but a dropped null
      empty. */
  function Settled(t: Tree): Tree {
    match t
    case TArray(ws, es) =>
      if Alone(es) then TArray(es.before + es.after, NoElement) else TArray(ws, SettledElements(es))
    case TObject(ws, ms) => TObject(ws, SettledMembers(ms))
    case _ => t
  }

  function SettledElements(es: Elements): Elements {
    match es
    case Element(before, value, after, rest) =>
      if value.TDropped? then Element(before + after, value, [], SettledElements(rest))
      else Element(before, Settled(value), after, SettledElements(rest))
    case _ => es
  }

  function SettledMembers(ms: Members): Members {
    match ms
    case Member(_, _, _, before2, value, after, rest) =>
      if value.TDropped? then ms.(before2 := before2 + after, after := [], rest := SettledMembers(rest))
      else ms.(value := Settled(value), rest := SettledMembers(rest))
    case _ => ms
  }

  lemma {:induction false} SettledText(t: Tree)
    ensures Text(Settled(t)) == Text(t)
  {
    match t
    case TArray(ws, es) =>
      if Alone(es) {
        AloneText(es);
      } else {
        SettledElementsText(es);
      }
    case TObject(ws, ms) => SettledMembersText(ms);
    case _ =>
  }

  lemma AloneText(es: Elements)
    requires Alone(es)
    ensures ElementsText(es) == es.before + es.after + "]"
  {
    assert [] + (es.after + "]") == es.after + "]";
    assert es.before + (es.after + "]") == es.before + es.after + "]";
  }

  lemma {:induction false} SettledElementsText(es: Elements)
    ensures ElementsText(SettledElements(es)) == ElementsText(es)
    ensures SettledElements(es).NoElement? <==> es.NoElement?
    decreases es
  {
    hide Text, Settled;
    if es.Element? {
      SettledElementsText(es.rest);
      SettledText(es.value);
      Shifted(es.before, es.after, if es.rest.NoElement? then "]" else "," + ElementsText(es.rest));
      DroppedText();
    }
  }

  lemma DroppedText()
    ensures Text(TDropped) == []
  {}

  lemma Shifted(a: bytes, b: bytes, c: bytes)
    ensures (a + b) + ([] + ([] + c)) == a + ([] + (b + c))
  {
    assert [] + c == c && [] + (b + c) == b + c;
  }

  lemma {:induction false} SettledMembersText(ms: Members)
    ensures MembersText(SettledMembers(ms)) == MembersText(ms)
    ensures SettledMembers(ms).NoMember? <==> ms.NoMember?
    decreases ms
  {
    hide Text, Settled, LabelText;
    if ms.Member? {
      SettledMembersText(ms.rest);
      SettledText(ms.value);
      Shifted(ms.before2, ms.after, if ms.rest.NoMember? then "}" else "," + MembersText(ms.rest));
      DroppedText();
      assert NameText(SettledMembers(ms)) == NameText(ms);
    }
  }

  /** A settled layout is a tree that the reader may be given, and stands for the filled one. */
  ghost predicate Stands(f: Scanner.Features, u: Tree, b: Tree) {
    && ValidTree(u, f.toDouble) && InLimits(u, true, f.toDouble) && Depth(u) == Depth(b) && Permits(f, u)
    && Suits(true, u) && Extensions.StandardNumbers(u) && Extensions.Stripped(u, f.toDouble) == b
  }

  ghost predicate Sound(f: Scanner.Features, b: Tree) {
    ValidTree(b, f.toDouble) && Standard(b) && InLimits(b, true, f.toDouble)
  }

  lemma {:induction false} SettledGood(f: Scanner.Features, t: Tree)
    requires Spaced(t) && f.allowDroppedNullPlaceholders && Sound(f, Filled(Bare(t)))
    ensures Stands(f, Settled(t), Filled(Bare(t)))
    decreases t, 1
  {
    hide Sound, Stands, Settled, Filled, Bare, Spaced;
    match t
    case TArray(_, _) => SettledArrayGood(f, t);
    case TObject(_, _) => SettledObjectGood(f, t);
    case _ => SettledLeafGood(f, t);
  }

  lemma SettledLeafGood(f: Scanner.Features, t: Tree)
    requires !t.TArray? && !t.TObject? && f.allowDroppedNullPlaceholders && Sound(f, Filled(Bare(t)))
    ensures Stands(f, Settled(t), Filled(Bare(t)))
  {
    hide ValidNumber, LooseNumber, IsInteger;
  }

  lemma {:induction false} SettledArrayGood(f: Scanner.Features, t: Tree)
    requires t.TArray? && Spaced(t) && f.allowDroppedNullPlaceholders && Sound(f, Filled(Bare(t)))
    ensures Stands(f, Settled(t), Filled(Bare(t)))
    decreases t, 0
  {
    hide Gap, AllSpace, StandardElements, StandardMembers, ElementsInLimits, MembersInLimits, MembersDepth,
      ValidElements, SpacedElements;
    var es := t.elements;
    BareAlone(es);
    if Alone(es) {
      SettledAloneGood(f, t);
    } else {
      SettledElementsGood(f, es);
    }
  }

  lemma SettledAloneGood(f: Scanner.Features, t: Tree)
    requires t.TArray? && Spaced(t) && Alone(t.elements)
    ensures Stands(f, Settled(t), Filled(Bare(t)))
  {
    hide Gap, AllSpace;
    BareAlone(t.elements);
    TwoSpaces(t.elements.before, t.elements.after);
    EmptyStands(f, t.elements.before + t.elements.after);
    assert Bare(t) == TArray([], BareElements(t.elements));
  }

  lemma EmptyStands(f: Scanner.Features, ws: bytes)
    requires AllSpace(ws)
    ensures Stands(f, TArray(ws, NoElement), TArray([], NoElement))
  {}

  lemma {:induction false} SettledObjectGood(f: Scanner.Features, t: Tree)
    requires t.TObject? && Spaced(t) && f.allowDroppedNullPlaceholders && Sound(f, Filled(Bare(t)))
    ensures Stands(f, Settled(t), Filled(Bare(t)))
    decreases t, 0
  {
    hide Gap, AllSpace, StandardMembers, MembersInLimits, MembersDepth, ValidMembers, SpacedMembers, FilledMembers,
      BareMembers, SettledMembers, Stands;
    SpaceGap(t.ws);
    SettledMembersGood(f, [], {}, t.members);
    ObjectStands(f, t.ws, SettledMembers(t.members), FilledMembers(BareMembers(t.members)));
  }

  lemma ObjectStands(f: Scanner.Features, ws: bytes, u: Members, b: Members)
    requires Gap(ws) && ValidMembers(u, f.toDouble) && MembersInLimits(u, {}, true, f.toDouble)
    requires MembersDepth(u) == MembersDepth(b) && PermitsMembers(f, [], u) && SuitsMembers(true, u)
    requires Extensions.StandardNumbersMembers(u) && Extensions.StrippedMembers(u, f.toDouble) == b && !u.FinalComma?
    ensures Stands(f, TObject(ws, u), TObject([], b))
  {
    hide Gap, AllSpace, MembersInLimits, MembersDepth, ValidMembers, PermitsMembers, SuitsMembers,
      Extensions.StandardNumbersMembers, Extensions.StrippedMembers;
  }

  lemma BareAlone(es: Elements)
    ensures Alone(BareElements(es)) <==> Alone(es)
  {}

  lemma TwoSpaces(a: bytes, b: bytes)
    requires AllSpace(a) && AllSpace(b)
    ensures AllSpace(a + b) && Gap(a + b)
  {
    SpaceGap(a + b);
  }

  lemma SettledDropped(t: Tree)
    ensures Settled(t).TDropped? <==> t.TDropped?
    ensures Filled(Bare(t)).TNull? <== t.TDropped?
  {}

  lemma {:induction false} SettledElementsGood(f: Scanner.Features, es: Elements)
    requires SpacedElements(es) && f.allowDroppedNullPlaceholders
    requires var b := FilledElements(BareElements(es));
      ValidElements(b, f.toDouble) && StandardElements(b) && ElementsInLimits(b, true, f.toDouble)
    ensures var u, b := SettledElements(es), FilledElements(BareElements(es));
      && ValidElements(u, f.toDouble) && ElementsInLimits(u, true, f.toDouble) && ElementsDepth(u) == ElementsDepth(b)
      && PermitsElements(f, u) && SuitsElements(true, u) && Extensions.StandardNumbersElements(u)
      && Extensions.StrippedElements(u, f.toDouble) == b && ElementCount(u) == ElementCount(b)
      && !u.LastComma? && (LoneDrop(u) ==> Alone(es))
    decreases es
  {
    hide ValidTree, Standard, InLimits, Depth, Bare, Spaced, Gap, AllSpace, Permits, Suits, Settled, Filled,
      Extensions.Stripped, Extensions.StandardNumbers;
    if es.Element? {
      SpaceGap(es.before);
      SpaceGap(es.after);
      SpaceGap([]);
      TwoSpaces(es.before, es.after);
      SettledGood(f, es.value);
      SettledDropped(es.value);
      SettledElementsGood(f, es.rest);
    }
  }

  lemma {:induction false} SettledMembersGood(f: Scanner.Features, name: bytes, seen: set<bytes>, ms: Members)
    requires SpacedMembers(ms) && f.allowDroppedNullPlaceholders
    requires var b := FilledMembers(BareMembers(ms));
      ValidMembers(b, f.toDouble) && StandardMembers(b) && MembersInLimits(b, seen, true, f.toDouble)
    ensures var u, b := SettledMembers(ms), FilledMembers(BareMembers(ms));
      && ValidMembers(u, f.toDouble) && MembersInLimits(u, seen, true, f.toDouble)
      && MembersDepth(u) == MembersDepth(b) && PermitsMembers(f, name, u) && SuitsMembers(true, u)
      && Extensions.StandardNumbersMembers(u) && Extensions.StrippedMembers(u, f.toDouble) == b && !u.FinalComma?
    decreases ms
  {
    hide ValidTree, Standard, InLimits, Depth, Bare, Spaced, Gap, AllSpace, Permits, Suits, Settled, Filled, LabelName,
      ValidLabel, Extensions.Stripped, Extensions.StandardNumbers;
    if ms.Member? {
      SpaceGap(ms.before);
      SpaceGap(ms.before2);
      SpaceGap(ms.after);
      SpaceGap([]);
      TwoSpaces(ms.before2, ms.after);
      SettledGood(f, ms.value);
      SettledDropped(ms.value);
      SettledMembersGood(f, LabelName(ms.name), seen + {LabelName(ms.name)}, ms.rest);
    }
  }

  // ----- Reading back --------------------------------------------------------------------------

  /** Emptying shows exactly where a null stands alone in an array that is written. */
  lemma {:induction false} EmptiedShows(p: Payload)
    requires WellFormed(p) && NaNFree(p)
    ensures Equal(ReadBack(Emptied(p), true), ReadBack(p, true)) <==> NoLone(p)
    decreases Size(p), 0
  {
    hide WellFormedEntries, EntriesNaNFree, NoLoneEntries, ReadBackItems, ReadBackMembers, Sorted;
    match p
    case Arr(es) => EmptiedShowsArray(es);
    case Obj(es) =>
      ReadBackMembersCount(es, true);
      ReadBackMembersCount(EmptiedEntries(es), true);
      EmptiedCount(es);
      EmptiedShowsMembers(es);
    case _ => EqualSelf(p);
  }

  lemma EqualSelf(p: Payload)
    requires !p.Arr? && !p.Obj? && NaNFree(p)
    ensures Equal(ReadBack(p, true), ReadBack(p, true))
  {}

  lemma {:induction false} EmptiedCount(es: Entries)
    ensures Count(EmptiedEntries(es)) == Count(es)
  {
    if es.Cons? {
      EmptiedCount(es.rest);
    }
  }

  lemma {:induction false} EmptiedShowsArray(es: Entries)
    requires WellFormed(Arr(es)) && EntriesNaNFree(es)
    ensures Equal(ReadBack(Emptied(Arr(es)), true), ReadBack(Arr(es), true)) <==> NoLone(Arr(es))
    decreases EntriesSize(es), 3
  {
    hide WellFormedEntries, EntriesNaNFree, ReadBackItems, Sorted, Item, NoLoneEntries;
    EmptiedKeys(es, Index(0));
    SizeLimit(es);
    ReadBackItemsCount(es, 0, true);
    ReadBackItemsCount(EmptiedEntries(es), 0, true);
    ReadBackItemsCount(Nil, 0, true);
    if Size32(es) != 0 && !Lone(Arr(es)) {
      EmptiedShowsItems(es, 0);
      if NoLoneEntries(es) {
        forall i | 0 <= i < ArraySize(es) ensures NoLone(Item(es, i)) {
          ItemNoLone(es, i);
        }
      } else if forall i :: 0 <= i < ArraySize(es) ==> NoLone(Item(es, i)) {
        ItemsNoLone(es, 0);
      }
    }
  }

  lemma {:induction false} FindNoLone(es: Entries, k: Key)
    requires NoLoneEntries(es) && Find(es, k).Some?
    ensures NoLone(Find(es, k).value.data)
  {
    if es.key != k {
      FindNoLone(es.rest, k);
    }
  }

  lemma ItemNoLone(es: Entries, i: nat)
    requires NoLoneEntries(es)
    ensures NoLone(Item(es, i))
  {
    if Find(es, Index(i)).Some? {
      FindNoLone(es, Index(i));
    }
  }

  lemma {:induction false} ItemsNoLone(es: Entries, n: nat)
    requires Sorted(es) && WellFormedEntries(es, true) && n <= Count(es)
    requires forall i :: 0 <= i < ArraySize(es) ==> NoLone(Item(es, i))
    ensures NoLoneEntries(Drop(es, n))
    decreases Count(es) - n
  {
    hide NoLone, Sorted, WellFormedEntries;
    DropAll(es);
    if n < Count(es) {
      DropStep(es, n);
      FindDrop(es, n);
      DropBelowSize(es, n);
      assert NoLone(Item(es, Drop(es, n).key.i));
      ItemsNoLone(es, n + 1);
    }
  }

  lemma {:induction false} EmptiedShowsItems(es: Entries, i: nat)
    requires WellFormed(Arr(es)) && EntriesNaNFree(es) && Size32(es) == ArraySize(es)
    ensures EntriesEqual(ReadBackItems(EmptiedEntries(es), i, true), ReadBackItems(es, i, true))
      <==> forall k :: i <= k < ArraySize(es) ==> NoLone(Item(es, k))
    decreases EntriesSize(es), 2, if i < ArraySize(es) then ArraySize(es) - i else 0
  {
    hide WellFormedEntries, EntriesNaNFree, Sorted, Item, ReadBack, Equal, NoLone, Size32, ArraySize, Emptied;
    EmptiedKeys(es, Index(0));
    if i < ArraySize(es) {
      ItemSize(es, i);
      ItemWellFormed(es, i);
      ItemNaNFree(es, i);
      EmptiedItem(es, i);
      EmptiedShows(Item(es, i));
      EmptiedShowsItems(es, i + 1);
    }
  }

  lemma {:induction false} EmptiedShowsMembers(es: Entries)
    requires WellFormedEntries(es, false) && EntriesNaNFree(es)
    ensures EntriesEqual(ReadBackMembers(EmptiedEntries(es), true), ReadBackMembers(es, true)) <==> NoLoneEntries(es)
    decreases EntriesSize(es), 1
  {
    if es.Cons? {
      EmptiedShows(es.val.data);
      EmptiedShowsMembers(es.rest);
    }
  }

  // ----- The theorem ---------------------------------------------------------------------------

  /** The parse gave back the value with its nulls, but for those that stood alone in an array. */
  predicate CameBackFilled(p: Payload, status: ReaderSpec.Status, errors: seq<ReaderSpec.ErrorInfo>, root: Value) {
    && status == ReaderSpec.Success && errors == [] && Equal(root.data, ReadBack(Emptied(p), true))
    && (Equal(root.data, ReadBack(p, true)) <==> NoLone(p))
  }

  lemma SettledRoot(p: Payload, style: Style, t: Tree)
    requires Bare(t) == Canon(p, style) && !p.Null?
    ensures !Settled(t).TDropped? && (p.Arr? ==> Settled(t).TArray?) && (p.Obj? ==> Settled(t).TObject?)
  {}

  lemma SettledParse(f: Scanner.Features, lead: bytes, u: Tree, trail: bytes, root: Value)
    requires ValidTree(u, f.toDouble) && InLimits(u, true, f.toDouble) && Depth(u) <= f.stackLimit && Permits(f, u)
    requires Suits(true, u) && f.allowDroppedNullPlaceholders && !u.TDropped?
    requires AllSpace(lead) && AllSpace(trail) && (f.strictRoot ==> u.TArray? || u.TObject?)
    ensures Document(f, lead, u, trail, [])
    ensures var o := ReaderSpec.Parse(f, lead + Text(u) + trail + [], root);
      o.status == ReaderSpec.Success && o.errors == []
  {
    hide ReaderSpec.Parse, Denote, Text, InLimits, ValidTree, AllSpace, Depth, Permits, Suits, Gap, TreeStatus;
    SpaceGap(lead);
    SpaceGap(trail);
    LimitsRelax(u, f.rejectDupKeys, f.toDouble);
    StatusAcceptable(f, 1, lead, u);
    ParseDocument(f, lead, u, trail, [], root);
  }

  /** A value written without its nulls, in any layout, is read with its nulls in their places where dropped
      nulls are allowed, but for arrays of a single null, which are read as empty: so it comes back exactly when it
      has none of those. */
  lemma DroppedRoundTrip(p: Payload, style: Style, f: Scanner.Features, lead: bytes, t: Tree, trail: bytes, root: Value)
    requires WellFormed(p) && Keeps(p, style, f.toDouble) && style.dropNulls && style.gap == [] && !p.Null?
    requires Spaced(t) && Bare(t) == Canon(p, style) && f.allowDroppedNullPlaceholders
    requires Accepts(f, p) && AllSpace(lead) && AllSpace(trail)
    ensures var o := ReaderSpec.Parse(f, lead + Text(t) + trail, root); CameBackFilled(p, o.status, o.errors, o.value)
  {
    hide ReaderSpec.Parse, Denote, Text, ReadBack, Canon, WellFormed, Countable, Equal, Bare, Spaced, Keeps, Nesting,
      InLimits, ValidTree, NaNFree, AllSpace, Depth, Emptied, NoLone, Filled, Settled, SameData, Permits, Suits,
      Extensions.Stripped, Extensions.StandardNumbers;
    var plain, q, u := style.(dropNulls := false), Emptied(p), Settled(t);
    var b := Canon(q, plain);
    EmptiedKept(p, style, f.toDouble);
    EmptiedCountable(p);
    EmptiedNesting(p);
    FilledCanon(p, style);
    EmptySpace();
    CanonGood(q, plain, f.toDouble);
    SettledGood(f, t);
    SettledText(t);
    SettledRoot(p, style, t);
    SettledParse(f, lead, u, trail, root);
    Extensions.WithoutExtensions(f, lead, u, trail, [], root, root);
    assert lead + Text(u) + trail + [] == lead + Text(t) + trail;
    CanonBare(q, plain);
    EmptiedKind(p);
    DocumentRoundTrip(q, plain, f, [], b, [], root);
    assert [] + Text(b) + [] == Text(b);
    var o, o' := ReaderSpec.Parse(f, lead + Text(t) + trail, root), ReaderSpec.Parse(f, Text(b), root);
    SameEqual(o.value.data, o'.value.data, ReadBack(q, true));
    KeepsNaNFree(p, style, f.toDouble);
    EmptiedShows(p);
    EqualSubstitutes(o.value.data, ReadBack(q, true), ReadBack(p, true));
  }

  lemma EmptiedKind(p: Payload)
    ensures (Emptied(p).Arr? <==> p.Arr?) && (Emptied(p).Obj? <==> p.Obj?)
  {}
}
