/** StyledWriter: indented text.  Short arrays go on one line, after their elements' texts were collected
    in a cache to measure them. */
module StyledWriting {
  import opened Bytes
  import opened JsonValues
  import opened Grammar
  import opened Canonical
  import opened Layouts
  import opened Numbers
  import Strings
  import Tidiness
  import Utf8
  import ValueOrder

  // ----- Names through c_str() -----------------------------------------------------------------

  /** The value with its member names cut at their first NUL. */
  function Truncate(p: Payload): Payload {
    match p
    case Arr(es) => Arr(TruncateEntries(es))
    case Obj(es) => Obj(TruncateEntries(es))
    case _ => p
  }

  function TruncateEntries(es: Entries): Entries {
    match es
    case Nil => Nil
    case Cons(key, val, rest) =>
      Cons(if key.Name? then Name(UpToNul(key.n)) else key, val.(data := Truncate(val.data)), TruncateEntries(rest))
  }

  lemma {:induction false} TruncateSize(es: Entries)
    ensures ArraySize(TruncateEntries(es)) == ArraySize(es) && Size32(TruncateEntries(es)) == Size32(es)
    ensures Count(TruncateEntries(es)) == Count(es)
  {
    if es.Cons? {
      TruncateSize(es.rest);
    }
  }

  lemma {:induction false} TruncateItem(es: Entries, i: nat)
    ensures Item(TruncateEntries(es), i) == Truncate(Item(es, i))
  {
    if es.Cons? {
      TruncateItem(es.rest, i);
    }
  }

  lemma {:induction false} TruncateDrop(es: Entries, i: nat)
    requires i < Count(es)
    ensures Drop(es, i).Cons? && Drop(TruncateEntries(es), i).Cons?
    ensures Drop(TruncateEntries(es), i).val.data == Truncate(Drop(es, i).val.data)
    ensures NameBytes(Drop(TruncateEntries(es), i).key) == UpToNul(NameBytes(Drop(es, i).key))
  {
    if i > 0 {
      TruncateDrop(es.rest, i - 1);
    }
  }

  // ----- When cutting the names shows ----------------------------------------------------------

  /** No member name in the value holds a NUL, but in arrays whose size wraps to 0: nothing of them is
      written. */
  predicate NamesNulFree(p: Payload) {
    match p
    case Arr(es) => Size32(es) == 0 || EntriesNulFree(es)
    case Obj(es) => EntriesNulFree(es)
    case _ => true
  }

  predicate EntriesNulFree(es: Entries) {
    es.Cons? ==> NulFree(NameBytes(es.key)) && NamesNulFree(es.val.data) && EntriesNulFree(es.rest)
  }

  /** Every member name in the value is well-formed UTF-8. */
  predicate Utf8Names(p: Payload) {
    match p
    case Arr(es) => Utf8NamesEntries(es)
    case Obj(es) => Utf8NamesEntries(es)
    case _ => true
  }

  predicate Utf8NamesEntries(es: Entries) {
    es.Cons? ==> Utf8.WellFormed(NameBytes(es.key)) && Utf8Names(es.val.data) && Utf8NamesEntries(es.rest)
  }

  lemma {:induction false} Utf8Prefix(s: bytes, k: nat, i: nat)
    requires i <= k < |s| && s[k] == '\0' && Utf8.WellFormedFrom(s, i)
    ensures Utf8.WellFormedFrom(s[..k], i)
    decreases k - i
  {
    if i < k {
      var n := Utf8.SequenceLength(s, i);
      assert Utf8.SequenceLength(s[..k], i) == n && i + n <= k;
      Utf8Prefix(s, k, i + n);
    }
  }

  /** A name with a NUL is quoted differently from what c_str() leaves of it. */
  lemma CutNameShows(s: bytes)
    requires Utf8.WellFormed(s) && Strings.Quote(UpToNul(s), false) == Strings.Quote(s, false)
    ensures NulFree(s)
  {
    UpToNulPrefix(s);
    var k := |UpToNul(s)|;
    if k < |s| {
      Utf8Prefix(s, k, 0);
      Strings.QuoteRoundTripAscii(s, 0);
      Strings.QuoteRoundTripAscii(UpToNul(s), 0);
    }
  }

  function NthElement(es: Elements, n: nat): Option<Grammar.Tree> {
    if !es.Element? then None else if n == 0 then Some(es.value) else NthElement(es.rest, n - 1)
  }

  lemma {:induction false} NthCanonElement(es: Entries, i: nat, k: nat, style: Style)
    requires i <= k < Size32(es)
    ensures NthElement(CanonElements(es, i, style), k - i) == Some(Canon(Item(es, k), style))
    decreases k - i
  {
    if i < k {
      NthCanonElement(es, i + 1, k, style);
    }
  }

  lemma {:induction false} DropSorted(es: Entries, i: nat)
    requires Sorted(es) && i <= Count(es)
    ensures Sorted(Drop(es, i)) && (Drop(es, i).Cons? ==> ArraySize(Drop(es, i)) == ArraySize(es))
  {
    if i > 0 {
      DropSorted(es.rest, i - 1);
    }
  }

  /** Cutting names at NUL changes what is written exactly when some name that is written holds a NUL. */
  lemma CutNames(p: Payload, style: Style)
    requires WellFormed(p) && Utf8Names(p) && !style.emitUTF8
    ensures Canon(Truncate(p), style) == Canon(p, style) <==> NamesNulFree(p)
  {
    if NamesNulFree(p) {
      NothingCut(p, style);
    } else if Canon(Truncate(p), style) == Canon(p, style) {
      CutShows(p, style);
    }
  }

  lemma {:induction false} NothingCut(p: Payload, style: Style)
    requires NamesNulFree(p)
    ensures Canon(Truncate(p), style) == Canon(p, style)
    decreases ValueOrder.Size(p), 0
  {
    match p
    case Arr(es) =>
      TruncateSize(es);
      if Size32(es) != 0 {
        NothingCutItems(es, 0, style);
      }
    case Obj(es) => NothingCutMembers(es, style);
    case _ =>
  }

  lemma {:induction false} ItemNamesNulFree(es: Entries, i: nat)
    requires EntriesNulFree(es)
    ensures NamesNulFree(Item(es, i))
  {
    if es.Cons? {
      ItemNamesNulFree(es.rest, i);
    }
  }

  lemma {:induction false} NothingCutItems(es: Entries, i: nat, style: Style)
    requires EntriesNulFree(es)
    ensures CanonElements(TruncateEntries(es), i, style) == CanonElements(es, i, style)
    decreases ValueOrder.EntriesSize(es), 2, if i < Size32(es) then Size32(es) - i else 0
  {
    hide Item, Truncate, Size32;
    TruncateSize(es);
    if i < Size32(es) {
      ItemSize(es, i);
      ItemNamesNulFree(es, i);
      TruncateItem(es, i);
      NothingCut(Item(es, i), style);
      NothingCutItems(es, i + 1, style);
    }
  }

  lemma {:induction false} NothingCutMembers(es: Entries, style: Style)
    requires EntriesNulFree(es)
    ensures CanonMembers(TruncateEntries(es), style) == CanonMembers(es, style)
    decreases ValueOrder.EntriesSize(es), 1
  {
    if es.Cons? {
      UpToNulPrefix(NameBytes(es.key));
      NothingCut(es.val.data, style);
      NothingCutMembers(es.rest, style);
    }
  }

  lemma {:induction false} CutShows(p: Payload, style: Style)
    requires WellFormed(p) && Utf8Names(p) && !style.emitUTF8
    requires Canon(Truncate(p), style) == Canon(p, style)
    ensures NamesNulFree(p)
    decreases ValueOrder.Size(p), 0
  {
    match p
    case Arr(es) =>
      SizeLimit(es);
      if Size32(es) != 0 {
        CutShowsItems(es, 0, style);
      }
    case Obj(es) => CutShowsMembers(es, style);
    case _ =>
  }

  lemma {:induction false} CutShowsItems(es: Entries, i: nat, style: Style)
    requires WellFormed(Arr(es)) && Utf8NamesEntries(Drop(es, i)) && !style.emitUTF8 && i <= Count(es)
    requires Size32(es) == ArraySize(es)
    requires CanonElements(TruncateEntries(es), 0, style) == CanonElements(es, 0, style)
    ensures EntriesNulFree(Drop(es, i))
    decreases ValueOrder.EntriesSize(es), Count(es) - i
  {
    DropAll(es);
    if i < Count(es) {
      DropStep(es, i);
      DropSorted(es, i);
      DropWellFormed(es, i, true);
      FindDrop(es, i);
      var d := Drop(es, i);
      var k := d.key.i;
      KeyBelowSize(d);
      TruncateSize(es);
      TruncateItem(es, k);
      NthCanonElement(es, 0, k, style);
      NthCanonElement(TruncateEntries(es), 0, k, style);
      FindSize(es, d.key);
      CutShows(d.val.data, style);
      CutShowsItems(es, i + 1, style);
    }
  }

  lemma {:induction false} CutShowsMembers(es: Entries, style: Style)
    requires WellFormedEntries(es, false) && Utf8NamesEntries(es) && !style.emitUTF8
    requires CanonMembers(TruncateEntries(es), style) == CanonMembers(es, style)
    ensures EntriesNulFree(es)
    decreases ValueOrder.EntriesSize(es), 0
  {
    if es.Cons? {
      CutNameShows(NameBytes(es.key));
      CutShows(es.val.data, style);
      CutShowsMembers(es.rest, style);
    }
  }

  /** For names that are not UTF-8 the cut can go unseen: both sides of this pair are written as U+FFFD. */
  lemma CutUnseen()
    ensures var s: bytes := [0xC0 as char, '\0'];
      !NulFree(s) && UpToNul(s) != s && Strings.Quote(UpToNul(s), false) == Strings.Quote(s, false)
  {
    var s: bytes := [0xC0 as char, '\0'];
    CutLead();
    QuoteLead(s);
    QuoteLead(UpToNul(s));
    assert s[1] == '\0';
  }

  lemma CutLead()
    ensures UpToNul([0xC0 as char, '\0']) == [0xC0 as char]
  {
    var s: bytes := [0xC0 as char, '\0'];
    assert s[1..] == ['\0'];
    assert UpToNul(['\0']) == [];
  }

  /** A truncated or oversized two-byte sequence is replaced as a whole. */
  lemma QuoteLead(s: bytes)
    requires 1 <= |s| <= 2 && s[0] == 0xC0 as char && (|s| == 2 ==> s[1] == '\0')
    ensures Strings.Quote(s, false) == Char(Unicode(Strings.Hex4(Utf8.REPLACEMENT)), End)
  {
    assert Utf8.CodepointAt(s, 0) == (Utf8.REPLACEMENT, |s|);
    assert Strings.QuoteStep(s, 0, false) == (Unicode(Strings.Hex4(Utf8.REPLACEMENT)), |s|);
    assert Strings.QuoteFrom(s, |s|, false) == End;
    assert Strings.QuoteFrom(s, 0, false) == Char(Strings.QuoteStep(s, 0, false).0, Strings.QuoteFrom(s, |s|, false));
  }

  // ----- Where the writer stands ---------------------------------------------------------------

  /** The last byte of what a value is written as is no whitespace. */
  predicate EndsTight(s: bytes) { s != [] && !IsSpace(s[|s| - 1]) }

  lemma {:induction false} DigitsEndTight(s: bytes)
    requires s != [] && AllDigits(s)
    ensures EndsTight(s)
  {}

  lemma NumberEndsTight(n: Number)
    requires ValidNumber(n)
    ensures EndsTight(NumberText(n))
  {}

  lemma TextEndsTight(p: Payload, d: nat, m: Manner)
    requires !m.style.dropNulls
    ensures EndsTight(Text(Laid(p, d, m)))
  {
    hide NumberText, StringText, Strings.Quote, Laid, BrokenLeft, LineLeft, BrokenMembersLeft;
    if p.Arr? || p.Obj? {
      ContainerEnds(p, d, m);
    } else {
      LeafEndsTight(p, d, m);
    }
  }

  lemma LeafEndsTight(p: Payload, d: nat, m: Manner)
    requires !p.Arr? && !p.Obj? && !m.style.dropNulls
    ensures EndsTight(Text(Laid(p, d, m)))
  {
    hide NumberText, Strings.Quote, IntegerNumber, ValidNumber;
    match p
    case Int(i) =>
      IntegerNumberValid(i);
      NumberEndsTight(IntegerNumber(i));
    case UInt(u) =>
      IntegerNumberValid(u);
      NumberEndsTight(IntegerNumber(u));
    case Real(r) =>
      var t := m.style.showDouble(r);
      if t.TNumber? {
        NumberEndsTight(t.n);
      }
    case Str(s) => StringEndsTight(Strings.Quote(s, m.style.emitUTF8));
    case _ =>
  }

  lemma StringEndsTight(cs: Characters)
    ensures EndsTight(StringText(cs))
  {}

  lemma ContainerEnds(p: Payload, d: nat, m: Manner)
    requires p.Arr? || p.Obj?
    ensures EndsTight(Text(Laid(p, d, m)))
  {
    hide BrokenElements, LineElements, BrokenMembers, Broken;
    match Laid(p, d, m)
    case TArray(_, es) => ElementsEndTight(es);
    case TObject(_, ms) => MembersEndTight(ms);
    case _ =>
  }

  lemma {:induction false} ElementsEndTight(es: Elements)
    ensures !es.NoElement? ==> EndsTight(ElementsText(es))
  {
    hide Text;
    if es.Element? {
      ElementsEndTight(es.rest);
    }
  }

  lemma {:induction false} MembersEndTight(ms: Members)
    ensures !ms.NoMember? ==> EndsTight(MembersText(ms))
  {
    hide Text, NameText;
    if ms.Member? {
      MembersEndTight(ms.rest);
    }
  }

  lemma TruncateLeaf(p: Payload)
    ensures Leaf(Truncate(p)) <==> Leaf(p)
    ensures Counted(p) && Leaf(p) ==> Counted(Truncate(p))
  {
    match p
    case Arr(es) =>
      TruncateSize(es);
      if Size32(es) == 0 && Counted(p) {
        TruncateCounted(es);
      }
    case Obj(es) => TruncateSize(es);
    case _ =>
  }

  lemma {:induction false} TruncateCounted(es: Entries)
    requires CountedEntries(es)
    ensures CountedEntries(TruncateEntries(es))
  {
    if es.Cons? {
      TruncateAllCounted(es.val.data);
      TruncateCounted(es.rest);
    }
  }

  lemma {:induction false} TruncateAllCounted(p: Payload)
    requires Counted(p)
    ensures Counted(Truncate(p))
  {
    match p
    case Arr(es) => TruncateCounted(es);
    case Obj(es) =>
      TruncateSize(es);
      TruncateCounted(es);
    case _ =>
  }

  lemma TruncateFew(es: Entries)
    ensures FewLeaves(TruncateEntries(es)) <==> FewLeaves(es)
  {
    hide Item, Leaf, Truncate, Size32;
    TruncateSize(es);
    forall i: nat ensures Leaf(Item(TruncateEntries(es), i)) <==> Leaf(Item(es, i)) {
      TruncateItem(es, i);
      TruncateLeaf(Item(es, i));
    }
  }

  lemma TruncateBroken(p: Payload, m: Manner)
    ensures p.Arr? ==> Truncate(p) == Arr(TruncateEntries(p.items))
                       && Size32(TruncateEntries(p.items)) == Size32(p.items)
    ensures p.Obj? ==> Truncate(p) == Obj(TruncateEntries(p.members))
                       && Count(TruncateEntries(p.members)) == Count(p.members)
  {
    match p
    case Arr(es) => TruncateSize(es);
    case Obj(es) => TruncateSize(es);
    case _ =>
  }

  const UNIT: bytes := "   "

  lemma IndentEnds(d: nat)
    ensures d > 0 ==> Repeat(UNIT, d) != [] && Repeat(UNIT, d)[|Repeat(UNIT, d)| - 1] == ' '
  {}

  class StyledWriter {
    const rightMargin: nat := MARGIN
    const indentSize: nat := 3
    const showDouble: Double -> Shown
    var document: bytes
    var childValues: seq<bytes>
    var addChildValues: bool
    var indentString: bytes

    constructor (show: Double -> Shown)
      ensures showDouble == show
    {
      showDouble := show;
      document, childValues, addChildValues, indentString := [], [], false, [];
    }

    function Style(): Style { Canonical.Style(false, false, showDouble, []) }

    /** Three spaces a level; lines broken, short arrays on one line; a blank on each side of a colon. */
    function Manner(): Manner { Layouts.Manner(Style(), UNIT, true, true, " ", " ", false) }

    /** The tree this writer lays out: member names pass through c_str(). */
    function Tree(value: Payload): Tree { Canon(Truncate(value), Style()) }

    /** The text of a value that begins at depth `d`. */
    function LaidOut(value: Payload, d: nat): bytes { Text(Laid(Truncate(value), d, Manner())) }

    /** The cache holds exactly one entry per element, its text, and no element has something in it. */
    predicate Cached(es: Entries)
      reads `childValues
    {
      && |childValues| == Size32(es)
      && forall i :: 0 <= i < |childValues| ==> childValues[i] == Text(Tree(Item(es, i))) && Leaf(Item(es, i))
    }

    /** The document is empty, or was indented: the next value needs no line break. */
    predicate Placed()
      reads `document, `indentString
    {
      if document == [] then indentString == [] else document[|document| - 1] == ' '
    }

    /** write: the value laid out, and a line feed. */
    method Write(value: Value) returns (text: bytes)
      requires Writable(value.data)
      modifies this
      ensures text == LaidOut(value.data, 0) + "\n"
      ensures Tidiness.Indented(text, "   ") && Tidiness.OnLines(text)
      ensures Squeeze(text, false) == Text(Tree(value.data))
    {
      hide Squeeze, Text, Truncate, Canon, Laid, Tidiness.Indented, Tidiness.OnLines, CountedEntries;
      document := [];
      addChildValues := false;
      indentString := [];
      WriteValue(value.data, 0);
      assert [] + LaidOut(value.data, 0) == LaidOut(value.data, 0);
      document := document + "\n";
      text := document;
      ghost var t := Laid(Truncate(value.data), 0, Manner());
      LaidBare(Truncate(value.data), 0, Manner());
      assert [] + Text(t) + "\n" == text;
      TruncateAllCounted(value.data);
      Tidiness.LaidIsTidy(Truncate(value.data), Manner(), "\n");
      LayoutIndependence(Truncate(value.data), Style(), [], t, "\n");
    }

    method PushValue(value: bytes)
      modifies `document, `childValues
      ensures if addChildValues then document == old(document) && childValues == old(childValues) + [value]
              else document == old(document) + value && childValues == old(childValues)
    {
      if addChildValues {
        childValues := childValues + [value];
      } else {
        document := document + value;
      }
    }

    /** writeIndent: nothing after a blank, the indentation after a line feed, and both after anything else. */
    method WriteIndent()
      modifies `document
      ensures old(Placed()) ==> document == old(document)
      ensures old(EndsTight(document)) ==> document == old(document) + ("\n" + indentString)
    {
      if document != [] {
        var last := document[|document| - 1];
        if last == ' ' {
          return;
        }
        if last != '\n' {
          document := document + "\n";
        }
      }
      document := document + indentString;
    }

    method WriteWithIndent(value: bytes)
      modifies `document
      ensures old(Placed()) ==> document == old(document) + value
      ensures old(EndsTight(document)) ==> document == old(document) + ("\n" + indentString + value)
    {
      WriteIndent();
      document := document + value;
    }

    method Indent(ghost d: nat)
      requires indentString == Repeat(UNIT, d)
      modifies `indentString
      ensures indentString == Repeat(UNIT, d + 1)
    {
      indentString := indentString + "   ";
    }

    method Unindent(ghost d: nat)
      requires indentString == Repeat(UNIT, d + 1)
      modifies `indentString
      ensures indentString == Repeat(UNIT, d)
    {
      indentString := indentString[..|indentString| - indentSize];
    }

    /** writeValue at depth `d`: appends the value laid out, or, while the cache is being filled, its text to
        the cache. */
    method WriteValue(value: Payload, ghost d: nat)
      requires Writable(value) && indentString == Repeat(UNIT, d)
      requires if addChildValues then Leaf(value) else Placed()
      modifies this
      ensures addChildValues == old(addChildValues) && indentString == old(indentString)
      ensures addChildValues ==> document == old(document) && childValues == old(childValues) + [Text(Tree(value))]
      ensures !addChildValues ==> document == old(document) + LaidOut(value, d)
      decreases ValueOrder.Size(value), 0
    {
      hide StringText, Strings.Quote, Numbers.Show, NumberText, BrokenElements, LineElements, BrokenMembers,
        CanonElements, CanonMembers;
      match value {
        case Null => PushValue("null");
        case Int(i) =>
          var s := Numbers.SignedToString(i as Numbers.int64);
          IntegerNumberText(i);
          PushValue(s);
        case UInt(u) =>
          var s := Numbers.UnsignedToString(u as Numbers.uint64);
          IntegerNumberText(u);
          PushValue(s);
        case Real(r) => PushValue(Text(showDouble(r)));
        case Str(s) =>
          var quoted := Strings.ValueToQuotedString(s, false);
          PushValue(quoted);
        case Bool(b) => PushValue(if b then "true" else "false");
        case Arr(es) => WriteArrayValue(es, d);
        case Obj(es) => WriteObjectValue(es, d);
      }
    }

    method WriteArrayValue(es: Entries, ghost d: nat)
      requires Writable(Arr(es)) && indentString == Repeat(UNIT, d)
      requires if addChildValues then Leaf(Arr(es)) else Placed()
      modifies this
      ensures addChildValues == old(addChildValues) && indentString == old(indentString)
      ensures addChildValues ==> document == old(document) && childValues == old(childValues) + [Text(Tree(Arr(es)))]
      ensures !addChildValues ==> document == old(document) + LaidOut(Arr(es), d)
      decreases ValueOrder.EntriesSize(es), 3
    {
      hide Laid, Canon, Text, Cached, OneLiner, Truncate;
      LaidText(Truncate(Arr(es)), d, Manner());
      TruncateBroken(Arr(es), Manner());
      if Size32(es) == 0 {
        TruncateLeaf(Arr(es));
        LeafLaid(Truncate(Arr(es)), d, Manner());
        PushValue("[]");
      } else {
        var isArrayMultiLine := IsMultilineArray(es, d);
        if isArrayMultiLine {
          WriteMultiline(es, d);
        } else {
          WriteSingleLine(es, d);
        }
      }
    }

    /** isMultilineArray: no exactly for short arrays; and then the cache holds the text of every element. */
    method IsMultilineArray(es: Entries, ghost d: nat) returns (isMultiLine: bool)
      requires Writable(Arr(es)) && indentString == Repeat(UNIT, d) && !addChildValues && 0 < Size32(es)
      modifies this
      ensures document == old(document) && indentString == old(indentString) && !addChildValues
      ensures isMultiLine <==> !OneLiner(TruncateEntries(es), Style())
      ensures childValues == [] || Cached(es)
      ensures !isMultiLine ==> Cached(es)
      decreases ValueOrder.EntriesSize(es), 2
    {
      hide Truncate, Canon, Laid, Text, Item, Size32, Leaf, FewLeaves;
      TruncateFew(es);
      var size := Size32(es);
      isMultiLine := size * 3 % 0x1_0000_0000 >= rightMargin;
      childValues := [];
      var few := FewElements(es, !isMultiLine);
      isMultiLine := !few;
      if !isMultiLine {
        var lineLength := FillCache(es, d);
        isMultiLine := lineLength >= rightMargin;
      }
    }

    /** The loop that looks for an element with something in it. */
    method FewElements(es: Entries, small: bool) returns (few: bool)
      requires small <==> Size32(es) * 3 % 0x1_0000_0000 < MARGIN
      ensures few <==> FewLeaves(es)
    {
      hide Item, Size32, Leaf;
      few := small;
      var index := 0;
      while index < Size32(es) && few
        invariant index <= Size32(es) && (few ==> small && forall i :: 0 <= i < index ==> Leaf(Item(es, i)))
        invariant !few ==> !FewLeaves(es)
      {
        few := Leaf(Item(es, index));
        index := index + 1;
      }
    }

    /** The loop that fills the cache and adds up the length of the line. */
    method FillCache(es: Entries, ghost d: nat) returns (lineLength: nat)
      requires Writable(Arr(es)) && indentString == Repeat(UNIT, d) && !addChildValues && 0 < Size32(es)
      requires FewLeaves(es) && childValues == []
      modifies this
      ensures document == old(document) && indentString == old(indentString) && !addChildValues
      ensures Cached(es) && lineLength == LineSize(TruncateEntries(es), Style()) % 0x1_0000_0000
      decreases ValueOrder.EntriesSize(es), 1
    {
      hide Truncate, Canon, Laid, Text, Item, Size32, Leaf, ElementsLength, LineSize, Writable;
      TruncateSize(es);
      ghost var all := TruncateEntries(es);
      var size := Size32(es);
      addChildValues := true;
      CacheStart(all, Style());
      lineLength := (4 + (size - 1) * 2) % 0x1_0000_0000;
      var index := 0;
      while index < size
        invariant index <= size && addChildValues && |childValues| == index && lineLength < 0x1_0000_0000
        invariant document == old(document) && indentString == old(indentString)
        invariant forall i :: 0 <= i < index ==> childValues[i] == Text(Tree(Item(es, i)))
        invariant (lineLength + ElementsLength(all, index, Style())) % 0x1_0000_0000
               == LineSize(all, Style()) % 0x1_0000_0000
      {
        ItemWritable(es, index);
        ItemSize(es, index);
        TruncateItem(es, index);
        WriteValue(Item(es, index), d);
        CacheStep(all, index, Style(), lineLength, childValues[index]);
        lineLength := (lineLength + |childValues[index]|) % 0x1_0000_0000;
        index := index + 1;
      }
      addChildValues := false;
      CacheEnd(all, Style(), lineLength);
    }

    /** One element of a multi-line array, at depth `d`. */
    method WriteElement(es: Entries, index: nat, hasChildValue: bool, ghost d: nat)
      requires Writable(Arr(es)) && indentString == Repeat(UNIT, d) && d > 0 && !addChildValues && index < Size32(es)
      requires (hasChildValue ==> Cached(es)) && EndsTight(document)
      modifies this
      ensures !addChildValues && indentString == old(indentString)
      ensures hasChildValue ==> childValues == old(childValues)
      ensures document == old(document) + (Line(Manner(), d) + LaidOut(Item(es, index), d))
      decreases ValueOrder.EntriesSize(es), 1
    {
      hide Truncate, Canon, Laid, Text, Item, Size32, Leaf, Repeat;
      ItemWritable(es, index);
      ItemSize(es, index);
      IndentEnds(d);
      ghost var line := "\n" + indentString;
      if hasChildValue {
        TruncateLeaf(Item(es, index));
        LeafLaid(Truncate(Item(es, index)), d, Manner());
        WriteWithIndent(childValues[index]);
      } else {
        WriteIndent();
        assert document[|document| - 1] == indentString[|indentString| - 1];
        WriteValue(Item(es, index), d);
        ghost var text := LaidOut(Item(es, index), d);
        assert old(document) + line + text == old(document) + (line + text);
      }
    }

    method WriteMultiline(es: Entries, ghost d: nat)
      requires Writable(Arr(es)) && indentString == Repeat(UNIT, d) && !addChildValues && 0 < Size32(es)
      requires Placed() && (childValues == [] || Cached(es))
      modifies this
      ensures !addChildValues && indentString == old(indentString)
      ensures document == old(document) + ("[" + BrokenLeft(TruncateEntries(es), 0, d, Manner()))
      decreases ValueOrder.EntriesSize(es), 2
    {
      hide Canon, Laid, Text, Truncate, Item, Size32, Cached, BrokenLeft, Line, Repeat, Leaf, Writable,
        TruncateEntries;
      var size := Size32(es);
      ghost var m, all := Manner(), TruncateEntries(es);
      TruncateSize(es);
      WriteWithIndent("[");
      Indent(d);
      var hasChildValue := childValues != [];
      var index := 0;
      ghost var start := document;
      ghost var done := start;
      assert done + [] == done;
      while true
        invariant index < size && document == done + Comma(index) && EndsTight(document)
        invariant done + BrokenLeft(all, index, d, m) == start + BrokenLeft(all, 0, d, m)
        invariant hasChildValue ==> Cached(es)
        invariant !addChildValues && indentString == Repeat(UNIT, d + 1)
        decreases size - index
      {
        WriteElement(es, index, hasChildValue, d + 1);
        ElementDone(done, es, index, d, m);
        done := document;
        index := index + 1;
        if index == size {
          break;
        }
        document := document + ",";
      }
      Unindent(d);
      WriteWithIndent("]");
      LastLine(all, d, m, indentString);
      Opened(old(document), "[", BrokenLeft(all, 0, d, m));
    }

    /** The elements on one line, from the cache. */
    method WriteSingleLine(es: Entries, ghost d: nat)
      requires Writable(Arr(es)) && !addChildValues && 0 < Size32(es) && Cached(es)
      modifies `document
      ensures document == old(document) + ("[" + LineLeft(TruncateEntries(es), 0, Manner()))
    {
      hide Canon, Laid, Text, Truncate, Item, Size32, LineLeft, Leaf;
      var size := Size32(es);
      ghost var m, all := Manner(), TruncateEntries(es);
      TruncateSize(es);
      document := document + "[ ";
      ghost var start := old(document) + "[";
      var index := 0;
      assert document == start + " ";
      while index < size
        invariant index <= size
        invariant if index == 0 then document == start + " "
                  else document + LineLeft(all, index, m) == start + LineLeft(all, 0, m)
      {
        TruncateItem(es, index);
        NextOnLine(start, document, all, index, m);
        assert ", " == "," + " ";
        if index > 0 {
          document := document + ", ";
        }
        document := document + childValues[index];
        index := index + 1;
      }
      document := document + " ]";
      LastBlank(all, m);
      assert start + LineLeft(all, 0, m) == old(document) + ("[" + LineLeft(all, 0, m));
    }

    method WriteObjectValue(es: Entries, ghost d: nat)
      requires Writable(Obj(es)) && indentString == Repeat(UNIT, d)
      requires if addChildValues then Leaf(Obj(es)) else Placed()
      modifies this
      ensures addChildValues == old(addChildValues) && indentString == old(indentString)
      ensures addChildValues ==> document == old(document) && childValues == old(childValues) + [Text(Tree(Obj(es)))]
      ensures !addChildValues ==> document == old(document) + LaidOut(Obj(es), d)
      decreases ValueOrder.EntriesSize(es), 3
    {
      hide Laid, Canon, Text, Truncate, Drop, BrokenMembersLeft;
      var members := MemberNames(es);
      LaidText(Truncate(Obj(es)), d, Manner());
      TruncateBroken(Obj(es), Manner());
      if members == [] {
        TruncateLeaf(Obj(es));
        LeafLaid(Truncate(Obj(es)), d, Manner());
        PushValue("{}");
      } else {
        WriteMembers(es, members, d);
      }
    }

    method WriteMembers(es: Entries, names: seq<bytes>, ghost d: nat)
      requires Writable(Obj(es)) && indentString == Repeat(UNIT, d) && !addChildValues && 0 < |names| == Count(es)
      requires Placed()
      requires forall i :: 0 <= i < |names| ==> Drop(es, i).Cons? && names[i] == NameBytes(Drop(es, i).key)
      modifies this
      ensures !addChildValues && indentString == old(indentString)
      ensures document == old(document) + ("{" + BrokenMembersLeft(TruncateEntries(es), 0, d, Manner()))
      decreases ValueOrder.EntriesSize(es), 2
    {
      hide Canon, Laid, Text, Truncate, BrokenMembersLeft, Line, Repeat, NamePart, NameBytes, Drop, UpToNul;
      ghost var m, all := Manner(), TruncateEntries(es);
      TruncateSize(es);
      WriteWithIndent("{");
      Indent(d);
      var it := 0;
      ghost var start := document;
      ghost var done := start;
      assert done + [] == done;
      while true
        invariant it < |names| && document == done + Comma(it) && EndsTight(document)
        invariant done + BrokenMembersLeft(all, it, d, m) == start + BrokenMembersLeft(all, 0, d, m)
        invariant !addChildValues && indentString == Repeat(UNIT, d + 1)
        decreases |names| - it
      {
        WriteMember(es, names[it], it, d + 1);
        MemberDone(done, es, it, d, m);
        done := document;
        it := it + 1;
        if it == |names| {
          break;
        }
        document := document + ",";
      }
      Unindent(d);
      WriteWithIndent("}");
      LastMemberLine(all, d, m, indentString);
      Opened(old(document), "{", BrokenMembersLeft(all, 0, d, m));
    }

    /** One member, at depth `d`; its name passes through c_str(). */
    method WriteMember(es: Entries, name: bytes, ghost it: nat, ghost d: nat)
      requires Writable(Obj(es)) && indentString == Repeat(UNIT, d) && !addChildValues && it < Count(es)
      requires Drop(es, it).Cons? && name == NameBytes(Drop(es, it).key) && EndsTight(document)
      modifies this
      ensures !addChildValues && indentString == old(indentString)
      ensures document == old(document)
        + (Line(Manner(), d) + (NamePart(UpToNul(name), Manner()) + LaidOut(Drop(es, it).val.data, d)))
      decreases ValueOrder.EntriesSize(es), 1
    {
      hide Canon, Laid, Text, Truncate, UpToNul, StringText, Strings.Quote, Repeat;
      DropWellFormed(es, it, false);
      FindDrop(es, it);
      MemberWritable(es, Name(name));
      FindSize(es, Name(name));
      var quoted := Strings.ValueToQuotedString(UpToNul(name), false);
      WriteWithIndent(quoted);
      document := document + " : ";
      ghost var head := document;
      WriteValue(Find(es, Name(name)).value.data, d);
      assert " " + ":" + " " == " : ";
      MemberWritten(old(document), "\n" + indentString, quoted, " : ", LaidOut(Drop(es, it).val.data, d));
    }
  }

  /** Two samples of what this writer writes. */
  lemma Samples(w: StyledWriter, name: bytes, i: int, j: int)
    requires |ShowInt(i)| <= 20 && |ShowInt(j)| <= 20
    ensures w.LaidOut(OneInt(name, i), 0)
      == "{\n   " + StringText(Strings.Quote(UpToNul(name), false)) + " : " + ShowInt(i) + "\n}"
    ensures w.LaidOut(TwoInts(i, j), 0) == "[ " + ShowInt(i) + ", " + ShowInt(j) + " ]"
  {
    hide ShowInt, StringText, Strings.Quote, OneLiner, UpToNul, Laid;
    var m := w.Manner();
    OneIntText(UpToNul(name), i, 0, m);
    TwoIntsFit(i, j, m.style);
    TwoIntsText(i, j, m);
    TruncateSamples(name, i, j);
    assert Repeat(UNIT, 1) == [] + UNIT == UNIT && Repeat(UNIT, 0) == [];
    var quoted := StringText(Strings.Quote(UpToNul(name), false));
    assert "\n" + UNIT == "\n   " && "\n" + [] == "\n" && " " + ":" + " " == " : ";
    assert "{" + "\n   " == "{\n   ";
    assert "{" + "\n   " + (quoted + " : ") + ShowInt(i) + "\n" + "}" == "{\n   " + quoted + " : " + ShowInt(i) + "\n}";
    assert "[" + " " == "[ " && "[ " + ShowInt(i) + "," + " " == "[ " + ShowInt(i) + ", ";
    assert "[ " + ShowInt(i) + ", " + ShowInt(j) + " " + "]" == "[ " + ShowInt(i) + ", " + ShowInt(j) + " ]";
  }

  lemma TruncateSamples(name: bytes, i: int, j: int)
    ensures Truncate(OneInt(name, i)) == OneInt(UpToNul(name), i) && Truncate(TwoInts(i, j)) == TwoInts(i, j)
  {
    assert TruncateEntries(Nil) == Nil && Truncate(Int(i)) == Int(i);
    assert TruncateEntries(OneInt(name, i).members) == OneInt(UpToNul(name), i).members;
    assert TruncateEntries(TwoInts(i, j).items.rest) == TwoInts(i, j).items.rest;
  }

  lemma MemberDone(done: bytes, es: Entries, it: nat, d: nat, m: Manner)
    requires it < Count(es) && !m.below && !m.style.dropNulls
    ensures Drop(es, it).Cons?
    ensures var x, all := Drop(es, it), TruncateEntries(es);
      var name, text := NamePart(UpToNul(NameBytes(x.key)), m), Text(Laid(Truncate(x.val.data), d + 1, m));
      var next := done + Comma(it) + (Line(m, d + 1) + (name + text));
      next + BrokenMembersLeft(all, it + 1, d, m) == done + BrokenMembersLeft(all, it, d, m) && EndsTight(next)
  {
    hide Laid, Text, Truncate, BrokenMembersLeft, Line, NamePart, NameBytes, UpToNul, Drop, Lead, EndsTight;
    var all := TruncateEntries(es);
    TruncateSize(es);
    TruncateDrop(es, it);
    NextMember(done, all, it, d, m);
    var x := Drop(all, it);
    NoLead(x.val.data, d + 1, m);
    var name, text := NamePart(NameBytes(x.key), m), Text(Laid(x.val.data, d + 1, m));
    assert [] + text == text;
    TextEndsTight(x.val.data, d + 1, m);
    StillTight(Line(m, d + 1) + name, text);
    assert Line(m, d + 1) + (name + text) == Line(m, d + 1) + name + text;
    StillTight(done + Comma(it), Line(m, d + 1) + (name + text));
  }

  lemma ElementDone(done: bytes, es: Entries, i: nat, d: nat, m: Manner)
    requires i < Size32(es) && !m.style.dropNulls
    ensures var text, all := Text(Laid(Truncate(Item(es, i)), d + 1, m)), TruncateEntries(es);
      var next := done + Comma(i) + (Line(m, d + 1) + text);
      next + BrokenLeft(all, i + 1, d, m) == done + BrokenLeft(all, i, d, m) && EndsTight(next)
  {
    hide Laid, Text, Truncate, BrokenLeft, Line, Item, Size32, EndsTight;
    var all := TruncateEntries(es);
    TruncateSize(es);
    TruncateItem(es, i);
    NextElement(done, all, i, d, m);
    TextEndsTight(Item(all, i), d + 1, m);
    StillTight(Line(m, d + 1), Text(Laid(Item(all, i), d + 1, m)));
    StillTight(done + Comma(i), Line(m, d + 1) + Text(Laid(Item(all, i), d + 1, m)));
  }

  lemma Opened(start: bytes, open: bytes, rest: bytes)
    ensures start + open + rest == start + (open + rest)
  {}

  lemma StillTight(a: bytes, b: bytes)
    requires EndsTight(b)
    ensures EndsTight(a + b)
  {}

  lemma LastLine(es: Entries, d: nat, m: Manner, indent: bytes)
    requires m.breaks && indent == Repeat(m.unit, d)
    ensures BrokenLeft(es, Size32(es), d, m) == "\n" + indent + "]"
  {}

  lemma LastMemberLine(es: Entries, d: nat, m: Manner, indent: bytes)
    requires m.breaks && indent == Repeat(m.unit, d)
    ensures BrokenMembersLeft(es, Count(es), d, m) == "\n" + indent + "}"
  {}

  lemma LastBlank(es: Entries, m: Manner)
    requires m.breaks
    ensures LineLeft(es, Size32(es), m) == " ]"
  {
    assert " " + "]" == " ]";
  }

  lemma NoLead(p: Payload, d: nat, m: Manner)
    requires !m.below
    ensures Lead(p, d, m) == []
  {}
}
