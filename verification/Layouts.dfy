/** How the styled writers lay a value out: as a tree with whitespace, and the text of it in the order in which
    it is written. */
module Layouts {
  import opened Bytes
  import opened JsonValues
  import opened Grammar
  import opened Canonical
  import Strings
  import opened Numbers
  import ValueOrder

  // ----- What the styled writers accept --------------------------------------------------------

  /** No object has 2^32 members or more; size() would wrap for it too. */
  predicate Counted(p: Payload) {
    match p
    case Arr(es) => CountedEntries(es)
    case Obj(es) => Count(es) < INDEX_LIMIT && CountedEntries(es)
    case _ => true
  }

  predicate CountedEntries(es: Entries) {
    es.Cons? ==> Counted(es.val.data) && CountedEntries(es.rest)
  }

  predicate Writable(p: Payload) { WellFormed(p) && Counted(p) }

  lemma {:induction false} FindCounted(es: Entries, k: Key)
    requires CountedEntries(es) && Find(es, k).Some?
    ensures Counted(Find(es, k).value.data)
  {
    if es.key != k {
      FindCounted(es.rest, k);
    }
  }

  lemma ItemWritable(es: Entries, i: nat)
    requires Writable(Arr(es))
    ensures Writable(Item(es, i))
  {
    ItemWellFormed(es, i);
    if Find(es, Index(i)).Some? {
      FindCounted(es, Index(i));
    }
  }

  lemma MemberWritable(es: Entries, k: Key)
    requires Writable(Obj(es)) && Find(es, k).Some?
    ensures Writable(Find(es, k).value.data)
  {
    FindWellFormed(es, k, false);
    FindCounted(es, k);
  }

  // ----- Layouts -------------------------------------------------------------------------------

  /** rightMargin. */
  const MARGIN: nat := 74

  /** What tells the layouts of the two writers apart: the whitespace for one level, whether lines are broken
      at all, whether short arrays go on one line, what stands around a colon, and whether a container behind a
      colon starts a line. */
  datatype Manner = Manner(style: Style, unit: bytes, breaks: bool, measured: bool, before: bytes, after: bytes,
                           below: bool)

  predicate WhiteManner(m: Manner) {
    AllSpace(m.unit) && AllSpace(m.before) && AllSpace(m.after) && m.style.gap == []
  }

  function Repeat(unit: bytes, n: nat): bytes {
    if n == 0 then [] else Repeat(unit, n - 1) + unit
  }

  /** A line break and its indentation. */
  function Line(m: Manner, d: nat): bytes {
    if m.breaks then "\n" + Repeat(m.unit, d) else []
  }

  /** What stands inside the brackets of an array on one line. */
  function Blank(m: Manner): bytes {
    if m.breaks then " " else []
  }

  /** No array or object that is not empty(), which looks at size(). */
  predicate Leaf(p: Payload) {
    match p
    case Arr(es) => Size32(es) == 0
    case Obj(es) => Count(es) % INDEX_LIMIT == 0
    case _ => true
  }

  /** The length of the elements' texts from the i-th on. */
  function ElementsLength(es: Entries, i: nat, style: Style): nat
    decreases if i < Size32(es) then Size32(es) - i else 0
  {
    if i >= Size32(es) then 0 else |Text(Canon(Item(es, i), style))| + ElementsLength(es, i + 1, style)
  }

  /** Few elements, and none with something in it; sizes are counted in 32 bits. */
  predicate FewLeaves(es: Entries) {
    Size32(es) * 3 % 0x1_0000_0000 < MARGIN && forall i :: 0 <= i < Size32(es) ==> Leaf(Item(es, i))
  }

  /** The length of the array's text on one line, with its brackets, commas and blanks. */
  function LineSize(es: Entries, style: Style): int {
    4 + (Size32(es) - 1) * 2 + ElementsLength(es, 0, style)
  }

  /** The array goes on one line: it has few elements, none of which has something in it, and its line is
      short. */
  predicate OneLiner(es: Entries, style: Style) {
    FewLeaves(es) && LineSize(es, style) % 0x1_0000_0000 < MARGIN
  }

  /** A container on several lines. */
  predicate Broken(p: Payload, m: Manner) {
    match p
    case Arr(es) => Size32(es) != 0 && !(m.measured && OneLiner(es, m.style))
    case Obj(es) => es.Cons?
    case _ => false
  }

  /** What comes between a colon and a value. */
  function Lead(p: Payload, d: nat, m: Manner): bytes {
    if m.below && Broken(p, m) then Line(m, d) else []
  }

  /** The tree of a value that begins at depth `d`, with all its whitespace. */
  function Laid(p: Payload, d: nat, m: Manner): Tree
    decreases ValueOrder.Size(p), 0
  {
    match p
    case Arr(es) => TArray([], if Broken(p, m) then BrokenElements(es, 0, d, m) else LineElements(es, 0, m))
    case Obj(es) => TObject([], BrokenMembers(es, d, m))
    case _ => Canon(p, m.style)
  }

  function LineElements(es: Entries, i: nat, m: Manner): Elements
    decreases if i < Size32(es) then Size32(es) - i else 0
  {
    if i >= Size32(es) then NoElement
    else
      Element(Blank(m), Canon(Item(es, i), m.style), if i + 1 >= Size32(es) then Blank(m) else [],
              LineElements(es, i + 1, m))
  }

  function BrokenElements(es: Entries, i: nat, d: nat, m: Manner): Elements
    decreases ValueOrder.EntriesSize(es), 2, if i < Size32(es) then Size32(es) - i else 0
  {
    if i >= Size32(es) then NoElement
    else
      ItemSize(es, i);
      Element(Line(m, d + 1), Laid(Item(es, i), d + 1, m), if i + 1 >= Size32(es) then Line(m, d) else [],
              BrokenElements(es, i + 1, d, m))
  }

  function BrokenMembers(es: Entries, d: nat, m: Manner): Members
    decreases ValueOrder.EntriesSize(es), 1
  {
    match es
    case Nil => NoMember
    case Cons(key, val, rest) =>
      Member(Line(m, d + 1), Quoted(Strings.Quote(NameBytes(key), m.style.emitUTF8)), m.before,
             m.after + Lead(val.data, d + 1, m), Laid(val.data, d + 1, m), if rest.Nil? then Line(m, d) else [],
             BrokenMembers(rest, d, m))
  }

  // ----- Only whitespace is added --------------------------------------------------------------

  lemma {:induction false} RepeatSpace(unit: bytes, n: nat)
    requires AllSpace(unit)
    ensures AllSpace(Repeat(unit, n))
  {
    if n > 0 {
      RepeatSpace(unit, n - 1);
    }
  }

  lemma LineSpace(m: Manner, d: nat)
    requires AllSpace(m.unit)
    ensures AllSpace(Line(m, d)) && AllSpace(Blank(m))
  {
    RepeatSpace(m.unit, d);
  }

  lemma {:induction false} LaidBare(p: Payload, d: nat, m: Manner)
    requires WhiteManner(m)
    ensures Spaced(Laid(p, d, m)) && Bare(Laid(p, d, m)) == Canon(p, m.style)
    decreases ValueOrder.Size(p), 0
  {
    hide AllSpace, OneLiner;
    EmptySpace();
    match p
    case Arr(es) =>
      if Broken(p, m) {
        BrokenElementsBare(es, 0, d, m);
      } else {
        LineElementsBare(es, 0, m);
      }
    case Obj(es) => BrokenMembersBare(es, d, m);
    case _ => CanonBare(p, m.style);
  }

  lemma {:induction false} LineElementsBare(es: Entries, i: nat, m: Manner)
    requires WhiteManner(m)
    ensures var t := LineElements(es, i, m); SpacedElements(t) && BareElements(t) == CanonElements(es, i, m.style)
    decreases if i < Size32(es) then Size32(es) - i else 0
  {
    hide Canon, Item, Size32, AllSpace;
    if i < Size32(es) {
      EmptySpace();
      LineSpace(m, 0);
      CanonBare(Item(es, i), m.style);
      LineElementsBare(es, i + 1, m);
    }
  }

  lemma {:induction false} BrokenElementsBare(es: Entries, i: nat, d: nat, m: Manner)
    requires WhiteManner(m)
    ensures var t := BrokenElements(es, i, d, m);
      SpacedElements(t) && BareElements(t) == CanonElements(es, i, m.style)
    decreases ValueOrder.EntriesSize(es), 2, if i < Size32(es) then Size32(es) - i else 0
  {
    hide Canon, Laid, Item, Size32, AllSpace, Line;
    if i < Size32(es) {
      ItemSize(es, i);
      EmptySpace();
      LineSpace(m, d);
      LineSpace(m, d + 1);
      LaidBare(Item(es, i), d + 1, m);
      BrokenElementsBare(es, i + 1, d, m);
    }
  }

  lemma {:induction false} BrokenMembersBare(es: Entries, d: nat, m: Manner)
    requires WhiteManner(m)
    ensures var t := BrokenMembers(es, d, m); SpacedMembers(t) && BareMembers(t) == CanonMembers(es, m.style)
    decreases ValueOrder.EntriesSize(es), 1
  {
    hide Canon, Laid, AllSpace, Line, Broken, Strings.Quote;
    if es.Cons? {
      EmptySpace();
      LineSpace(m, d);
      LineSpace(m, d + 1);
      SpaceConcat(m.after, Lead(es.val.data, d + 1, m));
      LaidBare(es.val.data, d + 1, m);
      BrokenMembersBare(es.rest, d, m);
    }
  }

  // ----- The text in the order it is written ---------------------------------------------------

  function Comma(i: nat): bytes { if i == 0 then [] else "," }

  /** The rest of the text of an array when `i` elements have been written. */
  function BrokenLeft(es: Entries, i: nat, d: nat, m: Manner): bytes {
    if i >= Size32(es) then Line(m, d) + "]" else Comma(i) + ElementsText(BrokenElements(es, i, d, m))
  }

  function LineLeft(es: Entries, i: nat, m: Manner): bytes {
    if i >= Size32(es) then Blank(m) + "]" else Comma(i) + ElementsText(LineElements(es, i, m))
  }

  function BrokenMembersLeft(es: Entries, i: nat, d: nat, m: Manner): bytes {
    if i >= Count(es) then Line(m, d) + "}" else Comma(i) + MembersText(BrokenMembers(Drop(es, i), d, m))
  }

  lemma ElementText(before: bytes, value: Tree, after: bytes, rest: Elements)
    ensures ElementsText(Element(before, value, after, rest))
      == before + Text(value) + (after + (if rest.NoElement? then "]" else "," + ElementsText(rest)))
  {
    hide Text;
    var close: bytes := if rest.NoElement? then "]" else "," + ElementsText(rest);
    assert before + (Text(value) + (after + close)) == before + Text(value) + (after + close);
  }

  lemma BrokenLeftStep(es: Entries, i: nat, d: nat, m: Manner)
    requires i < Size32(es)
    ensures BrokenLeft(es, i, d, m)
      == Comma(i) + Line(m, d + 1) + Text(Laid(Item(es, i), d + 1, m)) + BrokenLeft(es, i + 1, d, m)
  {
    hide Text, ElementsText, Laid, Item, Size32, Line;
    var rest := BrokenElements(es, i + 1, d, m);
    var value := Laid(Item(es, i), d + 1, m);
    ElementText(Line(m, d + 1), value, if i + 1 >= Size32(es) then Line(m, d) else [], rest);
    assert rest.NoElement? <==> i + 1 >= Size32(es);
    assert i + 1 < Size32(es) ==> [] + ("," + ElementsText(rest)) == BrokenLeft(es, i + 1, d, m);
    Append3(Comma(i), Line(m, d + 1), Text(value), BrokenLeft(es, i + 1, d, m));
    assert Comma(i) + (Line(m, d + 1) + Text(value) + BrokenLeft(es, i + 1, d, m))
      == Comma(i) + Line(m, d + 1) + Text(value) + BrokenLeft(es, i + 1, d, m);
  }

  lemma LineLeftStep(es: Entries, i: nat, m: Manner)
    requires i < Size32(es)
    ensures LineLeft(es, i, m)
      == Comma(i) + Blank(m) + Text(Canon(Item(es, i), m.style)) + LineLeft(es, i + 1, m)
  {
    hide Text, ElementsText, Canon, Item, Size32, Blank;
    var rest := LineElements(es, i + 1, m);
    var value := Canon(Item(es, i), m.style);
    ElementText(Blank(m), value, if i + 1 >= Size32(es) then Blank(m) else [], rest);
    assert rest.NoElement? <==> i + 1 >= Size32(es);
    assert i + 1 < Size32(es) ==> [] + ("," + ElementsText(rest)) == LineLeft(es, i + 1, m);
    assert Comma(i) + (Blank(m) + Text(value) + LineLeft(es, i + 1, m))
      == Comma(i) + Blank(m) + Text(value) + LineLeft(es, i + 1, m);
  }

  /** The name of a member and what surrounds its colon. */
  function NamePart(name: bytes, m: Manner): bytes {
    StringText(Strings.Quote(name, m.style.emitUTF8)) + (m.before + ":" + m.after)
  }

  lemma MemberText(x: Members)
    requires x.Member?
    ensures MembersText(x)
      == x.before + (LabelText(x.name) + (x.mid + ":")) + (x.before2 + Text(x.value)
         + (x.after + (if x.rest.NoMember? then "}" else "," + MembersText(x.rest))))
  {
    hide Text, LabelText;
    var close: bytes := if x.rest.NoMember? then "}" else "," + MembersText(x.rest);
    assert x.before2 + (Text(x.value) + (x.after + close)) == x.before2 + Text(x.value) + (x.after + close);
    assert NameText(x) == x.before + (LabelText(x.name) + (x.mid + ":"));
  }

  lemma BrokenMembersLeftStep(es: Entries, i: nat, d: nat, m: Manner)
    requires i < Count(es)
    ensures Drop(es, i).Cons?
    ensures var x := Drop(es, i);
      BrokenMembersLeft(es, i, d, m)
        == Comma(i) + Line(m, d + 1) + NamePart(NameBytes(x.key), m)
         + (Lead(x.val.data, d + 1, m) + Text(Laid(x.val.data, d + 1, m))) + BrokenMembersLeft(es, i + 1, d, m)
  {
    hide Text, MembersText, StringText, Laid, Line, Lead, Strings.Quote, NameBytes;
    DropStep(es, i);
    DropAll(es);
    CountDropped(es, i + 1);
    var x := Drop(es, i);
    var ms := BrokenMembers(x, d, m);
    MemberText(ms);
    var after := BrokenMembersLeft(es, i + 1, d, m);
    var close := if ms.rest.NoMember? then "}" else "," + MembersText(ms.rest);
    assert ms.rest == BrokenMembers(x.rest, d, m);
    assert x.rest.Nil? <==> Count(x.rest) == 0;
    assert ms.rest.NoMember? <==> i + 1 >= Count(es);
    assert ms.after + close == after by {
      if i + 1 < Count(es) {
        assert [] + close == close;
      }
    }
    MemberRegroup(Comma(i), Line(m, d + 1), StringText(Strings.Quote(NameBytes(x.key), m.style.emitUTF8)), m.before,
      m.after, Lead(x.val.data, d + 1, m), Text(Laid(x.val.data, d + 1, m)), after);
  }

  lemma MemberRegroup(comma: bytes, line: bytes, name: bytes, before: bytes, after: bytes, lead: bytes, text: bytes,
                      rest: bytes)
    ensures comma + (line + (name + (before + ":")) + (after + lead + text + rest))
      == comma + line + (name + (before + ":" + after)) + (lead + text) + rest
  {
    var part := name + (before + ":" + after);
    assert name + (before + ":") + after == part;
    assert line + (name + (before + ":")) + (after + lead + text + rest) == line + part + (lead + text + rest);
    Append3(comma, line, part, lead + text + rest);
    assert lead + text + rest == (lead + text) + rest;
  }

  lemma {:induction false} CountDropped(es: Entries, i: nat)
    requires i <= Count(es)
    ensures Count(Drop(es, i)) == Count(es) - i
  {
    if i > 0 {
      CountDropped(es.rest, i - 1);
    }
  }

  /** Where the text of a container begins. */
  lemma LaidText(p: Payload, d: nat, m: Manner)
    ensures p.Arr? && Size32(p.items) == 0 ==> Text(Laid(p, d, m)) == "[]"
    ensures p.Arr? && Broken(p, m) ==> Text(Laid(p, d, m)) == "[" + BrokenLeft(p.items, 0, d, m)
    ensures p.Arr? && Size32(p.items) != 0 && !Broken(p, m) ==> Text(Laid(p, d, m)) == "[" + LineLeft(p.items, 0, m)
    ensures p.Obj? && p.members.Nil? ==> Text(Laid(p, d, m)) == "{}"
    ensures p.Obj? && p.members.Cons? ==> Text(Laid(p, d, m)) == "{" + BrokenMembersLeft(p.members, 0, d, m)
  {
    hide ElementsText, MembersText, Item, Canon, Line, Blank, Strings.Quote, Lead, OneLiner;
    assert "[" + ([] + "]") == "[]" && "{" + ([] + "}") == "{}";
    if p.Arr? && Size32(p.items) != 0 {
      assert [] + ElementsText(BrokenElements(p.items, 0, d, m)) == ElementsText(BrokenElements(p.items, 0, d, m));
      assert [] + ElementsText(LineElements(p.items, 0, m)) == ElementsText(LineElements(p.items, 0, m));
    } else if p.Obj? && p.members.Cons? {
      assert [] + MembersText(BrokenMembers(p.members, d, m)) == MembersText(BrokenMembers(p.members, d, m));
    }
  }

  /** The text with one element more. */
  lemma NextElement(done: bytes, es: Entries, i: nat, d: nat, m: Manner)
    requires i < Size32(es)
    ensures var text := Text(Laid(Item(es, i), d + 1, m));
      done + Comma(i) + (Line(m, d + 1) + text) + BrokenLeft(es, i + 1, d, m) == done + BrokenLeft(es, i, d, m)
  {
    hide Text, Laid, Item, Size32, Line, BrokenLeft;
    BrokenLeftStep(es, i, d, m);
    Added(done, Comma(i), Line(m, d + 1), Text(Laid(Item(es, i), d + 1, m)), BrokenLeft(es, i + 1, d, m));
  }

  lemma Added(done: bytes, comma: bytes, line: bytes, text: bytes, rest: bytes)
    ensures done + comma + (line + text) + rest == done + (comma + line + text + rest)
  {
    assert done + comma + (line + text) + rest == done + (comma + (line + text) + rest);
    assert comma + (line + text) == comma + line + text;
  }

  /** The text with one member more. */
  lemma NextMember(done: bytes, es: Entries, i: nat, d: nat, m: Manner)
    requires i < Count(es)
    ensures Drop(es, i).Cons?
    ensures var x := Drop(es, i);
      var text := Lead(x.val.data, d + 1, m) + Text(Laid(x.val.data, d + 1, m));
      done + Comma(i) + (Line(m, d + 1) + (NamePart(NameBytes(x.key), m) + text)) + BrokenMembersLeft(es, i + 1, d, m)
        == done + BrokenMembersLeft(es, i, d, m)
  {
    hide Text, Laid, Line, Lead, NamePart, NameBytes, Drop, BrokenMembersLeft;
    BrokenMembersLeftStep(es, i, d, m);
    var x := Drop(es, i);
    var name, text := NamePart(NameBytes(x.key), m), Lead(x.val.data, d + 1, m) + Text(Laid(x.val.data, d + 1, m));
    Added(done, Comma(i), Line(m, d + 1), name + text, BrokenMembersLeft(es, i + 1, d, m));
    assert Comma(i) + Line(m, d + 1) + (name + text) == Comma(i) + Line(m, d + 1) + name + text;
  }

  /** An element more on the line: the document ends before its comma, or, for the first, behind its blank. */
  lemma NextOnLine(start: bytes, document: bytes, es: Entries, i: nat, m: Manner)
    requires i < Size32(es)
    ensures var text := Text(Canon(Item(es, i), m.style)); var left := LineLeft(es, i + 1, m);
      if i == 0 then start + Blank(m) + text + left == start + LineLeft(es, 0, m)
      else document + ("," + Blank(m)) + text + left == document + LineLeft(es, i, m)
  {
    hide Text, Canon, Item, Size32, Blank, LineLeft;
    LineLeftStep(es, i, m);
    var text, left := Text(Canon(Item(es, i), m.style)), LineLeft(es, i + 1, m);
    assert [] + Blank(m) == Blank(m);
    Append3(start, Blank(m), text, left);
    assert start + (Blank(m) + text + left) == start + Blank(m) + text + left;
    assert document + ("," + Blank(m)) + text + left == document + ("," + Blank(m) + text + left);
  }

  /** The line of the closing bracket. */
  lemma LastElement(es: Entries, d: nat, m: Manner)
    ensures BrokenLeft(es, Size32(es), d, m) == Line(m, d) + "]"
  {}

  lemma LastMember(es: Entries, d: nat, m: Manner)
    ensures BrokenMembersLeft(es, Count(es), d, m) == Line(m, d) + "}"
  {}

  lemma LastOnLine(es: Entries, m: Manner)
    ensures LineLeft(es, Size32(es), m) == Blank(m) + "]"
  {}

  lemma MemberWritten(start: bytes, line: bytes, quoted: bytes, colon: bytes, text: bytes)
    ensures start + (line + quoted) + colon + text == start + (line + (quoted + colon + text))
  {
    assert start + (line + quoted) + colon + text == start + (line + quoted + colon + text);
    assert line + quoted + colon + text == line + (quoted + colon + text);
  }

  /** What has nothing in it is written as it is. */
  lemma LeafLaid(p: Payload, d: nat, m: Manner)
    requires Leaf(p) && Counted(p)
    ensures Laid(p, d, m) == Canon(p, m.style)
  {
    if p.Arr? {
      assert LineElements(p.items, 0, m) == NoElement && CanonElements(p.items, 0, m.style) == NoElement;
    }
  }

  lemma CacheStart(es: Entries, style: Style)
    requires 0 < Size32(es)
    ensures ((4 + (Size32(es) - 1) * 2) % 0x1_0000_0000 + ElementsLength(es, 0, style)) % 0x1_0000_0000
         == LineSize(es, style) % 0x1_0000_0000
  {
    hide Size32, ElementsLength;
    WrapSum(4 + (Size32(es) - 1) * 2, 0, ElementsLength(es, 0, style));
  }

  lemma CacheEnd(es: Entries, style: Style, length: nat)
    requires length < 0x1_0000_0000
    ensures (length + ElementsLength(es, Size32(es), style)) % 0x1_0000_0000 == length
  {}

  /** The length of the line with one element more, in 32 bits. */
  lemma CacheStep(es: Entries, i: nat, style: Style, length: nat, text: bytes)
    requires i < Size32(es) && text == Text(Canon(Item(es, i), style))
    ensures ((length + |text|) % 0x1_0000_0000 + ElementsLength(es, i + 1, style)) % 0x1_0000_0000
         == (length + ElementsLength(es, i, style)) % 0x1_0000_0000
  {
    hide Item, Size32, Text, Canon;
    WrapSum(length, |text|, ElementsLength(es, i + 1, style));
  }

  /** Sums in 32 bits. */
  lemma WrapSum(a: nat, b: nat, c: nat)
    ensures ((a + b) % 0x1_0000_0000 + c) % 0x1_0000_0000 == (a + (b + c)) % 0x1_0000_0000
  {}

  // ----- How long a line is --------------------------------------------------------------------

  /** The length that decides is that of the array's text on one line, where lines are broken at all. */
  lemma LineLength(es: Entries, m: Manner)
    requires Size32(es) != 0 && m.breaks
    ensures |"[" + LineLeft(es, 0, m)| == LineSize(es, m.style)
  {
    hide Canon, Item, Text, ElementsText, Size32;
    LineLeftLength(es, 0, m);
  }

  lemma {:induction false} LineLeftLength(es: Entries, i: nat, m: Manner)
    requires m.breaks && i <= Size32(es)
    ensures |LineLeft(es, i, m)| == (if i == 0 && i < Size32(es) then -1 else 0) + (Size32(es) - i) * 2 + 2
                                    + ElementsLength(es, i, m.style)
    decreases Size32(es) - i
  {
    hide Canon, Item, Text, ElementsText, Size32;
    if i < Size32(es) {
      LineLeftStep(es, i, m);
      LineLeftLength(es, i + 1, m);
    }
  }

  /** Where nothing wraps: at most 24 elements, with nothing in them, and at most 73 bytes on the line. */
  lemma OneLinerMeans(es: Entries, m: Manner)
    requires m.breaks && 0 < Size32(es) && Size32(es) * 3 < 0x1_0000_0000 && |LineLeft(es, 0, m)| < 0xFFFF_FFFF
    ensures OneLiner(es, m.style) <==>
      && Size32(es) <= 24 && (forall i :: 0 <= i < Size32(es) ==> Leaf(Item(es, i)))
      && |"[" + LineLeft(es, 0, m)| <= 73
  {
    hide Size32, LineLeft, Leaf, Item, LineSize;
    LineLength(es, m);
  }

  // ----- Two samples ---------------------------------------------------------------------------

  /** An object with one integer. */
  function OneInt(name: bytes, i: int): Payload { OneMember(name, Int(i)) }

  /** An array of two integers. */
  function TwoInts(i: int, j: int): Payload {
    Arr(Cons(Index(0), Value(Int(i), 0, 0), Cons(Index(1), Value(Int(j), 0, 0), Nil)))
  }

  /** An object with one member. */
  function OneMember(name: bytes, p: Payload): Payload { Obj(Cons(Name(name), Value(p, 0, 0), Nil)) }

  lemma OneMemberText(name: bytes, p: Payload, d: nat, m: Manner)
    ensures Text(Laid(OneMember(name, p), d, m))
      == "{" + Line(m, d + 1) + NamePart(name, m) + (Lead(p, d + 1, m) + Text(Laid(p, d + 1, m))) + Line(m, d) + "}"
  {
    hide Line, Lead, NamePart, BrokenMembersLeft, Laid, Text;
    var o := OneMember(name, p);
    LaidText(o, d, m);
    BrokenMembersLeftStep(o.members, 0, d, m);
    LastMember(o.members, d, m);
    OneMemberParts(Line(m, d + 1), NamePart(name, m), Lead(p, d + 1, m) + Text(Laid(p, d + 1, m)), Line(m, d));
  }

  lemma OneMemberParts(line: bytes, name: bytes, text: bytes, last: bytes)
    ensures "{" + ([] + line + name + text + (last + "}")) == "{" + line + name + text + last + "}"
  {
    assert [] + line == line;
    assert "{" + (line + name + text + (last + "}")) == "{" + line + name + text + (last + "}");
  }

  lemma OneIntText(name: bytes, i: int, d: nat, m: Manner)
    ensures Text(Laid(OneInt(name, i), d, m))
      == "{" + Line(m, d + 1) + NamePart(name, m) + ShowInt(i) + Line(m, d) + "}"
  {
    hide Line, NamePart, ShowInt, NumberText, IntegerNumber;
    OneMemberText(name, Int(i), d, m);
    IntegerNumberText(i);
    assert [] + ShowInt(i) == ShowInt(i);
  }

  lemma TwoIntsText(i: int, j: int, m: Manner)
    requires m.measured && OneLiner(TwoInts(i, j).items, m.style)
    ensures Text(Laid(TwoInts(i, j), 0, m))
      == "[" + Blank(m) + ShowInt(i) + "," + Blank(m) + ShowInt(j) + Blank(m) + "]"
  {
    hide Blank, ShowInt, LineLeft, NumberText, IntegerNumber, OneLiner, Laid, Item, Size32;
    var p := TwoInts(i, j);
    TwoItems(i, j);
    LaidText(p, 0, m);
    LineLeftStep(p.items, 0, m);
    LineLeftStep(p.items, 1, m);
    LastOnLine(p.items, m);
    IntegerNumberText(i);
    IntegerNumberText(j);
    TwoIntsParts(Blank(m), ShowInt(i), ShowInt(j));
  }

  lemma TwoLinesText(i: int, j: int, m: Manner)
    requires !m.measured
    ensures Text(Laid(TwoInts(i, j), 0, m))
      == "[" + Line(m, 1) + ShowInt(i) + "," + Line(m, 1) + ShowInt(j) + Line(m, 0) + "]"
  {
    hide Line, ShowInt, BrokenLeft, NumberText, IntegerNumber, OneLiner, Item, Size32, Laid, Text;
    var p := TwoInts(i, j);
    TwoItems(i, j);
    LaidText(p, 0, m);
    BrokenLeftStep(p.items, 0, 0, m);
    BrokenLeftStep(p.items, 1, 0, m);
    LastElement(p.items, 0, m);
    LaidInt(i, 1, m);
    LaidInt(j, 1, m);
    TwoLinesParts(Line(m, 1), Line(m, 0), ShowInt(i), ShowInt(j));
  }

  lemma TwoLinesParts(a: bytes, b: bytes, x: bytes, y: bytes)
    ensures "[" + ([] + a + x + ("," + a + y + (b + "]"))) == "[" + a + x + "," + a + y + b + "]"
  {
    assert [] + a == a;
    assert "," + a + y + (b + "]") == "," + a + y + b + "]";
    assert "[" + (a + x + ("," + a + y + b + "]")) == "[" + a + x + ("," + a + y + b + "]");
  }

  lemma LaidInt(i: int, d: nat, m: Manner)
    ensures Text(Laid(Int(i), d, m)) == ShowInt(i)
  {
    IntegerNumberText(i);
  }

  lemma TwoIntsParts(b: bytes, x: bytes, y: bytes)
    ensures "[" + ([] + b + x + ("," + b + y + (b + "]"))) == "[" + b + x + "," + b + y + b + "]"
  {
    assert [] + b == b;
    assert "," + b + y + (b + "]") == "," + b + y + b + "]";
    assert "[" + (b + x + ("," + b + y + b + "]")) == "[" + b + x + ("," + b + y + b + "]");
  }

  lemma TwoItems(i: int, j: int)
    ensures var es := TwoInts(i, j).items; Size32(es) == 2 && Item(es, 0) == Int(i) && Item(es, 1) == Int(j)
  {
    var es := TwoInts(i, j).items;
    assert ArraySize(es.rest) == 2 && ArraySize(es) == 2;
    assert Find(es.rest, Index(1)) == Some(Value(Int(j), 0, 0));
  }

  /** Two integers of 64 bits always fit on a line. */
  lemma TwoIntsFit(i: int, j: int, style: Style)
    requires |ShowInt(i)| <= 20 && |ShowInt(j)| <= 20
    ensures OneLiner(TwoInts(i, j).items, style)
  {
    hide ShowInt, NumberText, IntegerNumber, Item, Size32;
    TwoItems(i, j);
    IntegerNumberText(i);
    IntegerNumberText(j);
    var es := TwoInts(i, j).items;
    assert ElementsLength(es, 2, style) == 0;
    assert ElementsLength(es, 1, style) == |ShowInt(j)|;
    assert ElementsLength(es, 0, style) == |ShowInt(i)| + |ShowInt(j)|;
  }

  // ----- Texts as the writers put them together ------------------------------------------------

  lemma EmptySpace()
    ensures AllSpace([])
  {}

  lemma SpaceConcat(a: bytes, b: bytes)
    requires AllSpace(a) && AllSpace(b)
    ensures AllSpace(a + b)
  {}

  lemma Regroup3(a: bytes, b: bytes, c: bytes, d: bytes)
    ensures a + (b + (c + d)) == a + b + c + d
  {}

  lemma Unpadded(text: bytes, close: bytes)
    ensures [] + (text + ([] + close)) == text + close
  {
    assert [] + close == close;
  }

  lemma ElementsTextStep(es: Elements)
    requires es.Element? && es.before == [] && es.after == []
    ensures ElementsText(es) == Text(es.value) + (if es.rest.NoElement? then "]" else "," + ElementsText(es.rest))
  {
    hide Text;
    Unpadded(Text(es.value), if es.rest.NoElement? then "]" else "," + ElementsText(es.rest));
  }

  lemma MembersTextStep(m: Members)
    requires m.Member?
    ensures MembersText(m)
      == NameText(m)
         + (m.before2
            + (Text(m.value) + (m.after + (if m.rest.NoMember? then "}" else "," + MembersText(m.rest)))))
  {}

  lemma NameTextStep(m: Members)
    requires m.Member?
    ensures NameText(m) == m.before + LabelText(m.name) + m.mid + ":"
  {
    hide StringText;
    assert m.before + (LabelText(m.name) + (m.mid + ":")) == m.before + LabelText(m.name) + m.mid + ":";
  }

  lemma Regroup(a: bytes, b: bytes, c: bytes, d: bytes, e: bytes)
    ensures a + (b + (c + (d + e))) == a + b + c + d + e
  {}
}
