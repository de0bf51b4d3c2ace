/** BuiltStyledStreamWriter, the writer that StreamWriterBuilder configures. */
module BuiltStyledWriting {
  import opened Bytes
  import opened JsonValues
  import opened Grammar
  import opened Canonical
  import opened Layouts
  import opened Numbers
  import Strings
  import Tidiness
  import ValueOrder

  datatype CommentStyle = NoComments | AllComments

  class BuiltStyledStreamWriter {
    const rightMargin: nat := MARGIN
    const indentation: bytes
    const commentStyle: CommentStyle
    /** The colon symbol is a colon between two stretches of whitespace. */
    const colonBefore: bytes
    const colonAfter: bytes
    /** An empty null symbol. */
    const dropNulls: bool
    const endingLineFeedSymbol: bytes
    const emitUTF8: bool
    const showDouble: Double -> Shown
    var sout: bytes
    var childValues: seq<bytes>
    var addChildValues: bool
    var indented: bool
    var indentString: bytes

    constructor (indent: bytes, comments: CommentStyle, before: bytes, after: bytes, drop: bool, lineFeed: bytes,
                 utf8: bool, show: Double -> Shown)
      requires AllSpace(indent) && AllSpace(before) && AllSpace(after) && AllSpace(lineFeed)
      ensures Valid() && indentation == indent && commentStyle == comments && colonBefore == before
      ensures colonAfter == after && dropNulls == drop && endingLineFeedSymbol == lineFeed
      ensures emitUTF8 == utf8 && showDouble == show
    {
      indentation, commentStyle, colonBefore, colonAfter := indent, comments, before, after;
      dropNulls, endingLineFeedSymbol, emitUTF8, showDouble := drop, lineFeed, utf8, show;
      sout, childValues, addChildValues, indented, indentString := [], [], false, false, [];
    }

    /** All that is inserted is whitespace; and the cache is never filled when comments are kept, since
        every array then goes on several lines without being measured. */
    predicate Valid()
      reads `childValues, `addChildValues
    {
      && AllSpace(indentation) && AllSpace(colonBefore) && AllSpace(colonAfter) && AllSpace(endingLineFeedSymbol)
      && (commentStyle == AllComments ==> childValues == [] && !addChildValues)
    }

    function Style(): Style { Canonical.Style(dropNulls, emitUTF8, showDouble, []) }

    /** Lines are broken where there is an indentation, arrays measured where no comments are kept, and a
        container on several lines starts a line of its own. */
    function Manner(): Manner {
      Layouts.Manner(Style(), indentation, indentation != [], commentStyle == NoComments, colonBefore, colonAfter, true)
    }

    /** The tree this writer lays out. */
    function Tree(value: Payload): Tree { Canon(value, Style()) }

    /** The text of a value that begins at depth `d`, with the line break before it if it has none yet. */
    function LaidOut(value: Payload, d: nat, placed: bool): bytes {
      (if placed then [] else Lead(value, d, Manner())) + Text(Laid(value, d, Manner()))
    }

    /** The cache holds exactly one entry per element, its text, and no element has something in it. */
    predicate Cached(es: Entries)
      reads `childValues
    {
      && |childValues| == Size32(es)
      && forall i :: 0 <= i < |childValues| ==> childValues[i] == Text(Tree(Item(es, i))) && Leaf(Item(es, i))
    }

    /** write: the value laid out, and the ending symbol. */
    method Write(value: Value) returns (text: bytes)
      requires Writable(value.data) && Valid()
      modifies this
      ensures Valid()
      ensures text == Text(Laid(value.data, 0, Manner())) + endingLineFeedSymbol
      ensures Tidiness.Orderly(Manner()) && (endingLineFeedSymbol == [] || endingLineFeedSymbol == "\n")
              ==> Tidiness.Indented(text, indentation) && Tidiness.OnLines(text)
      ensures Squeeze(text, false) == Text(Tree(value.data))
    {
      hide Squeeze, Text, Canon, Laid, Tidiness.Indented, Tidiness.OnLines, Tidiness.Orderly, CountedEntries;
      sout := [];
      addChildValues := false;
      indented := true;
      indentString := [];
      WriteValue(value.data, 0);
      ghost var t := Laid(value.data, 0, Manner());
      assert [] + ([] + Text(t)) == Text(t);
      sout := sout + endingLineFeedSymbol;
      text := sout;
      LaidBare(value.data, 0, Manner());
      assert [] + Text(t) + endingLineFeedSymbol == text;
      if Tidiness.Orderly(Manner()) && (endingLineFeedSymbol == [] || endingLineFeedSymbol == "\n") {
        Tidiness.LaidIsTidy(value.data, Manner(), endingLineFeedSymbol);
      }
      LayoutIndependence(value.data, Style(), [], t, endingLineFeedSymbol);
    }

    method PushValue(value: bytes)
      modifies `sout, `childValues
      ensures if addChildValues then sout == old(sout) && childValues == old(childValues) + [value]
              else sout == old(sout) + value && childValues == old(childValues)
    {
      if addChildValues {
        childValues := childValues + [value];
      } else {
        sout := sout + value;
      }
    }

    /** writeIndent: nothing at all when the indentation is empty. */
    method WriteIndent(ghost d: nat)
      requires indentString == Repeat(indentation, d)
      modifies `sout
      ensures sout == old(sout) + Line(Manner(), d)
    {
      assert sout + [] == sout;
      if indentation != [] {
        sout := sout + ("\n" + indentString);
      }
    }

    method WriteWithIndent(value: bytes, ghost d: nat)
      requires indentString == Repeat(indentation, d)
      modifies `sout, `indented
      ensures sout == old(sout) + ((if old(indented) then [] else Line(Manner(), d)) + value) && !indented
    {
      hide Line, Repeat;
      assert sout + [] == sout;
      if !indented {
        WriteIndent(d);
      }
      ghost var before := sout;
      sout := sout + value;
      indented := false;
      assert old(indented) ==> [] + value == value;
      assert !old(indented) ==> old(sout) + Line(Manner(), d) + value == old(sout) + (Line(Manner(), d) + value);
    }

    method Indent(ghost d: nat)
      requires indentString == Repeat(indentation, d)
      modifies `indentString
      ensures indentString == Repeat(indentation, d + 1)
    {
      indentString := indentString + indentation;
    }

    method Unindent(ghost d: nat)
      requires indentString == Repeat(indentation, d + 1)
      modifies `indentString
      ensures indentString == Repeat(indentation, d)
    {
      indentString := indentString[..|indentString| - |indentation|];
    }

    /** writeValue at depth `d`: appends the value laid out, or, while the cache is being filled, its text to
        the cache. */
    method WriteValue(value: Payload, ghost d: nat)
      requires Writable(value) && Valid() && indentString == Repeat(indentation, d) && (addChildValues ==> Leaf(value))
      modifies this
      ensures Valid()
      ensures addChildValues == old(addChildValues) && indentString == old(indentString)
      ensures indented == (old(indented) && (addChildValues || !Broken(value, Manner())))
      ensures addChildValues ==> sout == old(sout) && childValues == old(childValues) + [Text(Tree(value))]
      ensures !addChildValues ==> sout == old(sout) + LaidOut(value, d, old(indented))
      decreases ValueOrder.Size(value), 0
    {
      hide StringText, Strings.Quote, Numbers.Show, NumberText, BrokenElements, LineElements, BrokenMembers,
        CanonElements, CanonMembers, AllSpace, OneLiner, Line, Repeat;
      if value.Arr? {
        WriteArrayValue(value.items, d);
      } else if value.Obj? {
        WriteObjectValue(value.members, d);
      } else {
        WriteScalar(value);
        assert [] + Text(Tree(value)) == Text(Tree(value));
      }
    }

    /** The cases of writeValue that are no containers. */
    method WriteScalar(value: Payload)
      requires WellFormed(value) && !value.Arr? && !value.Obj?
      modifies `sout, `childValues
      ensures if addChildValues then sout == old(sout) && childValues == old(childValues) + [Text(Tree(value))]
              else sout == old(sout) + Text(Tree(value)) && childValues == old(childValues)
    {
      hide StringText, Strings.Quote, Numbers.Show, NumberText;
      match value {
        case Null => PushValue(if dropNulls then [] else "null");
        case Int(i) =>
          var s := Numbers.SignedToString(i as Numbers.int64);
          IntegerNumberText(i);
          PushValue(s);
        case UInt(u) =>
          var s := Numbers.UnsignedToString(u as Numbers.uint64);
          IntegerNumberText(u);
          PushValue(s);
        case Real(d) => PushValue(Text(showDouble(d)));
        case Str(s) =>
          var quoted := Strings.ValueToQuotedString(s, emitUTF8);
          PushValue(quoted);
        case Bool(b) => PushValue(if b then "true" else "false");
      }
    }

    method WriteArrayValue(es: Entries, ghost d: nat)
      requires Writable(Arr(es)) && Valid() && indentString == Repeat(indentation, d)
      requires addChildValues ==> Leaf(Arr(es))
      modifies this
      ensures Valid()
      ensures addChildValues == old(addChildValues) && indentString == old(indentString)
      ensures indented == (old(indented) && (addChildValues || !Broken(Arr(es), Manner())))
      ensures addChildValues ==> sout == old(sout) && childValues == old(childValues) + [Text(Tree(Arr(es)))]
      ensures !addChildValues ==> sout == old(sout) + LaidOut(Arr(es), d, old(indented))
      decreases ValueOrder.EntriesSize(es), 3
    {
      hide Laid, Canon, Text, AllSpace, Cached, OneLiner, Line, Repeat, BrokenLeft, LineLeft;
      LaidText(Arr(es), d, Manner());
      ghost var text := Text(Laid(Arr(es), d, Manner()));
      assert [] + text == text;
      if Size32(es) == 0 {
        LeafLaid(Arr(es), d, Manner());
        PushValue("[]");
      } else {
        var isMultiLine := commentStyle == AllComments;
        if !isMultiLine {
          isMultiLine := IsMultilineArray(es, d);
        }
        if isMultiLine {
          WriteMultiline(es, d);
          Regrouped(old(sout), if old(indented) then [] else Line(Manner(), d), "[", BrokenLeft(es, 0, d, Manner()));
        } else {
          WriteSingleLine(es);
        }
      }
    }

    /** isMultilineArray: no exactly for short arrays; and then the cache holds the text of every element. */
    method IsMultilineArray(es: Entries, ghost d: nat) returns (isMultiLine: bool)
      requires Writable(Arr(es)) && Valid() && indentString == Repeat(indentation, d) && !addChildValues
      requires 0 < Size32(es) && commentStyle == NoComments
      modifies this
      ensures Valid() && indented == old(indented)
      ensures sout == old(sout) && indentString == old(indentString) && !addChildValues
      ensures isMultiLine <==> !OneLiner(es, Style())
      ensures childValues == [] || Cached(es)
      ensures !isMultiLine ==> Cached(es)
      decreases ValueOrder.EntriesSize(es), 2
    {
      hide Canon, Text, AllSpace, Item, Size32, Leaf, FewLeaves;
      var size := Size32(es);
      isMultiLine := size * 3 % 0x1_0000_0000 >= rightMargin;
      childValues := [];
      var few := FewElements(es, !isMultiLine);
      isMultiLine := !few;
      if !isMultiLine {
        var lineLength := FillCache(es, d);
        isMultiLine := lineLength >= rightMargin;
      }
    }

    /** The loop that looks for an element with something in it. */
    method FewElements(es: Entries, small: bool) returns (few: bool)
      requires small <==> Size32(es) * 3 % 0x1_0000_0000 < MARGIN
      ensures few <==> FewLeaves(es)
    {
      hide Item, Size32, Leaf;
      few := small;
      var index := 0;
      while index < Size32(es) && few
        invariant index <= Size32(es) && (few ==> small && forall i :: 0 <= i < index ==> Leaf(Item(es, i)))
        invariant !few ==> !FewLeaves(es)
      {
        few := Leaf(Item(es, index));
        index := index + 1;
      }
    }

    /** The loop that fills the cache and adds up the length of the line. */
    method FillCache(es: Entries, ghost d: nat) returns (lineLength: nat)
      requires Writable(Arr(es)) && Valid() && indentString == Repeat(indentation, d) && !addChildValues
      requires 0 < Size32(es) && commentStyle == NoComments && FewLeaves(es) && childValues == []
      modifies this
      ensures Valid() && indented == old(indented)
      ensures sout == old(sout) && indentString == old(indentString) && !addChildValues
      ensures Cached(es) && lineLength == LineSize(es, Style()) % 0x1_0000_0000
      decreases ValueOrder.EntriesSize(es), 1
    {
      hide Canon, Text, AllSpace, Item, Size32, Leaf, ElementsLength, LineSize, Writable, Broken;
      var size := Size32(es);
      addChildValues := true;
      CacheStart(es, Style());
      lineLength := (4 + (size - 1) * 2) % 0x1_0000_0000;
      var index := 0;
      while index < size
        invariant index <= size && addChildValues && |childValues| == index && Valid() && indented == old(indented)
        invariant sout == old(sout) && indentString == old(indentString) && lineLength < 0x1_0000_0000
        invariant forall i :: 0 <= i < index ==> childValues[i] == Text(Tree(Item(es, i)))
        invariant (lineLength + ElementsLength(es, index, Style())) % 0x1_0000_0000
               == LineSize(es, Style()) % 0x1_0000_0000
      {
        ItemWritable(es, index);
        ItemSize(es, index);
        WriteValue(Item(es, index), d);
        CacheStep(es, index, Style(), lineLength, childValues[index]);
        lineLength := (lineLength + |childValues[index]|) % 0x1_0000_0000;
        index := index + 1;
      }
      addChildValues := false;
      CacheEnd(es, Style(), lineLength);
    }

    /** One element of a multi-line array, at depth `d`. */
    method WriteElement(es: Entries, index: nat, hasChildValue: bool, ghost d: nat)
      requires Writable(Arr(es)) && Valid() && indentString == Repeat(indentation, d) && !addChildValues
      requires index < Size32(es) && (hasChildValue ==> Cached(es)) && !indented
      modifies this
      ensures Valid() && !addChildValues && indentString == old(indentString) && !indented
      ensures hasChildValue ==> childValues == old(childValues)
      ensures sout == old(sout) + (Line(Manner(), d) + Text(Laid(Item(es, index), d, Manner())))
      decreases ValueOrder.EntriesSize(es), 1
    {
      hide Canon, Laid, Text, AllSpace, Item, Size32, Leaf, Repeat, Line;
      ItemWritable(es, index);
      ItemSize(es, index);
      if hasChildValue {
        LeafLaid(Item(es, index), d, Manner());
        WriteWithIndent(childValues[index], d);
      } else {
        WriteIndent(d);
        indented := true;
        WriteValue(Item(es, index), d);
        indented := false;
        ghost var text := Text(Laid(Item(es, index), d, Manner()));
        assert [] + text == text;
        assert old(sout) + Line(Manner(), d) + text == old(sout) + (Line(Manner(), d) + text);
      }
    }

    method WriteMultiline(es: Entries, ghost d: nat)
      requires Writable(Arr(es)) && Valid() && indentString == Repeat(indentation, d) && !addChildValues
      requires 0 < Size32(es) && (childValues == [] || Cached(es))
      modifies this
      ensures Valid() && !addChildValues && indentString == old(indentString) && !indented
      ensures sout == old(sout) + ((if old(indented) then [] else Line(Manner(), d)) + "[")
                      + BrokenLeft(es, 0, d, Manner())
      decreases ValueOrder.EntriesSize(es), 2
    {
      hide Canon, Laid, Text, AllSpace, Item, Size32, Cached, BrokenLeft, Line, Repeat, Leaf;
      var size := Size32(es);
      ghost var m := Manner();
      WriteWithIndent("[", d);
      Indent(d);
      var hasChildValue := childValues != [];
      var index := 0;
      ghost var start := sout;
      ghost var done := start;
      assert done + [] == done;
      while true
        invariant index < size && sout == done + Comma(index) && !indented
        invariant done + BrokenLeft(es, index, d, m) == start + BrokenLeft(es, 0, d, m)
        invariant hasChildValue ==> Cached(es)
        invariant Valid() && !addChildValues && indentString == Repeat(indentation, d + 1)
        decreases size - index
      {
        WriteElement(es, index, hasChildValue, d + 1);
        NextElement(done, es, index, d, m);
        done := sout;
        index := index + 1;
        if index == size {
          break;
        }
        sout := sout + ",";
      }
      Unindent(d);
      WriteWithIndent("]", d);
      LastElement(es, d, m);
    }

    /** The elements on one line, from the cache. */
    method WriteSingleLine(es: Entries)
      requires Writable(Arr(es)) && !addChildValues && 0 < Size32(es) && Cached(es)
      modifies `sout
      ensures sout == old(sout) + ("[" + LineLeft(es, 0, Manner()))
    {
      hide Canon, Text, Item, Size32, LineLeft, Leaf;
      var size := Size32(es);
      ghost var m := Manner();
      var gap: bytes := if indentation != [] then " " else [];
      assert gap == Blank(m);
      sout := sout + "[";
      ghost var start := sout;
      sout := sout + gap;
      var index := 0;
      while index < size
        invariant index <= size
        invariant if index == 0 then sout == start + gap
                  else sout + LineLeft(es, index, m) == start + LineLeft(es, 0, m)
      {
        NextOnLine(start, sout, es, index, m);
        if index > 0 {
          sout := sout + ("," + gap);
        }
        sout := sout + childValues[index];
        index := index + 1;
      }
      ghost var before := sout;
      sout := sout + gap;
      sout := sout + "]";
      LastOnLine(es, m);
      assert before + gap + "]" == before + (gap + "]");
      assert start + LineLeft(es, 0, m) == old(sout) + ("[" + LineLeft(es, 0, m));
    }

    method WriteObjectValue(es: Entries, ghost d: nat)
      requires Writable(Obj(es)) && Valid() && indentString == Repeat(indentation, d)
      requires addChildValues ==> Leaf(Obj(es))
      modifies this
      ensures Valid()
      ensures addChildValues == old(addChildValues) && indentString == old(indentString)
      ensures indented == (old(indented) && (addChildValues || !Broken(Obj(es), Manner())))
      ensures addChildValues ==> sout == old(sout) && childValues == old(childValues) + [Text(Tree(Obj(es)))]
      ensures !addChildValues ==> sout == old(sout) + LaidOut(Obj(es), d, old(indented))
      decreases ValueOrder.EntriesSize(es), 3
    {
      hide Laid, Canon, Text, AllSpace, Drop, BrokenMembersLeft, Line, Repeat;
      var members := MemberNames(es);
      LaidText(Obj(es), d, Manner());
      ghost var text := Text(Laid(Obj(es), d, Manner()));
      assert [] + text == text;
      if members == [] {
        LeafLaid(Obj(es), d, Manner());
        PushValue("{}");
      } else {
        WriteMembers(es, members, d);
        Regrouped(old(sout), if old(indented) then [] else Line(Manner(), d), "{",
          BrokenMembersLeft(es, 0, d, Manner()));
      }
    }

    method WriteMembers(es: Entries, names: seq<bytes>, ghost d: nat)
      requires Writable(Obj(es)) && Valid() && indentString == Repeat(indentation, d) && !addChildValues
      requires 0 < |names| == Count(es)
      requires forall i :: 0 <= i < |names| ==> Drop(es, i).Cons? && names[i] == NameBytes(Drop(es, i).key)
      modifies this
      ensures Valid() && !addChildValues && indentString == old(indentString) && !indented
      ensures sout == old(sout) + ((if old(indented) then [] else Line(Manner(), d)) + "{")
                      + BrokenMembersLeft(es, 0, d, Manner())
      decreases ValueOrder.EntriesSize(es), 2
    {
      hide Canon, Laid, Text, AllSpace, BrokenMembersLeft, Line, Repeat, NamePart, NameBytes, Drop, Lead;
      ghost var m := Manner();
      WriteWithIndent("{", d);
      Indent(d);
      var it := 0;
      ghost var start := sout;
      ghost var done := start;
      assert done + [] == done;
      while true
        invariant it < |names| && sout == done + Comma(it) && !indented
        invariant done + BrokenMembersLeft(es, it, d, m) == start + BrokenMembersLeft(es, 0, d, m)
        invariant Valid() && !addChildValues && indentString == Repeat(indentation, d + 1)
        decreases |names| - it
      {
        WriteMember(es, names[it], it, d + 1);
        NextMember(done, es, it, d, m);
        done := sout;
        it := it + 1;
        if it == |names| {
          break;
        }
        sout := sout + ",";
      }
      Unindent(d);
      WriteWithIndent("}", d);
      LastMember(es, d, m);
    }

    /** One member, at depth `d`. */
    method WriteMember(es: Entries, name: bytes, ghost it: nat, ghost d: nat)
      requires Writable(Obj(es)) && Valid() && indentString == Repeat(indentation, d) && !addChildValues && !indented
      requires it < Count(es) && Drop(es, it).Cons? && name == NameBytes(Drop(es, it).key)
      modifies this
      ensures Valid() && !addChildValues && indentString == old(indentString) && !indented
      ensures sout == old(sout)
        + (Line(Manner(), d) + (NamePart(name, Manner()) + LaidOut(Drop(es, it).val.data, d, false)))
      decreases ValueOrder.EntriesSize(es), 1
    {
      hide Canon, Laid, Text, AllSpace, StringText, Strings.Quote, Repeat, Line, Lead;
      DropWellFormed(es, it, false);
      FindDrop(es, it);
      MemberWritable(es, Name(name));
      FindSize(es, Name(name));
      var quoted := Strings.ValueToQuotedString(name, emitUTF8);
      WriteWithIndent(quoted, d);
      sout := sout + (colonBefore + ":" + colonAfter);
      WriteValue(Find(es, Name(name)).value.data, d);
      MemberWritten(old(sout), Line(Manner(), d), quoted, colonBefore + ":" + colonAfter,
        LaidOut(Drop(es, it).val.data, d, false));
    }
  }

  /** Two samples of what this writer writes with an indentation: an object in an object starts a line, and an array
      of two integers takes three lines where comments are kept. */
  lemma Samples(w: BuiltStyledStreamWriter, name: bytes, i: int, j: int)
    requires |ShowInt(i)| <= 20 && |ShowInt(j)| <= 20 && w.indentation != []
    ensures var unit, colon := w.indentation, w.colonBefore + ":" + w.colonAfter;
      var part := StringText(Strings.Quote(name, w.emitUTF8)) + colon;
      Text(Laid(OneMember(name, OneInt(name, i)), 0, w.Manner()))
        == "{\n" + unit + part + "\n" + unit + "{\n" + unit + unit + part + ShowInt(i) + "\n" + unit + "}\n}"
    ensures Text(Laid(TwoInts(i, j), 0, w.Manner()))
      == if w.commentStyle == NoComments then "[ " + ShowInt(i) + ", " + ShowInt(j) + " ]"
         else "[\n" + w.indentation + ShowInt(i) + ",\n" + w.indentation + ShowInt(j) + "\n]"
  {
    hide ShowInt, StringText, Strings.Quote, OneLiner, Laid, Line, Text, NamePart;
    var m := w.Manner();
    Lines(m);
    OneMemberText(name, OneInt(name, i), 0, m);
    OneIntText(name, i, 1, m);
    NestedParts(w.indentation, NamePart(name, m), ShowInt(i));
    PartIs(name, m);
    if w.commentStyle == NoComments {
      TwoIntsFit(i, j, m.style);
      TwoIntsText(i, j, m);
      assert "[" + " " == "[ " && "[ " + ShowInt(i) + "," + " " == "[ " + ShowInt(i) + ", ";
      assert "[ " + ShowInt(i) + ", " + ShowInt(j) + " " + "]" == "[ " + ShowInt(i) + ", " + ShowInt(j) + " ]";
    } else {
      TwoLinesText(i, j, m);
      LineParts(w.indentation, ShowInt(i), ShowInt(j));
    }
  }

  lemma Lines(m: Manner)
    requires m.breaks
    ensures Line(m, 0) == "\n" && Line(m, 1) == "\n" + m.unit && Line(m, 2) == "\n" + (m.unit + m.unit)
  {
    assert Repeat(m.unit, 0) == [] && Repeat(m.unit, 1) == [] + m.unit == m.unit;
    assert Repeat(m.unit, 2) == m.unit + m.unit && "\n" + [] == "\n";
  }

  lemma PartIs(name: bytes, m: Manner)
    ensures NamePart(name, m) == StringText(Strings.Quote(name, m.style.emitUTF8)) + (m.before + ":" + m.after)
  {}

  lemma NestedParts(unit: bytes, part: bytes, text: bytes)
    ensures var inner := "{" + ("\n" + (unit + unit)) + part + text + ("\n" + unit) + "}";
      "{" + ("\n" + unit) + part + (("\n" + unit) + inner) + "\n" + "}"
        == "{\n" + unit + part + "\n" + unit + "{\n" + unit + unit + part + text + "\n" + unit + "}\n}"
  {
    assert "{" + "\n" == "{\n" && "}" + "\n" + "}" == "}\n}";
    var inner := "{" + ("\n" + (unit + unit)) + part + text + ("\n" + unit) + "}";
    assert inner == "{\n" + unit + unit + part + text + "\n" + unit + "}";
    var outer := "{\n" + unit + part + "\n" + unit;
    assert "{" + ("\n" + unit) + part + (("\n" + unit) + inner) + "\n" + "}" == outer + inner + "\n" + "}";
    assert outer + inner + "\n" + "}" == outer + "{\n" + unit + unit + part + text + "\n" + unit + ("}" + "\n" + "}");
  }

  lemma LineParts(unit: bytes, x: bytes, y: bytes)
    ensures "[" + ("\n" + unit) + x + "," + ("\n" + unit) + y + "\n" + "]"
      == "[\n" + unit + x + ",\n" + unit + y + "\n]"
  {
    assert "[" + "\n" == "[\n" && "," + "\n" == ",\n" && "\n" + "]" == "\n]";
    assert "[" + ("\n" + unit) + x == "[\n" + unit + x;
    assert "[\n" + unit + x + "," + ("\n" + unit) + y == "[\n" + unit + x + ",\n" + unit + y;
    assert "[\n" + unit + x + ",\n" + unit + y + "\n" + "]" == "[\n" + unit + x + ",\n" + unit + y + "\n]";
  }

  lemma Regrouped(start: bytes, line: bytes, open: bytes, rest: bytes)
    ensures start + (line + open) + rest == start + (line + (open + rest))
  {
    assert start + (line + open) + rest == start + (line + open + rest);
  }
}
