/** FastWriter: the writer that adds no whitespace of its own. */
module FastWriting {
  import opened Bytes
  import opened JsonValues
  import opened Grammar
  import opened Canonical
  import opened Layouts
  import opened Numbers
  import Strings
  import ValueOrder

  /** The rest of an array's text when `i` elements have been written. */
  function ElementsLeft(es: Entries, i: nat, style: Style): bytes {
    if i >= Size32(es) then "]" else (if i == 0 then [] else ",") + ElementsText(CanonElements(es, i, style))
  }

  /** The rest of an object's text when `i` members have been written. */
  function MembersLeft(es: Entries, i: nat, style: Style): bytes {
    if i >= Count(es) then "}" else (if i == 0 then [] else ",") + MembersText(CanonMembers(Drop(es, i), style))
  }

  lemma ElementsLeftStep(es: Entries, i: nat, style: Style)
    requires i < Size32(es)
    ensures ElementsLeft(es, i, style)
      == (if i == 0 then [] else ",") + Text(Canon(Item(es, i), style)) + ElementsLeft(es, i + 1, style)
  {
    hide Canon, Text, Item, ElementsText;
    var rest := CanonElements(es, i + 1, style);
    ElementsTextStep(CanonElements(es, i, style));
    assert rest.NoElement? <==> i + 1 >= Size32(es);
  }

  lemma MembersLeftStep(es: Entries, i: nat, style: Style)
    requires i < Count(es)
    ensures Drop(es, i).Cons?
    ensures MembersLeft(es, i, style)
      == (if i == 0 then [] else ",")
       + (StringText(Strings.Quote(NameBytes(Drop(es, i).key), style.emitUTF8)) + ":" + style.gap)
       + Text(Canon(Drop(es, i).val.data, style)) + MembersLeft(es, i + 1, style)
  {
    hide Canon, Text, StringText, Strings.Quote, MembersText;
    DropStep(es, i);
    DropAll(es);
    var d := Drop(es, i);
    BareMemberText(Strings.Quote(NameBytes(d.key), style.emitUTF8), style.gap, Canon(d.val.data, style),
                   CanonMembers(d.rest, style));
    MembersLeftClose(es, i + 1, style);
  }

  /** The text of a member with no space in it but after its colon. */
  lemma BareMemberText(name: Characters, gap: bytes, value: Tree, rest: Members)
    ensures MembersText(Member([], Quoted(name), [], gap, value, [], rest))
      == (StringText(name) + ":" + gap) + Text(value) + (if rest.NoMember? then "}" else "," + MembersText(rest))
  {
    hide Text, StringText, MembersText, NameText;
    var m := Member([], Quoted(name), [], gap, value, [], rest);
    MembersTextStep(m);
    NameTextStep(m);
    Unspaced(StringText(name), gap, Text(value), if rest.NoMember? then "}" else "," + MembersText(rest));
  }

  lemma MembersLeftClose(es: Entries, i: nat, style: Style)
    requires 0 < i <= Count(es)
    ensures var rest := CanonMembers(Drop(es, i), style);
      MembersLeft(es, i, style) == if rest.NoMember? then "}" else "," + MembersText(rest)
  {
    hide MembersText, Canon, Strings.Quote;
    CountDrop(es, i);
  }

  lemma Unspaced(name: bytes, gap: bytes, text: bytes, close: bytes)
    ensures [] + name + [] + ":" + (gap + (text + ([] + close))) == (name + ":" + gap) + text + close
  {
    assert [] + name + [] == name && [] + close == close;
  }

  lemma {:induction false} CountDrop(es: Entries, i: nat)
    requires i <= Count(es)
    ensures Count(Drop(es, i)) == Count(es) - i
  {
    if i > 0 {
      CountDrop(es.rest, i - 1);
    }
  }

  /** Two samples: with a gap behind the colon, and with nulls dropped or not. */
  lemma Samples(name: bytes, i: int, style: Style)
    requires !style.emitUTF8
    ensures Text(Canon(OneInt(name, i), style))
      == "{" + StringText(Strings.Quote(name, false)) + ":" + style.gap + ShowInt(i) + "}"
    ensures Text(Canon(Obj(Cons(Name(name), Value(Null, 0, 0), Nil)), style))
      == "{" + StringText(Strings.Quote(name, false)) + ":" + style.gap + (if style.dropNulls then [] else "null") + "}"
  {
    hide ShowInt, StringText, Strings.Quote, NumberText, IntegerNumber;
    IntegerNumberText(i);
    OneMemberText(name, Int(i), style);
    OneMemberText(name, Null, style);
  }

  lemma OneMemberText(name: bytes, p: Payload, style: Style)
    ensures Text(Canon(Obj(Cons(Name(name), Value(p, 0, 0), Nil)), style))
      == "{" + StringText(Strings.Quote(name, style.emitUTF8)) + ":" + style.gap + Text(Canon(p, style)) + "}"
  {
    hide StringText, Strings.Quote, MembersText;
    var es := Cons(Name(name), Value(p, 0, 0), Nil);
    var ms, text := CanonMembers(es, style), Text(Canon(p, style));
    assert Canon(Obj(es), style) == TObject([], ms);
    assert CanonMembers(Nil, style) == NoMember;
    BareMemberText(Strings.Quote(name, style.emitUTF8), style.gap, Canon(p, style), NoMember);
    var quoted := StringText(Strings.Quote(name, style.emitUTF8));
    assert "{" + ((quoted + ":" + style.gap) + text + "}") == "{" + quoted + ":" + style.gap + text + "}";
  }

  class FastWriter {
    const dropNullPlaceholders: bool
    const yamlCompatibilityEnabled: bool
    const omitEndingLineFeed: bool
    const showDouble: Double -> Shown
    var document: bytes

    constructor (dropNulls: bool, yaml: bool, omitLineFeed: bool, show: Double -> Shown)
      ensures dropNullPlaceholders == dropNulls && yamlCompatibilityEnabled == yaml
      ensures omitEndingLineFeed == omitLineFeed && showDouble == show
    {
      dropNullPlaceholders, yamlCompatibilityEnabled, omitEndingLineFeed := dropNulls, yaml, omitLineFeed;
      showDouble := show;
      document := [];
    }

    function Style(): Style {
      Canonical.Style(dropNullPlaceholders, false, showDouble, if yamlCompatibilityEnabled then " " else [])
    }

    /** write: the text of the value's tree and, unless omitted, a line feed. */
    method Write(value: Value) returns (text: bytes)
      requires WellFormed(value.data)
      modifies this
      ensures text == Text(Canon(value.data, Style())) + (if omitEndingLineFeed then [] else "\n")
      ensures Squeeze(text, false) == Text(Canon(value.data, Style().(gap := [])))
    {
      hide Squeeze, Text, Canon;
      document := [];
      WriteValue(value.data);
      if !omitEndingLineFeed {
        document := document + "\n";
      }
      text := document;
      CanonGap(value.data, Style());
      ghost var t := Canon(value.data, Style());
      ghost var trail: bytes := if omitEndingLineFeed then [] else "\n";
      LayoutIndependence(value.data, Style().(gap := []), [], t, trail);
      assert [] + Text(t) + trail == text;
    }

    method WriteValue(value: Payload)
      requires WellFormed(value)
      modifies this
      ensures document == old(document) + Text(Canon(value, Style()))
      decreases ValueOrder.Size(value), 0
    {
      hide StringText, Strings.Quote, Numbers.Show, ElementsText, MembersText;
      match value {
        case Null =>
          if !dropNullPlaceholders {
            document := document + "null";
          }
        case Int(i) =>
          var s := Numbers.SignedToString(i as Numbers.int64);
          IntegerNumberText(i);
          document := document + s;
        case UInt(u) =>
          var s := Numbers.UnsignedToString(u as Numbers.uint64);
          IntegerNumberText(u);
          document := document + s;
        case Real(d) => document := document + Text(showDouble(d));
        case Str(s) =>
          var quoted := Strings.ValueToQuotedString(s, false);
          document := document + quoted;
        case Bool(b) => document := document + (if b then "true" else "false");
        case Arr(es) => WriteArray(es);
        case Obj(es) => WriteObject(es);
      }
    }

    method WriteArray(es: Entries)
      requires WellFormed(Arr(es))
      modifies this
      ensures document == old(document) + Text(Canon(Arr(es), Style()))
      decreases ValueOrder.EntriesSize(es), 2
    {
      hide Canon, Text;
      ghost var start := document;
      document := document + "[";
      var size := Size32(es);
      var index := 0;
      while index < size
        invariant index <= size
        invariant document + ElementsLeft(es, index, Style()) == start + "[" + ElementsLeft(es, 0, Style())
      {
        WriteElement(es, index);
        index := index + 1;
      }
      document := document + "]";
      ArrayText(es, Style());
      assert start + "[" + ElementsLeft(es, 0, Style()) == start + ("[" + ElementsLeft(es, 0, Style()));
    }

    method WriteElement(es: Entries, index: nat)
      requires WellFormed(Arr(es)) && index < Size32(es)
      modifies this
      ensures document + ElementsLeft(es, index + 1, Style()) == old(document) + ElementsLeft(es, index, Style())
      decreases ValueOrder.EntriesSize(es), 1
    {
      hide Canon, Text, ElementsLeft, Item, Size32;
      ElementsLeftStep(es, index, Style());
      ghost var text := Text(Canon(Item(es, index), Style()));
      Append3(document, if index == 0 then [] else ",", text, ElementsLeft(es, index + 1, Style()));
      if index > 0 {
        document := document + ",";
      }
      ItemWellFormed(es, index);
      ItemSize(es, index);
      WriteValue(Item(es, index));
      assert index == 0 ==> old(document) + [] == old(document);
    }

    method WriteObject(es: Entries)
      requires WellFormed(Obj(es))
      modifies this
      ensures document == old(document) + Text(Canon(Obj(es), Style()))
      decreases ValueOrder.EntriesSize(es), 1
    {
      hide Canon, Text, StringText, Strings.Quote;
      ghost var start := document;
      var names := MemberNames(es);
      document := document + "{";
      var it := 0;
      while it < |names|
        invariant it <= |names|
        invariant document + MembersLeft(es, it, Style()) == start + "{" + MembersLeft(es, 0, Style())
      {
        WriteMember(es, names, it);
        it := it + 1;
      }
      document := document + "}";
      ObjectText(es, Style());
      assert start + "{" + MembersLeft(es, 0, Style()) == start + ("{" + MembersLeft(es, 0, Style()));
    }

    method WriteMember(es: Entries, names: seq<bytes>, it: nat)
      requires WellFormed(Obj(es)) && it < |names| == Count(es)
      requires Drop(es, it).Cons? && names[it] == NameBytes(Drop(es, it).key)
      modifies this
      ensures document + MembersLeft(es, it + 1, Style()) == old(document) + MembersLeft(es, it, Style())
      decreases ValueOrder.EntriesSize(es), 0
    {
      hide Canon, Text, StringText, Strings.Quote, MembersLeft, Drop;
      MembersLeftStep(es, it, Style());
      var name := names[it];
      var quoted := Strings.ValueToQuotedString(name, false);
      ghost var text := Text(Canon(Drop(es, it).val.data, Style()));
      ghost var colon := quoted + ":" + Style().gap;
      Append4(document, if it == 0 then [] else ",", colon, text, MembersLeft(es, it + 1, Style()));
      if it != 0 {
        document := document + ",";
      }
      assert it == 0 ==> old(document) + [] == old(document);
      WriteColon(quoted);
      DropWellFormed(es, it, false);
      FindDrop(es, it);
      FindWellFormed(es, Name(name), false);
      FindSize(es, Name(name));
      WriteValue(Find(es, Name(name)).value.data);
    }

    method WriteColon(quoted: bytes)
      modifies this
      ensures document == old(document) + (quoted + ":" + Style().gap)
    {
      document := document + quoted;
      document := document + (if yamlCompatibilityEnabled then ": " else ":");
    }
  }

  lemma ArrayText(es: Entries, style: Style)
    ensures Text(Canon(Arr(es), style)) == "[" + ElementsLeft(es, 0, style)
  {
    hide ElementsText, Item;
    assert [] + ElementsText(CanonElements(es, 0, style)) == ElementsText(CanonElements(es, 0, style));
  }

  lemma ObjectText(es: Entries, style: Style)
    ensures Text(Canon(Obj(es), style)) == "{" + MembersLeft(es, 0, style)
  {
    hide MembersText;
    assert [] + MembersText(CanonMembers(es, style)) == MembersText(CanonMembers(es, style));
  }
}
