/** A text with extensions means what the JSON text without them means. */
module Extensions {
  import opened Bytes
  import opened JsonValues
  import opened Grammar
  import opened RoundTrip
  import opened Completeness
  import opened Verdicts
  import Scanner
  import ReaderSpec
  import Strings

  // ----- Without the extensions ----------------------------------------------------------------

  /** The tree without comments and whitespace, without last commas, with nulls written and strings in double
      quotes. */
  ghost function Stripped(t: Tree, toDouble: Parser): Tree
    requires ValidTree(t, toDouble)
    decreases t
  {
    match t
    case TSingle(cs) => TString(cs)
    case TDropped => TNull
    case TArray(_, es) => TArray([], StrippedElements(es, toDouble))
    case TObject(_, ms) => TObject([], StrippedMembers(ms, toDouble))
    case _ => t
  }

  ghost function StrippedElements(es: Elements, toDouble: Parser): Elements
    requires ValidElements(es, toDouble)
    decreases es
  {
    match es
    case NoElement => NoElement
    case LastComma(_) => NoElement
    case Element(_, value, _, rest) => Element([], Stripped(value, toDouble), [], StrippedElements(rest, toDouble))
  }

  ghost function StrippedMembers(ms: Members, toDouble: Parser): Members
    requires ValidMembers(ms, toDouble)
    decreases ms
  {
    match ms
    case NoMember => NoMember
    case FinalComma(_) => NoMember
    case Member(_, name, _, _, value, _, rest) =>
      Member([], StrippedLabel(name), [], [], Stripped(value, toDouble), [], StrippedMembers(rest, toDouble))
  }

  function StrippedLabel(l: Label): Label
    requires ValidLabel(l)
  {
    match l
    case Quoted(cs) => l
    case Single(cs) => Quoted(cs)
    case Numeric(_) => Quoted(Strings.Quote(LabelName(l), true))
  }

  /** Its numbers are those of the RFC, and none is special. */
  predicate StandardNumbers(t: Tree) {
    match t
    case TNumber(n) => ValidNumber(n)
    case TSpecial(_) => false
    case TArray(_, es) => StandardNumbersElements(es)
    case TObject(_, ms) => StandardNumbersMembers(ms)
    case _ => true
  }

  predicate StandardNumbersElements(es: Elements) {
    es.Element? ==> StandardNumbers(es.value) && StandardNumbersElements(es.rest)
  }

  predicate StandardNumbersMembers(ms: Members) {
    ms.Member? ==> StandardNumbers(ms.value) && StandardNumbersMembers(ms.rest)
  }

  lemma StrippedLabelName(l: Label)
    requires ValidLabel(l)
    ensures ValidLabel(StrippedLabel(l)) && LabelName(StrippedLabel(l)) == LabelName(l) && StrippedLabel(l).Quoted?
  {
    hide StringValue, ValidCharacters;
    if l.Numeric? {
      var s := LabelName(l);
      assert s[0..] == s;
      Strings.QuoteRoundTripRaw(s, 0);
    }
  }

  // ----- Still a tree, within the same limits --------------------------------------------------

  lemma {:induction false} StrippedValid(t: Tree, unique: bool, toDouble: Parser)
    requires ValidTree(t, toDouble) && StandardNumbers(t) && InLimits(t, unique, toDouble)
    ensures var u := Stripped(t, toDouble);
      ValidTree(u, toDouble) && Standard(u) && InLimits(u, unique, toDouble) && Depth(u) == Depth(t)
    decreases t
  {
    match t
    case TArray(_, es) => StrippedValidElements(es, unique, toDouble);
    case TObject(_, ms) =>
      SpaceGap([]);
      StrippedValidMembers(ms, {}, unique, toDouble);
    case _ =>
  }

  lemma {:induction false} StrippedValidElements(es: Elements, unique: bool, toDouble: Parser)
    requires ValidElements(es, toDouble) && StandardNumbersElements(es) && ElementsInLimits(es, unique, toDouble)
    ensures var u := StrippedElements(es, toDouble);
      && ValidElements(u, toDouble) && StandardElements(u) && ElementsInLimits(u, unique, toDouble)
      && ElementsDepth(u) == ElementsDepth(es) && ElementCount(u) == ElementCount(es)
      && !u.LastComma? && !LoneDrop(u)
    decreases es
  {
    hide ValidTree, Standard, StandardNumbers, InLimits, Depth, Stripped, Gap;
    if es.Element? {
      SpaceGap([]);
      StrippedValid(es.value, unique, toDouble);
      StandardNotDropped(Stripped(es.value, toDouble));
      StrippedValidElements(es.rest, unique, toDouble);
    }
  }

  lemma StandardNotDropped(t: Tree)
    requires Standard(t)
    ensures !t.TDropped?
  {}

  lemma {:induction false} StrippedValidMembers(ms: Members, seen: set<bytes>, unique: bool, toDouble: Parser)
    requires ValidMembers(ms, toDouble) && StandardNumbersMembers(ms) && MembersInLimits(ms, seen, unique, toDouble)
    ensures var u := StrippedMembers(ms, toDouble);
      && ValidMembers(u, toDouble) && StandardMembers(u) && MembersInLimits(u, seen, unique, toDouble)
      && MembersDepth(u) == MembersDepth(ms) && !u.FinalComma?
    decreases ms
  {
    hide ValidTree, Standard, StandardNumbers, InLimits, Depth, Stripped, Gap, LabelName, ValidLabel, StrippedLabel;
    if ms.Member? {
      SpaceGap([]);
      StrippedLabelName(ms.name);
      StrippedValid(ms.value, unique, toDouble);
      StandardNotDropped(Stripped(ms.value, toDouble));
      StrippedValidMembers(ms.rest, seen + {LabelName(ms.name)}, unique, toDouble);
    }
  }

  // ----- And the same data ---------------------------------------------------------------------

  lemma {:induction false} StrippedSame(t: Tree, toDouble: Parser, p: int, q: int)
    requires ValidTree(t, toDouble) && ValidTree(Stripped(t, toDouble), toDouble)
    ensures SameData(Denote(t, p, toDouble).data, Denote(Stripped(t, toDouble), q, toDouble).data)
    decreases t
  {
    match t
    case TArray(_, es) => StrippedSameElements(es, toDouble, p + 1, q + 1, 0, Nil, Nil);
    case TObject(_, ms) => StrippedSameMembers(ms, toDouble, p + 1, q + 1, Nil, Nil);
    case TNumber(n) => NumberScalar(n, toDouble);
    case _ =>
  }

  lemma NumberScalar(n: Number, toDouble: Parser)
    requires ValidTree(TNumber(n), toDouble)
    ensures SameData(NumberValue(n, toDouble), NumberValue(n, toDouble))
  {}

  lemma {:induction false} StrippedSameElements(es: Elements, toDouble: Parser, p: int, q: int, i: nat, a: Entries,
                                                b: Entries)
    requires ValidElements(es, toDouble) && ValidElements(StrippedElements(es, toDouble), toDouble) && SameEntries(a, b)
    ensures SameEntries(DenoteElements(es, p, i, a, toDouble),
                        DenoteElements(StrippedElements(es, toDouble), q, i, b, toDouble))
    decreases es
  {
    hide Denote, Text, Put, ValidTree, Stripped, Gap;
    if es.Element? {
      var u := Stripped(es.value, toDouble);
      StrippedSame(es.value, toDouble, p + |es.before|, q);
      var v, w := Denote(es.value, p + |es.before|, toDouble), Denote(u, q, toDouble);
      PutSameEntries(a, b, Index(i), v, w);
      StrippedSameElements(es.rest, toDouble, p + |es.before| + |Text(es.value)| + |es.after| + 1, q + |Text(u)| + 1,
        i + 1, Put(a, Index(i), v), Put(b, Index(i), w));
    }
  }

  lemma {:induction false} StrippedSameMembers(ms: Members, toDouble: Parser, p: int, q: int, a: Entries, b: Entries)
    requires ValidMembers(ms, toDouble) && ValidMembers(StrippedMembers(ms, toDouble), toDouble) && SameEntries(a, b)
    ensures SameEntries(DenoteMembers(ms, p, a, toDouble),
                        DenoteMembers(StrippedMembers(ms, toDouble), q, b, toDouble))
    decreases ms
  {
    hide Denote, Text, NameText, Put, ValidTree, Stripped, Gap, LabelName, ValidLabel, StrippedLabel;
    if ms.Member? {
      var us := StrippedMembers(ms, toDouble);
      var u := Stripped(ms.value, toDouble);
      StrippedLabelName(ms.name);
      var c, d := p + |NameText(ms)| + |ms.before2|, q + |NameText(us)|;
      StrippedSame(ms.value, toDouble, c, d);
      var n, v, w := LabelName(ms.name), Denote(ms.value, c, toDouble), Denote(u, d, toDouble);
      PutSameEntries(a, b, Name(n), v, w);
      StrippedSameMembers(ms.rest, toDouble, c + |Text(ms.value)| + |ms.after| + 1, d + |Text(u)| + 1,
        Put(a, Name(n), v), Put(b, Name(n), w));
    }
  }

  // ----- The theorem ---------------------------------------------------------------------------

  /** Every text that is accepted with extensions, other than its numbers, reads as the JSON text without
      them. */
  lemma WithoutExtensions(f: Scanner.Features, lead: bytes, t: Tree, trail: bytes, more: bytes, root: Value,
                          root': Value)
    requires Document(f, lead, t, trail, more) && StandardNumbers(t)
    requires ReaderSpec.Parse(f, lead + Text(t) + trail + more, root).status == ReaderSpec.Success
    ensures var u := Stripped(t, f.toDouble);
      var o, o' := ReaderSpec.Parse(f, lead + Text(t) + trail + more, root), ReaderSpec.Parse(f, Text(u), root');
      && ValidTree(u, f.toDouble) && Standard(u)
      && o'.status == ReaderSpec.Success && SameData(o.value.data, o'.value.data)
  {
    hide ReaderSpec.Parse, Denote, Text, ValidTree, Standard, StandardNumbers, InLimits, Depth, Suits, Permits,
      TreeStatus, SameData, Stripped, Gap;
    ParseDocument(f, lead, t, trail, more, root);
    StatusAcceptable(f, 1, lead, t);
    StrippedValid(t, f.rejectDupKeys, f.toDouble);
    StrippedKind(t, f.toDouble);
    ParseJsonText(f, [], Stripped(t, f.toDouble), [], root');
    assert [] + Text(Stripped(t, f.toDouble)) + [] == Text(Stripped(t, f.toDouble));
    StrippedSame(t, f.toDouble, |lead|, 0);
  }

  lemma StrippedKind(t: Tree, toDouble: Parser)
    requires ValidTree(t, toDouble)
    ensures var u := Stripped(t, toDouble); (u.TArray? <==> t.TArray?) && (u.TObject? <==> t.TObject?)
  {}

  // ----- A last comma --------------------------------------------------------------------------

  /** `[1,]`: one element where last commas are allowed, a null more where nulls may be dropped, and otherwise
      a failure. */
  lemma OneComma(f: Scanner.Features, root: Value)
    requires f.stackLimit >= 2
    ensures var o := ReaderSpec.Parse(f, "[1,]", root);
      var one := Value(Int(1), 1, 2);
      if f.allowDroppedNullPlaceholders then
        && o.status == ReaderSpec.Success
        && o.value == Value(Arr(Cons(Index(0), one, Cons(Index(1), Value(Null, 2, 3), Nil))), 0, 4)
      else if f.allowTrailingCommas then
        o.status == ReaderSpec.Success && o.value == Value(Arr(Cons(Index(0), one, Nil)), 0, 4)
      else o.status == ReaderSpec.Failure
  {
    hide ReaderSpec.Parse;
    var n := Number(false, "1", None, None);
    var rest := if f.allowDroppedNullPlaceholders then Element([], TDropped, [], NoElement) else LastComma([]);
    var t := TArray([], Element([], TNumber(n), [], rest));
    OneIs(n, f.toDouble);
    SpaceGap([]);
    assert ElementsText(rest) == "]";
    assert Text(TNumber(n)) == "1";
    assert ElementsText(t.elements) == [] + ("1" + ([] + ("," + "]")));
    assert Text(t) == "[1,]" && [] + Text(t) + [] + [] == "[1,]";
    ParseDocument(f, [], t, [], [], root);
  }

  lemma OneIs(n: Number, toDouble: Parser)
    requires n == Number(false, "1", None, None)
    ensures NumberText(n) == "1" && LooseNumber(n) && IsInteger(n) && NumberValue(n, toDouble) == Int(1)
  {
    assert "1"[..0] == [];
  }
}
