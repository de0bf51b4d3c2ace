/** The JSON text that stands for a value, as a syntax tree without whitespace; and that a tree's
    whitespace outside strings is all that separates it from such a tree. */
module Canonical {
  import opened Bytes
  import opened JsonValues
  import opened Numbers
  import opened Grammar
  import opened Strings
  import ValueOrder

  /** What a double is written as: printf's number, or `null` for NaN. */
  type Shown = t: Tree | t.TNull? || (t.TNumber? && ValidNumber(t.n)) witness TNull

  /** How nulls, strings and doubles are written, and what follows the colon of a member.  The digits of
      a double are printf's and left uninterpreted. */
  datatype Style = Style(dropNulls: bool, emitUTF8: bool, showDouble: Double -> Shown, gap: bytes)

  /** value[i] for a constant array: null where there is no entry. */
  function Item(es: Entries, i: nat): Payload {
    match Find(es, Index(i)) case Some(v) => v.data case None => Null
  }

  lemma {:induction false} FindSize(es: Entries, k: Key)
    requires Find(es, k).Some?
    ensures ValueOrder.Size(Find(es, k).value.data) < ValueOrder.EntriesSize(es)
  {
    if es.key != k {
      FindSize(es.rest, k);
    }
  }

  lemma {:induction false} ItemSize(es: Entries, i: nat)
    requires i < ArraySize(es)
    ensures ValueOrder.Size(Item(es, i)) < 1 + ValueOrder.EntriesSize(es)
  {
    if Find(es, Index(i)).Some? {
      FindSize(es, Index(i));
    }
  }

  function NameBytes(k: Key): bytes {
    if k.Name? then k.n else []
  }

  function IntegerNumber(i: int): Number {
    Number(i < 0, Show(if i < 0 then -i else i), None, None)
  }

  lemma IntegerNumberText(i: int)
    ensures NumberText(IntegerNumber(i)) == ShowInt(i)
  {}

  /** The tree of a value. */
  function Canon(p: Payload, style: Style): Tree
    decreases ValueOrder.Size(p), 0
  {
    match p
    case Null => if style.dropNulls then TDropped else TNull
    case Int(i) => TNumber(IntegerNumber(i))
    case UInt(u) => TNumber(IntegerNumber(u))
    case Real(d) => style.showDouble(d)
    case Str(s) => TString(Quote(s, style.emitUTF8))
    case Bool(b) => if b then TTrue else TFalse
    case Arr(es) => TArray([], CanonElements(es, 0, style))
    case Obj(es) => TObject([], CanonMembers(es, style))
  }

  /** The elements from index `i` up to size(). */
  function CanonElements(es: Entries, i: nat, style: Style): Elements
    decreases ValueOrder.EntriesSize(es), 2, if i < Size32(es) then Size32(es) - i else 0
  {
    if i >= Size32(es) then NoElement
    else
      ItemSize(es, i);
      Element([], Canon(Item(es, i), style), [], CanonElements(es, i + 1, style))
  }

  function CanonMembers(es: Entries, style: Style): Members
    decreases ValueOrder.EntriesSize(es), 1
  {
    match es
    case Nil => NoMember
    case Cons(key, val, rest) =>
      Member([], Quoted(Quote(NameBytes(key), style.emitUTF8)), [], style.gap, Canon(val.data, style), [],
             CanonMembers(rest, style))
  }

  // ----- Well-formed values --------------------------------------------------------------------

  /** What the constructors and setters of Value keep: integers fit their types, strings their blocks, arrays
      are keyed by 32-bit indices and objects by names of less than 2^30 bytes, each in order. */
  predicate WellFormed(p: Payload) {
    match p
    case Int(i) => MIN_INT <= i <= MAX_INT
    case UInt(u) => 0 <= u <= MAX_UINT
    case Str(s) => |s| <= MAX_STRING
    case Arr(es) => Sorted(es) && WellFormedEntries(es, true)
    case Obj(es) => Sorted(es) && WellFormedEntries(es, false)
    case _ => true
  }

  predicate WellFormedEntries(es: Entries, indices: bool) {
    es.Nil? || (WellFormedKey(es.key, indices) && WellFormed(es.val.data) && WellFormedEntries(es.rest, indices))
  }

  predicate WellFormedKey(k: Key, index: bool) {
    if index then k.Index? && k.i < INDEX_LIMIT else k.Name? && |k.n| < NAME_LIMIT
  }

  /** The entries from the i-th on. */
  function Drop(es: Entries, i: nat): Entries {
    if i == 0 || es.Nil? then es else Drop(es.rest, i - 1)
  }

  lemma {:induction false} DropStep(es: Entries, i: nat)
    requires i < Count(es)
    ensures Drop(es, i).Cons? && Drop(es, i).rest == Drop(es, i + 1)
  {
    if i > 0 {
      DropStep(es.rest, i - 1);
    }
  }

  lemma {:induction false} DropAll(es: Entries)
    ensures Drop(es, Count(es)) == Nil
  {
    if es.Cons? {
      DropAll(es.rest);
    }
  }

  lemma {:induction false} DropAbove(es: Entries, i: nat, k: Key)
    requires Above(k, es) && i < Count(es)
    ensures Drop(es, i).Cons? && KeyLess(k, Drop(es, i).key)
  {
    if i > 0 {
      DropAbove(es.rest, i - 1, k);
    }
  }

  /** Looking up the i-th key finds the i-th value. */
  lemma {:induction false} FindDrop(es: Entries, i: nat)
    requires Sorted(es) && i < Count(es)
    ensures Drop(es, i).Cons? && Find(es, Drop(es, i).key) == Some(Drop(es, i).val)
  {
    if i > 0 {
      FindDrop(es.rest, i - 1);
      DropAbove(es.rest, i - 1, es.key);
      KeyOrder(es.key, Drop(es, i).key);
    }
  }

  lemma {:induction false} DropWellFormed(es: Entries, i: nat, indices: bool)
    requires WellFormedEntries(es, indices) && i <= Count(es)
    ensures WellFormedEntries(Drop(es, i), indices)
  {
    if i > 0 {
      DropWellFormed(es.rest, i - 1, indices);
    }
  }

  lemma {:induction false} FindWellFormed(es: Entries, k: Key, indices: bool)
    requires WellFormedEntries(es, indices) && Find(es, k).Some?
    ensures WellFormed(Find(es, k).value.data)
  {
    if es.key != k {
      FindWellFormed(es.rest, k, indices);
    }
  }

  lemma ItemWellFormed(es: Entries, i: nat)
    requires WellFormedEntries(es, true)
    ensures WellFormed(Item(es, i))
  {
    if Find(es, Index(i)).Some? {
      FindWellFormed(es, Index(i), true);
    }
  }

  /** The size of an array wraps to 0 or not at all. */
  lemma {:induction false} SizeLimit(es: Entries)
    requires WellFormedEntries(es, true)
    ensures ArraySize(es) <= INDEX_LIMIT
    ensures Size32(es) == if ArraySize(es) == INDEX_LIMIT then 0 else ArraySize(es)
  {
    if es.Cons? {
      SizeLimit(es.rest);
    }
  }

  /** An index below size() for every entry of an array, before it wraps. */
  lemma {:induction false} KeyBelowSize(es: Entries)
    requires es.Cons? && Sorted(es) && WellFormedEntries(es, true)
    ensures es.key.i < ArraySize(es)
  {
    if es.rest.Cons? {
      KeyBelowSize(es.rest);
    }
  }

  /** getMemberNames. */
  method MemberNames(es: Entries) returns (names: seq<bytes>)
    ensures |names| == Count(es)
    ensures forall i :: 0 <= i < |names| ==> Drop(es, i).Cons? && names[i] == NameBytes(Drop(es, i).key)
  {
    names := [];
    var it := es;
    while it.Cons?
      invariant |names| + Count(it) == Count(es) && it == Drop(es, |names|)
      invariant forall i :: 0 <= i < |names| ==> Drop(es, i).Cons? && names[i] == NameBytes(Drop(es, i).key)
      decreases it
    {
      DropStep(es, |names|);
      names := names + [NameBytes(it.key)];
      it := it.rest;
    }
  }

  /** The integers of well-formed values are number literals of the grammar. */
  lemma IntegerNumberValid(i: int)
    ensures ValidNumber(IntegerNumber(i))
  {
    ShowZero(if i < 0 then -i else i);
  }

  lemma ShowZero(n: nat)
    ensures Show(n)[0] == '0' ==> Show(n) == "0"
  {
    if |Show(n)| == 1 {
      assert Show(n) == [Show(n)[0]];
    }
  }

  // ----- Whitespace ----------------------------------------------------------------------------

  /** The tree without its whitespace. */
  function Bare(t: Tree): Tree {
    match t
    case TArray(_, es) => TArray([], BareElements(es))
    case TObject(_, ms) => TObject([], BareMembers(ms))
    case _ => t
  }

  function BareElements(es: Elements): Elements {
    match es
    case NoElement => NoElement
    case LastComma(_) => LastComma([])
    case Element(_, value, _, rest) => Element([], Bare(value), [], BareElements(rest))
  }

  function BareMembers(ms: Members): Members {
    match ms
    case NoMember => NoMember
    case FinalComma(_) => FinalComma([])
    case Member(_, name, _, _, value, _, rest) => Member([], name, [], [], Bare(value), [], BareMembers(rest))
  }

  /** Whitespace stands only where it may. */
  predicate Spaced(t: Tree) {
    match t
    case TArray(ws, es) => AllSpace(ws) && SpacedElements(es)
    case TObject(ws, ms) => AllSpace(ws) && SpacedMembers(ms)
    case _ => true
  }

  predicate SpacedElements(es: Elements) {
    es.Element? ==> AllSpace(es.before) && Spaced(es.value) && AllSpace(es.after) && SpacedElements(es.rest)
  }

  predicate SpacedMembers(ms: Members) {
    ms.Member? ==>
      && AllSpace(ms.before) && AllSpace(ms.mid) && AllSpace(ms.before2)
      && Spaced(ms.value) && AllSpace(ms.after) && SpacedMembers(ms.rest)
  }

  /** Strings and numbers are literals of the RFC, and no comma is left over. */
  predicate Literals(t: Tree) {
    match t
    case TNumber(n) => ValidNumber(n)
    case TString(cs) => ValidCharacters(cs)
    case TSingle(_) => false
    case TSpecial(_) => false
    case TArray(_, es) => LiteralsElements(es)
    case TObject(_, ms) => LiteralsMembers(ms)
    case _ => true
  }

  predicate LiteralsElements(es: Elements) {
    match es
    case NoElement => true
    case LastComma(_) => false
    case Element(_, value, _, rest) => Literals(value) && LiteralsElements(rest)
  }

  predicate LiteralsMembers(ms: Members) {
    match ms
    case NoMember => true
    case FinalComma(_) => false
    case Member(_, name, _, _, value, _, rest) =>
      name.Quoted? && ValidCharacters(name.cs) && Literals(value) && LiteralsMembers(rest)
  }

  /** Deletes the whitespace outside string literals from a text. */
  function Squeeze(s: bytes, inString: bool): bytes {
    if s == [] then []
    else if inString then
      if s[0] == '\\' && |s| > 1 then s[..2] + Squeeze(s[2..], true)
      else [s[0]] + Squeeze(s[1..], s[0] != '"')
    else if IsSpace(s[0]) then Squeeze(s[1..], false)
    else [s[0]] + Squeeze(s[1..], s[0] == '"')
  }

  /** Squeezing passes through `x`, outside strings, and leaves `y` of it. */
  ghost predicate Squeezes(x: bytes, y: bytes) {
    forall rest :: Squeeze(x + rest, false) == y + Squeeze(rest, false)
  }

  lemma SqueezesConcat(a: bytes, b: bytes, x: bytes, y: bytes)
    requires Squeezes(a, x) && Squeezes(b, y)
    ensures Squeezes(a + b, x + y)
  {
    hide Squeeze, AllSpace;
    forall rest ensures Squeeze(a + b + rest, false) == x + y + Squeeze(rest, false) {
      assert a + b + rest == a + (b + rest);
      assert Squeeze(a + (b + rest), false) == x + Squeeze(b + rest, false);
      assert Squeeze(b + rest, false) == y + Squeeze(rest, false);
      assert x + (y + Squeeze(rest, false)) == x + y + Squeeze(rest, false);
    }
  }

  lemma {:induction false} SqueezesSpace(ws: bytes)
    requires AllSpace(ws)
    ensures Squeezes(ws, [])
    decreases |ws|
  {
    forall rest ensures Squeeze(ws + rest, false) == [] + Squeeze(rest, false) {
      if ws == [] {
        assert ws + rest == rest;
      } else {
        assert (ws + rest)[1..] == ws[1..] + rest;
        SqueezesSpace(ws[1..]);
      }
    }
  }

  /** No whitespace and no quote in it. */
  predicate Dense(s: bytes) {
    forall i :: 0 <= i < |s| ==> !IsSpace(s[i]) && s[i] != '"'
  }

  lemma {:induction false} SqueezesDense(s: bytes)
    requires Dense(s)
    ensures Squeezes(s, s)
    decreases |s|
  {
    forall rest ensures Squeeze(s + rest, false) == s + Squeeze(rest, false) {
      if s == [] {
        assert s + rest == rest;
      } else {
        assert (s + rest)[1..] == s[1..] + rest;
        SqueezesDense(s[1..]);
        assert Squeeze(s[1..] + rest, false) == s[1..] + Squeeze(rest, false);
        assert s == [s[0]] + s[1..];
      }
    }
  }

  lemma SqueezeCharacter(c: Character, rest: bytes)
    requires ValidCharacter(c)
    ensures Squeeze(CharacterText(c) + rest, true) == CharacterText(c) + Squeeze(rest, true)
  {
    match c
    case Plain(b) => SqueezeByte(b, rest);
    case Short(e) => SqueezeEscape(e, rest);
    case Unicode(hex) => SqueezeUnicode(hex, rest);
    case Pair(high, low) =>
      SqueezeUnicode(high, "\\u" + low + rest);
      SqueezeUnicode(low, rest);
      assert "\\u" + (high + ("\\u" + low)) + rest == "\\u" + high + ("\\u" + low + rest);
  }

  lemma SqueezeByte(b: byte, rest: bytes)
    requires b != '"' && b != '\\'
    ensures Squeeze([b] + rest, true) == [b] + Squeeze(rest, true)
  {
    assert ([b] + rest)[1..] == rest;
  }

  lemma SqueezeEscape(e: byte, rest: bytes)
    ensures Squeeze(['\\', e] + rest, true) == ['\\', e] + Squeeze(rest, true)
  {
    assert (['\\', e] + rest)[..2] == ['\\', e];
    assert (['\\', e] + rest)[2..] == rest;
  }

  lemma SqueezeUnicode(hex: bytes, rest: bytes)
    requires IsHex4(hex)
    ensures Squeeze("\\u" + hex + rest, true) == "\\u" + hex + Squeeze(rest, true)
  {
    var a, b, c, d := hex[0], hex[1], hex[2], hex[3];
    assert hex == [a, b, c, d];
    assert "\\u" + hex + rest == ['\\', 'u'] + ([a] + ([b] + ([c] + ([d] + rest))));
    SqueezeEscape('u', [a] + ([b] + ([c] + ([d] + rest))));
    SqueezeByte(a, [b] + ([c] + ([d] + rest)));
    SqueezeByte(b, [c] + ([d] + rest));
    SqueezeByte(c, [d] + rest);
    SqueezeByte(d, rest);
  }

  /** A quote opens a string, or closes it. */
  lemma SqueezeQuote(rest: bytes, inString: bool)
    ensures Squeeze("\"" + rest, inString) == "\"" + Squeeze(rest, !inString)
  {
    assert ("\"" + rest)[1..] == rest;
  }

  lemma {:induction false} SqueezeCharacters(cs: Characters, rest: bytes)
    requires ValidCharacters(cs)
    ensures Squeeze(CharactersText(cs) + ("\"" + rest), true) == CharactersText(cs) + ("\"" + Squeeze(rest, false))
  {
    hide Squeeze, CharacterText, ValidCharacter;
    match cs
    case End =>
      SqueezeQuote(rest, true);
      assert [] + ("\"" + rest) == "\"" + rest;
      assert [] + ("\"" + Squeeze(rest, false)) == "\"" + Squeeze(rest, false);
    case Char(c, tail) =>
      var more := CharactersText(tail) + ("\"" + rest);
      assert CharactersText(cs) + ("\"" + rest) == CharacterText(c) + more;
      SqueezeCharacter(c, more);
      SqueezeCharacters(tail, rest);
      assert CharacterText(c) + (CharactersText(tail) + ("\"" + Squeeze(rest, false)))
        == CharactersText(cs) + ("\"" + Squeeze(rest, false));
  }

  lemma SqueezesString(cs: Characters)
    requires ValidCharacters(cs)
    ensures Squeezes(StringText(cs), StringText(cs))
  {
    hide Squeeze, CharactersText;
    forall rest ensures Squeeze(StringText(cs) + rest, false) == StringText(cs) + Squeeze(rest, false) {
      var more := CharactersText(cs) + ("\"" + rest);
      assert StringText(cs) + rest == "\"" + more;
      SqueezeQuote(more, false);
      SqueezeCharacters(cs, rest);
      assert "\"" + (CharactersText(cs) + ("\"" + Squeeze(rest, false))) == StringText(cs) + Squeeze(rest, false);
    }
  }

  /** Squeezing the text of a tree gives the text of the bare tree. */
  lemma {:induction false} SqueezesTree(t: Tree)
    requires Spaced(t) && Literals(t)
    ensures Squeezes(Text(t), Text(Bare(t)))
  {
    hide Squeezes, Squeeze, NumberText, StringText, AllSpace;
    match t
    case TString(cs) => SqueezesString(cs);
    case TNumber(n) => NumberDense(n); SqueezesDense(NumberText(n));
    case TArray(ws, es) =>
      SqueezesDense("[");
      if es.NoElement? {
        SqueezesDense("]");
        SqueezesSpace(ws);
        SqueezesConcat(ws, "]", [], "]");
        SqueezesConcat("[", ws + "]", "[", [] + "]");
      } else {
        SqueezesElements(es);
        SqueezesConcat("[", ElementsText(es), "[", ElementsText(BareElements(es)));
      }
    case TObject(ws, ms) =>
      SqueezesDense("{");
      if ms.NoMember? {
        SqueezesDense("}");
        SqueezesSpace(ws);
        SqueezesConcat(ws, "}", [], "}");
        SqueezesConcat("{", ws + "}", "{", [] + "}");
      } else {
        SqueezesMembers(ms);
        SqueezesConcat("{", MembersText(ms), "{", MembersText(BareMembers(ms)));
      }
    case _ => SqueezesDense(Text(t));
  }

  lemma NumberDense(n: Number)
    requires ValidNumber(n)
    ensures Dense(NumberText(n))
  {
    assert Dense(FractionText(n.fraction));
    assert Dense(ExponentText(n.exponent));
    assert Dense(n.whole);
  }

  /** A value between two stretches of whitespace. */
  lemma SqueezesBetween(before: bytes, text: bytes, after: bytes, close: bytes, bare: bytes, bareClose: bytes)
    requires AllSpace(before) && AllSpace(after) && Squeezes(text, bare) && Squeezes(close, bareClose)
    ensures Squeezes(before + (text + (after + close)), [] + (bare + ([] + bareClose)))
  {
    hide Squeezes, Squeeze, AllSpace;
    SqueezesSpace(before);
    SqueezesSpace(after);
    SqueezesConcat(after, close, [], bareClose);
    SqueezesConcat(text, after + close, bare, [] + bareClose);
    SqueezesConcat(before, text + (after + close), [], bare + ([] + bareClose));
  }

  lemma {:induction false} SqueezesElements(es: Elements)
    requires es.Element? && SpacedElements(es) && LiteralsElements(es)
    ensures Squeezes(ElementsText(es), ElementsText(BareElements(es)))
  {
    hide Squeezes, Squeeze, Text, AllSpace;
    var close: bytes := if es.rest.NoElement? then "]" else "," + ElementsText(es.rest);
    var bareClose: bytes := if es.rest.NoElement? then "]" else "," + ElementsText(BareElements(es.rest));
    SqueezesTree(es.value);
    if es.rest.NoElement? {
      SqueezesDense("]");
    } else {
      SqueezesDense(",");
      SqueezesElements(es.rest);
      SqueezesConcat(",", ElementsText(es.rest), ",", ElementsText(BareElements(es.rest)));
    }
    SqueezesBetween(es.before, Text(es.value), es.after, close, Text(Bare(es.value)), bareClose);
  }

  lemma {:induction false} SqueezesMembers(ms: Members)
    requires ms.Member? && SpacedMembers(ms) && LiteralsMembers(ms)
    ensures Squeezes(MembersText(ms), MembersText(BareMembers(ms)))
  {
    hide Squeezes, Squeeze, Text, StringText, AllSpace;
    var close: bytes := if ms.rest.NoMember? then "}" else "," + MembersText(ms.rest);
    var bareClose: bytes := if ms.rest.NoMember? then "}" else "," + MembersText(BareMembers(ms.rest));
    SqueezesTree(ms.value);
    if ms.rest.NoMember? {
      SqueezesDense("}");
    } else {
      SqueezesDense(",");
      SqueezesMembers(ms.rest);
      SqueezesConcat(",", MembersText(ms.rest), ",", MembersText(BareMembers(ms.rest)));
    }
    SqueezesBetween(ms.before2, Text(ms.value), ms.after, close, Text(Bare(ms.value)), bareClose);
    SqueezesDense(":");
    SqueezesString(ms.name.cs);
    SqueezesBetween(ms.before, LabelText(ms.name), ms.mid, ":", LabelText(ms.name), ":");
    SqueezesConcat(NameText(ms), ms.before2 + (Text(ms.value) + (ms.after + close)),
      [] + (LabelText(ms.name) + ([] + ":")), [] + (Text(Bare(ms.value)) + ([] + bareClose)));
  }

  // ----- Canonical trees are bare --------------------------------------------------------------

  lemma CanonBare(p: Payload, style: Style)
    requires style.gap == []
    ensures Bare(Canon(p, style)) == Canon(p, style) && Spaced(Canon(p, style))
  {
    CanonGap(p, style);
  }

  lemma {:induction false} CanonLiterals(p: Payload, style: Style)
    ensures Literals(Canon(p, style))
    decreases ValueOrder.Size(p), 0
  {
    match p
    case Int(i) => IntegerNumberValid(i);
    case UInt(u) => IntegerNumberValid(u);
    case Str(s) => QuoteValid(s, 0, style.emitUTF8);
    case Arr(es) => CanonElementsLiterals(es, 0, style);
    case Obj(es) => CanonMembersLiterals(es, style);
    case _ =>
  }

  lemma {:induction false} CanonElementsLiterals(es: Entries, i: nat, style: Style)
    ensures LiteralsElements(CanonElements(es, i, style))
    decreases ValueOrder.EntriesSize(es), 2, if i < Size32(es) then Size32(es) - i else 0
  {
    if i < Size32(es) {
      ItemSize(es, i);
      CanonLiterals(Item(es, i), style);
      CanonElementsLiterals(es, i + 1, style);
    }
  }

  lemma {:induction false} CanonMembersLiterals(es: Entries, style: Style)
    ensures LiteralsMembers(CanonMembers(es, style))
    decreases ValueOrder.EntriesSize(es), 1
  {
    if es.Cons? {
      QuoteValid(NameBytes(es.key), 0, style.emitUTF8);
      CanonLiterals(es.val.data, style);
      CanonMembersLiterals(es.rest, style);
    }
  }

  lemma {:induction false} BareLiterals(t: Tree)
    requires Literals(Bare(t))
    ensures Literals(t)
  {
    match t
    case TArray(_, es) => BareElementsLiterals(es);
    case TObject(_, ms) => BareMembersLiterals(ms);
    case _ =>
  }

  lemma {:induction false} BareElementsLiterals(es: Elements)
    requires LiteralsElements(BareElements(es))
    ensures LiteralsElements(es)
  {
    if es.Element? {
      BareLiterals(es.value);
      BareElementsLiterals(es.rest);
    }
  }

  lemma {:induction false} BareMembersLiterals(ms: Members)
    requires LiteralsMembers(BareMembers(ms))
    ensures LiteralsMembers(ms)
  {
    if ms.Member? {
      BareLiterals(ms.value);
      BareMembersLiterals(ms.rest);
    }
  }

  /** Layout independence: however whitespace is laid out in the text of a value and around it, deleting
      the whitespace outside strings leaves the canonical text of the value. */
  lemma LayoutIndependence(p: Payload, style: Style, lead: bytes, t: Tree, trail: bytes)
    requires style.gap == [] && AllSpace(lead) && Spaced(t) && Bare(t) == Canon(p, style) && AllSpace(trail)
    ensures Squeeze(lead + Text(t) + trail, false) == Text(Canon(p, style))
  {
    hide Squeeze, Canon, Text, AllSpace;
    CanonLiterals(p, style);
    BareLiterals(t);
    SqueezesTree(t);
    SqueezesSpace(lead);
    SqueezesSpace(trail);
    SqueezesConcat(lead, Text(t), [], Text(Bare(t)));
    SqueezesConcat(lead + Text(t), trail, [] + Text(Bare(t)), []);
    SqueezeNothing();
    assert lead + Text(t) + trail + [] == lead + Text(t) + trail;
    assert [] + Text(Bare(t)) + [] + [] == Text(Bare(t));
  }

  lemma SqueezeNothing()
    ensures Squeeze([], false) == []
  {}

  // ----- What follows the colon is whitespace --------------------------------------------------

  lemma {:induction false} CanonGap(p: Payload, style: Style)
    requires AllSpace(style.gap)
    ensures Spaced(Canon(p, style)) && Bare(Canon(p, style)) == Canon(p, style.(gap := []))
    decreases ValueOrder.Size(p), 0
  {
    match p
    case Arr(es) => CanonElementsGap(es, 0, style);
    case Obj(es) => CanonMembersGap(es, style);
    case _ =>
  }

  lemma {:induction false} CanonElementsGap(es: Entries, i: nat, style: Style)
    requires AllSpace(style.gap)
    ensures var t := CanonElements(es, i, style);
      SpacedElements(t) && BareElements(t) == CanonElements(es, i, style.(gap := []))
    decreases ValueOrder.EntriesSize(es), 2, if i < Size32(es) then Size32(es) - i else 0
  {
    if i < Size32(es) {
      ItemSize(es, i);
      CanonGap(Item(es, i), style);
      CanonElementsGap(es, i + 1, style);
    }
  }

  lemma {:induction false} CanonMembersGap(es: Entries, style: Style)
    requires AllSpace(style.gap)
    ensures var t := CanonMembers(es, style);
      SpacedMembers(t) && BareMembers(t) == CanonMembers(es, style.(gap := []))
    decreases ValueOrder.EntriesSize(es), 1
  {
    if es.Cons? {
      CanonGap(es.val.data, style);
      CanonMembersGap(es.rest, style);
    }
  }
}
