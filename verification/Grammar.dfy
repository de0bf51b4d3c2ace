/** RFC 8259 as syntax trees, with the extensions of the library: comments, a last comma, dropped nulls,
    single quotes, special floats, numeric names and looser numbers.  Every tree has a text and denotes a
    value; the trees of the RFC are those without an extension.  Nothing here mentions the reader or the
    writers. */
module Grammar {
  import opened Bytes
  import opened JsonValues
  import opened Numbers
  import opened Utf8

  // ----- Strings (section 7) -------------------------------------------------------------------

  /** A character of a string literal.  `Plain` is one byte of an unescaped character, so that every
      UTF-8 text is covered; `Pair` is a UTF-16 surrogate pair. */
  datatype Character =
    | Plain(b: byte)
    | Short(c: byte)
    | Unicode(hex: bytes)
    | Pair(high: bytes, low: bytes)

  datatype Characters = End | Char(head: Character, tail: Characters)

  function HexDigit(c: byte): Option<nat> {
    if '0' <= c <= '9' then Some(c as int - '0' as int)
    else if 'a' <= c <= 'f' then Some(c as int - 'a' as int + 10)
    else if 'A' <= c <= 'F' then Some(c as int - 'A' as int + 10)
    else None
  }

  predicate IsHex4(h: bytes) {
    |h| == 4 && forall i :: 0 <= i < 4 ==> HexDigit(h[i]).Some?
  }

  function Hex4Val(h: bytes): (n: nat)
    requires IsHex4(h)
  {
    HexDigit(h[0]).value * 4096 + HexDigit(h[1]).value * 256 + HexDigit(h[2]).value * 16 + HexDigit(h[3]).value
  }

  predicate IsHighSurrogate(n: nat) { 0xD800 <= n <= 0xDBFF }

  predicate IsLowSurrogate(n: nat) { 0xDC00 <= n <= 0xDFFF }

  /** The character a two-character escape stands for. */
  function ShortEscape(c: byte): Option<byte> {
    match c
    case '"' => Some('"')
    case '/' => Some('/')
    case '\\' => Some('\\')
    case 'b' => Some(8 as char)
    case 'f' => Some(12 as char)
    case 'n' => Some('\n')
    case 'r' => Some('\r')
    case 't' => Some('\t')
    case _ => None
  }

  predicate ValidCharacter(c: Character) {
    match c
    case Plain(b) => b as int >= 0x20 && b != '"' && b != '\\'
    case Short(c) => ShortEscape(c).Some?
    case Unicode(hex) => IsHex4(hex) && !IsHighSurrogate(Hex4Val(hex))
    case Pair(high, low) =>
      IsHex4(high) && IsHex4(low) && IsHighSurrogate(Hex4Val(high)) && IsLowSurrogate(Hex4Val(low))
  }

  predicate ValidCharacters(cs: Characters) {
    cs.End? || (ValidCharacter(cs.head) && ValidCharacters(cs.tail))
  }

  function CharacterText(c: Character): bytes {
    match c
    case Plain(b) => [b]
    case Short(c) => ['\\', c]
    case Unicode(hex) => "\\u" + hex
    case Pair(high, low) => "\\u" + (high + ("\\u" + low))
  }

  function CharactersText(cs: Characters): bytes {
    match cs
    case End => []
    case Char(c, tail) => CharacterText(c) + CharactersText(tail)
  }

  function StringText(cs: Characters): bytes {
    "\"" + CharactersText(cs) + "\""
  }

  function CharacterValue(c: Character): bytes
    requires ValidCharacter(c)
  {
    match c
    case Plain(b) => [b]
    case Short(c) => [ShortEscape(c).value]
    case Unicode(hex) => Encode(Hex4Val(hex))
    case Pair(high, low) => Encode(0x10000 + (Hex4Val(high) - 0xD800) * 0x400 + (Hex4Val(low) - 0xDC00))
  }

  function StringValue(cs: Characters): bytes
    requires ValidCharacters(cs)
  {
    match cs
    case End => []
    case Char(c, tail) => CharacterValue(c) + StringValue(tail)
  }

  /** A literal in single quotes has none inside. */
  predicate NoSingleQuote(cs: Characters) {
    cs.Char? ==> cs.head != Plain('\'') && NoSingleQuote(cs.tail)
  }

  function ApostropheText(cs: Characters): bytes {
    "'" + CharactersText(cs) + "'"
  }

  // ----- Numbers (section 6) -------------------------------------------------------------------

  datatype Exponent = Exponent(e: byte, sign: bytes, digits: bytes)

  datatype Number = Number(minus: bool, whole: bytes, fraction: Option<bytes>, exponent: Option<Exponent>)

  predicate ValidNumber(n: Number) {
    && n.whole != [] && AllDigits(n.whole) && (n.whole[0] == '0' ==> n.whole == "0")
    && (n.fraction.Some? ==> n.fraction.value != [] && AllDigits(n.fraction.value))
    && (n.exponent.Some? ==> ValidExponent(n.exponent.value))
  }

  /** The looser numbers of the library: leading zeros, no digits after a minus, a point or an exponent. */
  predicate LooseNumber(n: Number) {
    && AllDigits(n.whole) && (n.whole == [] ==> n.minus)
    && (n.fraction.Some? ==> AllDigits(n.fraction.value))
    && (n.exponent.Some? ==> LooseExponent(n.exponent.value))
  }

  lemma NumberLoose(n: Number)
    requires ValidNumber(n)
    ensures LooseNumber(n)
  {}

  predicate LooseExponent(x: Exponent) {
    (x.e == 'e' || x.e == 'E') && (x.sign == [] || x.sign == "+" || x.sign == "-") && AllDigits(x.digits)
  }

  predicate ValidExponent(x: Exponent) {
    && (x.e == 'e' || x.e == 'E')
    && (x.sign == [] || x.sign == "+" || x.sign == "-")
    && x.digits != [] && AllDigits(x.digits)
  }

  function FractionText(fraction: Option<bytes>): bytes {
    match fraction case None => [] case Some(digits) => "." + digits
  }

  function ExponentText(exponent: Option<Exponent>): bytes {
    match exponent case None => [] case Some(x) => [x.e] + x.sign + x.digits
  }

  function NumberText(n: Number): bytes {
    (if n.minus then "-" else []) + n.whole + FractionText(n.fraction) + ExponentText(n.exponent)
  }

  function WholeValue(n: Number): int
    requires AllDigits(n.whole)
  {
    if n.minus then -(Val(n.whole) as int) else Val(n.whole)
  }

  /** Written without fraction and exponent, and within the 64-bit types. */
  predicate IsInteger(n: Number)
    requires AllDigits(n.whole)
  {
    n.fraction.None? && n.exponent.None? && MIN_INT <= WholeValue(n) <= MAX_UINT
  }

  function NumberValue(n: Number, toDouble: bytes -> Option<Double>): Payload
    requires LooseNumber(n) && (IsInteger(n) || toDouble(NumberText(n)).Some?)
  {
    if IsInteger(n) then
      if WholeValue(n) <= MAX_INT then Int(WholeValue(n)) else UInt(WholeValue(n))
    else Real(toDouble(NumberText(n)).value)
  }

  // ----- Between tokens (section 2) ------------------------------------------------------------

  /** A comment from slash-star to the first star-slash. */
  predicate BlockComment(c: bytes) {
    && |c| >= 4 && c[0] == '/' && c[1] == '*' && c[|c| - 2] == '*' && c[|c| - 1] == '/'
    && forall k :: 2 <= k < |c| - 2 ==> !(c[k] == '*' && c[k + 1] == '/')
  }

  /** A comment from two slashes to the first line end. */
  predicate LineComment(c: bytes) {
    && |c| >= 3 && c[0] == '/' && c[1] == '/' && (c[|c| - 1] == '\n' || c[|c| - 1] == '\r')
    && forall k :: 2 <= k < |c| - 1 ==> c[k] != '\n' && c[k] != '\r'
  }

  /** Whitespace and comments. */
  ghost predicate Gap(s: bytes)
    decreases |s|
  {
    || s == []
    || (IsSpace(s[0]) && Gap(s[1..]))
    || exists n :: 3 <= n <= |s| && (BlockComment(s[..n]) || LineComment(s[..n])) && Gap(s[n..])
  }

  lemma {:induction false} SpaceGap(s: bytes)
    requires AllSpace(s)
    ensures Gap(s)
    decreases |s|
  {
    if s != [] {
      SpaceGap(s[1..]);
    }
  }

  // ----- Values, arrays and objects (sections 2 to 5) ------------------------------------------

  /** A member name: in double or single quotes, or a number. */
  datatype Label = Quoted(cs: Characters) | Single(cs: Characters) | Numeric(n: Number)

  /** In TArray and TObject, `ws` is what stands in an empty container.  `TDropped` is a null that is not
      written; `TSpecial` a float that is no JSON number. */
  datatype Tree =
    | TNull
    | TTrue
    | TFalse
    | TNumber(n: Number)
    | TString(cs: Characters)
    | TSingle(cs: Characters)
    | TSpecial(word: bytes)
    | TArray(ws: bytes, elements: Elements)
    | TObject(ws: bytes, members: Members)
    | TDropped

  /** LastComma and FinalComma stand behind a comma that nothing follows. */
  datatype Elements =
    | NoElement
    | LastComma(ws: bytes)
    | Element(before: bytes, value: Tree, after: bytes, rest: Elements)

  datatype Members =
    | NoMember
    | FinalComma(ws: bytes)
    | Member(before: bytes, name: Label, mid: bytes, before2: bytes, value: Tree, after: bytes, rest: Members)

  function LabelText(l: Label): bytes {
    match l
    case Quoted(cs) => StringText(cs)
    case Single(cs) => ApostropheText(cs)
    case Numeric(n) => NumberText(n)
  }

  /** A numeric name is an integer: the text of doubles belongs to the C++ library. */
  predicate ValidLabel(l: Label) {
    match l
    case Quoted(cs) => ValidCharacters(cs)
    case Single(cs) => ValidCharacters(cs) && NoSingleQuote(cs)
    case Numeric(n) => LooseNumber(n) && IsInteger(n)
  }

  function LabelName(l: Label): bytes
    requires ValidLabel(l)
  {
    match l
    case Quoted(cs) => StringValue(cs)
    case Single(cs) => StringValue(cs)
    case Numeric(n) => ShowInt(WholeValue(n))
  }

  function SpecialValue(word: bytes): Option<Double> {
    if word == "NaN" then Some(NaN)
    else if word == "Infinity" || word == "+Infinity" then Some(PosInf)
    else if word == "-Infinity" then Some(NegInf)
    else None
  }

  function Text(t: Tree): bytes {
    match t
    case TNull => "null"
    case TTrue => "true"
    case TFalse => "false"
    case TNumber(n) => NumberText(n)
    case TString(cs) => StringText(cs)
    case TSingle(cs) => ApostropheText(cs)
    case TSpecial(word) => word
    case TArray(ws, es) => if es.NoElement? then "[" + (ws + "]") else "[" + ElementsText(es)
    case TObject(ws, ms) => if ms.NoMember? then "{" + (ws + "}") else "{" + MembersText(ms)
    case TDropped => []
  }

  /** The elements with the separators between them and the closing bracket. */
  function ElementsText(es: Elements): bytes {
    match es
    case NoElement => []
    case LastComma(ws) => ws + "]"
    case Element(before, value, after, rest) =>
      before + (Text(value) + (after + (if rest.NoElement? then "]" else "," + ElementsText(rest))))
  }

  function NameText(m: Members): bytes
    requires m.Member?
  {
    m.before + (LabelText(m.name) + (m.mid + ":"))
  }

  function MembersText(ms: Members): bytes {
    match ms
    case NoMember => []
    case FinalComma(ws) => ws + "}"
    case Member(_, _, _, before2, value, after, rest) =>
      NameText(ms) + (before2 + (Text(value) + (after + (if rest.NoMember? then "}" else "," + MembersText(rest)))))
  }

  /** The constraints of the grammar with its extensions, and that `toDouble` reads the numbers that are not
      integers.  A dropped null leaves nothing behind it, and does not stand alone in an array. */
  ghost predicate ValidTree(t: Tree, toDouble: bytes -> Option<Double>) {
    match t
    case TNumber(n) => LooseNumber(n) && (IsInteger(n) || toDouble(NumberText(n)).Some?)
    case TString(cs) => ValidCharacters(cs)
    case TSingle(cs) => ValidCharacters(cs) && NoSingleQuote(cs)
    case TSpecial(word) => SpecialValue(word).Some?
    case TArray(ws, es) => AllSpace(ws) && !es.LastComma? && !LoneDrop(es) && ValidElements(es, toDouble)
    case TObject(ws, ms) => Gap(ws) && !ms.FinalComma? && ValidMembers(ms, toDouble)
    case _ => true
  }

  predicate LoneDrop(es: Elements) {
    es.Element? && es.value.TDropped? && es.rest.NoElement? && AllSpace(es.before)
  }

  ghost predicate ValidElements(es: Elements, toDouble: bytes -> Option<Double>) {
    match es
    case NoElement => true
    case LastComma(ws) => AllSpace(ws)
    case Element(before, value, after, rest) =>
      && Gap(before) && ValidTree(value, toDouble) && Gap(after) && (value.TDropped? ==> after == [])
      && ValidElements(rest, toDouble)
  }

  ghost predicate ValidMembers(ms: Members, toDouble: bytes -> Option<Double>) {
    match ms
    case NoMember => true
    case FinalComma(ws) => Gap(ws)
    case Member(before, name, mid, before2, value, after, rest) =>
      && Gap(before) && ValidLabel(name) && AllSpace(mid)
      && Gap(before2) && ValidTree(value, toDouble) && Gap(after) && (value.TDropped? ==> after == [])
      && ValidMembers(rest, toDouble)
  }

  /** The trees of RFC 8259. */
  predicate Standard(t: Tree) {
    match t
    case TNumber(n) => ValidNumber(n)
    case TArray(_, es) => StandardElements(es)
    case TObject(ws, ms) => AllSpace(ws) && StandardMembers(ms)
    case TSingle(_) => false
    case TSpecial(_) => false
    case TDropped => false
    case _ => true
  }

  predicate StandardElements(es: Elements) {
    match es
    case NoElement => true
    case LastComma(_) => false
    case Element(before, value, after, rest) =>
      AllSpace(before) && Standard(value) && AllSpace(after) && StandardElements(rest)
  }

  predicate StandardMembers(ms: Members) {
    match ms
    case NoMember => true
    case FinalComma(_) => false
    case Member(before, name, _, before2, value, after, rest) =>
      && AllSpace(before) && name.Quoted? && AllSpace(before2) && Standard(value) && AllSpace(after)
      && StandardMembers(rest)
  }

  /** How deep containers nest; a scalar counts 1. */
  function Depth(t: Tree): nat {
    match t
    case TArray(_, es) => 1 + ElementsDepth(es)
    case TObject(_, ms) => 1 + MembersDepth(ms)
    case _ => 1
  }

  function Max(a: nat, b: nat): nat { if a >= b then a else b }

  function ElementsDepth(es: Elements): nat {
    match es
    case NoElement => 0
    case LastComma(_) => 0
    case Element(_, value, _, rest) => Max(Depth(value), ElementsDepth(rest))
  }

  function MembersDepth(ms: Members): nat {
    match ms
    case NoMember => 0
    case FinalComma(_) => 0
    case Member(_, _, _, _, value, _, rest) => Max(Depth(value), MembersDepth(rest))
  }

  /** The value of a tree whose text starts at byte `p`: every node spans exactly its text, but for a
      dropped null, which spans the byte before.  A string of 2^32 bytes or more is cut as Value cuts it; any
      other stands for itself. */
  ghost function Denote(t: Tree, p: int, toDouble: bytes -> Option<Double>): Value
    requires ValidTree(t, toDouble)
  {
    var limit := p + |Text(t)|;
    match t
    case TNull => Value(Null, p, limit)
    case TTrue => Value(Bool(true), p, limit)
    case TFalse => Value(Bool(false), p, limit)
    case TNumber(n) => Value(NumberValue(n, toDouble), p, limit)
    case TString(cs) => Value(Str(Stored(StringValue(cs))), p, limit)
    case TSingle(cs) => Value(Str(Stored(StringValue(cs))), p, limit)
    case TSpecial(word) => Value(Real(SpecialValue(word).value), p, limit)
    case TDropped => Value(Null, p - 1, p)
    case TArray(_, es) => Value(Arr(DenoteElements(es, p + 1, 0, Nil, toDouble)), p, limit)
    case TObject(_, ms) => Value(Obj(DenoteMembers(ms, p + 1, Nil, toDouble)), p, limit)
  }

  /** The elements from the i-th on, added to the elements before them. */
  ghost function DenoteElements(es: Elements, p: int, i: nat, acc: Entries, toDouble: bytes -> Option<Double>): Entries
    requires ValidElements(es, toDouble)
    decreases es
  {
    match es
    case NoElement => acc
    case LastComma(_) => acc
    case Element(before, value, after, rest) =>
      var v := Denote(value, p + |before|, toDouble);
      DenoteElements(rest, p + |before| + |Text(value)| + |after| + 1, i + 1, Put(acc, Index(i), v), toDouble)
  }

  /** Members in order, a later one replacing an earlier one of the same name. */
  ghost function DenoteMembers(ms: Members, p: int, acc: Entries, toDouble: bytes -> Option<Double>): Entries
    requires ValidMembers(ms, toDouble)
    decreases ms
  {
    match ms
    case NoMember => acc
    case FinalComma(_) => acc
    case Member(_, name, _, before2, value, after, rest) =>
      var q := p + |NameText(ms)| + |before2|;
      var v := Denote(value, q, toDouble);
      DenoteMembers(rest, q + |Text(value)| + |after| + 1, Put(acc, Name(LabelName(name)), v), toDouble)
  }

  function ElementCount(es: Elements): nat {
    match es
    case NoElement => 0
    case LastComma(_) => 0
    case Element(_, _, _, rest) => 1 + ElementCount(rest)
  }

  /** What the reader can hold: strings of at most MAX_STRING bytes, after their lengths have gone through 32
      bits; in every array of the tree fewer than 2^31 elements; in every object names below 2^30 bytes, none
      of them twice if `unique`. */
  ghost predicate InLimits(t: Tree, unique: bool, toDouble: bytes -> Option<Double>)
    requires ValidTree(t, toDouble)
  {
    match t
    case TString(cs) => |Stored(StringValue(cs))| <= MAX_STRING
    case TSingle(cs) => |Stored(StringValue(cs))| <= MAX_STRING
    case TArray(_, es) => ElementCount(es) <= MAX_INT32 && ElementsInLimits(es, unique, toDouble)
    case TObject(_, ms) => MembersInLimits(ms, {}, unique, toDouble)
    case _ => true
  }

  ghost predicate ElementsInLimits(es: Elements, unique: bool, toDouble: bytes -> Option<Double>)
    requires ValidElements(es, toDouble)
  {
    es.Element? ==> InLimits(es.value, unique, toDouble) && ElementsInLimits(es.rest, unique, toDouble)
  }

  ghost predicate MembersInLimits(ms: Members, seen: set<bytes>, unique: bool, toDouble: bytes -> Option<Double>)
    requires ValidMembers(ms, toDouble)
    decreases ms
  {
    ms.Member? ==>
      var name := LabelName(ms.name);
      && |name| < NAME_LIMIT
      && (unique ==> name !in seen)
      && InLimits(ms.value, unique, toDouble)
      && MembersInLimits(ms.rest, seen + {name}, unique, toDouble)
  }
}
