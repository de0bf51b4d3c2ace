/** Soundness: what the reader accepts has the form of JSON with the extensions that are switched on, and with
    the reader's own leniency, all of which is spelled out here as predicates on texts. */
module Soundness {
  import opened Bytes
  import opened JsonValues
  import opened Grammar
  import opened Scanner
  import opened ReaderSpec
  import Numbers
  import Strings

  // ----- Strings -------------------------------------------------------------------------------

  /** Any byte but a backslash and the quote stands for itself, control characters too, and the second half of
      a surrogate pair may be any code unit. */
  predicate LenientCharacter(c: Character, quote: byte) {
    match c
    case Plain(b) => b != quote && b != '\\'
    case Short(c) => ShortEscape(c).Some?
    case Unicode(hex) => IsHex4(hex) && !IsHighSurrogate(Hex4Val(hex))
    case Pair(high, low) => IsHex4(high) && IsHex4(low) && IsHighSurrogate(Hex4Val(high))
  }

  /** What stands between the quotes; between single quotes, whatever follows a double quote is passed over. */
  ghost predicate Body(s: bytes, quote: byte)
    decreases |s|
  {
    || s == []
    || (quote != '"' && s[0] == '"')
    || exists c :: LenientCharacter(c, quote) && StartsWith(s, CharacterText(c)) && Body(s[|CharacterText(c)|..], quote)
  }

  /** `s` starts with a text that is not empty. */
  predicate StartsWith(s: bytes, text: bytes) {
    0 < |text| <= |s| && s[..|text|] == text
  }

  ghost predicate Literal(s: bytes, quote: byte) {
    |s| >= 2 && s[0] == quote && s[|s| - 1] == quote && Body(s[1..|s| - 1], quote)
  }

  // ----- Numbers and words ---------------------------------------------------------------------

  /** Digits, fraction and exponent, any of whose digits may be missing; the digits in front only behind a sign. */
  ghost predicate NumberForm(s: bytes) {
    exists n: Number, sign: bytes :: s == sign + NumberText(n) && LenientNumber(n, sign)
  }

  predicate LenientNumber(n: Number, sign: bytes) {
    && (sign == [] || sign == "-" || sign == "+") && (sign == [] ==> n.whole != [])
    && !n.minus && AllDigits(n.whole) && (n.fraction.Some? ==> AllDigits(n.fraction.value))
    && (n.exponent.Some? ==> LooseExponent(n.exponent.value))
  }

  /** A number that stands for a value. */
  ghost predicate NumberLiteral(f: Features, s: bytes) {
    s != [] && NumberForm(s) && Numbers.DecodeNumber(s, f.toDouble).Some?
  }

  ghost predicate Scalar(f: Features, s: bytes) {
    || s == "null" || s == "true" || s == "false"
    || (f.allowSpecialFloats && SpecialValue(s).Some?)
    || Literal(s, '"') || (f.allowSingleQuotes && Literal(s, '\''))
    || NumberLiteral(f, s)
  }

  /** A member name. */
  ghost predicate Tag(f: Features, s: bytes) {
    Literal(s, '"') || (f.allowSingleQuotes && Literal(s, '\'')) || (f.allowNumericKeys && NumberLiteral(f, s))
  }

  /** Names in double quotes that are not empty. */
  predicate Named(s: bytes) { |s| > 2 && s[0] == '"' }

  // ----- Values --------------------------------------------------------------------------------

  /** What may stand before a value. */
  ghost predicate Before(f: Features, s: bytes) {
    if f.allowComments then Gap(s) else AllSpace(s)
  }

  /** A value at nesting `depth`, without what stands before it.  The empty text is a dropped null. */
  ghost predicate ValueForm(f: Features, depth: nat, s: bytes)
    decreases |s|, 0
  {
    && depth <= f.stackLimit
    && (|| Scalar(f, s) || (f.allowDroppedNullPlaceholders && s == [])
        || (s != [] && s[0] == '[' && ElementsForm(f, depth, true, s[1..]))
        || (s != [] && s[0] == '{' && MembersForm(f, depth, true, s[1..])))
  }

  /** What follows the opening bracket or a comma in an array, with the closing bracket. */
  ghost predicate ElementsForm(f: Features, depth: nat, first: bool, s: bytes)
    decreases |s|, 1
  {
    || (s != [] && AllSpace(s[..|s| - 1]) && s[|s| - 1] == ']'
        && (first || (f.allowTrailingCommas && !f.allowDroppedNullPlaceholders)))
    || exists a, b, c :: 0 <= a <= b <= c < |s|
         && Before(f, s[..a]) && ValueForm(f, depth + 1, s[a..b]) && Gap(s[b..c])
         && ((s[c] == ']' && c + 1 == |s|) || (s[c] == ',' && ElementsForm(f, depth, false, s[c + 1..])))
  }

  /** What follows the opening brace or a separator in an object, with the closing brace. */
  ghost predicate MembersForm(f: Features, depth: nat, mayEnd: bool, s: bytes)
    decreases |s|, 2
  {
    || (s != [] && Gap(s[..|s| - 1]) && s[|s| - 1] == '}' && mayEnd)
    || exists a, b, c :: 0 <= a < b <= c < |s|
         && Gap(s[..a]) && Tag(f, s[a..b]) && AllSpace(s[b..c]) && s[c] == ':'
         && MemberForm(f, depth, f.allowTrailingCommas || !Named(s[a..b]), s[c + 1..])
  }

  /** What follows the colon of a member, with the closing brace. */
  ghost predicate MemberForm(f: Features, depth: nat, mayEnd: bool, s: bytes)
    decreases |s|, 1
  {
    exists a, b, c, d :: 0 <= a <= b <= c < d <= |s|
      && Before(f, s[..a]) && ValueForm(f, depth + 1, s[a..b]) && Gap(s[b..c])
      && ((s[c] == '}' && d == |s|) || (Separates(s[b..c], s[c..d]) && MembersForm(f, depth, mayEnd, s[d..])))
  }

  /** A comma; but behind a comment, any token that is no closing brace does as well. */
  predicate Separates(gap: bytes, token: bytes) {
    token == "," || (!AllSpace(gap) && token != [] && token[0] != '}')
  }

  // ----- Documents -----------------------------------------------------------------------------

  /** A comment that the end of the text closes: a line comment without line end, or a block comment whose last
      byte is a slash. */
  predicate Unfinished(c: bytes) {
    |c| >= 2 && c[0] == '/' && ((c[1] == '/' && c[|c| - 1] != '\n') || (|c| >= 3 && c[1] == '*' && c[|c| - 1] == '/'))
  }

  /** What may follow the value where nothing but whitespace and comments may: up to a NUL or the end. */
  ghost predicate Rest(f: Features, s: bytes) {
    exists i :: 0 <= i <= |s| && Before(f, s[..i])
      && (i == |s| || s[i] == '\0' || (f.allowComments && Unfinished(s[i..])))
  }

  /** A text that is accepted. */
  ghost predicate DocumentForm(f: Features, doc: bytes, start: nat) {
    exists a, b :: start <= a <= b <= |doc|
      && Before(f, doc[start..a]) && ValueForm(f, 1, doc[a..b])
      && (f.strictRoot ==> a < b && (doc[a] == '[' || doc[a] == '{'))
      && (f.failIfExtra ==> Rest(f, doc[b..]))
  }

  // ----- Slices --------------------------------------------------------------------------------

  lemma SubSlice(doc: bytes, p: nat, q: nat, i: nat, j: nat)
    requires p <= i <= j <= q <= |doc|
    ensures |doc[p..q]| == q - p && doc[p..q][i - p..j - p] == doc[i..j]
  {
    var s := doc[p..q];
    assert forall k :: i - p <= k < j - p ==> s[k] == doc[p + k];
  }

  lemma {:induction false} GapConcat(a: bytes, b: bytes)
    requires Gap(a) && Gap(b)
    ensures Gap(a + b)
    decreases |a|
  {
    hide BlockComment, LineComment;
    if a == [] {
      assert a + b == b;
    } else if IsSpace(a[0]) && Gap(a[1..]) {
      GapConcat(a[1..], b);
      assert (a + b)[1..] == a[1..] + b;
    } else {
      var n :| 3 <= n <= |a| && (BlockComment(a[..n]) || LineComment(a[..n])) && Gap(a[n..]);
      GapConcat(a[n..], b);
      var s := a + b;
      assert s[n..] == a[n..] + b && s[..n] == a[..n];
      assert 3 <= n <= |s| && (BlockComment(s[..n]) || LineComment(s[..n])) && Gap(s[n..]);
    }
  }

  lemma SpaceSlice(doc: bytes, p: nat, f: Features)
    requires p <= |doc|
    ensures var s := SkipSpaces(doc, p); AllSpace(doc[p..s]) && Gap(doc[p..s]) && Before(f, doc[p..s])
  {
    SpacesAre(doc, p);
    SpaceGap(doc[p..SkipSpaces(doc, p)]);
  }

  lemma {:induction false} SpacesAre(doc: bytes, p: nat)
    requires p <= |doc|
    ensures AllSpace(doc[p..SkipSpaces(doc, p)])
    decreases |doc| - p
  {
    if p < |doc| && IsSpace(doc[p]) {
      SpacesAre(doc, p + 1);
      assert doc[p..SkipSpaces(doc, p)] == [doc[p]] + doc[p + 1..SkipSpaces(doc, p)];
    }
  }

  // ----- Comments and gaps ---------------------------------------------------------------------

  lemma {:induction false} BlockEnds(doc: bytes, p: nat)
    requires p <= |doc|
    ensures var q := ScanCStyle(doc, p);
      && (forall k :: p <= k < q - 1 ==> !(doc[k] == '*' && doc[k + 1] == '/'))
      && (q + 1 < |doc| ==> p < q && doc[q - 1] == '*' && doc[q] == '/')
    decreases |doc| - p
  {
    if p + 1 < |doc| && !(doc[p] == '*' && doc[p + 1] == '/') {
      BlockEnds(doc, p + 1);
    }
  }

  lemma {:induction false} LineEnds(doc: bytes, p: nat)
    requires p <= |doc|
    ensures var q := ScanCppStyle(doc, p);
      var n := if q >= p + 2 && doc[q - 1] == '\n' && doc[q - 2] == '\r' then q - 2 else q - 1;
      && (forall k :: p <= k < n ==> doc[k] != '\n' && doc[k] != '\r')
      && (q < |doc| ==> p < q && (doc[q - 1] == '\n' || doc[q - 1] == '\r'))
    decreases |doc| - p
  {
    if p < |doc| && doc[p] != '\n' && doc[p] != '\r' {
      LineEnds(doc, p + 1);
    }
  }

  /** A comment before the end of the text is one of the grammar's. */
  lemma CommentIsGap(f: Features, doc: bytes, s: nat)
    requires s < |doc| && doc[s] == '/' && TokenFrom(f, doc, s).kind == Comment && TokenFrom(f, doc, s).end < |doc|
    ensures Gap(doc[s..TokenFrom(f, doc, s).end])
  {
    var e := TokenFrom(f, doc, s).end;
    var c := doc[s..e];
    assert Gap([]);
    if doc[s + 1] == '*' {
      BlockEnds(doc, s + 2);
      assert BlockComment(c[..|c|]) && c[|c|..] == [];
    } else {
      LineEnds(doc, s + 2);
      LineIsGap(doc, s, e);
    }
  }

  lemma LineIsGap(doc: bytes, s: nat, e: nat)
    requires s + 2 < e <= |doc| && doc[s] == '/' && doc[s + 1] == '/' && (doc[e - 1] == '\n' || doc[e - 1] == '\r')
    requires var n := if e >= s + 4 && doc[e - 1] == '\n' && doc[e - 2] == '\r' then e - 2 else e - 1;
      forall k :: s + 2 <= k < n ==> doc[k] != '\n' && doc[k] != '\r'
    ensures Gap(doc[s..e])
  {
    var c := doc[s..e];
    assert Gap([]);
    if e >= s + 4 && doc[e - 1] == '\n' && doc[e - 2] == '\r' {
      assert c[|c| - 1..] == ['\n'] && ['\n'][1..] == [];
      assert LineComment(c[..|c| - 1]);
    } else {
      assert LineComment(c[..|c|]) && c[|c|..] == [];
    }
  }

  lemma ThreeGaps(doc: bytes, p: nat, s: nat, t: nat, q: nat)
    requires p <= s <= t <= q <= |doc| && Gap(doc[p..s]) && Gap(doc[s..t]) && Gap(doc[t..q])
    ensures Gap(doc[p..q])
  {
    hide Gap;
    GapConcat(doc[p..s], doc[s..t]);
    assert doc[p..s] + doc[s..t] == doc[p..t];
    GapConcat(doc[p..t], doc[t..q]);
    assert doc[p..t] + doc[t..q] == doc[p..q];
  }

  /** Between a position and the next token there are whitespace and comments, and only whitespace if the next
      token is the first. */
  lemma {:induction false} NextGap(f: Features, doc: bytes, p: nat)
    requires p <= |doc| && NextToken(f, doc, p).start < |doc|
    ensures Gap(doc[p..NextToken(f, doc, p).start])
    decreases |doc| - p
  {
    hide TokenFrom, Gap;
    SpaceSlice(doc, p, f);
    var s, t := SkipSpaces(doc, p), ReadToken(f, doc, p);
    if t.kind == Comment {
      CommentSlash(f, doc, s);
      NextGap(f, doc, t.end);
      CommentIsGap(f, doc, s);
      ThreeGaps(doc, p, s, t.end, NextToken(f, doc, t.end).start);
    }
  }

  lemma CommentSlash(f: Features, doc: bytes, s: nat)
    requires s < |doc| && TokenFrom(f, doc, s).kind == Comment
    ensures doc[s] == '/'
  {}

  lemma FirstGap(f: Features, doc: bytes, p: nat)
    requires p <= |doc|
    ensures AllSpace(doc[p..ReadToken(f, doc, p).start])
  {
    hide TokenFrom;
    SpaceSlice(doc, p, f);
  }

  lemma BeforeToken(f: Features, doc: bytes, p: nat)
    requires p <= |doc| && SkipComments(f, doc, p).start < |doc|
    ensures Before(f, doc[p..SkipComments(f, doc, p).start])
  {
    hide Gap;
    if f.allowComments {
      NextGap(f, doc, p);
    } else {
      FirstGap(f, doc, p);
    }
  }

  // ----- Strings -------------------------------------------------------------------------------

  /** No quote ends the string before its end. */
  predicate Unquoted(s: bytes, i: nat, quote: byte)
    requires i <= |s|
    decreases |s| - i
  {
    i == |s| || if s[i] == '\\' then i + 2 <= |s| && Unquoted(s, i + 2, quote)
                else s[i] != quote && Unquoted(s, i + 1, quote)
  }

  lemma {:induction false} ScannedUnquoted(doc: bytes, s: nat, p: nat, quote: byte)
    requires s <= p <= |doc| && quote != '\\' && ScanString(doc, p, quote).0
    ensures var e := ScanString(doc, p, quote).1 - 1; s <= p <= e && Unquoted(doc[s..e], p - s, quote)
    decreases |doc| - p
  {
    if doc[p] == '\\' {
      ScannedUnquoted(doc, s, if p + 1 < |doc| then p + 2 else p + 1, quote);
    } else if doc[p] != quote {
      ScannedUnquoted(doc, s, p + 1, quote);
    }
  }

  /** What decodeString decodes is a body. */
  lemma {:induction false} DecodedBody(s: bytes, i: nat, quote: byte)
    requires i <= |s| && Unquoted(s, i, quote) && Strings.Unescape(s, i).Good? && (quote == '"' || quote == '\'')
    ensures Body(s[i..], quote)
    decreases |s| - i
  {
    if i < |s| && s[i] != '"' {
      var c, next := Decoded(s, i, quote);
      DecodedBody(s, next, quote);
      assert s[i..][|CharacterText(c)|..] == s[next..];
    }
  }

  /** The next character, and where it ends. */
  lemma Decoded(s: bytes, i: nat, quote: byte) returns (c: Character, next: nat)
    requires i < |s| && Unquoted(s, i, quote) && Strings.Unescape(s, i).Good? && s[i] != '"'
    requires quote == '"' || quote == '\''
    ensures LenientCharacter(c, quote) && StartsWith(s[i..], CharacterText(c)) && next == i + |CharacterText(c)| <= |s|
    ensures Unquoted(s, next, quote) && Strings.Unescape(s, next).Good?
  {
    if s[i] != '\\' {
      c, next := Plain(s[i]), i + 1;
    } else if s[i + 1] == 'u' {
      c, next := DecodedUnicode(s, i, quote);
    } else {
      c, next := Short(s[i + 1]), i + 2;
      assert s[i..][..2] == ['\\', s[i + 1]];
    }
  }

  lemma HexUnquoted(s: bytes, i: nat, quote: byte)
    requires i + 4 <= |s| && IsHex4(s[i..i + 4]) && Unquoted(s, i, quote) && (quote == '"' || quote == '\'')
    ensures Unquoted(s, i + 4, quote)
  {
    var hex := s[i..i + 4];
    assert hex[0] == s[i] && hex[1] == s[i + 1] && hex[2] == s[i + 2] && hex[3] == s[i + 3];
    assert Unquoted(s, i + 1, quote);
    assert Unquoted(s, i + 2, quote);
    assert Unquoted(s, i + 3, quote);
  }

  lemma UnquotedEscape(s: bytes, i: nat, quote: byte)
    requires i < |s| && s[i] == '\\' && Unquoted(s, i, quote)
    ensures i + 2 <= |s| && Unquoted(s, i + 2, quote)
  {}

  lemma UnescapeUnicode(s: bytes, i: nat)
    requires i + 1 < |s| && s[i] == '\\' && s[i + 1] == 'u' && Strings.Unescape(s, i).Good?
    ensures var c := Strings.CodePoint(s, i + 2); c.Code? && Strings.Unescape(s, c.next).Good?
  {
    hide Strings.CodePoint;
  }

  lemma UnicodeStarts(s: bytes, i: nat)
    requires i + 6 <= |s| && s[i] == '\\' && s[i + 1] == 'u'
    ensures var text := CharacterText(Unicode(s[i + 2..i + 6])); |text| == 6 && StartsWith(s[i..], text)
  {
    assert s[i..][..6] == ['\\', 'u'] + s[i + 2..i + 6];
  }

  lemma PairStarts(s: bytes, i: nat)
    requires i + 12 <= |s| && s[i] == '\\' && s[i + 1] == 'u' && s[i + 6] == '\\' && s[i + 7] == 'u'
    ensures var text := CharacterText(Pair(s[i + 2..i + 6], s[i + 8..i + 12])); |text| == 12 && StartsWith(s[i..], text)
  {
    assert s[i..][..12] == ['\\', 'u'] + (s[i + 2..i + 6] + (['\\', 'u'] + s[i + 8..i + 12]));
  }

  lemma DecodedUnicode(s: bytes, i: nat, quote: byte) returns (c: Character, next: nat)
    requires i + 1 < |s| && s[i] == '\\' && s[i + 1] == 'u' && (quote == '"' || quote == '\'')
    requires Unquoted(s, i, quote) && Strings.Unescape(s, i).Good?
    ensures LenientCharacter(c, quote) && StartsWith(s[i..], CharacterText(c)) && next == i + |CharacterText(c)| <= |s|
    ensures Unquoted(s, next, quote) && Strings.Unescape(s, next).Good?
  {
    hide Strings.Unescape, Hex4Val, Unquoted, HexDigit, StartsWith, CharacterText;
    UnescapeUnicode(s, i);
    var high := s[i + 2..i + 6];
    UnquotedEscape(s, i, quote);
    HexUnquoted(s, i + 2, quote);
    next := Strings.CodePoint(s, i + 2).next;
    if IsHighSurrogate(Hex4Val(high)) {
      var low := s[i + 8..i + 12];
      c := Pair(high, low);
      UnquotedEscape(s, i + 6, quote);
      HexUnquoted(s, i + 8, quote);
      PairStarts(s, i);
    } else {
      c := Unicode(high);
      UnicodeStarts(s, i);
    }
  }

  lemma StringForm(f: Features, doc: bytes, t: Token)
    requires t.start < |doc| && t == TokenFrom(f, doc, t.start) && t.kind == StringToken
    requires t.start + 2 <= t.end && DecodeString(doc, t).Good?
    ensures Tag(f, TokenText(doc, t)) && Scalar(f, TokenText(doc, t))
    ensures DecodeString(doc, t).text == [] ==> !Named(TokenText(doc, t))
  {
    hide Strings.Unescape, Body;
    var quote: byte := if doc[t.start] == '"' then '"' else '\'';
    StringQuote(f, doc, t);
    var body := doc[t.start + 1..t.end - 1];
    ScannedUnquoted(doc, t.start + 1, t.start + 1, quote);
    DecodedBody(body, 0, quote);
    assert body[0..] == body;
    var s := TokenText(doc, t);
    SubSlice(doc, t.start, t.end, t.start + 1, t.end - 1);
    assert s[1..|s| - 1] == body;
    if Named(s) {
      NotNameless(body);
    }
  }

  lemma StringQuote(f: Features, doc: bytes, t: Token)
    requires t.start < |doc| && t == TokenFrom(f, doc, t.start) && t.kind == StringToken
    ensures doc[t.start] == '"' || (f.allowSingleQuotes && doc[t.start] == '\'')
    ensures ScanString(doc, t.start + 1, doc[t.start]) == (true, t.end)
  {
    hide ScanString, ScanNumber, ScanComment, SignedToken, At;
    SignedKinds(f, doc, t.start);
  }

  lemma NotNameless(body: bytes)
    requires body != [] && Unquoted(body, 0, '"')
    ensures Strings.Unescape(body, 0) != Strings.Good([])
  {}

  // ----- Numbers and words ---------------------------------------------------------------------

  lemma {:induction false} DigitsAre(doc: bytes, p: nat)
    requires p <= |doc|
    ensures AllDigits(doc[p..ScanDigits(doc, p)])
    decreases |doc| - p
  {
    if p < |doc| && IsDigit(doc[p]) {
      DigitsAre(doc, p + 1);
      assert doc[p..ScanDigits(doc, p)] == [doc[p]] + doc[p + 1..ScanDigits(doc, p)];
    }
  }

  lemma FractionForm(doc: bytes, p: nat) returns (fraction: Option<bytes>)
    requires p <= |doc|
    ensures doc[p..ScanFraction(doc, p)] == FractionText(fraction)
    ensures fraction.Some? ==> AllDigits(fraction.value)
  {
    if p < |doc| && doc[p] == '.' {
      DigitsAre(doc, p + 1);
      fraction := Some(doc[p + 1..ScanDigits(doc, p + 1)]);
      assert doc[p..ScanFraction(doc, p)] == [doc[p]] + doc[p + 1..ScanDigits(doc, p + 1)];
    } else {
      fraction := None;
    }
  }

  lemma ExponentForm(doc: bytes, p: nat) returns (exponent: Option<Exponent>)
    requires p <= |doc|
    ensures doc[p..ScanExponent(doc, p)] == ExponentText(exponent)
    ensures exponent.Some? ==> LooseExponent(exponent.value)
  {
    if p < |doc| && (doc[p] == 'e' || doc[p] == 'E') {
      var q := if p + 1 < |doc| && (doc[p + 1] == '+' || doc[p + 1] == '-') then p + 2 else p + 1;
      DigitsAre(doc, q);
      exponent := Some(Exponent(doc[p], doc[p + 1..q], doc[q..ScanDigits(doc, q)]));
      assert doc[p..ScanExponent(doc, p)] == [doc[p]] + doc[p + 1..q] + doc[q..ScanDigits(doc, q)];
      assert q == p + 2 ==> doc[p + 1..q] == [doc[p + 1]];
    } else {
      exponent := None;
    }
  }

  /** What is scanned behind a sign, or from a digit on. */
  lemma ScannedForm(doc: bytes, s: nat, p: nat)
    requires s <= p <= |doc| && !(p < |doc| && doc[p] == 'I')
    requires if p == s then s < |doc| && IsDigit(doc[s]) else p == s + 1 && (doc[s] == '-' || doc[s] == '+')
    ensures NumberForm(doc[s..ScanNumber(doc, p, true).1])
  {
    hide ScanDigits, ScanFraction, ScanExponent, LooseExponent;
    var d := ScanDigits(doc, p);
    var q := ScanFraction(doc, d);
    var e := ScanExponent(doc, q);
    DigitsAre(doc, p);
    var fraction := FractionForm(doc, d);
    var exponent := ExponentForm(doc, q);
    var n, sign := Number(false, doc[p..d], fraction, exponent), doc[s..p];
    Parts(doc, s, p, d, q, e);
    assert NumberText(n) == doc[p..d] + doc[d..q] + doc[q..e] by {
      assert [] + doc[p..d] == doc[p..d];
    }
    if p == s {
      FirstDigit(doc, s);
    }
    assert p == s + 1 ==> sign == [doc[s]];
    assert LenientNumber(n, sign);
  }

  lemma Parts(doc: bytes, s: nat, p: nat, d: nat, q: nat, e: nat)
    requires s <= p <= d <= q <= e <= |doc|
    ensures doc[s..e] == doc[s..p] + (doc[p..d] + doc[d..q] + doc[q..e])
  {}

  lemma FirstDigit(doc: bytes, s: nat)
    requires s < |doc| && IsDigit(doc[s])
    ensures ScanDigits(doc, s) == ScanDigits(doc, s + 1) > s
  {}

  lemma NumberTokenForm(f: Features, doc: bytes, t: Token)
    requires t.start < |doc| && t == TokenFrom(f, doc, t.start) && t.kind == NumberToken
    ensures NumberForm(TokenText(doc, t))
  {
    hide ScanDigits, ScanFraction, ScanExponent, ScanString, NumberForm;
    var s := t.start;
    if IsDigit(doc[s]) {
      FirstDigit(doc, s);
      ScannedForm(doc, s, s);
    } else {
      NumberSigned(f, doc, t);
      ScannedForm(doc, s, s + 1);
    }
  }

  lemma NumberSigned(f: Features, doc: bytes, t: Token)
    requires t.start < |doc| && t == TokenFrom(f, doc, t.start) && t.kind == NumberToken && !IsDigit(doc[t.start])
    ensures (doc[t.start] == '-' || doc[t.start] == '+') && !(t.start + 1 < |doc| && doc[t.start + 1] == 'I')
    ensures t.end == ScanNumber(doc, t.start + 1, true).1
  {
    hide ScanDigits, ScanFraction, ScanExponent, ScanString;
  }

  lemma WordForm(f: Features, doc: bytes, t: Token)
    requires t.start < |doc| && t == TokenFrom(f, doc, t.start)
    ensures t.kind == TrueToken ==> TokenText(doc, t) == "true"
    ensures t.kind == FalseToken ==> TokenText(doc, t) == "false"
    ensures t.kind == NullToken ==> TokenText(doc, t) == "null"
  {
    hide ScanString, ScanNumber, ScanComment, SignedToken, At;
    var s := t.start;
    MatchedText(doc, s, "rue");
    MatchedText(doc, s, "alse");
    MatchedText(doc, s, "ull");
    SignedKinds(f, doc, s);
  }

  lemma SignedKinds(f: Features, doc: bytes, s: nat)
    requires s < |doc|
    ensures forall k :: k == NegInfToken || k == PosInfToken ==>
      SignedToken(f, doc, s, k).kind in {NumberToken, k, ErrorToken}
  {
    hide ScanNumber;
  }

  lemma MatchedText(doc: bytes, s: nat, pattern: bytes)
    requires s < |doc|
    ensures At(doc, s + 1, pattern) ==> doc[s..s + 1 + |pattern|] == [doc[s]] + pattern
  {
    if At(doc, s + 1, pattern) {
      AtSlice(doc, s + 1, pattern);
      assert doc[s..s + 1 + |pattern|] == [doc[s]] + doc[s + 1..s + 1 + |pattern|];
    }
  }

  lemma FloatForm(f: Features, doc: bytes, t: Token)
    requires t.start < |doc| && t == TokenFrom(f, doc, t.start)
    requires t.kind == NaNToken || t.kind == PosInfToken || t.kind == NegInfToken
    ensures f.allowSpecialFloats && SpecialValue(TokenText(doc, t)).Some?
  {
    hide ScanString, ScanDigits, ScanFraction, ScanExponent;
    var s := t.start;
    MatchedText(doc, s, "aN");
    MatchedText(doc, s, "nfinity");
    if doc[s] == '-' || doc[s] == '+' {
      SignedFloatForm(f, doc, t);
    }
  }

  lemma SignedFloatForm(f: Features, doc: bytes, t: Token)
    requires t.start < |doc| && t == TokenFrom(f, doc, t.start) && (doc[t.start] == '-' || doc[t.start] == '+')
    requires t.kind == PosInfToken || t.kind == NegInfToken
    ensures f.allowSpecialFloats && SpecialValue(TokenText(doc, t)).Some?
  {
    hide ScanString, ScanDigits, ScanFraction, ScanExponent;
    var s := t.start;
    MatchedText(doc, s + 1, "nfinity");
    var text := TokenText(doc, t);
    assert text == [doc[s]] + doc[s + 1..t.end];
    assert ['I'] + "nfinity" == "Infinity" && ['-'] + "Infinity" == "-Infinity" && ['+'] + "Infinity" == "+Infinity";
  }

  // ----- Values --------------------------------------------------------------------------------

  lemma NumberIsScalar(text: bytes, toDouble: bytes -> Option<Double>)
    requires text != []
    ensures var d := Numbers.DecodeNumber(text, toDouble); d.Some? ==> !d.value.Arr? && !d.value.Obj?
  {
    hide Numbers.Accumulate;
  }

  /** A token that is read as a value, or shows that a null was dropped. */
  lemma ScalarForm(f: Features, doc: bytes, base: nat, t: Token, errors: seq<ErrorInfo>, cur: Value)
    requires t.start <= t.end <= |doc| && (t.kind != EndOfStream ==> t.start < t.end)
    requires t.kind == StringToken ==> t.start + 2 <= t.end
    requires t.start < |doc| ==> t == TokenFrom(f, doc, t.start)
    requires t.start == |doc| ==> t.kind == EndOfStream
    ensures var o := ReadScalar(f, doc, base, t, errors, cur);
      o.status == Success ==>
        && t.start < |doc| && !o.value.data.Arr? && !o.value.data.Obj?
        && (if o.pos == t.end then Scalar(f, TokenText(doc, t))
            else f.allowDroppedNullPlaceholders && o.pos == t.start)
  {
    hide TokenFrom, Strings.Unescape, Numbers.DecodeNumber, NumberForm, Literal, SpecialValue, DecodeString;
    var o := ReadScalar(f, doc, base, t, errors, cur);
    if o.status == Success && t.start < |doc| {
      match t.kind
      case StringToken => StringForm(f, doc, t);
      case NumberToken =>
        NumberTokenForm(f, doc, t);
        NumberIsScalar(TokenText(doc, t), f.toDouble);
      case TrueToken => WordForm(f, doc, t);
      case FalseToken => WordForm(f, doc, t);
      case NullToken => WordForm(f, doc, t);
      case NaNToken => FloatForm(f, doc, t);
      case PosInfToken => FloatForm(f, doc, t);
      case NegInfToken => FloatForm(f, doc, t);
      case _ => PunctuationLength(f, doc, t);
    }
  }

  lemma PunctuationLength(f: Features, doc: bytes, t: Token)
    requires t.start < |doc| && t == TokenFrom(f, doc, t.start)
    ensures t.kind in {ArraySeparator, MemberSeparator, ObjectEnd, ArrayEnd, ObjectBegin, ArrayBegin}
            ==> t.end == t.start + 1
    ensures t.kind == ArraySeparator ==> doc[t.start] == ','
    ensures t.kind == MemberSeparator ==> doc[t.start] == ':'
    ensures t.kind == ObjectEnd <==> doc[t.start] == '}'
    ensures t.kind == ArrayEnd <==> doc[t.start] == ']'
    ensures t.kind == ObjectBegin <==> doc[t.start] == '{'
    ensures t.kind == ArrayBegin <==> doc[t.start] == '['
  {
    hide ScanString, ScanNumber;
    SignedKinds(f, doc, t.start);
  }

  /** A token is the one that starts where it starts. */
  lemma {:induction false} TokenIsFrom(f: Features, doc: bytes, p: nat)
    requires p <= |doc|
    ensures var t := ReadToken(f, doc, p);
      if t.start < |doc| then t == TokenFrom(f, doc, t.start) else t.kind == EndOfStream
    ensures var t := NextToken(f, doc, p);
      if t.start < |doc| then t == TokenFrom(f, doc, t.start) else t.kind == EndOfStream
    decreases |doc| - p
  {
    hide TokenFrom;
    var t := ReadToken(f, doc, p);
    if t.kind == Comment {
      TokenIsFrom(f, doc, t.end);
    }
  }

  /** A value that is read has the form of a value, from some place on. */
  lemma {:induction false} ValueSound(f: Features, doc: bytes, base: nat, depth: nat, p: nat, errors: seq<ErrorInfo>,
                                      cur: Value) returns (q: nat)
    requires p <= |doc| && ReadValue(f, doc, base, depth, p, errors, cur).status == Success
    ensures var o := ReadValue(f, doc, base, depth, p, errors, cur);
      && p <= q <= o.pos && Before(f, doc[p..q]) && ValueForm(f, depth, doc[q..o.pos])
      && (o.value.data.Arr? || o.value.data.Obj? ==> q < o.pos && (doc[q] == '[' || doc[q] == '{'))
    decreases |doc| - p, 0
  {
    hide ReadMembers, ReadElements, ReadScalar, TokenFrom, ElementsForm, MembersForm, Scalar, Gap, SkipComments,
      NextToken, ReadToken, Before, ValueForm, ReadValue;
    if depth > f.stackLimit {
      ReadValueThrows(f, doc, base, depth, p, errors, cur);
    }
    StringTokenLength(f, doc, p);
    var t := SkipComments(f, doc, p);
    SkippedToken(f, doc, p);
    ReadValueStep(f, doc, base, depth, p, errors, cur, t);
    var o := ReadValue(f, doc, base, depth, p, errors, cur);
    q := t.start;
    if t.kind == ObjectBegin {
      BeforeToken(f, doc, p);
      PunctuationLength(f, doc, t);
      MembersSound(f, doc, base, depth, t.end, errors, [], Value(Obj(Nil), t.start - base, cur.limit), true);
      ContainerForm(f, depth, doc, q, o.pos);
    } else if t.kind == ArrayBegin {
      BeforeToken(f, doc, p);
      PunctuationLength(f, doc, t);
      ElementsSound(f, doc, base, depth, t.end, errors, 0, Value(Arr(Nil), t.start - base, cur.limit));
      ContainerForm(f, depth, doc, q, o.pos);
    } else {
      ScalarForm(f, doc, base, t, errors, cur);
      BeforeToken(f, doc, p);
      assert o.pos == t.start ==> doc[q..o.pos] == [];
      LeafForm(f, depth, doc[q..o.pos]);
    }
  }

  lemma ContainerForm(f: Features, depth: nat, doc: bytes, q: nat, e: nat)
    requires depth <= f.stackLimit && q < e <= |doc|
    requires || (doc[q] == '[' && ElementsForm(f, depth, true, doc[q + 1..e]))
             || (doc[q] == '{' && MembersForm(f, depth, true, doc[q + 1..e]))
    ensures ValueForm(f, depth, doc[q..e])
  {
    hide ElementsForm, MembersForm, Scalar;
    assert doc[q..e][1..] == doc[q + 1..e];
  }

  lemma LeafForm(f: Features, depth: nat, s: bytes)
    requires depth <= f.stackLimit && (Scalar(f, s) || (f.allowDroppedNullPlaceholders && s == []))
    ensures ValueForm(f, depth, s)
  {
    hide ElementsForm, MembersForm, Scalar;
  }

  lemma SkippedToken(f: Features, doc: bytes, p: nat)
    requires p <= |doc|
    ensures var t := SkipComments(f, doc, p);
      if t.start < |doc| then t == TokenFrom(f, doc, t.start) else t.kind == EndOfStream
  {
    hide TokenFrom;
    TokenIsFrom(f, doc, p);
  }

  lemma BeforeConcat(f: Features, doc: bytes, p: nat, s: nat, q: nat)
    requires p <= s <= q <= |doc| && AllSpace(doc[p..s]) && Before(f, doc[s..q])
    ensures Before(f, doc[p..q])
  {
    hide Gap;
    assert doc[p..s] + doc[s..q] == doc[p..q];
    SpaceGap(doc[p..s]);
    if f.allowComments {
      GapConcat(doc[p..s], doc[s..q]);
    }
  }

  lemma {:induction false} ElementsSound(f: Features, doc: bytes, base: nat, depth: nat, p: nat,
                                         errors: seq<ErrorInfo>, index: nat, cur: Value)
    requires p <= |doc| && cur.data.Arr? && ReadElements(f, doc, base, depth, p, errors, index, cur).status == Success
    ensures ElementsForm(f, depth, index == 0, doc[p..ReadElements(f, doc, base, depth, p, errors, index, cur).pos])
    decreases |doc| - p, 2
  {
    hide ReadValue, TokenFrom, ValueForm, Gap, Before, AllSpace, ReadToken, NextToken, ElementsForm, WithElement,
      Child, AfterElement;
    var s := SkipSpaces(doc, p);
    SpaceSlice(doc, p, f);
    if s < |doc| && doc[s] == ']' && (index == 0 || (f.allowTrailingCommas && !f.allowDroppedNullPlaceholders)) {
      CloseArray(f, doc, depth, index == 0, p, s);
    } else {
      var v := ReadValue(f, doc, base, depth + 1, s, errors, Child(cur.data.items, Index(index)));
      ElementSound(f, doc, base, depth, p, s, errors, index, cur, v);
    }
  }

  /** An element and what follows it. */
  lemma {:induction false} ElementSound(f: Features, doc: bytes, base: nat, depth: nat, p: nat, s: nat,
                                        errors: seq<ErrorInfo>, index: nat, cur: Value, v: Outcome)
    requires p <= s <= |doc| && cur.data.Arr? && AllSpace(doc[p..s])
    requires v == ReadValue(f, doc, base, depth + 1, s, errors, Child(cur.data.items, Index(index)))
    requires AfterElement(f, doc, base, depth, p, v, index, WithElement(cur, index, v.value)).status == Success
    ensures var e := AfterElement(f, doc, base, depth, p, v, index, WithElement(cur, index, v.value)).pos;
      ElementsForm(f, depth, index == 0, doc[p..e])
    decreases |doc| - p, 1
  {
    hide ReadValue, ReadElements, ValueForm, Gap, Before, AllSpace, ReadToken, NextToken, ElementsForm, WithElement,
      Child, RecoverPos;
    var q := ValueSound(f, doc, base, depth + 1, s, errors, Child(cur.data.items, Index(index)));
    BeforeConcat(f, doc, p, s, q);
    var t := AfterValue(f, doc, v.pos);
    var filled := WithElement(cur, index, v.value);
    var e := AfterElement(f, doc, base, depth, p, v, index, filled).pos;
    if t.kind == ArraySeparator {
      ElementsSound(f, doc, base, depth, t.end, v.errors, index + 1, filled);
    }
    ElementIs(f, doc, depth, index == 0, p, q, v.pos, t.start, e);
  }

  /** The token behind a value. */
  lemma AfterValue(f: Features, doc: bytes, p: nat) returns (t: Token)
    requires p <= |doc|
    ensures t == NextToken(f, doc, p) && (t.start == |doc| ==> t.kind == EndOfStream)
    ensures t.start < |doc| ==> Gap(doc[p..t.start]) && t.start < t.end
    ensures t.start < |doc| && t.kind == ArraySeparator ==> doc[t.start] == ',' && t.end == t.start + 1
    ensures t.start < |doc| && t.kind == ArrayEnd ==> doc[t.start] == ']' && t.end == t.start + 1
    ensures t.start < |doc| && t.kind == ObjectEnd ==> doc[t.start] == '}' && t.end == t.start + 1
    ensures t.start < |doc| && t.kind != ObjectEnd ==> doc[t.start] != '}'
  {
    hide TokenFrom, Gap, NextToken;
    t := NextToken(f, doc, p);
    TokenIsFrom(f, doc, p);
    if t.start < |doc| {
      NextGap(f, doc, p);
      PunctuationLength(f, doc, t);
    }
  }

  lemma CloseArray(f: Features, doc: bytes, depth: nat, first: bool, p: nat, s: nat)
    requires p <= s < |doc| && doc[s] == ']' && AllSpace(doc[p..s])
    requires first || (f.allowTrailingCommas && !f.allowDroppedNullPlaceholders)
    ensures ReadToken(f, doc, s).end == s + 1 && ElementsForm(f, depth, first, doc[p..s + 1])
  {
    var x := doc[p..s + 1];
    assert x[..|x| - 1] == doc[p..s];
  }

  lemma ElementIs(f: Features, doc: bytes, depth: nat, first: bool, p: nat, q: nat, v: nat, c: nat, e: nat)
    requires p <= q <= v <= c < e <= |doc|
    requires Before(f, doc[p..q]) && ValueForm(f, depth + 1, doc[q..v]) && Gap(doc[v..c])
    requires (doc[c] == ']' && e == c + 1) || (doc[c] == ',' && ElementsForm(f, depth, false, doc[c + 1..e]))
    ensures ElementsForm(f, depth, first, doc[p..e])
  {
    hide ValueForm, Gap, Before, AllSpace, ElementsForm;
    var x := doc[p..e];
    SubSlice(doc, p, e, p, q);
    SubSlice(doc, p, e, q, v);
    SubSlice(doc, p, e, v, c);
    SubSlice(doc, p, e, c + 1, e);
    var a, b, d := q - p, v - p, c - p;
    assert x[0..a] == x[..a] && x[d + 1..|x|] == x[d + 1..];
    ElementFirst(f, depth, first, x, a, b, d);
  }

  lemma ElementFirst(f: Features, depth: nat, first: bool, s: bytes, a: nat, b: nat, c: nat)
    requires a <= b <= c < |s| && Before(f, s[..a]) && ValueForm(f, depth + 1, s[a..b]) && Gap(s[b..c])
    requires (s[c] == ']' && c + 1 == |s|) || (s[c] == ',' && ElementsForm(f, depth, false, s[c + 1..]))
    ensures ElementsForm(f, depth, first, s)
  {
    hide ValueForm, Gap, Before, AllSpace;
  }

  // ----- Members -------------------------------------------------------------------------------

  /** Nothing is read at the end of the text. */
  lemma EndFails(f: Features, doc: bytes, base: nat, depth: nat, errors: seq<ErrorInfo>, name: bytes, cur: Value)
    requires cur.data.Obj?
    ensures ReadMembers(f, doc, base, depth, |doc|, errors, name, cur).status == Failure
  {
    assert NextToken(f, doc, |doc|).kind == EndOfStream;
  }

  lemma HeaderCloses(f: Features, doc: bytes, depth: nat, p: nat, errors: seq<ErrorInfo>, name: bytes, cur: Value,
                     mayEnd: bool)
    requires p <= |doc| && cur.data.Obj? && (f.allowTrailingCommas || name == [] ==> mayEnd)
    ensures var h := ReadHeader(f, doc, p, errors, name, cur);
      h.Stop? && h.o.status == Success ==> MembersForm(f, depth, mayEnd, doc[p..h.o.pos])
  {
    hide TokenFrom, Gap, NextToken, NameOf, ReadToken;
    var t := AfterValue(f, doc, p);
    var h := ReadHeader(f, doc, p, errors, name, cur);
    if h.Stop? && h.o.status == Success {
      var x := doc[p..h.o.pos];
      assert x[..|x| - 1] == doc[p..t.start];
    }
  }

  /** The token of a name and the colon behind it. */
  lemma HeaderForm(f: Features, doc: bytes, p: nat, errors: seq<ErrorInfo>, name: bytes, cur: Value)
    returns (a: nat, b: nat, c: nat)
    requires p <= |doc| && cur.data.Obj? && ReadHeader(f, doc, p, errors, name, cur).Go?
    ensures var h := ReadHeader(f, doc, p, errors, name, cur);
      && p <= a < b <= c < |doc| && Gap(doc[p..a]) && Tag(f, doc[a..b]) && AllSpace(doc[b..c]) && doc[c] == ':'
      && h.pos == c + 1 && (h.name == [] ==> !Named(doc[a..b]))
  {
    hide TokenFrom, Gap, NextToken, NameOf, ReadToken, AllSpace, Tag;
    var t := AfterValue(f, doc, p);
    TokenIsFrom(f, doc, p);
    StringTokenLength(f, doc, p);
    NameForm(f, doc, t);
    var colon := ReadToken(f, doc, t.end);
    TokenIsFrom(f, doc, t.end);
    FirstGap(f, doc, t.end);
    ColonToken(f, doc, colon);
    a, b, c := t.start, t.end, colon.start;
  }

  lemma ColonToken(f: Features, doc: bytes, t: Token)
    requires if t.start < |doc| then t == TokenFrom(f, doc, t.start) else t.kind == EndOfStream
    ensures t.kind == MemberSeparator ==> t.start < |doc| && doc[t.start] == ':' && t.end == t.start + 1
  {
    hide TokenFrom;
    if t.start < |doc| {
      PunctuationLength(f, doc, t);
    }
  }

  lemma NameForm(f: Features, doc: bytes, t: Token)
    requires t.start < t.end <= |doc| && t == TokenFrom(f, doc, t.start)
    requires t.kind == StringToken ==> t.start + 2 <= t.end
    ensures var k := NameOf(f, doc, t);
      k.KeyName? ==> Tag(f, TokenText(doc, t)) && (k.name == [] ==> !Named(TokenText(doc, t)))
  {
    hide TokenFrom, NumberForm, Literal, DecodeString, Numbers.DecodeNumber;
    if t.kind == StringToken {
      if DecodeString(doc, t).Good? {
        StringForm(f, doc, t);
      }
    } else if t.kind == NumberToken {
      NumberTokenForm(f, doc, t);
      QuoteKind(f, doc, t);
    }
  }

  lemma QuoteKind(f: Features, doc: bytes, t: Token)
    requires t.start < |doc| && t == TokenFrom(f, doc, t.start) && t.kind == NumberToken
    ensures doc[t.start] != '"'
  {
    hide ScanString, ScanNumber;
  }

  /** What stands between two members. */
  lemma SeparatorForm(f: Features, doc: bytes, p: nat, t: Token)
    requires p <= |doc| && t == NextToken(f, doc, p) && t.start < |doc| && t.start < t.end <= |doc|
    requires t.kind != ObjectEnd
    requires ReadToken(f, doc, p).kind in {ObjectEnd, ArraySeparator, Comment}
    ensures Separates(doc[p..t.start], doc[t.start..t.end])
  {
    hide TokenFrom, NextToken, AllSpace;
    NextOverComment(f, doc, p);
    var first := ReadToken(f, doc, p);
    var u := AfterValue(f, doc, p);
    if first.kind == Comment {
      CommentSlash(f, doc, first.start);
      SlashThere(doc, p, first.start, t.start);
    } else {
      assert doc[t.start..t.end] == [','];
    }
  }

  lemma SlashThere(doc: bytes, p: nat, k: nat, q: nat)
    requires p <= k < q <= |doc| && doc[k] == '/'
    ensures !AllSpace(doc[p..q])
  {
    assert doc[p..q][k - p] == '/';
  }

  lemma MemberIs(f: Features, doc: bytes, depth: nat, mayEnd: bool, p: nat, q: nat, v: nat, c: nat, d: nat, e: nat)
    requires p <= q <= v <= c < d <= e <= |doc|
    requires Before(f, doc[p..q]) && ValueForm(f, depth + 1, doc[q..v]) && Gap(doc[v..c])
    requires || (doc[c] == '}' && d == e)
             || (Separates(doc[v..c], doc[c..d]) && MembersForm(f, depth, mayEnd, doc[d..e]))
    ensures MemberForm(f, depth, mayEnd, doc[p..e])
  {
    hide ValueForm, Gap, Before, AllSpace, MembersForm, Separates;
    var x := doc[p..e];
    SubSlice(doc, p, e, p, q);
    SubSlice(doc, p, e, q, v);
    SubSlice(doc, p, e, v, c);
    SubSlice(doc, p, e, c, d);
    SubSlice(doc, p, e, d, e);
    var i, j, k, n := q - p, v - p, c - p, d - p;
    assert x[0..i] == x[..i] && x[n..|x|] == x[n..];
    assert 0 <= i <= j <= k < n <= |x|
      && Before(f, x[..i]) && ValueForm(f, depth + 1, x[i..j]) && Gap(x[j..k])
      && ((x[k] == '}' && n == |x|) || (Separates(x[j..k], x[k..n]) && MembersForm(f, depth, mayEnd, x[n..])));
  }

  lemma MembersIs(f: Features, doc: bytes, depth: nat, mayEnd: bool, last: bool, p: nat, a: nat, b: nat, c: nat, e: nat)
    requires p <= a < b <= c < e <= |doc|
    requires Gap(doc[p..a]) && Tag(f, doc[a..b]) && AllSpace(doc[b..c]) && doc[c] == ':'
    requires last == (f.allowTrailingCommas || !Named(doc[a..b])) && MemberForm(f, depth, last, doc[c + 1..e])
    ensures MembersForm(f, depth, mayEnd, doc[p..e])
  {
    hide MemberForm, Gap, Tag, AllSpace, Named;
    var x := doc[p..e];
    SubSlice(doc, p, e, p, a);
    SubSlice(doc, p, e, a, b);
    SubSlice(doc, p, e, b, c);
    SubSlice(doc, p, e, c + 1, e);
    var i, j, k := a - p, b - p, c - p;
    assert x[0..i] == x[..i] && x[k + 1..|x|] == x[k + 1..];
    assert 0 <= i < j <= k < |x| && Gap(x[..i]) && Tag(f, x[i..j]) && AllSpace(x[j..k]) && x[k] == ':'
      && MemberForm(f, depth, f.allowTrailingCommas || !Named(x[i..j]), x[k + 1..]);
  }

  lemma {:induction false} MembersSound(f: Features, doc: bytes, base: nat, depth: nat, p: nat,
                                        errors: seq<ErrorInfo>, name: bytes, cur: Value, mayEnd: bool)
    requires p <= |doc| && cur.data.Obj? && ReadMembers(f, doc, base, depth, p, errors, name, cur).status == Success
    requires f.allowTrailingCommas || name == [] ==> mayEnd
    ensures MembersForm(f, depth, mayEnd, doc[p..ReadMembers(f, doc, base, depth, p, errors, name, cur).pos])
    decreases |doc| - p, 1
  {
    hide ReadValue, ReadHeader, ValueForm, Gap, Before, AllSpace, MembersForm, MemberForm, AfterMember, NextToken,
      ReadToken, WithMember, Child, Tag, Named;
    var h := ReadHeader(f, doc, p, errors, name, cur);
    HeaderCloses(f, doc, depth, p, errors, name, cur, mayEnd);
    if h.Go? {
      var child, e := Child(cur.data.members, Name(h.name)), ReadMembers(f, doc, base, depth, p, errors, name, cur).pos;
      var v := ReadValue(f, doc, base, depth + 1, h.pos, errors, child);
      var a, b, c := HeaderForm(f, doc, p, errors, name, cur);
      var last := f.allowTrailingCommas || !Named(doc[a..b]);
      MemberSound(f, doc, base, depth, p, h, errors, cur, v, last);
      MembersIs(f, doc, depth, mayEnd, last, p, a, b, c, e);
    }
  }

  /** What follows a member. */
  lemma {:induction false} MemberSound(f: Features, doc: bytes, base: nat, depth: nat, p: nat, h: Header,
                                       errors: seq<ErrorInfo>, cur: Value, v: Outcome, last: bool)
    requires p <= |doc| && cur.data.Obj? && h.Go? && p < h.pos <= |doc|
    requires v == ReadValue(f, doc, base, depth + 1, h.pos, errors, Child(cur.data.members, Name(h.name)))
    requires AfterMember(f, doc, base, depth, p, v, h.name, WithMember(cur, h.name, v.value)).status == Success
    requires f.allowTrailingCommas || h.name == [] ==> last
    ensures var e := AfterMember(f, doc, base, depth, p, v, h.name, WithMember(cur, h.name, v.value)).pos;
      e > h.pos && MemberForm(f, depth, last, doc[h.pos..e])
    decreases |doc| - p, 0
  {
    hide ReadValue, ReadHeader, ValueForm, Gap, Before, AllSpace, MembersForm, MemberForm, ReadMembers, NextToken,
      ReadToken, WithMember, Child, Separates, RecoverPos;
    var filled := WithMember(cur, h.name, v.value);
    var e := AfterMember(f, doc, base, depth, p, v, h.name, filled).pos;
    var q := ValueSound(f, doc, base, depth + 1, h.pos, errors, Child(cur.data.members, Name(h.name)));
    var t := AfterValue(f, doc, v.pos);
    EndFails(f, doc, base, depth, v.errors, h.name, filled);
    if t.kind != ObjectEnd {
      MembersSound(f, doc, base, depth, t.end, v.errors, h.name, filled, last);
      SeparatorForm(f, doc, v.pos, t);
    }
    MemberIs(f, doc, depth, last, h.pos, q, v.pos, t.start, t.end, e);
  }

  // ----- Documents -----------------------------------------------------------------------------

  /** What is passed over before the end of the text. */
  lemma {:induction false} RestSound(f: Features, doc: bytes, p: nat)
    requires p <= |doc| && f.allowComments && NextToken(f, doc, p).kind == EndOfStream
    ensures exists i :: p <= i <= |doc| && Gap(doc[p..i]) && (i == |doc| || doc[i] == '\0' || Unfinished(doc[i..]))
    decreases |doc| - p
  {
    hide TokenFrom, Gap, Unfinished;
    SpaceSlice(doc, p, f);
    var s, t := SkipSpaces(doc, p), ReadToken(f, doc, p);
    if t.kind == Comment {
      CommentSlash(f, doc, s);
      if t.end < |doc| {
        RestSound(f, doc, t.end);
        var i :| t.end <= i <= |doc| && Gap(doc[t.end..i]) && (i == |doc| || doc[i] == '\0' || Unfinished(doc[i..]));
        CommentIsGap(f, doc, s);
        ThreeGaps(doc, p, s, t.end, i);
      } else {
        LastComment(f, doc, s);
        if !Unfinished(doc[s..]) {
          GapConcat(doc[p..s], doc[s..]);
          assert doc[p..s] + doc[s..] == doc[p..|doc|];
        }
      }
    } else if s < |doc| {
      EndIsNul(f, doc, s);
    }
  }

  lemma EndIsNul(f: Features, doc: bytes, s: nat)
    requires s < |doc| && TokenFrom(f, doc, s).kind == EndOfStream
    ensures doc[s] == '\0'
  {
    hide ScanString, ScanNumber;
    SignedKinds(f, doc, s);
  }

  /** A comment that reaches the end of the text. */
  lemma LastComment(f: Features, doc: bytes, s: nat)
    requires s < |doc| && TokenFrom(f, doc, s).kind == Comment && TokenFrom(f, doc, s).end == |doc|
    ensures Unfinished(doc[s..]) || Gap(doc[s..])
  {
    CommentSlash(f, doc, s);
    if doc[s + 1] == '/' && doc[|doc| - 1] == '\n' && s + 2 < |doc| {
      LineEnds(doc, s + 2);
      assert doc[s..] == doc[s..|doc|];
      LineIsGap(doc, s, |doc|);
    }
  }

  /** Soundness: whatever is accepted has the form of a document. */
  lemma ParseSound(f: Features, doc: bytes, root: Value)
    requires Parse(f, doc, root).status == Success
    ensures DocumentForm(f, doc, BomLength(f, doc))
  {
    hide ReadValue, SkipComments, ValueForm, Gap, Before, Rest, TokenFrom;
    var base := BomLength(f, doc);
    var o := ReadValue(f, doc, base, 1, base, [], root);
    var q := ValueSound(f, doc, base, 1, base, [], root);
    if f.failIfExtra {
      RestForm(f, doc, o.pos);
    }
  }

  lemma RestForm(f: Features, doc: bytes, p: nat)
    requires p <= |doc| && SkipComments(f, doc, p).kind == EndOfStream
    ensures Rest(f, doc[p..])
  {
    hide TokenFrom, Gap, Unfinished, NextToken;
    var s := doc[p..];
    if f.allowComments {
      RestSound(f, doc, p);
      var i :| p <= i <= |doc| && Gap(doc[p..i]) && (i == |doc| || doc[i] == '\0' || Unfinished(doc[i..]));
      assert s[..i - p] == doc[p..i] && s[i - p..] == doc[i..];
    } else {
      FirstGap(f, doc, p);
      var i := ReadToken(f, doc, p).start;
      assert s[..i - p] == doc[p..i];
      if i < |doc| {
        EndIsNul(f, doc, i);
      }
    }
  }
}
