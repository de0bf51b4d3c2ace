/** Every JSON text of RFC 8259 is accepted, and yields the value it denotes; and so is every text with
    extensions, where the features permit them. */
module Completeness {
  import opened Bytes
  import opened JsonValues
  import opened Numbers
  import opened Grammar
  import opened Scanner
  import opened ReaderSpec
  import Strings

  /** What may stand right after a value or a name: the end, whitespace, a separator or a comment. */
  predicate Follow(doc: bytes, p: nat) {
    p >= |doc| || FollowByte(doc[p])
  }

  predicate FollowByte(c: byte) {
    IsSpace(c) || c == ',' || c == ']' || c == '}' || c == ':' || c == '/'
  }

  /** No token starts with whitespace, and no value starts like a comment, a separator or a bracket that
      closes. */
  predicate StartsValue(text: bytes) {
    && text != []
    && (IsDigit(text[0]) || text[0] == '-' || text[0] == '+' || text[0] == '"' || text[0] == '\'' || text[0] == '{'
        || text[0] == '[' || text[0] == 't' || text[0] == 'f' || text[0] == 'n' || text[0] == 'N' || text[0] == 'I')
  }

  lemma TextStartsValue(t: Tree, toDouble: bytes -> Option<Double>)
    requires ValidTree(t, toDouble) && !t.TDropped?
    ensures StartsValue(Text(t))
  {
    match t
    case TNumber(n) => assert NumberText(n)[0] == if n.minus then '-' else n.whole[0];
    case TSingle(cs) => assert Text(t)[0] == '\'';
    case TArray(ws, es) => assert Text(t)[0] == '[';
    case TObject(ws, ms) => assert Text(t)[0] == '{';
    case _ =>
  }

  // ----- Tokens --------------------------------------------------------------------------------

  lemma {:induction false} SkipSpacesAt(doc: bytes, p: nat, ws: bytes)
    requires AllSpace(ws) && At(doc, p, ws) && (p + |ws| < |doc| ==> !IsSpace(doc[p + |ws|]))
    ensures SkipSpaces(doc, p) == p + |ws|
    decreases |ws|
  {
    if ws != [] {
      AtIndex(doc, p, ws, 0);
      AtConcat(doc, p, ws[..1], ws[1..]);
      assert ws == ws[..1] + ws[1..];
      SkipSpacesAt(doc, p + 1, ws[1..]);
    }
  }

  lemma TokenAt(f: Features, doc: bytes, p: nat, ws: bytes)
    requires AllSpace(ws) && At(doc, p, ws) && p + |ws| < |doc| && !IsSpace(doc[p + |ws|])
    ensures ReadToken(f, doc, p) == TokenFrom(f, doc, p + |ws|)
    ensures TokenFrom(f, doc, p + |ws|).kind != Comment ==>
      ReadToken(f, doc, p) == NextToken(f, doc, p) == SkipComments(f, doc, p)
  {
    SkipSpacesAt(doc, p, ws);
  }

  // ----- Gaps ----------------------------------------------------------------------------------

  lemma {:induction false} ScanBlockAt(doc: bytes, p: nat, c: bytes, k: nat)
    requires BlockComment(c) && At(doc, p, c) && 2 <= k <= |c| - 2
    ensures ScanCStyle(doc, p + k) == p + |c| - 1
    decreases |c| - k
  {
    AtIndex(doc, p, c, k);
    AtIndex(doc, p, c, k + 1);
    if k < |c| - 2 {
      ScanBlockAt(doc, p, c, k + 1);
    }
  }

  lemma {:induction false} ScanLineAt(doc: bytes, p: nat, c: bytes, k: nat)
    requires LineComment(c) && At(doc, p, c) && 2 <= k < |c|
    ensures ScanCppStyle(doc, p + k) == p + |c|
         || (ScanCppStyle(doc, p + k) == p + |c| + 1 && p + |c| < |doc| && doc[p + |c|] == '\n')
    decreases |c| - k
  {
    AtIndex(doc, p, c, k);
    if k < |c| - 1 {
      ScanLineAt(doc, p, c, k + 1);
    }
  }

  /** A comment is one token; after a carriage return it may take one line feed more. */
  lemma CommentAt(f: Features, doc: bytes, p: nat, c: bytes)
    requires (BlockComment(c) || LineComment(c)) && At(doc, p, c)
    ensures p < |doc| && TokenFrom(f, doc, p).kind == Comment
    ensures var e := TokenFrom(f, doc, p).end;
      e == p + |c| || (e == p + |c| + 1 && p + |c| < |doc| && doc[p + |c|] == '\n')
  {
    hide ScanCStyle, ScanCppStyle, ScanString, ScanNumber, SignedToken, Match;
    AtIndex(doc, p, c, 0);
    AtIndex(doc, p, c, 1);
    if c[1] == '*' {
      ScanBlockAt(doc, p, c, 2);
      AtIndex(doc, p, c, |c| - 1);
    } else {
      ScanLineAt(doc, p, c, 2);
    }
  }

  lemma SpaceSkipped(f: Features, doc: bytes, p: nat)
    requires p < |doc| && IsSpace(doc[p])
    ensures ReadToken(f, doc, p) == ReadToken(f, doc, p + 1) && NextToken(f, doc, p) == NextToken(f, doc, p + 1)
  {
    hide TokenFrom;
  }

  lemma CommentSkipped(f: Features, doc: bytes, p: nat)
    requires p < |doc| && !IsSpace(doc[p]) && TokenFrom(f, doc, p).kind == Comment
    ensures ReadToken(f, doc, p).kind == Comment
    ensures NextToken(f, doc, p) == NextToken(f, doc, TokenFrom(f, doc, p).end)
  {
    hide TokenFrom;
  }

  /** The next token behind a gap. */
  lemma {:induction false} GapSkipped(f: Features, doc: bytes, p: nat, gap: bytes)
    requires Gap(gap) && At(doc, p, gap)
    ensures p + |gap| <= |doc| && NextToken(f, doc, p) == NextToken(f, doc, p + |gap|)
    decreases |gap|
  {
    hide TokenFrom, NextToken, ReadToken, BlockComment, LineComment;
    if gap != [] {
      AtIndex(doc, p, gap, 0);
      if IsSpace(gap[0]) && Gap(gap[1..]) {
        SpaceSkipped(f, doc, p);
        AtConcat(doc, p, gap[..1], gap[1..]);
        assert gap == gap[..1] + gap[1..];
        GapSkipped(f, doc, p + 1, gap[1..]);
      } else {
        var n :| 3 <= n <= |gap| && (BlockComment(gap[..n]) || LineComment(gap[..n])) && Gap(gap[n..]);
        AtConcat(doc, p, gap[..n], gap[n..]);
        assert gap == gap[..n] + gap[n..];
        CommentStart(gap[..n]);
        CommentAt(f, doc, p, gap[..n]);
        CommentSkipped(f, doc, p);
        if TokenFrom(f, doc, p).end == p + n + 1 {
          SpaceSkipped(f, doc, p + n);
        }
        GapSkipped(f, doc, p + n, gap[n..]);
      }
    }
  }

  lemma CommentStart(c: bytes)
    requires BlockComment(c) || LineComment(c)
    ensures c[0] == '/' && !IsSpace(c[0])
  {}

  /** Where a gap that is not all whitespace has its first comment. */
  lemma {:induction false} FirstComment(gap: bytes) returns (k: nat)
    requires Gap(gap) && !AllSpace(gap)
    ensures k + 3 <= |gap| && AllSpace(gap[..k]) && Gap(gap[k..]) && gap[k] == '/'
    ensures exists n :: 3 <= n <= |gap[k..]| && (BlockComment(gap[k..][..n]) || LineComment(gap[k..][..n]))
    decreases |gap|
  {
    hide BlockComment, LineComment;
    if IsSpace(gap[0]) && Gap(gap[1..]) {
      assert gap == [gap[0]] + gap[1..];
      var m := FirstComment(gap[1..]);
      k := m + 1;
      assert gap[..k] == [gap[0]] + gap[1..][..m];
      assert gap[1..][m..] == gap[k..];
    } else {
      var n :| 3 <= n <= |gap| && (BlockComment(gap[..n]) || LineComment(gap[..n])) && Gap(gap[n..]);
      CommentStart(gap[..n]);
      k := 0;
      assert gap[..0] == [] && gap[0..] == gap;
    }
  }

  /** A gap that is not all whitespace, in a document: whitespace, and a comment. */
  lemma GapComment(f: Features, doc: bytes, p: nat, gap: bytes) returns (k: nat)
    requires Gap(gap) && At(doc, p, gap) && !AllSpace(gap)
    ensures k < |gap| && AllSpace(gap[..k]) && Gap(gap[k..]) && At(doc, p + k, gap[k..])
    ensures p + k < |doc| && doc[p + k] == '/' && SkipSpaces(doc, p) == p + k
    ensures ReadToken(f, doc, p).kind == Comment
  {
    hide TokenFrom, BlockComment, LineComment, At, Gap;
    k := FirstComment(gap);
    var n :| 3 <= n <= |gap[k..]| && (BlockComment(gap[k..][..n]) || LineComment(gap[k..][..n]));
    assert gap == gap[..k] + gap[k..] && gap[k..] == gap[k..][..n] + gap[k..][n..];
    AtConcat(doc, p, gap[..k], gap[k..]);
    AtConcat(doc, p + k, gap[k..][..n], gap[k..][n..]);
    AtIndex(doc, p + k, gap[k..], 0);
    CommentAt(f, doc, p + k, gap[k..][..n]);
    SkipSpacesAt(doc, p, gap[..k]);
  }

  /** What may stand before a value: comments only where they are allowed. */
  ghost predicate Passes(f: Features, gap: bytes) { Gap(gap) && (f.allowComments || AllSpace(gap)) }

  /** The first token behind what may stand before a value. */
  lemma ValueToken(f: Features, doc: bytes, p: nat, gap: bytes)
    requires Passes(f, gap) && At(doc, p, gap)
    requires p + |gap| < |doc| && !IsSpace(doc[p + |gap|]) && TokenFrom(f, doc, p + |gap|).kind != Comment
    ensures SkipComments(f, doc, p) == TokenFrom(f, doc, p + |gap|)
  {
    hide TokenFrom;
    GapSkipped(f, doc, p, gap);
    if AllSpace(gap) {
      TokenAt(f, doc, p, gap);
    } else {
      AtNothing(doc, p + |gap|);
      TokenAt(f, doc, p + |gap|, []);
    }
  }

  /** The next token behind any gap. */
  lemma TokenBehind(f: Features, doc: bytes, p: nat, gap: bytes)
    requires Gap(gap) && At(doc, p, gap)
    requires p + |gap| < |doc| && !IsSpace(doc[p + |gap|]) && TokenFrom(f, doc, p + |gap|).kind != Comment
    ensures NextToken(f, doc, p) == TokenFrom(f, doc, p + |gap|)
    ensures ReadToken(f, doc, p) == NextToken(f, doc, p) || ReadToken(f, doc, p).kind == Comment
  {
    hide TokenFrom;
    GapSkipped(f, doc, p, gap);
    AtNothing(doc, p + |gap|);
    TokenAt(f, doc, p + |gap|, []);
  }

  lemma AtNothing(doc: bytes, p: nat)
    requires p <= |doc|
    ensures AllSpace([]) && Gap([]) && At(doc, p, [])
  {}

  // ----- Scalars -------------------------------------------------------------------------------

  lemma {:induction false} ScanDigitsAt(doc: bytes, p: nat, digits: bytes)
    requires AllDigits(digits) && At(doc, p, digits) && (p + |digits| < |doc| ==> !IsDigit(doc[p + |digits|]))
    ensures ScanDigits(doc, p) == p + |digits|
    decreases |digits|
  {
    if digits != [] {
      AtIndex(doc, p, digits, 0);
      AtConcat(doc, p, digits[..1], digits[1..]);
      assert digits == digits[..1] + digits[1..];
      ScanDigitsAt(doc, p + 1, digits[1..]);
    }
  }

  lemma ScanExponentAt(doc: bytes, p: nat, exponent: Option<Exponent>)
    requires exponent.Some? ==> LooseExponent(exponent.value)
    requires At(doc, p, ExponentText(exponent)) && Follow(doc, p + |ExponentText(exponent)|)
    ensures ScanExponent(doc, p) == p + |ExponentText(exponent)|
  {
    if exponent.Some? {
      var x := exponent.value;
      AtConcat(doc, p, [x.e] + x.sign, x.digits);
      AtConcat(doc, p, [x.e], x.sign);
      AtIndex(doc, p, [x.e], 0);
      if x.digits != [] {
        AtIndex(doc, p + 1 + |x.sign|, x.digits, 0);
      }
      if x.sign != [] {
        AtIndex(doc, p + 1, x.sign, 0);
      }
      ScanDigitsAt(doc, p + 1 + |x.sign|, x.digits);
    }
  }

  lemma ScanFractionAt(doc: bytes, p: nat, n: Number)
    requires LooseNumber(n)
    requires At(doc, p, FractionText(n.fraction) + ExponentText(n.exponent))
    requires Follow(doc, p + |FractionText(n.fraction) + ExponentText(n.exponent)|)
    ensures ScanExponent(doc, ScanFraction(doc, p)) == p + |FractionText(n.fraction) + ExponentText(n.exponent)|
  {
    var q := p + |FractionText(n.fraction)|;
    AtConcat(doc, p, FractionText(n.fraction), ExponentText(n.exponent));
    if n.exponent.Some? {
      AtIndex(doc, q, ExponentText(n.exponent), 0);
    }
    if n.fraction.Some? {
      AtConcat(doc, p, ".", n.fraction.value);
      AtIndex(doc, p, ".", 0);
      ScanDigitsAt(doc, p + 1, n.fraction.value);
    }
    ScanExponentAt(doc, q, n.exponent);
  }

  /** The scan of a number from within its whole part. */
  lemma ScanNumberAt(doc: bytes, p: nat, checkInf: bool, digits: bytes, n: Number)
    requires LooseNumber(n) && AllDigits(digits)
    requires At(doc, p, digits + (FractionText(n.fraction) + ExponentText(n.exponent)))
    requires Follow(doc, p + |digits| + |FractionText(n.fraction) + ExponentText(n.exponent)|)
    ensures ScanNumber(doc, p, checkInf)
      == (true, p + |digits| + |FractionText(n.fraction) + ExponentText(n.exponent)|)
  {
    var tail := FractionText(n.fraction) + ExponentText(n.exponent);
    var q := p + |digits|;
    AtConcat(doc, p, digits, tail);
    if digits != [] {
      AtIndex(doc, p, digits, 0);
    }
    if tail != [] {
      AtIndex(doc, q, tail, 0);
    }
    ScanDigitsAt(doc, p, digits);
    ScanFractionAt(doc, q, n);
  }

  lemma NumberStart(f: Features, doc: bytes, s: nat)
    requires s < |doc|
    ensures IsDigit(doc[s]) ==> TokenFrom(f, doc, s) == Token(NumberToken, s, ScanNumber(doc, s + 1, false).1)
    ensures doc[s] == '-' && ScanNumber(doc, s + 1, true).0 ==>
      TokenFrom(f, doc, s) == Token(NumberToken, s, ScanNumber(doc, s + 1, true).1)
  {}

  /** A number literal begins with the minus sign or its first digit; the scan goes on with the rest. */
  lemma NumberParts(n: Number)
    requires LooseNumber(n)
    ensures var tail := FractionText(n.fraction) + ExponentText(n.exponent);
      var rest := if n.minus then n.whole else n.whole[1..];
      NumberText(n) == [if n.minus then '-' else n.whole[0]] + (rest + tail)
  {
    hide FractionText, ExponentText;
    var tail := FractionText(n.fraction) + ExponentText(n.exponent);
    if !n.minus {
      assert n.whole == [n.whole[0]] + n.whole[1..];
      assert NumberText(n) == [] + (n.whole + tail);
    }
  }

  /** A number literal is one number token. */
  lemma NumberTokenAt(f: Features, doc: bytes, s: nat, n: Number)
    requires LooseNumber(n) && At(doc, s, NumberText(n)) && Follow(doc, s + |NumberText(n)|)
    ensures s < |doc| && TokenFrom(f, doc, s) == Token(NumberToken, s, s + |NumberText(n)|)
  {
    hide At, NumberText, FractionText, ExponentText, TokenFrom, Follow, ScanNumber;
    var first := if n.minus then '-' else n.whole[0];
    var rest := if n.minus then n.whole else n.whole[1..];
    var more := rest + (FractionText(n.fraction) + ExponentText(n.exponent));
    NumberParts(n);
    AtConcat(doc, s, [first], more);
    AtIndex(doc, s, [first], 0);
    ScanNumberAt(doc, s + 1, n.minus, rest, n);
    NumberStart(f, doc, s);
  }

  /** The decoder gives a number literal its value. */
  lemma DecodeNumberAt(n: Number, toDouble: bytes -> Option<Double>)
    requires LooseNumber(n) && (IsInteger(n) || toDouble(NumberText(n)).Some?)
    ensures NumberText(n) != [] && DecodeNumber(NumberText(n), toDouble) == Some(NumberValue(n, toDouble))
  {
    var text := NumberText(n);
    if n.fraction.None? && n.exponent.None? {
      assert text == if n.minus then "-" + n.whole else n.whole;
      IntegerDecodingExact(text, n.minus, n.whole, toDouble);
    } else {
      var at := if n.minus then 1 + |n.whole| else |n.whole|;
      assert !IsDigit(text[at]);
      assert n.minus <==> text[0] == '-';
      AccumulateStops(text, if n.minus then 1 else 0, 0, Magnitude(n.minus) / 10, Magnitude(n.minus) % 10, at);
    }
  }

  /** A byte that is no digit ends the search for an integer. */
  lemma {:induction false} AccumulateStops(text: bytes, i: nat, value: nat, threshold: nat, maxLast: nat, at: nat)
    requires i <= at < |text| && !IsDigit(text[at])
    ensures Accumulate(text, i, value, threshold, maxLast) == None
    decreases at - i
  {
    if i < at && IsDigit(text[i]) {
      AccumulateStops(text, i + 1, value * 10 + Digit(text[i]), threshold, maxLast, at);
    }
  }

  /** The scan passes over a character of a literal without taking it for the end of the string. */
  lemma ScanCharacterAt(doc: bytes, p: nat, c: Character, quote: byte)
    requires ValidCharacter(c) && At(doc, p, CharacterText(c)) && IsQuote(quote) && c != Plain(quote)
    ensures ScanString(doc, p, quote) == ScanString(doc, p + |CharacterText(c)|, quote)
  {
    match c
    case Plain(b) => AtIndex(doc, p, [b], 0);
    case Short(e) => AtIndex(doc, p, ['\\', e], 0);
    case Unicode(hex) => ScanUnicodeAt(doc, p, hex, quote);
    case Pair(high, low) =>
      AtConcat(doc, p, "\\u", high + ("\\u" + low));
      AtConcat(doc, p + 2, high, "\\u" + low);
      AtConcat(doc, p, "\\u", high);
      ScanUnicodeAt(doc, p, high, quote);
      ScanUnicodeAt(doc, p + 6, low, quote);
  }

  predicate IsQuote(quote: byte) { quote == '"' || quote == '\'' }

  lemma ScanUnicodeAt(doc: bytes, p: nat, hex: bytes, quote: byte)
    requires IsHex4(hex) && At(doc, p, "\\u" + hex) && IsQuote(quote)
    ensures ScanString(doc, p, quote) == ScanString(doc, p + 6, quote)
  {
    AtConcat(doc, p, "\\u", hex);
    AtIndex(doc, p, "\\u", 0);
    AtIndex(doc, p + 2, hex, 0);
    AtIndex(doc, p + 2, hex, 1);
    AtIndex(doc, p + 2, hex, 2);
    AtIndex(doc, p + 2, hex, 3);
    assert ScanString(doc, p, quote) == ScanString(doc, p + 2, quote);
    assert ScanString(doc, p + 2, quote) == ScanString(doc, p + 3, quote);
    assert ScanString(doc, p + 3, quote) == ScanString(doc, p + 4, quote);
    assert ScanString(doc, p + 4, quote) == ScanString(doc, p + 5, quote);
  }

  lemma {:induction false} ScanStringAt(doc: bytes, p: nat, cs: Characters, quote: byte)
    requires ValidCharacters(cs) && At(doc, p, CharactersText(cs) + [quote]) && IsQuote(quote)
    requires quote == '\'' ==> NoSingleQuote(cs)
    ensures ScanString(doc, p, quote) == (true, p + |CharactersText(cs)| + 1)
    decreases cs
  {
    hide At, CharacterText;
    AtConcat(doc, p, CharactersText(cs), [quote]);
    if cs.Char? {
      var text := CharacterText(cs.head);
      AtConcat(doc, p, text, CharactersText(cs.tail));
      AtConcat(doc, p + |text|, CharactersText(cs.tail), [quote]);
      ScanCharacterAt(doc, p, cs.head, quote);
      ScanStringAt(doc, p + |text|, cs.tail, quote);
    } else {
      AtIndex(doc, p, [quote], 0);
    }
  }

  /** A string literal, in either kind of quotes, is one string token, and decodes to what it denotes. */
  lemma QuotedTokenAt(f: Features, doc: bytes, s: nat, cs: Characters, quote: byte)
    requires ValidCharacters(cs) && At(doc, s, [quote] + (CharactersText(cs) + [quote])) && IsQuote(quote)
    requires quote == '\'' ==> NoSingleQuote(cs) && f.allowSingleQuotes
    ensures var t := Token(StringToken, s, s + |CharactersText(cs)| + 2);
      s < |doc| && TokenFrom(f, doc, s) == t && DecodeString(doc, t) == Strings.Good(StringValue(cs))
  {
    hide At, ScanString, CharactersText, StringValue, Strings.Unescape;
    AtConcat(doc, s, [quote], CharactersText(cs) + [quote]);
    AtIndex(doc, s, [quote], 0);
    ScanStringAt(doc, s + 1, cs, quote);
    AtConcat(doc, s + 1, CharactersText(cs), [quote]);
    AtSlice(doc, s + 1, CharactersText(cs));
    AtSlice(CharactersText(cs), 0, CharactersText(cs));
    Strings.UnescapeLiteral(cs, CharactersText(cs), 0);
  }

  lemma StringTokenAt(f: Features, doc: bytes, s: nat, cs: Characters)
    requires ValidCharacters(cs) && At(doc, s, StringText(cs))
    ensures var t := Token(StringToken, s, s + |StringText(cs)|);
      s < |doc| && TokenFrom(f, doc, s) == t && DecodeString(doc, t) == Strings.Good(StringValue(cs))
  {
    hide At, TokenFrom, CharactersText, StringValue, DecodeString;
    assert StringText(cs) == "\"" + (CharactersText(cs) + "\"");
    QuotedTokenAt(f, doc, s, cs, '"');
  }

  lemma SingleTokenAt(f: Features, doc: bytes, s: nat, cs: Characters)
    requires ValidCharacters(cs) && NoSingleQuote(cs) && At(doc, s, ApostropheText(cs))
    ensures var t := Token(StringToken, s, s + |ApostropheText(cs)|);
      s < |doc|
      && if f.allowSingleQuotes then
           TokenFrom(f, doc, s) == t && DecodeString(doc, t) == Strings.Good(StringValue(cs))
         else
           TokenFrom(f, doc, s).kind == ErrorToken
  {
    hide At, CharactersText, StringValue, DecodeString, ScanString;
    assert ApostropheText(cs) == "'" + (CharactersText(cs) + "'");
    AtConcat(doc, s, "'", CharactersText(cs) + "'");
    AtIndex(doc, s, "'", 0);
    if f.allowSingleQuotes {
      QuotedTokenAt(f, doc, s, cs, '\'');
    }
  }

  /** A special float is one token, where it is allowed. */
  lemma SpecialTokenAt(f: Features, doc: bytes, s: nat, word: bytes)
    requires SpecialValue(word).Some? && At(doc, s, word)
    ensures s < |doc|
    ensures var d := SpecialValue(word).value;
      if f.allowSpecialFloats then
        TokenFrom(f, doc, s) == Token(if d.NaN? then NaNToken else if d.PosInf? then PosInfToken else NegInfToken,
                                      s, s + |word|)
      else
        TokenFrom(f, doc, s).kind == ErrorToken
  {
    hide At, ScanDigits, ScanFraction, ScanExponent, ScanString, ScanComment;
    AtIndex(doc, s, word, 0);
    if word == "+Infinity" || word == "-Infinity" {
      SignedInfinity(f, doc, s, word);
    } else {
      assert word == word[..1] + word[1..];
      AtConcat(doc, s, word[..1], word[1..]);
    }
  }

  lemma SignedInfinity(f: Features, doc: bytes, s: nat, word: bytes)
    requires (word == "+Infinity" || word == "-Infinity") && At(doc, s, word)
    ensures s < |doc|
    ensures var kind := if word == "+Infinity" then PosInfToken else NegInfToken;
      if f.allowSpecialFloats then TokenFrom(f, doc, s) == Token(kind, s, s + |word|)
      else TokenFrom(f, doc, s).kind == ErrorToken
  {
    hide At, ScanDigits, ScanFraction, ScanExponent, ScanString, ScanComment;
    AtIndex(doc, s, word, 0);
    var first, more := word[..1], "nfinity";
    assert word == first + ("I" + more);
    AtConcat(doc, s, first, "I" + more);
    AtConcat(doc, s + 1, "I", more);
    AtIndex(doc, s + 1, "I", 0);
  }

  lemma LiteralTokenAt(f: Features, doc: bytes, s: nat, t: Tree)
    requires (t.TNull? || t.TTrue? || t.TFalse?) && At(doc, s, Text(t))
    ensures s < |doc| && TokenFrom(f, doc, s)
      == Token(if t.TNull? then NullToken else if t.TTrue? then TrueToken else FalseToken, s, s + |Text(t)|)
  {
    var first, more := Text(t)[..1], Text(t)[1..];
    assert Text(t) == first + more;
    AtConcat(doc, s, first, more);
    AtIndex(doc, s, first, 0);
  }

  predicate Punctuation(c: byte) { c == '{' || c == '}' || c == '[' || c == ']' || c == ',' || c == ':' }

  lemma PunctuationFrom(f: Features, doc: bytes, q: nat)
    requires q < |doc| && Punctuation(doc[q])
    ensures TokenFrom(f, doc, q) == Token(PunctuationKind(doc[q]), q, q + 1) && !IsSpace(doc[q])
  {}

  /** A separator or bracket behind a gap. */
  lemma PunctuationAt(f: Features, doc: bytes, p: nat, gap: bytes)
    requires Gap(gap) && At(doc, p, gap) && p + |gap| < |doc| && Punctuation(doc[p + |gap|])
    ensures var q := p + |gap|; var t := NextToken(f, doc, p);
      && t == Token(PunctuationKind(doc[q]), q, q + 1)
      && (ReadToken(f, doc, p) == t || ReadToken(f, doc, p).kind == Comment)
      && (AllSpace(gap) ==> ReadToken(f, doc, p) == t)
      && (Passes(f, gap) ==> SkipComments(f, doc, p) == t)
  {
    hide TokenFrom;
    PunctuationFrom(f, doc, p + |gap|);
    TokenBehind(f, doc, p, gap);
    if AllSpace(gap) {
      TokenAt(f, doc, p, gap);
    }
    if Passes(f, gap) {
      ValueToken(f, doc, p, gap);
    }
  }

  function PunctuationKind(c: byte): TokenType {
    match c
    case '{' => ObjectBegin
    case '}' => ObjectEnd
    case '[' => ArrayBegin
    case ']' => ArrayEnd
    case ',' => ArraySeparator
    case _ => MemberSeparator
  }

  // ----- How reading a tree ends ---------------------------------------------------------------

  /** How reading a tree ends with `depth` nodes on the stack, behind `gap`: the first obstacle in its text
      decides. */
  ghost function TreeStatus(f: Features, depth: nat, gap: bytes, t: Tree): Status
    requires ValidTree(t, f.toDouble)
    decreases t
  {
    if depth > f.stackLimit then Thrown
    else if !f.allowComments && !AllSpace(gap) then Failure
    else
      match t
      case TString(cs) => if |Stored(StringValue(cs))| > MAX_STRING then Thrown else Success
      case TSingle(cs) =>
        if !f.allowSingleQuotes then Failure
        else if |Stored(StringValue(cs))| > MAX_STRING then Thrown
        else Success
      case TSpecial(_) => if f.allowSpecialFloats then Success else Failure
      case TDropped => if f.allowDroppedNullPlaceholders then Success else Failure
      case TArray(_, es) => ElementsStatus(f, depth, 0, es)
      case TObject(_, ms) => MembersStatus(f, depth, [], {}, ms)
      case _ => Success
  }

  ghost function ElementsStatus(f: Features, depth: nat, index: nat, es: Elements): Status
    requires ValidElements(es, f.toDouble)
    decreases es
  {
    match es
    case NoElement => Success
    case LastComma(_) =>
      if f.allowTrailingCommas then Success
      else if index >= MAX_INT32 then Undefined
      else if depth + 1 > f.stackLimit then Thrown
      else Failure
    case Element(before, value, _, rest) =>
      if index >= MAX_INT32 then Undefined
      else
        var status := TreeStatus(f, depth + 1, before, value);
        if status != Success then status else ElementsStatus(f, depth, index + 1, rest)
  }

  /** `name` is the name of the member before. */
  ghost function MembersStatus(f: Features, depth: nat, name: bytes, seen: set<bytes>, ms: Members): Status
    requires ValidMembers(ms, f.toDouble)
    decreases ms
  {
    match ms
    case NoMember => Success
    case FinalComma(_) => if f.allowTrailingCommas || name == [] then Success else Failure
    case Member(_, tag, _, before2, value, _, rest) =>
      var n := LabelName(tag);
      if !PermitsLabel(f, tag) then Failure
      else if |n| >= NAME_LIMIT then Thrown
      else if f.rejectDupKeys && n in seen then Failure
      else
        var status := TreeStatus(f, depth + 1, before2, value);
        if status != Success then status else MembersStatus(f, depth, n, seen + {n}, rest)
  }

  predicate PermitsLabel(f: Features, l: Label) {
    match l
    case Quoted(_) => true
    case Single(_) => f.allowSingleQuotes
    case Numeric(_) => f.allowNumericKeys
  }

  /** With dropped nulls, a comma before a bracket that closes an array stands before a null; without them,
      it is a last comma.  So every text has one tree for each setting. */
  predicate Suits(nulls: bool, t: Tree) {
    match t
    case TArray(_, es) => SuitsElements(nulls, es)
    case TObject(_, ms) => SuitsMembers(nulls, ms)
    case _ => true
  }

  predicate SuitsElements(nulls: bool, es: Elements) {
    match es
    case NoElement => true
    case LastComma(_) => !nulls
    case Element(_, value, _, rest) => (LoneDrop(es) ==> nulls) && Suits(nulls, value) && SuitsElements(nulls, rest)
  }

  predicate SuitsMembers(nulls: bool, ms: Members) {
    ms.Member? ==> Suits(nulls, ms.value) && SuitsMembers(nulls, ms.rest)
  }

  /** Reading ended with the status, and if successfully, as described. */
  ghost predicate Ends(o: Outcome, status: Status, pos: nat, errors: seq<ErrorInfo>, v: Value) {
    o.status == status && (status == Success ==> o == Outcome(Success, pos, errors, v))
  }

  /** What may follow a tree; a dropped null stands right before a separator or a bracket. */
  predicate FollowsTree(doc: bytes, q: nat, t: Tree) {
    Follow(doc, q) && (t.TDropped? ==> q < |doc| && (doc[q] == ',' || doc[q] == ']' || doc[q] == '}'))
  }

  // ----- Scalars, behind a gap -----------------------------------------------------------------

  /** The token of a scalar, and what is read from it. */
  ghost predicate LeafRead(f: Features, doc: bytes, base: nat, s: nat, errors: seq<ErrorInfo>, cur: Value, t: Tree)
    requires ValidTree(t, f.toDouble) && s < |doc|
  {
    var k := TokenFrom(f, doc, s);
    && !IsSpace(doc[s])
    && k.kind != Comment && k.kind != ObjectBegin && k.kind != ArrayBegin && k.kind != EndOfStream
    && (k.kind == StringToken ==> k.start + 2 <= k.end)
    && Ends(ReadScalar(f, doc, base, k, errors, cur), LeafStatus(f, t), s + |Text(t)|, errors,
            Denote(t, s - base, f.toDouble))
  }

  ghost function LeafStatus(f: Features, t: Tree): Status
    requires ValidTree(t, f.toDouble)
  {
    match t
    case TString(cs) => if |Stored(StringValue(cs))| > MAX_STRING then Thrown else Success
    case TSingle(cs) =>
      if !f.allowSingleQuotes then Failure
      else if |Stored(StringValue(cs))| > MAX_STRING then Thrown
      else Success
    case TSpecial(_) => if f.allowSpecialFloats then Success else Failure
    case TDropped => if f.allowDroppedNullPlaceholders then Success else Failure
    case _ => Success
  }

  lemma ReadNumberTree(f: Features, doc: bytes, base: nat, s: nat, errors: seq<ErrorInfo>, cur: Value, n: Number)
    requires ValidTree(TNumber(n), f.toDouble) && At(doc, s, NumberText(n)) && Follow(doc, s + |NumberText(n)|)
    ensures s < |doc| && LeafRead(f, doc, base, s, errors, cur, TNumber(n))
  {
    hide At, TokenFrom, NumberText, DecodeNumber, NumberValue, Follow, LooseNumber;
    NumberTokenAt(f, doc, s, n);
    NumberFirst(doc, s, n);
    AtSlice(doc, s, NumberText(n));
    DecodeNumberAt(n, f.toDouble);
  }

  lemma NumberFirst(doc: bytes, s: nat, n: Number)
    requires LooseNumber(n) && At(doc, s, NumberText(n))
    ensures s < |doc| && !IsSpace(doc[s])
  {
    AtIndex(doc, s, NumberText(n), 0);
  }

  lemma ReadStringTree(f: Features, doc: bytes, base: nat, s: nat, errors: seq<ErrorInfo>, cur: Value, cs: Characters)
    requires ValidCharacters(cs) && At(doc, s, StringText(cs))
    ensures s < |doc| && LeafRead(f, doc, base, s, errors, cur, TString(cs))
  {
    hide At, TokenFrom, CharactersText, DecodeString, StringValue, ValidCharacters, Stored, DecodeNumber;
    StringTokenAt(f, doc, s, cs);
    AtIndex(doc, s, StringText(cs), 0);
  }

  lemma ReadSingleTree(f: Features, doc: bytes, base: nat, s: nat, errors: seq<ErrorInfo>, cur: Value, cs: Characters)
    requires ValidCharacters(cs) && NoSingleQuote(cs) && At(doc, s, ApostropheText(cs))
    ensures s < |doc| && LeafRead(f, doc, base, s, errors, cur, TSingle(cs))
  {
    hide At, TokenFrom, CharactersText, DecodeString, StringValue, ValidCharacters, NoSingleQuote, Stored, DecodeNumber;
    SingleTokenAt(f, doc, s, cs);
    AtIndex(doc, s, ApostropheText(cs), 0);
  }

  lemma ReadSpecialTree(f: Features, doc: bytes, base: nat, s: nat, errors: seq<ErrorInfo>, cur: Value, word: bytes)
    requires SpecialValue(word).Some? && At(doc, s, word)
    ensures s < |doc| && LeafRead(f, doc, base, s, errors, cur, TSpecial(word))
  {
    hide At, TokenFrom, DecodeString, DecodeNumber;
    SpecialTokenAt(f, doc, s, word);
    AtIndex(doc, s, word, 0);
  }

  lemma ReadDroppedTree(f: Features, doc: bytes, base: nat, s: nat, errors: seq<ErrorInfo>, cur: Value)
    requires s < |doc| && (doc[s] == ',' || doc[s] == ']' || doc[s] == '}')
    ensures LeafRead(f, doc, base, s, errors, cur, TDropped)
  {
    hide TokenFrom;
    PunctuationFrom(f, doc, s);
  }

  /** A scalar is read from its token. */
  lemma ReadScalarTree(f: Features, doc: bytes, base: nat, s: nat, errors: seq<ErrorInfo>, cur: Value, t: Tree)
    requires !t.TArray? && !t.TObject? && ValidTree(t, f.toDouble)
    requires At(doc, s, Text(t)) && FollowsTree(doc, s + |Text(t)|, t)
    ensures s < |doc| && LeafRead(f, doc, base, s, errors, cur, t)
  {
    hide At, TokenFrom, NumberText, StringText, ApostropheText, DecodeString, StringValue, DecodeNumber, NumberValue,
      Stored, SpecialValue;
    match t
    case TNumber(n) => ReadNumberTree(f, doc, base, s, errors, cur, n);
    case TString(cs) => ReadStringTree(f, doc, base, s, errors, cur, cs);
    case TSingle(cs) => ReadSingleTree(f, doc, base, s, errors, cur, cs);
    case TSpecial(word) => ReadSpecialTree(f, doc, base, s, errors, cur, word);
    case TDropped => ReadDroppedTree(f, doc, base, s, errors, cur);
    case TNull => ReadLiteralTree(f, doc, base, s, errors, cur, t);
    case TTrue => ReadLiteralTree(f, doc, base, s, errors, cur, t);
    case TFalse => ReadLiteralTree(f, doc, base, s, errors, cur, t);
  }

  lemma ReadLiteralTree(f: Features, doc: bytes, base: nat, s: nat, errors: seq<ErrorInfo>, cur: Value, t: Tree)
    requires (t.TNull? || t.TTrue? || t.TFalse?) && At(doc, s, Text(t))
    ensures s < |doc| && LeafRead(f, doc, base, s, errors, cur, t)
  {
    hide At, TokenFrom, DecodeString, DecodeNumber;
    LiteralTokenAt(f, doc, s, t);
    AtIndex(doc, s, Text(t), 0);
  }

  /** A comment where none is allowed. */
  lemma CommentRefused(f: Features, doc: bytes, base: nat, depth: nat, p: nat, errors: seq<ErrorInfo>, cur: Value,
                       gap: bytes)
    requires Gap(gap) && At(doc, p, gap) && !AllSpace(gap) && !f.allowComments && depth <= f.stackLimit
    ensures p <= |doc| && ReadValue(f, doc, base, depth, p, errors, cur).status == Failure
  {
    hide ReadValue, ReadToken, At, Gap;
    var k := GapComment(f, doc, p, gap);
    ReadValueStep(f, doc, base, depth, p, errors, cur, ReadToken(f, doc, p));
  }

  /** A scalar behind a gap. */
  lemma ReadLeafTree(f: Features, doc: bytes, base: nat, depth: nat, p: nat, errors: seq<ErrorInfo>, cur: Value,
                     gap: bytes, t: Tree)
    requires Passes(f, gap) && At(doc, p, gap) && At(doc, p + |gap|, Text(t))
    requires FollowsTree(doc, p + |gap| + |Text(t)|, t)
    requires !t.TArray? && !t.TObject? && ValidTree(t, f.toDouble) && depth <= f.stackLimit
    ensures p <= |doc|
    ensures Ends(ReadValue(f, doc, base, depth, p, errors, cur), LeafStatus(f, t), p + |gap| + |Text(t)|, errors,
                 Denote(t, p + |gap| - base, f.toDouble))
  {
    hide ReadValue, ReadScalar, NextToken, ReadToken, SkipComments, TokenFrom, SkipSpaces, At, FollowsTree, Passes,
      Text, ValidTree, Denote, LeafStatus, Ends;
    AtStart(doc, p, gap);
    ReadScalarTree(f, doc, base, p + |gap|, errors, cur, t);
    ValueToken(f, doc, p, gap);
    ReadValueStep(f, doc, base, depth, p, errors, cur, SkipComments(f, doc, p));
  }

  lemma AtStart(doc: bytes, p: nat, ws: bytes)
    requires At(doc, p, ws)
    ensures p <= |doc| && p + |ws| <= |doc|
  {}

  // ----- Containers ----------------------------------------------------------------------------

  /** Reading an array or an object is reading what follows its opening bracket. */
  lemma OpensContainer(f: Features, doc: bytes, base: nat, depth: nat, p: nat, errors: seq<ErrorInfo>, cur: Value,
                       gap: bytes, t: Tree)
    requires Passes(f, gap) && At(doc, p, gap) && At(doc, p + |gap|, Text(t)) && (t.TArray? || t.TObject?)
    requires depth <= f.stackLimit
    ensures p + |gap| + 1 <= |doc|
    ensures var s := p + |gap|;
      ReadValue(f, doc, base, depth, p, errors, cur)
      == if t.TArray? then
           Limited(ReadElements(f, doc, base, depth, s + 1, errors, 0, Value(Arr(Nil), s - base, cur.limit)), base)
         else
           Limited(ReadMembers(f, doc, base, depth, s + 1, errors, [], Value(Obj(Nil), s - base, cur.limit)), base)
  {
    hide ReadValue, ReadMembers, ReadElements, ReadScalar, NextToken, ReadToken, SkipComments, At, Limited,
      ElementsText, MembersText;
    AtIndex(doc, p + |gap|, Text(t), 0);
    PunctuationAt(f, doc, p, gap);
    ReadValueStep(f, doc, base, depth, p, errors, cur, SkipComments(f, doc, p));
  }

  lemma EmptyLayout(doc: bytes, s: nat, open: bytes, ws: bytes, close: bytes)
    requires At(doc, s, open + (ws + close)) && |open| == |close| == 1
    ensures At(doc, s + 1, ws) && s + 1 + |ws| < |doc| && doc[s + 1 + |ws|] == close[0]
  {
    AtConcat(doc, s, open, ws + close);
    AtConcat(doc, s + 1, ws, close);
    AtIndex(doc, s + 1 + |ws|, close, 0);
  }

  /** Reading the tree's text ends as its first obstacle says, and else gives its value, whatever the current
      value was. */
  lemma {:induction false} ReadTree(f: Features, doc: bytes, base: nat, depth: nat, p: nat, errors: seq<ErrorInfo>,
                                    cur: Value, gap: bytes, t: Tree)
    requires Gap(gap) && At(doc, p, gap) && At(doc, p + |gap|, Text(t))
    requires FollowsTree(doc, p + |gap| + |Text(t)|, t)
    requires ValidTree(t, f.toDouble) && Suits(f.allowDroppedNullPlaceholders, t)
    ensures p <= |doc|
    ensures Ends(ReadValue(f, doc, base, depth, p, errors, cur), TreeStatus(f, depth, gap, t), p + |gap| + |Text(t)|,
                 errors, Denote(t, p + |gap| - base, f.toDouble))
    decreases t, 2
  {
    hide ReadValue, At, FollowsTree, AllSpace, Text, Denote, ValidTree, ElementsStatus, MembersStatus, Gap;
    AtStart(doc, p, gap);
    if depth > f.stackLimit {
      ReadValueThrows(f, doc, base, depth, p, errors, cur);
    } else if !f.allowComments && !AllSpace(gap) {
      CommentRefused(f, doc, base, depth, p, errors, cur, gap);
    } else if t.TArray? {
      ReadBracketed(f, doc, base, depth, p, errors, cur, gap, t);
    } else if t.TObject? {
      ReadBraced(f, doc, base, depth, p, errors, cur, gap, t);
    } else {
      ReadLeafTree(f, doc, base, depth, p, errors, cur, gap, t);
    }
  }

  /** An array behind a gap. */
  lemma {:induction false} ReadBracketed(f: Features, doc: bytes, base: nat, depth: nat, p: nat, errors: seq<ErrorInfo>,
                                         cur: Value, gap: bytes, t: Tree)
    requires Passes(f, gap) && At(doc, p, gap) && At(doc, p + |gap|, Text(t)) && t.TArray? && depth <= f.stackLimit
    requires ValidTree(t, f.toDouble) && Suits(f.allowDroppedNullPlaceholders, t)
    ensures p <= |doc|
    ensures Ends(ReadValue(f, doc, base, depth, p, errors, cur), ElementsStatus(f, depth, 0, t.elements),
                 p + |gap| + |Text(t)|, errors, Denote(t, p + |gap| - base, f.toDouble))
    decreases t, 1
  {
    hide ReadValue, ReadMembers, ReadElements, ReadScalar, NextToken, ReadToken, SkipComments, At, Passes, Text,
      DenoteElements, ValidElements, ElementsStatus, SuitsElements;
    var s := p + |gap|;
    OpensContainer(f, doc, base, depth, p, errors, cur, gap, t);
    ReadArrayTree(f, doc, base, depth, s, errors, Value(Arr(Nil), s - base, cur.limit), t);
  }

  lemma {:induction false} ReadArrayTree(f: Features, doc: bytes, base: nat, depth: nat, s: nat,
                                         errors: seq<ErrorInfo>, cur: Value, t: Tree)
    requires t.TArray? && At(doc, s, Text(t)) && cur.data == Arr(Nil)
    requires ValidTree(t, f.toDouble) && Suits(f.allowDroppedNullPlaceholders, t)
    ensures s + 1 <= |doc|
    ensures Ends(ReadElements(f, doc, base, depth, s + 1, errors, 0, cur), ElementsStatus(f, depth, 0, t.elements),
                 s + |Text(t)|, errors, cur.(data := Denote(t, s - base, f.toDouble).data))
    decreases t, 0
  {
    hide At, ReadValue, ReadElements, ReadScalar, ReadToken, NextToken, SkipSpaces, SkipComments, Put, ElementsText,
      ValidElements, LoneDrop, SuitsElements, Gap, AllSpace;
    if t.elements.NoElement? {
      ReadEmptyArray(f, doc, base, depth, s, errors, cur, t.ws);
    } else {
      AtConcat(doc, s, "[", ElementsText(t.elements));
      ReadElementsTree(f, doc, base, depth, s + 1, errors, 0, cur, t.elements);
    }
  }

  lemma ReadEmptyArray(f: Features, doc: bytes, base: nat, depth: nat, s: nat, errors: seq<ErrorInfo>, cur: Value,
                       ws: bytes)
    requires AllSpace(ws) && At(doc, s, "[" + (ws + "]")) && cur.data.Arr?
    ensures s + 1 <= |doc|
    ensures ReadElements(f, doc, base, depth, s + 1, errors, 0, cur) == Outcome(Success, s + |ws| + 2, errors, cur)
  {
    hide At, ReadElements, ReadToken, NextToken, SkipComments, SkipSpaces, Gap, AllSpace;
    EmptyLayout(doc, s, "[", ws, "]");
    SkipSpacesAt(doc, s + 1, ws);
    AtNothing(doc, s + 1 + |ws|);
    PunctuationAt(f, doc, s + 1 + |ws|, []);
    ElementsClose(f, doc, base, depth, s + 1, errors, 0, cur);
  }

  /** The test for the closing bracket at the start of a round of readArray. */
  predicate Closes(f: Features, doc: bytes, s: nat, index: nat) {
    s < |doc| && doc[s] == ']' && (index == 0 || (f.allowTrailingCommas && !f.allowDroppedNullPlaceholders))
  }

  lemma ElementsClose(f: Features, doc: bytes, base: nat, depth: nat, p: nat, errors: seq<ErrorInfo>, index: nat,
                      cur: Value)
    requires p <= |doc| && cur.data.Arr? && Closes(f, doc, SkipSpaces(doc, p), index)
    ensures ReadElements(f, doc, base, depth, p, errors, index, cur)
      == Outcome(Success, ReadToken(f, doc, SkipSpaces(doc, p)).end, errors, cur)
  {
    hide ReadValue, AfterElement, ReadToken, SkipSpaces, Put, Find;
  }

  /** One round of readArray that does not find the closing bracket first. */
  lemma ElementStep(f: Features, doc: bytes, base: nat, depth: nat, p: nat, errors: seq<ErrorInfo>, index: nat,
                    cur: Value)
    requires p <= |doc| && cur.data.Arr? && !Closes(f, doc, SkipSpaces(doc, p), index)
    ensures var r := ReadElements(f, doc, base, depth, p, errors, index, cur);
      var o := ReadValue(f, doc, base, depth + 1, SkipSpaces(doc, p), errors, Child(cur.data.items, Index(index)));
      var t := NextToken(f, doc, o.pos);
      var filled := WithElement(cur, index, o.value);
      && (index >= MAX_INT32 ==> r.status == Undefined)
      && (index < MAX_INT32 && o.status != Success ==> r.status == o.status)
      && (index < MAX_INT32 && o.status == Success && t.kind == ArrayEnd ==>
            r == Outcome(Success, t.end, o.errors, filled))
      && (index < MAX_INT32 && o.status == Success && t.kind == ArraySeparator ==>
            r == ReadElements(f, doc, base, depth, t.end, o.errors, index + 1, filled))
  {
    hide ReadValue, NextToken, ReadToken, SkipSpaces, RecoverPos, Put, Find;
  }

  /** The text of an element and of those after it, in parts. */
  lemma ElementsTextParts(es: Elements)
    requires es.Element?
    ensures var close: bytes := if es.rest.NoElement? then "]" else ",";
      var more := if es.rest.NoElement? then [] else ElementsText(es.rest);
      ElementsText(es) == es.before + (Text(es.value) + (es.after + (close + more)))
  {
    hide Text;
    assert "]" + [] == "]";
  }

  lemma GapFollow(gap: bytes)
    requires Gap(gap) && gap != []
    ensures FollowByte(gap[0])
  {
    if !IsSpace(gap[0]) {
      var n :| 3 <= n <= |gap| && (BlockComment(gap[..n]) || LineComment(gap[..n])) && Gap(gap[n..]);
      CommentStart(gap[..n]);
    }
  }

  /** Where the parts of an element stand. */
  lemma ElementLayout(doc: bytes, p: nat, es: Elements, toDouble: bytes -> Option<Double>)
    requires es.Element? && At(doc, p, ElementsText(es)) && ValidElements(es, toDouble)
    ensures var s := p + |es.before|; var q := s + |Text(es.value)|; var r := q + |es.after|;
      && At(doc, p, es.before) && At(doc, s, Text(es.value)) && At(doc, q, es.after)
      && s < |doc| && FollowsTree(doc, q, es.value) && r < |doc|
      && doc[r] == (if es.rest.NoElement? then ']' else ',')
      && !IsSpace(doc[s]) && (doc[s] == ']' ==> es.value.TDropped? && es.rest.NoElement?)
      && (if es.rest.NoElement? then p + |ElementsText(es)| == r + 1
          else At(doc, r + 1, ElementsText(es.rest)) && p + |ElementsText(es)| == r + 1 + |ElementsText(es.rest)|)
  {
    hide At, Text, ElementsText, Gap;
    var text := Text(es.value);
    var s := p + |es.before|;
    var q := s + |text|;
    var close: bytes := if es.rest.NoElement? then "]" else ",";
    var more := if es.rest.NoElement? then [] else ElementsText(es.rest);
    ElementsTextParts(es);
    AtParts(doc, p, es.before, text, es.after, close, more);
    AtIndex(doc, q + |es.after|, close, 0);
    ValueStart(doc, s, es.value, toDouble);
    AfterGap(doc, q, es.after, es.value);
  }

  /** What stands where a value begins. */
  lemma ValueStart(doc: bytes, s: nat, t: Tree, toDouble: bytes -> Option<Double>)
    requires ValidTree(t, toDouble) && At(doc, s, Text(t))
    ensures !t.TDropped? ==> s < |doc| && !IsSpace(doc[s]) && doc[s] != ']'
    ensures t.TDropped? ==> Text(t) == []
  {
    if !t.TDropped? {
      TextStartsValue(t, toDouble);
      AtIndex(doc, s, Text(t), 0);
    }
  }

  lemma AfterGap(doc: bytes, q: nat, gap: bytes, t: Tree)
    requires Gap(gap) && At(doc, q, gap) && q + |gap| < |doc| && (t.TDropped? ==> gap == [])
    requires var c := doc[q + |gap|]; c == ',' || c == ']' || c == '}'
    ensures FollowsTree(doc, q, t)
  {
    if gap != [] {
      GapFollow(gap);
      AtIndex(doc, q, gap, 0);
    }
  }

  lemma AtParts(doc: bytes, p: nat, a: bytes, b: bytes, c: bytes, d: bytes, e: bytes)
    requires At(doc, p, a + (b + (c + (d + e))))
    ensures At(doc, p, a) && At(doc, p + |a|, b) && At(doc, p + |a| + |b|, c)
    ensures At(doc, p + |a| + |b| + |c|, d) && At(doc, p + |a| + |b| + |c| + |d|, e)
  {
    AtConcat(doc, p, a, b + (c + (d + e)));
    AtConcat(doc, p + |a|, b, c + (d + e));
    AtConcat(doc, p + |a| + |b|, c, d + e);
    AtConcat(doc, p + |a| + |b| + |c|, d, e);
  }

  /** Where readArray begins to read an element: behind the whitespace before it. */
  lemma ElementStart(f: Features, doc: bytes, p: nat, index: nat, es: Elements) returns (k: nat)
    requires es.Element? && At(doc, p, ElementsText(es)) && ValidElements(es, f.toDouble)
    requires SuitsElements(f.allowDroppedNullPlaceholders, es) && (index == 0 ==> !LoneDrop(es))
    ensures k <= |es.before| && Gap(es.before[k..]) && At(doc, p + k, es.before[k..])
    ensures AllSpace(es.before[k..]) <==> AllSpace(es.before)
    ensures SkipSpaces(doc, p) == p + k && !Closes(f, doc, p + k, index)
  {
    hide At, Text, ElementsText, Gap, SkipSpaces, Suits;
    ElementLayout(doc, p, es, f.toDouble);
    if AllSpace(es.before) {
      k := |es.before|;
      SkipSpacesAt(doc, p, es.before);
      assert es.before[k..] == [];
      AtNothing(doc, p + k);
    } else {
      k := GapComment(f, doc, p, es.before);
      NotAllSpace(es.before, k);
    }
  }

  lemma NotAllSpace(s: bytes, k: nat)
    requires k < |s| && AllSpace(s[..k]) && !AllSpace(s)
    ensures !AllSpace(s[k..])
  {
    if AllSpace(s[k..]) {
      forall i | 0 <= i < |s| ensures IsSpace(s[i]) {
        assert s[i] == if i < k then s[..k][i] else s[k..][i - k];
      }
    }
  }

  lemma {:induction false} ReadElementsTree(f: Features, doc: bytes, base: nat, depth: nat, p: nat,
                                            errors: seq<ErrorInfo>, index: nat, cur: Value, es: Elements)
    requires !es.NoElement? && At(doc, p, ElementsText(es)) && cur.data.Arr?
    requires ValidElements(es, f.toDouble) && SuitsElements(f.allowDroppedNullPlaceholders, es)
    requires index == 0 ==> es.Element? && !LoneDrop(es)
    ensures p <= |doc|
    ensures Ends(ReadElements(f, doc, base, depth, p, errors, index, cur), ElementsStatus(f, depth, index, es),
                 p + |ElementsText(es)|, errors,
                 cur.(data := Arr(DenoteElements(es, p - base, index, cur.data.items, f.toDouble))))
    decreases es
  {
    hide ReadElements, At, Gap, AllSpace, ValidTree, Suits, TreeStatus, Text, Denote, Put, Find;
    AtStart(doc, p, ElementsText(es));
    if es.LastComma? {
      ReadLastComma(f, doc, base, depth, p, errors, index, cur, es);
    } else {
      ReadElementTree(f, doc, base, depth, p, errors, index, cur, es);
    }
  }

  lemma ReadLastComma(f: Features, doc: bytes, base: nat, depth: nat, p: nat, errors: seq<ErrorInfo>, index: nat,
                      cur: Value, es: Elements)
    requires es.LastComma? && AllSpace(es.ws) && At(doc, p, es.ws + "]") && cur.data.Arr? && index > 0
    requires !f.allowDroppedNullPlaceholders
    ensures p <= |doc|
    ensures Ends(ReadElements(f, doc, base, depth, p, errors, index, cur), ElementsStatus(f, depth, index, es),
                 p + |es.ws| + 1, errors, cur)
  {
    hide At, ReadElements, ReadValue, ReadToken, NextToken, SkipComments, SkipSpaces, TokenFrom, AllSpace;
    var s := p + |es.ws|;
    AtConcat(doc, p, es.ws, "]");
    AtIndex(doc, s, "]", 0);
    SkipSpacesAt(doc, p, es.ws);
    AtNothing(doc, s);
    PunctuationAt(f, doc, s, []);
    if f.allowTrailingCommas {
      ElementsClose(f, doc, base, depth, p, errors, index, cur);
    } else {
      ElementStep(f, doc, base, depth, p, errors, index, cur);
      BracketRefused(f, doc, base, depth + 1, s, errors, Child(cur.data.items, Index(index)));
    }
  }

  /** A closing bracket where a value should stand. */
  lemma BracketRefused(f: Features, doc: bytes, base: nat, depth: nat, s: nat, errors: seq<ErrorInfo>, cur: Value)
    requires s < |doc| && doc[s] == ']' && !f.allowDroppedNullPlaceholders
    ensures ReadValue(f, doc, base, depth, s, errors, cur).status == if depth > f.stackLimit then Thrown else Failure
  {
    hide ReadValue, ReadToken, NextToken, SkipComments, TokenFrom;
    if depth > f.stackLimit {
      ReadValueThrows(f, doc, base, depth, s, errors, cur);
    } else {
      AtNothing(doc, s);
      PunctuationAt(f, doc, s, []);
      ReadValueStep(f, doc, base, depth, s, errors, cur, SkipComments(f, doc, s));
    }
  }

  /** One round of readArray, when its element was read with the given ending, from the k-th byte before
      it. */
  lemma ElementRound(f: Features, doc: bytes, base: nat, depth: nat, p: nat, errors: seq<ErrorInfo>, index: nat,
                     cur: Value, es: Elements, status: Status, v: Value)
    requires es.Element? && At(doc, p, ElementsText(es)) && cur.data.Arr? && p <= |doc| && index < MAX_INT32
    requires ValidElements(es, f.toDouble) && !Closes(f, doc, SkipSpaces(doc, p), index)
    requires Ends(ReadValue(f, doc, base, depth + 1, SkipSpaces(doc, p), errors, Child(cur.data.items, Index(index))),
                  status, p + |es.before| + |Text(es.value)|, errors, v)
    ensures var r := ReadElements(f, doc, base, depth, p, errors, index, cur);
      var q := p + |es.before| + |Text(es.value)| + |es.after| + 1;
      && (status != Success ==> r.status == status)
      && (status == Success && es.rest.NoElement? ==>
            r == Outcome(Success, p + |ElementsText(es)|, errors, WithElement(cur, index, v)))
      && (status == Success && !es.rest.NoElement? ==>
            && At(doc, q, ElementsText(es.rest)) && p + |ElementsText(es)| == q + |ElementsText(es.rest)| && q <= |doc|
            && r == ReadElements(f, doc, base, depth, q, errors, index + 1, WithElement(cur, index, v)))
  {
    hide ReadValue, ReadElements, NextToken, ReadToken, SkipComments, SkipSpaces, At, FollowsTree, AllSpace, Gap, Text,
      ElementsText, ValidTree, Closes, Put, Find;
    ElementLayout(doc, p, es, f.toDouble);
    ElementStep(f, doc, base, depth, p, errors, index, cur);
    PunctuationAt(f, doc, p + |es.before| + |Text(es.value)|, es.after);
  }

  /** The value of an element, read from the first byte before it that is no whitespace. */
  lemma {:induction false} ReadElementValue(f: Features, doc: bytes, base: nat, depth: nat, p: nat,
                                            errors: seq<ErrorInfo>, index: nat, cur: Value, es: Elements)
    requires es.Element? && At(doc, p, ElementsText(es)) && p <= |doc|
    requires ValidElements(es, f.toDouble) && SuitsElements(f.allowDroppedNullPlaceholders, es)
    requires index == 0 ==> !LoneDrop(es)
    ensures !Closes(f, doc, SkipSpaces(doc, p), index)
    ensures Ends(ReadValue(f, doc, base, depth + 1, SkipSpaces(doc, p), errors, cur),
                 TreeStatus(f, depth + 1, es.before, es.value), p + |es.before| + |Text(es.value)|, errors,
                 Denote(es.value, p + |es.before| - base, f.toDouble))
    decreases es, 0
  {
    hide ReadValue, SkipSpaces, At, FollowsTree, AllSpace, Gap, Text, ElementsText, Denote, ValidTree, Suits,
      TreeStatus, Closes;
    var k := ElementStart(f, doc, p, index, es);
    ElementLayout(doc, p, es, f.toDouble);
    assert p + k + |es.before[k..]| == p + |es.before|;
    ReadTree(f, doc, base, depth + 1, p + k, errors, cur, es.before[k..], es.value);
    SameGap(f, depth + 1, es.before, es.before[k..], es.value);
  }

  /** An element that no int counts. */
  lemma ElementUncounted(f: Features, doc: bytes, base: nat, depth: nat, p: nat, errors: seq<ErrorInfo>, index: nat,
                         cur: Value)
    requires p <= |doc| && cur.data.Arr? && !Closes(f, doc, SkipSpaces(doc, p), index) && index >= MAX_INT32
    ensures ReadElements(f, doc, base, depth, p, errors, index, cur).status == Undefined
  {
    hide ReadValue, ReadElements, SkipSpaces, Put, Find;
    ElementStep(f, doc, base, depth, p, errors, index, cur);
  }

  lemma {:induction false} ReadElementTree(f: Features, doc: bytes, base: nat, depth: nat, p: nat,
                                           errors: seq<ErrorInfo>, index: nat, cur: Value, es: Elements)
    requires es.Element? && At(doc, p, ElementsText(es)) && cur.data.Arr? && p <= |doc|
    requires ValidElements(es, f.toDouble) && SuitsElements(f.allowDroppedNullPlaceholders, es)
    requires index == 0 ==> !LoneDrop(es)
    ensures Ends(ReadElements(f, doc, base, depth, p, errors, index, cur), ElementsStatus(f, depth, index, es),
                 p + |ElementsText(es)|, errors,
                 cur.(data := Arr(DenoteElements(es, p - base, index, cur.data.items, f.toDouble))))
    decreases es, 1
  {
    hide ReadValue, ReadElements, NextToken, ReadToken, SkipSpaces, At, FollowsTree, AllSpace, Gap, Text, ElementsText,
      Denote, ValidTree, Suits, TreeStatus, Closes, LoneDrop, Put, Find;
    var s := p + |es.before|;
    var child := Child(cur.data.items, Index(index));
    ReadElementValue(f, doc, base, depth, p, errors, index, child, es);
    if index >= MAX_INT32 {
      ElementUncounted(f, doc, base, depth, p, errors, index, cur);
    } else {
      var status := TreeStatus(f, depth + 1, es.before, es.value);
      var v := Denote(es.value, s - base, f.toDouble);
      ElementRound(f, doc, base, depth, p, errors, index, cur, es, status, v);
      if status == Success && !es.rest.NoElement? {
        ReadElementsTree(f, doc, base, depth, s + |Text(es.value)| + |es.after| + 1, errors, index + 1,
          WithElement(cur, index, v), es.rest);
      }
    }
  }

  lemma SameGap(f: Features, depth: nat, a: bytes, b: bytes, t: Tree)
    requires ValidTree(t, f.toDouble) && (AllSpace(a) <==> AllSpace(b))
    ensures TreeStatus(f, depth, a, t) == TreeStatus(f, depth, b, t)
  {}

  // ----- Objects -------------------------------------------------------------------------------

  /** An object behind a gap. */
  lemma {:induction false} ReadBraced(f: Features, doc: bytes, base: nat, depth: nat, p: nat, errors: seq<ErrorInfo>,
                                      cur: Value, gap: bytes, t: Tree)
    requires Passes(f, gap) && At(doc, p, gap) && At(doc, p + |gap|, Text(t)) && t.TObject? && depth <= f.stackLimit
    requires ValidTree(t, f.toDouble) && Suits(f.allowDroppedNullPlaceholders, t)
    ensures p <= |doc|
    ensures Ends(ReadValue(f, doc, base, depth, p, errors, cur), MembersStatus(f, depth, [], {}, t.members),
                 p + |gap| + |Text(t)|, errors, Denote(t, p + |gap| - base, f.toDouble))
    decreases t, 1
  {
    hide ReadValue, ReadMembers, ReadElements, ReadScalar, NextToken, ReadToken, SkipComments, At, Passes, Text,
      DenoteMembers, ValidMembers, MembersStatus, SuitsMembers;
    var s := p + |gap|;
    OpensContainer(f, doc, base, depth, p, errors, cur, gap, t);
    ReadObjectTree(f, doc, base, depth, s, errors, Value(Obj(Nil), s - base, cur.limit), t);
  }

  lemma {:induction false} ReadObjectTree(f: Features, doc: bytes, base: nat, depth: nat, s: nat,
                                          errors: seq<ErrorInfo>, cur: Value, t: Tree)
    requires t.TObject? && At(doc, s, Text(t)) && cur.data == Obj(Nil)
    requires ValidTree(t, f.toDouble) && Suits(f.allowDroppedNullPlaceholders, t)
    ensures s + 1 <= |doc|
    ensures Ends(ReadMembers(f, doc, base, depth, s + 1, errors, [], cur), MembersStatus(f, depth, [], {}, t.members),
                 s + |Text(t)|, errors, cur.(data := Denote(t, s - base, f.toDouble).data))
    decreases t, 0
  {
    hide At, ReadValue, ReadMembers, ReadScalar, ReadToken, NextToken, SkipSpaces, SkipComments, Put, MembersText,
      ValidMembers, SuitsMembers, Gap, AllSpace;
    if t.members.NoMember? {
      ReadEmptyObject(f, doc, base, depth, s, errors, cur, t.ws);
    } else {
      AtConcat(doc, s, "{", MembersText(t.members));
      ReadMembersTree(f, doc, base, depth, s + 1, errors, [], cur, t.members, {});
    }
  }

  lemma ReadEmptyObject(f: Features, doc: bytes, base: nat, depth: nat, s: nat, errors: seq<ErrorInfo>, cur: Value,
                        gap: bytes)
    requires Gap(gap) && At(doc, s, "{" + (gap + "}")) && cur.data.Obj?
    ensures s + 1 <= |doc|
    ensures ReadMembers(f, doc, base, depth, s + 1, errors, [], cur) == Outcome(Success, s + |gap| + 2, errors, cur)
  {
    hide At, ReadMembers, ReadToken, NextToken, SkipComments, Gap;
    EmptyLayout(doc, s, "{", gap, "}");
    PunctuationAt(f, doc, s + 1, gap);
    MembersClose(f, doc, base, depth, s + 1, errors, [], cur);
  }

  /** A closing brace at the start of a round of readObject. */
  lemma MembersClose(f: Features, doc: bytes, base: nat, depth: nat, p: nat, errors: seq<ErrorInfo>, name: bytes,
                     cur: Value)
    requires p <= |doc| && cur.data.Obj? && NextToken(f, doc, p).kind == ObjectEnd
    ensures var r := ReadMembers(f, doc, base, depth, p, errors, name, cur);
      if name == [] || f.allowTrailingCommas then r == Outcome(Success, NextToken(f, doc, p).end, errors, cur)
      else r.status == Failure
  {
    hide ReadValue, AfterMember, NextToken, ReadToken, RecoverPos, Find;
  }

  /** The names in the object. */
  ghost predicate NamesIn(es: Entries, seen: set<bytes>) {
    forall k :: Find(es, k).Some? <==> k.Name? && k.n in seen
  }

  /** The token of a name. */
  lemma LabelTokenAt(f: Features, doc: bytes, s: nat, l: Label)
    requires ValidLabel(l) && At(doc, s, LabelText(l)) && Follow(doc, s + |LabelText(l)|)
    ensures s < |doc| && !IsSpace(doc[s])
    ensures var t := TokenFrom(f, doc, s);
      if !PermitsLabel(f, l) then t.kind == ErrorToken || (t.kind == NumberToken && !f.allowNumericKeys)
      else
        && (t.kind == StringToken || t.kind == NumberToken) && t.end == s + |LabelText(l)|
        && (t.kind == StringToken ==> t.start + 2 <= t.end) && NameOf(f, doc, t) == KeyName(LabelName(l))
  {
    hide At, TokenFrom, NumberText, StringText, ApostropheText, DecodeString, StringValue, DecodeNumber, Follow;
    match l
    case Quoted(cs) =>
      StringTokenAt(f, doc, s, cs);
      QuoteFirst(doc, s, cs);
    case Single(cs) =>
      SingleTokenAt(f, doc, s, cs);
      QuoteFirst(doc, s, cs);
    case Numeric(n) =>
      NumberTokenAt(f, doc, s, n);
      NumberFirst(doc, s, n);
      AtSlice(doc, s, NumberText(n));
      DecodeNumberAt(n, f.toDouble);
  }

  lemma QuoteFirst(doc: bytes, s: nat, cs: Characters)
    requires At(doc, s, StringText(cs)) || At(doc, s, ApostropheText(cs))
    ensures s < |doc| && !IsSpace(doc[s]) && |StringText(cs)| >= 2 && |ApostropheText(cs)| >= 2
  {
    hide At;
    if At(doc, s, StringText(cs)) {
      AtIndex(doc, s, StringText(cs), 0);
    } else {
      AtIndex(doc, s, ApostropheText(cs), 0);
    }
  }

  /** The name and colon of a member. */
  lemma ReadNameAt(f: Features, doc: bytes, p: nat, ms: Members)
    requires ms.Member? && At(doc, p, NameText(ms)) && Gap(ms.before) && ValidLabel(ms.name) && AllSpace(ms.mid)
    ensures p <= |doc|
    ensures var t := NextToken(f, doc, p);
      if !PermitsLabel(f, ms.name) then t.kind == ErrorToken || (t.kind == NumberToken && !f.allowNumericKeys)
      else
        && (t.kind == StringToken || t.kind == NumberToken) && (t.kind == StringToken ==> t.start + 2 <= t.end)
        && NameOf(f, doc, t) == KeyName(LabelName(ms.name))
        && ReadToken(f, doc, t.end) == Token(MemberSeparator, p + |NameText(ms)| - 1, p + |NameText(ms)|)
  {
    hide At, TokenFrom, NextToken, ReadToken, SkipSpaces, NameOf, LabelText, LabelName, ValidLabel, Gap, PermitsLabel;
    var s := p + |ms.before|;
    var text := LabelText(ms.name);
    AtStart(doc, p, NameText(ms));
    AtConcat(doc, p, ms.before, text + (ms.mid + ":"));
    AtConcat(doc, s, text, ms.mid + ":");
    AtConcat(doc, s + |text|, ms.mid, ":");
    AtIndex(doc, s + |text| + |ms.mid|, ":", 0);
    if ms.mid != [] {
      AtIndex(doc, s + |text|, ms.mid, 0);
    }
    LabelTokenAt(f, doc, s, ms.name);
    TokenBehind(f, doc, p, ms.before);
    SpaceGap(ms.mid);
    PunctuationAt(f, doc, s + |text|, ms.mid);
  }

  lemma MembersTextParts(ms: Members)
    requires ms.Member?
    ensures var close: bytes := if ms.rest.NoMember? then "}" else ",";
      var more := if ms.rest.NoMember? then [] else MembersText(ms.rest);
      MembersText(ms) == NameText(ms) + (ms.before2 + (Text(ms.value) + (ms.after + (close + more))))
  {
    hide Text, NameText;
    assert "}" + [] == "}";
  }

  /** Where the parts of a member stand. */
  lemma MemberLayout(doc: bytes, p: nat, ms: Members)
    requires ms.Member? && At(doc, p, MembersText(ms)) && Gap(ms.after) && (ms.value.TDropped? ==> ms.after == [])
    ensures var c := p + |NameText(ms)|;
      var s := c + |ms.before2|; var q := s + |Text(ms.value)|; var r := q + |ms.after|;
      && At(doc, p, NameText(ms)) && At(doc, c, ms.before2) && At(doc, s, Text(ms.value)) && At(doc, q, ms.after)
      && FollowsTree(doc, q, ms.value) && r < |doc|
      && doc[r] == (if ms.rest.NoMember? then '}' else ',')
      && (if ms.rest.NoMember? then p + |MembersText(ms)| == r + 1
          else At(doc, r + 1, MembersText(ms.rest)) && p + |MembersText(ms)| == r + 1 + |MembersText(ms.rest)|)
  {
    hide At, NameText, Text, MembersText, Gap;
    var text := Text(ms.value);
    var c := p + |NameText(ms)|;
    var q := c + |ms.before2| + |text|;
    var close: bytes := if ms.rest.NoMember? then "}" else ",";
    var more := if ms.rest.NoMember? then [] else MembersText(ms.rest);
    MembersTextParts(ms);
    AtParts(doc, p, NameText(ms), ms.before2, text, ms.after, close + more);
    AtConcat(doc, q + |ms.after|, close, more);
    AtIndex(doc, q + |ms.after|, close, 0);
    AfterGap(doc, q, ms.after, ms.value);
  }

  lemma HeaderAt(f: Features, doc: bytes, p: nat, errors: seq<ErrorInfo>, name: bytes, cur: Value, newName: bytes)
    requires p <= |doc| && cur.data.Obj? && |newName| < NAME_LIMIT
    requires f.rejectDupKeys ==> Find(cur.data.members, Name(newName)).None?
    requires var t := NextToken(f, doc, p);
      && (t.kind == StringToken || t.kind == NumberToken) && (t.kind == StringToken ==> t.start + 2 <= t.end)
      && NameOf(f, doc, t) == KeyName(newName) && ReadToken(f, doc, t.end).kind == MemberSeparator
    ensures ReadHeader(f, doc, p, errors, name, cur)
      == Go(newName, ReadToken(f, doc, NextToken(f, doc, p).end).end)
  {
    hide NextToken, ReadToken, NameOf, RecoverPos;
  }

  /** A name that is not permitted, is too long, or must not come again. */
  lemma NameRefused(f: Features, doc: bytes, base: nat, depth: nat, p: nat, errors: seq<ErrorInfo>, name: bytes,
                    cur: Value, newName: bytes, permitted: bool)
    requires p <= |doc| && cur.data.Obj?
    requires var t := NextToken(f, doc, p);
      if !permitted then t.kind == ErrorToken || (t.kind == NumberToken && !f.allowNumericKeys)
      else
        && (t.kind == StringToken || t.kind == NumberToken) && (t.kind == StringToken ==> t.start + 2 <= t.end)
        && NameOf(f, doc, t) == KeyName(newName)
        && (|newName| >= NAME_LIMIT || (f.rejectDupKeys && Find(cur.data.members, Name(newName)).Some?))
    ensures ReadMembers(f, doc, base, depth, p, errors, name, cur).status
      == if permitted && |newName| >= NAME_LIMIT then Thrown else Failure
  {
    hide ReadValue, AfterMember, NextToken, ReadToken, DecodeString, DecodeNumber, RecoverPos, Put, Find;
  }

  /** One round of readObject whose name and colon are in order. */
  lemma MemberStep(f: Features, doc: bytes, base: nat, depth: nat, p: nat, errors: seq<ErrorInfo>, name: bytes,
                   cur: Value, newName: bytes, q: nat)
    requires p <= |doc| && cur.data.Obj? && ReadHeader(f, doc, p, errors, name, cur) == Go(newName, q)
    ensures var o := ReadValue(f, doc, base, depth + 1, q, errors, Child(cur.data.members, Name(newName)));
      var filled := WithMember(cur, newName, o.value);
      var r := ReadMembers(f, doc, base, depth, p, errors, name, cur);
      var comma, t := ReadToken(f, doc, o.pos), NextToken(f, doc, o.pos);
      && (o.status != Success ==> r.status == o.status)
      && (o.status == Success && (comma == t || comma.kind == Comment) && t.kind == ObjectEnd ==>
            r == Outcome(Success, t.end, o.errors, filled))
      && (o.status == Success && (comma == t || comma.kind == Comment) && t.kind == ArraySeparator ==>
            r == ReadMembers(f, doc, base, depth, t.end, o.errors, newName, filled))
  {
    hide ReadValue, ReadHeader, NextToken, ReadToken, RecoverPos, Put, Find;
  }

  lemma NamesInPut(es: Entries, seen: set<bytes>, name: bytes, v: Value)
    requires NamesIn(es, seen)
    ensures NamesIn(Put(es, Name(name), v), seen + {name})
  {
    forall k ensures Find(Put(es, Name(name), v), k).Some? <==> k.Name? && k.n in seen + {name} {
      PutFind(es, Name(name), v, k);
    }
  }

  lemma ReadFinalComma(f: Features, doc: bytes, base: nat, depth: nat, p: nat, errors: seq<ErrorInfo>, name: bytes,
                       cur: Value, gap: bytes)
    requires Gap(gap) && At(doc, p, gap + "}") && cur.data.Obj?
    ensures p <= |doc|
    ensures Ends(ReadMembers(f, doc, base, depth, p, errors, name, cur),
                 if f.allowTrailingCommas || name == [] then Success else Failure, p + |gap| + 1, errors, cur)
  {
    hide ReadMembers, At, Gap, NextToken, ReadToken, SkipComments;
    AtConcat(doc, p, gap, "}");
    AtIndex(doc, p + |gap|, "}", 0);
    PunctuationAt(f, doc, p, gap);
    MembersClose(f, doc, base, depth, p, errors, name, cur);
  }

  lemma {:induction false} ReadMembersTree(f: Features, doc: bytes, base: nat, depth: nat, p: nat,
                                           errors: seq<ErrorInfo>, name: bytes, cur: Value, ms: Members,
                                           seen: set<bytes>)
    requires !ms.NoMember? && At(doc, p, MembersText(ms)) && cur.data.Obj?
    requires ValidMembers(ms, f.toDouble) && SuitsMembers(f.allowDroppedNullPlaceholders, ms)
    requires NamesIn(cur.data.members, seen)
    ensures p <= |doc|
    ensures Ends(ReadMembers(f, doc, base, depth, p, errors, name, cur), MembersStatus(f, depth, name, seen, ms),
                 p + |MembersText(ms)|, errors,
                 cur.(data := Obj(DenoteMembers(ms, p - base, cur.data.members, f.toDouble))))
    decreases ms
  {
    hide ReadMembers, At, Gap, ValidTree, ValidLabel, Suits, TreeStatus, LabelName, Text, NameText, Denote, Put, Find;
    AtStart(doc, p, MembersText(ms));
    if ms.FinalComma? {
      ReadFinalComma(f, doc, base, depth, p, errors, name, cur, ms.ws);
    } else {
      ReadMemberTree(f, doc, base, depth, p, errors, name, cur, ms, seen);
    }
  }

  /** One round of readObject, when its value was read with the given ending. */
  lemma MemberRound(f: Features, doc: bytes, base: nat, depth: nat, p: nat, errors: seq<ErrorInfo>, name: bytes,
                    cur: Value, ms: Members, n: bytes, status: Status, v: Value)
    requires ms.Member? && At(doc, p, MembersText(ms)) && cur.data.Obj? && p <= |doc|
    requires Gap(ms.after) && (ms.value.TDropped? ==> ms.after == [])
    requires var c := p + |NameText(ms)|;
      && c <= |doc| && ReadHeader(f, doc, p, errors, name, cur) == Go(n, c)
      && Ends(ReadValue(f, doc, base, depth + 1, c, errors, Child(cur.data.members, Name(n))), status,
              c + |ms.before2| + |Text(ms.value)|, errors, v)
    ensures var r := ReadMembers(f, doc, base, depth, p, errors, name, cur);
      var q := p + |NameText(ms)| + |ms.before2| + |Text(ms.value)| + |ms.after| + 1;
      && (status != Success ==> r.status == status)
      && (status == Success && ms.rest.NoMember? ==>
            r == Outcome(Success, p + |MembersText(ms)|, errors, WithMember(cur, n, v)))
      && (status == Success && !ms.rest.NoMember? ==>
            && At(doc, q, MembersText(ms.rest)) && p + |MembersText(ms)| == q + |MembersText(ms.rest)| && q <= |doc|
            && r == ReadMembers(f, doc, base, depth, q, errors, n, WithMember(cur, n, v)))
  {
    hide ReadValue, ReadMembers, ReadHeader, NextToken, ReadToken, SkipComments, At, FollowsTree, AllSpace, Gap, Text,
      MembersText, NameText, Put, Find;
    MemberLayout(doc, p, ms);
    MemberStep(f, doc, base, depth, p, errors, name, cur, n, p + |NameText(ms)|);
    PunctuationAt(f, doc, p + |NameText(ms)| + |ms.before2| + |Text(ms.value)|, ms.after);
  }

  /** The name of a member: it is refused, or readObject goes on behind the colon. */
  lemma MemberHeader(f: Features, doc: bytes, base: nat, depth: nat, p: nat, errors: seq<ErrorInfo>, name: bytes,
                     cur: Value, ms: Members, seen: set<bytes>)
    requires ms.Member? && At(doc, p, NameText(ms)) && Gap(ms.before) && ValidLabel(ms.name) && AllSpace(ms.mid)
    requires cur.data.Obj? && NamesIn(cur.data.members, seen) && p <= |doc|
    ensures var n := LabelName(ms.name);
      if !PermitsLabel(f, ms.name) || |n| >= NAME_LIMIT || (f.rejectDupKeys && n in seen) then
        ReadMembers(f, doc, base, depth, p, errors, name, cur).status
          == if PermitsLabel(f, ms.name) && |n| >= NAME_LIMIT then Thrown else Failure
      else
        p + |NameText(ms)| <= |doc| && ReadHeader(f, doc, p, errors, name, cur) == Go(n, p + |NameText(ms)|)
  {
    hide ReadValue, ReadMembers, ReadHeader, NextToken, ReadToken, NameOf, At, AllSpace, Gap, NameText, LabelName,
      ValidLabel, PermitsLabel, Find;
    var n := LabelName(ms.name);
    AtStart(doc, p, NameText(ms));
    ReadNameAt(f, doc, p, ms);
    assert Find(cur.data.members, Name(n)).Some? <==> n in seen;
    if !PermitsLabel(f, ms.name) || |n| >= NAME_LIMIT || (f.rejectDupKeys && n in seen) {
      NameRefused(f, doc, base, depth, p, errors, name, cur, n, PermitsLabel(f, ms.name));
    } else {
      HeaderAt(f, doc, p, errors, name, cur, n);
    }
  }

  lemma {:induction false} ReadMemberTree(f: Features, doc: bytes, base: nat, depth: nat, p: nat,
                                          errors: seq<ErrorInfo>, name: bytes, cur: Value, ms: Members,
                                          seen: set<bytes>)
    requires ms.Member? && At(doc, p, MembersText(ms)) && cur.data.Obj? && p <= |doc|
    requires ValidMembers(ms, f.toDouble) && SuitsMembers(f.allowDroppedNullPlaceholders, ms)
    requires NamesIn(cur.data.members, seen)
    ensures Ends(ReadMembers(f, doc, base, depth, p, errors, name, cur), MembersStatus(f, depth, name, seen, ms),
                 p + |MembersText(ms)|, errors,
                 cur.(data := Obj(DenoteMembers(ms, p - base, cur.data.members, f.toDouble))))
    decreases ms, 0
  {
    hide ReadValue, ReadMembers, ReadHeader, NextToken, ReadToken, NameOf, At, FollowsTree, AllSpace, Gap, Text,
      MembersText, NameText, LabelName, ValidLabel, PermitsLabel, Denote, ValidTree, Suits, TreeStatus, Put, Find;
    var n := LabelName(ms.name);
    var c := p + |NameText(ms)|;
    var s := c + |ms.before2|;
    MemberLayout(doc, p, ms);
    MemberHeader(f, doc, base, depth, p, errors, name, cur, ms, seen);
    if PermitsLabel(f, ms.name) && |n| < NAME_LIMIT && !(f.rejectDupKeys && n in seen) {
      var status := TreeStatus(f, depth + 1, ms.before2, ms.value);
      var v := Denote(ms.value, s - base, f.toDouble);
      ReadTree(f, doc, base, depth + 1, c, errors, Child(cur.data.members, Name(n)), ms.before2, ms.value);
      MemberRound(f, doc, base, depth, p, errors, name, cur, ms, n, status, v);
      if status == Success && !ms.rest.NoMember? {
        NamesInPut(cur.data.members, seen, n, v);
        ReadMembersTree(f, doc, base, depth, s + |Text(ms.value)| + |ms.after| + 1, errors, n, WithMember(cur, n, v),
          ms.rest, seen + {n});
      }
    }
  }
}
