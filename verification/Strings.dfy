/** String literals: the reader's decodeString, the writer's valueToQuotedStringN, and their round trip. */
module Strings {
  import opened Bytes
  import opened Utf8
  import opened Grammar

  // ----- Reading -------------------------------------------------------------------------------

  datatype Fault =
    | EmptyEscape | BadEscape | FourDigitsExpected | HexDigitExpected | SixCharactersExpected | SecondHalfExpected

  datatype Decoded = Good(text: bytes) | Bad(fault: Fault)

  /** A decoded code point and the index after it. */
  datatype Code = Code(cp: nat, next: nat) | NoCode(fault: Fault)

  /** decodeUnicodeEscapeSequence at `i`, after the `\u`. */
  function HexCode(body: bytes, i: nat): (c: Code)
    requires i <= |body|
    ensures c.Code? ==> c.next == i + 4 <= |body| && c.cp < 0x10000
  {
    if |body| - i < 4 then NoCode(FourDigitsExpected)
    else if IsHex4(body[i..i + 4]) then Code(Hex4Val(body[i..i + 4]), i + 4)
    else NoCode(HexDigitExpected)
  }

  /** decodeUnicodeCodePoint.  The second half is not checked to be a low surrogate. */
  function CodePoint(body: bytes, i: nat): (c: Code)
    requires i <= |body|
    ensures c.Code? ==> i < c.next <= |body|
  {
    var first := HexCode(body, i);
    if first.NoCode? || !IsHighSurrogate(first.cp) then first
    else if |body| - first.next < 6 then NoCode(SixCharactersExpected)
    else if body[first.next] == '\\' && body[first.next + 1] == 'u' then
      var second := HexCode(body, first.next + 2);
      if second.NoCode? then second
      else Code(0x10000 + first.cp % 0x400 * 0x400 + second.cp % 0x400, second.next)
    else NoCode(SecondHalfExpected)
  }

  function Prepend(text: bytes, d: Decoded): Decoded {
    match d case Good(rest) => Good(text + rest) case Bad(fault) => d
  }

  /** decodeString over the bytes between the quotes, from `i` on. */
  function Unescape(body: bytes, i: nat): Decoded
    requires i <= |body|
    decreases |body| - i
  {
    if i == |body| || body[i] == '"' then Good([])
    else if body[i] != '\\' then Prepend([body[i]], Unescape(body, i + 1))
    else if i + 1 == |body| then Bad(EmptyEscape)
    else if body[i + 1] == 'u' then
      var c := CodePoint(body, i + 2);
      if c.NoCode? then Bad(c.fault) else Prepend(Encode(c.cp), Unescape(body, c.next))
    else
      match ShortEscape(body[i + 1])
      case Some(e) => Prepend([e], Unescape(body, i + 2))
      case None => Bad(BadEscape)
  }

  lemma PrependAssociative(a: bytes, b: bytes, d: Decoded)
    ensures Prepend(a, Prepend(b, d)) == Prepend(a + b, d)
  {
    if d.Good? {
      assert a + (b + d.text) == (a + b) + d.text;
    }
  }

  /** The value of the first hex digits of an escape. */
  function HexPrefix(h: bytes, k: nat): nat
    requires k <= |h| && forall i :: 0 <= i < k ==> HexDigit(h[i]).Some?
  {
    if k == 0 then 0 else HexPrefix(h, k - 1) * 16 + HexDigit(h[k - 1]).value
  }

  lemma HexPrefixFull(h: bytes)
    requires IsHex4(h)
    ensures HexPrefix(h, 4) == Hex4Val(h)
  {
    assert HexPrefix(h, 1) == HexDigit(h[0]).value;
    assert HexPrefix(h, 2) == HexPrefix(h, 1) * 16 + HexDigit(h[1]).value;
    assert HexPrefix(h, 3) == HexPrefix(h, 2) * 16 + HexDigit(h[2]).value;
  }

  /** decodeUnicodeEscapeSequence: four digits, one at a time. */
  method DecodeEscapeSequence(body: bytes, start: nat) returns (c: Code)
    requires start <= |body|
    ensures c == HexCode(body, start)
  {
    if |body| - start < 4 {
      return NoCode(FourDigitsExpected);
    }
    var current := start;
    var unicode: nat := 0;
    ghost var hex := body[start..start + 4];
    for index := 0 to 4
      invariant current == start + index
      invariant forall i :: 0 <= i < index ==> HexDigit(hex[i]).Some?
      invariant unicode == HexPrefix(hex, index)
    {
      var d := HexDigit(body[current]);
      current := current + 1;
      if d.None? {
        assert !IsHex4(hex) by { assert HexDigit(hex[index]).None?; }
        return NoCode(HexDigitExpected);
      }
      unicode := unicode * 16 + d.value;
    }
    HexPrefixFull(hex);
    c := Code(unicode, current);
  }

  /** decodeUnicodeCodePoint. */
  method DecodeCodePoint(body: bytes, start: nat) returns (c: Code)
    requires start <= |body|
    ensures c == CodePoint(body, start)
  {
    c := DecodeEscapeSequence(body, start);
    if c.Code? && 0xD800 <= c.cp <= 0xDBFF {
      if |body| - c.next < 6 {
        return NoCode(SixCharactersExpected);
      }
      if body[c.next] == '\\' && body[c.next + 1] == 'u' {
        var second := DecodeEscapeSequence(body, c.next + 2);
        if second.NoCode? {
          return second;
        }
        c := Code(0x10000 + c.cp % 0x400 * 0x400 + second.cp % 0x400, second.next);
      } else {
        c := NoCode(SecondHalfExpected);
      }
    }
  }

  /** decodeString over the bytes between the quotes. */
  method DecodeBody(body: bytes) returns (r: Decoded)
    ensures r == Unescape(body, 0)
  {
    var current := 0;
    var decoded: bytes := [];
    assert Prepend([], Unescape(body, 0)) == Unescape(body, 0);
    while current != |body|
      invariant current <= |body|
      invariant Prepend(decoded, Unescape(body, current)) == Unescape(body, 0)
      decreases |body| - current
    {
      var c := body[current];
      if c == '"' {
        break;
      }
      if c != '\\' {
        PrependAssociative(decoded, [c], Unescape(body, current + 1));
        decoded := decoded + [c];
        current := current + 1;
      } else if current + 1 == |body| {
        return Bad(EmptyEscape);
      } else if body[current + 1] == 'u' {
        var code := DecodeCodePoint(body, current + 2);
        if code.NoCode? {
          return Bad(code.fault);
        }
        PrependAssociative(decoded, Encode(code.cp), Unescape(body, code.next));
        decoded := decoded + Encode(code.cp);
        current := code.next;
      } else {
        var e := ShortEscape(body[current + 1]);
        if e.None? {
          return Bad(BadEscape);
        }
        PrependAssociative(decoded, [e.value], Unescape(body, current + 2));
        decoded := decoded + [e.value];
        current := current + 2;
      }
    }
    r := Good(decoded);
  }

  lemma HexCodeAt(body: bytes, i: nat, hex: bytes)
    requires At(body, i, hex) && IsHex4(hex)
    ensures HexCode(body, i) == Code(Hex4Val(hex), i + 4)
  {}

  lemma CodePointUnicode(body: bytes, i: nat, hex: bytes)
    requires At(body, i, hex) && ValidCharacter(Unicode(hex))
    ensures CodePoint(body, i) == Code(Hex4Val(hex), i + 4)
  {
    HexCodeAt(body, i, hex);
  }

  lemma CodePointPair(body: bytes, i: nat, high: bytes, low: bytes)
    requires At(body, i, high + ("\\u" + low)) && ValidCharacter(Pair(high, low))
    ensures CodePoint(body, i)
         == Code(0x10000 + (Hex4Val(high) - 0xD800) * 0x400 + (Hex4Val(low) - 0xDC00), i + 10)
  {
    hide At, IsHex4, Hex4Val, HexCode;
    HexLength(high);
    HexLength(low);
    AtConcat(body, i, high, "\\u" + low);
    AtConcat(body, i + 4, "\\u", low);
    HexCodeAt(body, i, high);
    AtIndex(body, i + 4, "\\u", 0);
    AtIndex(body, i + 4, "\\u", 1);
    HexCodeAt(body, i + 6, low);
    assert Hex4Val(high) % 0x400 == Hex4Val(high) - 0xD800;
    assert Hex4Val(low) % 0x400 == Hex4Val(low) - 0xDC00;
  }

  lemma HexLength(hex: bytes)
    ensures IsHex4(hex) ==> |hex| == 4
  {}

  lemma UnescapeUnicodeEscape(body: bytes, i: nat, next: nat, cp: nat)
    requires At(body, i, "\\u") && i + 2 < next <= |body| && CodePoint(body, i + 2) == Code(cp, next)
    ensures Unescape(body, i) == Prepend(Encode(cp), Unescape(body, next))
  {
    AtIndex(body, i, "\\u", 0);
    AtIndex(body, i, "\\u", 1);
  }

  lemma UnescapeShort(e: byte, body: bytes, i: nat)
    requires ShortEscape(e).Some? && At(body, i, ['\\', e])
    ensures Unescape(body, i) == Prepend([ShortEscape(e).value], Unescape(body, i + 2))
  {
    AtIndex(body, i, ['\\', e], 0);
    AtIndex(body, i, ['\\', e], 1);
  }

  lemma UnescapePair(high: bytes, low: bytes, body: bytes, i: nat)
    requires ValidCharacter(Pair(high, low)) && At(body, i, CharacterText(Pair(high, low)))
    ensures Unescape(body, i) == Prepend(CharacterValue(Pair(high, low)), Unescape(body, i + 12))
  {
    hide At, IsHex4, Hex4Val, Unescape, CodePoint, Encode, Prepend;
    AtConcat(body, i, "\\u", high + ("\\u" + low));
    CodePointPair(body, i + 2, high, low);
    UnescapeUnicodeEscape(body, i, i + 12,
      0x10000 + (Hex4Val(high) - 0xD800) * 0x400 + (Hex4Val(low) - 0xDC00));
  }

  lemma UnescapeCharacter(c: Character, body: bytes, i: nat)
    requires ValidCharacter(c) && At(body, i, CharacterText(c))
    ensures Unescape(body, i) == Prepend(CharacterValue(c), Unescape(body, i + |CharacterText(c)|))
  {
    match c
    case Plain(b) => AtIndex(body, i, [b], 0);
    case Short(e) => UnescapeShort(e, body, i);
    case Unicode(hex) =>
      AtConcat(body, i, "\\u", hex);
      CodePointUnicode(body, i + 2, hex);
      UnescapeUnicodeEscape(body, i, i + 6, Hex4Val(hex));
    case Pair(high, low) => UnescapePair(high, low, body, i);
  }

  lemma UnescapeEnd(body: bytes)
    ensures Unescape(body, |body|) == Good([])
  {}

  /** The reader decodes every string literal of the grammar to what it denotes. */
  lemma {:induction false} UnescapeLiteral(cs: Characters, body: bytes, i: nat)
    requires ValidCharacters(cs) && At(body, i, CharactersText(cs)) && i + |CharactersText(cs)| == |body|
    ensures Unescape(body, i) == Good(StringValue(cs))
  {
    hide Unescape, CharacterText, CharacterValue, ValidCharacter, At;
    if cs.End? {
      UnescapeEnd(body);
    } else {
      AtConcat(body, i, CharacterText(cs.head), CharactersText(cs.tail));
      UnescapeCharacter(cs.head, body, i);
      UnescapeLiteral(cs.tail, body, i + |CharacterText(cs.head)|);
    }
  }

  // ----- Writing -------------------------------------------------------------------------------

  function HexChar(d: nat): (c: byte)
    requires d < 16
    ensures HexDigit(c) == Some(d)
  {
    (if d < 10 then '0' as int + d else 'a' as int + d - 10) as char
  }

  lemma Nibbles(x: nat)
    requires x < 0x10000
    ensures x == x / 4096 * 4096 + x / 256 % 16 * 256 + x / 16 % 16 * 16 + x % 16
    ensures x / 4096 < 16
  {
    assert x == x / 16 * 16 + x % 16;
    assert x / 16 == x / 256 * 16 + x / 16 % 16;
    assert x / 256 == x / 4096 * 16 + x / 256 % 16;
  }

  /** toHex16Bit. */
  function Hex4(x: nat): (h: bytes)
    requires x < 0x10000
    ensures IsHex4(h) && Hex4Val(h) == x
  {
    Nibbles(x);
    [HexChar(x / 4096), HexChar(x / 256 % 16), HexChar(x / 16 % 16), HexChar(x % 16)]
  }

  /** The two-character escape the writer uses for a byte. */
  function ShortFor(b: byte): Option<byte> {
    if b == '"' then Some('"')
    else if b == '\\' then Some('\\')
    else if b as int == 8 then Some('b')
    else if b as int == 12 then Some('f')
    else if b == '\n' then Some('n')
    else if b == '\r' then Some('r')
    else if b == '\t' then Some('t')
    else None
  }

  /** The escape of a code point when only ASCII may be written. */
  function CodepointCharacter(cp: nat): Character
  {
    if cp < 0x20 then Unicode(Hex4(cp))
    else if cp < 0x80 then Plain(Byte(cp))
    else if cp < 0x10000 then Unicode(Hex4(cp))
    else
      Pair(Hex4(0xD800 + (cp - 0x10000) / 0x400 % 0x400), Hex4(0xDC00 + (cp - 0x10000) % 0x400))
  }

  /** One round of the loop of valueToQuotedStringN: what it appends for s[i..] and where it goes on. */
  function QuoteStep(s: bytes, i: nat, emitUTF8: bool): (r: (Character, nat))
    requires i < |s|
    ensures i < r.1 <= |s|
  {
    match ShortFor(s[i])
    case Some(c) => (Short(c), i + 1)
    case None =>
      if emitUTF8 then
        (if s[i] as int < 0x20 then Unicode(Hex4(s[i] as int)) else Plain(s[i]), i + 1)
      else
        var r := CodepointAt(s, i);
        (CodepointCharacter(r.0), r.1)
  }

  function QuoteFrom(s: bytes, i: nat, emitUTF8: bool): Characters
    requires i <= |s|
    decreases |s| - i
  {
    if i == |s| then End
    else
      var r := QuoteStep(s, i, emitUTF8);
      Char(r.0, QuoteFrom(s, r.1, emitUTF8))
  }

  /** The literal the writers make of a string. */
  function Quote(s: bytes, emitUTF8: bool): Characters { QuoteFrom(s, 0, emitUTF8) }

  predicate RequiresEscaping(c: byte) {
    c == '\\' || c == '"' || c as int < 0x20 || c as int > 0x7F
  }

  /** valueToQuotedStringN: the fast path for strings without special characters gives the same text. */
  method ValueToQuotedString(value: bytes, emitUTF8: bool) returns (result: bytes)
    ensures result == StringText(Quote(value, emitUTF8))
  {
    if forall i :: 0 <= i < |value| ==> !RequiresEscaping(value[i]) {
      PlainQuote(value, 0, emitUTF8);
      result := "\"" + value + "\"";
      return;
    }
    result := "\"";
    var c := 0;
    while c != |value|
      invariant c <= |value|
      invariant result + CharactersText(QuoteFrom(value, c, emitUTF8)) == "\"" + CharactersText(Quote(value, emitUTF8))
      decreases |value| - c
    {
      var step := QuoteStep(value, c, emitUTF8);
      ghost var rest := CharactersText(QuoteFrom(value, step.1, emitUTF8));
      assert result + (CharacterText(step.0) + rest) == (result + CharacterText(step.0)) + rest;
      result := result + CharacterText(step.0);
      c := step.1;
    }
    result := result + "\"";
  }

  lemma {:induction false} PlainQuote(s: bytes, i: nat, emitUTF8: bool)
    requires i <= |s| && forall j :: i <= j < |s| ==> !RequiresEscaping(s[j])
    ensures CharactersText(QuoteFrom(s, i, emitUTF8)) == s[i..]
    decreases |s| - i
  {
    if i < |s| {
      PlainQuote(s, i + 1, emitUTF8);
      assert s[i..] == [s[i]] + s[i + 1..];
      if s[i] as int == 0x7F {
        assert CodepointAt(s, i) == (0x7F, i + 1);
      }
    }
  }

  /** Whatever the bytes, the writers produce a literal of the grammar. */
  lemma {:induction false} QuoteValid(s: bytes, i: nat, emitUTF8: bool)
    requires i <= |s|
    ensures ValidCharacters(QuoteFrom(s, i, emitUTF8))
    decreases |s| - i
  {
    if i < |s| {
      QuoteStepValid(s, i, emitUTF8);
      QuoteValid(s, QuoteStep(s, i, emitUTF8).1, emitUTF8);
    }
  }

  lemma QuoteStepValid(s: bytes, i: nat, emitUTF8: bool)
    requires i < |s|
    ensures ValidCharacter(QuoteStep(s, i, emitUTF8).0)
  {
    if ShortFor(s[i]) == None && !emitUTF8 {
      var cp := CodepointAt(s, i).0;
      CodepointNotSurrogate(s, i);
      assert cp < 0x80 ==> cp == s[i] as int;
    }
  }

  /** A code point is below 0x80 only for the byte itself, and is never a surrogate. */
  lemma CodepointNotSurrogate(s: bytes, i: nat)
    requires i < |s|
    ensures var cp := CodepointAt(s, i).0;
      (cp < 0x80 ==> cp == s[i] as int) && !(0xD800 <= cp <= 0xDFFF)
  {}

  predicate PrintableText(s: bytes) {
    forall i :: 0 <= i < |s| ==> 0x20 <= s[i] as int <= 0x7F
  }

  predicate Printable(cs: Characters) { PrintableText(CharactersText(cs)) }

  /** Without emitUTF8 the output is printable ASCII (and DEL) even for malformed input. */
  lemma {:induction false} QuotePrintable(s: bytes, i: nat)
    requires i <= |s|
    ensures Printable(QuoteFrom(s, i, false))
    decreases |s| - i
  {
    hide QuoteStep, ValidCharacter, CharacterText, CharactersText;
    if i < |s| {
      QuotePrintable(s, QuoteStep(s, i, false).1);
      QuoteStepPrintable(s, i);
      PrintableConcat(QuoteStep(s, i, false).0, QuoteFrom(s, QuoteStep(s, i, false).1, false));
    } else {
      NothingPrintable();
    }
  }

  lemma QuoteStepPrintable(s: bytes, i: nat)
    requires i < |s|
    ensures PrintableText(CharacterText(QuoteStep(s, i, false).0))
  {
    hide CharacterText, ValidCharacter;
    QuoteStepValid(s, i, false);
    CharacterPrintable(QuoteStep(s, i, false).0);
  }

  lemma CharacterPrintable(c: Character)
    requires ValidCharacter(c) && (c.Plain? ==> c.b as int <= 0x7F)
    ensures PrintableText(CharacterText(c))
  {}

  lemma PrintableConcat(c: Character, tail: Characters)
    requires PrintableText(CharacterText(c)) && Printable(tail)
    ensures Printable(Char(c, tail))
  {
    hide CharacterText;
    var a, b := CharacterText(c), CharactersText(tail);
    assert CharactersText(Char(c, tail)) == a + b;
    forall i | 0 <= i < |a + b| ensures 0x20 <= (a + b)[i] as int <= 0x7F {
      assert (a + b)[i] == if i < |a| then a[i] else b[i - |a|];
    }
  }

  lemma NothingPrintable()
    ensures Printable(End)
  {}

  // ----- What is written -----------------------------------------------------------------------

  /** A string is quoted piece by piece: whole bytes with emitUTF8, whole sequences without. */
  lemma {:induction false} QuoteConcat(a: bytes, b: bytes, i: nat, emitUTF8: bool)
    requires i <= |a| && (emitUTF8 || WellFormedFrom(a, i))
    ensures CharactersText(QuoteFrom(a + b, i, emitUTF8))
      == CharactersText(QuoteFrom(a, i, emitUTF8)) + CharactersText(Quote(b, emitUTF8))
    decreases |a| - i
  {
    hide CharacterText, QuoteStep, SequenceLength;
    if i == |a| {
      QuoteShift(a, b, 0, emitUTF8);
      assert [] + CharactersText(Quote(b, emitUTF8)) == CharactersText(Quote(b, emitUTF8));
    } else {
      QuoteStepConcat(a, b, i, emitUTF8);
      var r := QuoteStep(a, i, emitUTF8);
      QuoteConcat(a, b, r.1, emitUTF8);
      var x, y := CharacterText(r.0), CharactersText(QuoteFrom(a, r.1, emitUTF8));
      var z := CharactersText(Quote(b, emitUTF8));
      assert x + (y + z) == (x + y) + z;
      QuoteFromStep(a, i, emitUTF8);
      QuoteFromStep(a + b, i, emitUTF8);
    }
  }

  lemma QuoteFromStep(s: bytes, i: nat, emitUTF8: bool)
    requires i < |s|
    ensures var r := QuoteStep(s, i, emitUTF8);
      CharactersText(QuoteFrom(s, i, emitUTF8)) == CharacterText(r.0) + CharactersText(QuoteFrom(s, r.1, emitUTF8))
  {
    hide CharacterText, QuoteStep;
  }

  lemma QuoteStepConcat(a: bytes, b: bytes, i: nat, emitUTF8: bool)
    requires i < |a| && (emitUTF8 || WellFormedFrom(a, i))
    ensures QuoteStep(a + b, i, emitUTF8) == QuoteStep(a, i, emitUTF8)
    ensures !emitUTF8 ==> WellFormedFrom(a, QuoteStep(a, i, emitUTF8).1)
  {
    var s := a + b;
    assert s[i] == a[i];
    if !emitUTF8 {
      var n := SequenceLength(a, i);
      assert SequenceLength(s, i) == n && s[i..i + n] == a[i..i + n];
      QuoteStepOfSequence(a, i);
      QuoteStepOfSequence(s, i);
      SameCodepoint(a, b, i);
    }
  }

  lemma SameCodepoint(a: bytes, b: bytes, i: nat)
    requires i < |a| && SequenceLength(a, i) > 0
    ensures CodepointAt(a + b, i) == CodepointAt(a, i)
  {}

  lemma {:induction false} QuoteShift(a: bytes, b: bytes, j: nat, emitUTF8: bool)
    requires j <= |b|
    ensures QuoteFrom(a + b, |a| + j, emitUTF8) == QuoteFrom(b, j, emitUTF8)
    decreases |b| - j
  {
    if j < |b| {
      QuoteStepShift(a, b, j, emitUTF8);
      QuoteShift(a, b, QuoteStep(b, j, emitUTF8).1, emitUTF8);
    }
  }

  lemma QuoteStepShift(a: bytes, b: bytes, j: nat, emitUTF8: bool)
    requires j < |b|
    ensures var r, t := QuoteStep(b, j, emitUTF8), QuoteStep(a + b, |a| + j, emitUTF8);
      t.0 == r.0 && t.1 == |a| + r.1
  {
    var s := a + b;
    assert forall k :: j <= k < |b| ==> s[|a| + k] == b[k];
    assert CodepointAt(s, |a| + j).0 == CodepointAt(b, j).0 && CodepointAt(s, |a| + j).1 == |a| + CodepointAt(b, j).1;
  }

  const HEX: bytes := "0123456789abcdef"

  lemma HexDigits(x: nat)
    requires x < 0x10000
    ensures x / 4096 < 16
    ensures Hex4(x) == [HEX[x / 4096], HEX[x / 256 % 16], HEX[x / 16 % 16], HEX[x % 16]]
  {
    Nibbles(x);
    HexCharIs(x / 4096);
    HexCharIs(x / 256 % 16);
    HexCharIs(x / 16 % 16);
    HexCharIs(x % 16);
  }

  lemma HexCharIs(d: nat)
    requires d < 16
    ensures HexChar(d) == HEX[d]
  {}

  /** A single byte: escaped if it must be, and as shortly as JSON allows; a byte from 0x80 on stands for itself
      with emitUTF8, and alone is malformed without. */
  lemma QuoteByte(c: byte, emitUTF8: bool)
    ensures CharactersText(Quote([c], emitUTF8)) ==
      if c == '"' then "\\\"" else if c == '\\' then "\\\\"
      else if c == '\n' then "\\n" else if c == '\r' then "\\r" else if c == '\t' then "\\t"
      else if c as int == 8 then "\\b" else if c as int == 12 then "\\f"
      else if (c as int) < 0x20 then "\\u00" + [HEX[c as int / 16], HEX[c as int % 16]]
      else if (c as int) < 0x80 || emitUTF8 then [c]
      else "\\ufffd"
  {
    hide Hex4, CodepointAt, IsHex4, Hex4Val;
    SingleByte(c);
    QuoteSingle(c, emitUTF8);
    ControlText(c);
    var x := CharacterText(QuoteStep([c], 0, emitUTF8).0);
    assert x + [] == x;
  }

  lemma SingleByte(c: byte)
    ensures CodepointAt([c], 0) == (if (c as int) < 0x80 then c as int else REPLACEMENT, 1)
  {}

  lemma QuoteSingle(c: byte, emitUTF8: bool)
    ensures QuoteStep([c], 0, emitUTF8).1 == 1
    ensures CharactersText(Quote([c], emitUTF8)) == CharacterText(QuoteStep([c], 0, emitUTF8).0) + []
  {
    hide QuoteStep, CharacterText;
    assert QuoteFrom([c], 1, emitUTF8) == End;
    QuoteFromStep([c], 0, emitUTF8);
  }

  lemma ControlText(c: byte)
    ensures (c as int) < 0x20 ==>
      CharacterText(Unicode(Hex4(c as int))) == "\\u00" + [HEX[c as int / 16], HEX[c as int % 16]]
    ensures CharacterText(Unicode(Hex4(REPLACEMENT))) == "\\ufffd"
  {
    hide Hex4, IsHex4, Hex4Val;
    ReplacementDigits();
    assert "\\u" + "fffd" == "\\ufffd";
    if (c as int) < 0x20 {
      ControlDigits(c as int);
      var high, low := HEX[c as int / 16], HEX[c as int % 16];
      assert "\\u" + ['0', '0', high, low] == "\\u00" + [high, low];
    }
  }

  lemma ControlDigits(x: nat)
    requires x < 0x20
    ensures Hex4(x) == ['0', '0', HEX[x / 16], HEX[x % 16]]
  {
    hide Hex4, IsHex4, Hex4Val;
    HexDigits(x);
    assert HEX[0] == '0';
    assert x / 4096 == 0 && x / 256 % 16 == 0 && x / 16 % 16 == x / 16;
  }

  lemma ReplacementDigits()
    ensures Hex4(REPLACEMENT) == "fffd"
  {
    hide Hex4, IsHex4, Hex4Val;
    HexDigits(REPLACEMENT);
    assert REPLACEMENT / 4096 == 15 && REPLACEMENT / 256 % 16 == 15;
    assert REPLACEMENT / 16 % 16 == 15 && REPLACEMENT % 16 == 13;
    assert HEX[15] == 'f' && HEX[13] == 'd';
  }

  // ----- Round trip ----------------------------------------------------------------------------

  /** With emitUTF8 every byte string survives. */
  lemma {:induction false} QuoteRoundTripRaw(s: bytes, i: nat)
    requires i <= |s|
    ensures ValidCharacters(QuoteFrom(s, i, true)) && StringValue(QuoteFrom(s, i, true)) == s[i..]
    decreases |s| - i
  {
    QuoteValid(s, i, true);
    if i < |s| {
      QuoteRoundTripRaw(s, i + 1);
      assert s[i..] == [s[i]] + s[i + 1..];
    }
  }

  /** The scalar value an ASCII-only step stands for. */
  lemma CodepointCharacterValue(cp: nat)
    requires IsScalar(cp) && cp != '"' as int && cp != '\\' as int
    ensures ValidCharacter(CodepointCharacter(cp)) && CharacterValue(CodepointCharacter(cp)) == Encode(cp)
  {
    hide Hex4, Encode, IsHex4, Hex4Val;
    if cp >= 0x10000 {
      PairValue(cp - 0x10000);
    } else if 0x20 <= cp < 0x80 {
      EncodeAscii(Byte(cp));
    }
  }

  lemma PairValue(n: nat)
    requires n < 0x100000
    ensures var h, l := 0xD800 + n / 0x400 % 0x400, 0xDC00 + n % 0x400;
      IsHighSurrogate(h) && IsLowSurrogate(l) && (h - 0xD800) * 0x400 + (l - 0xDC00) == n
  {}

  lemma QuoteStepOfSequence(s: bytes, i: nat)
    requires i < |s| && SequenceLength(s, i) > 0
    ensures var r := QuoteStep(s, i, false);
      r.1 == i + SequenceLength(s, i) && ValidCharacter(r.0) && CharacterValue(r.0) == s[i..r.1]
  {
    QuoteStepValid(s, i, false);
    if ShortFor(s[i]).None? {
      CodepointOfSequence(s, i);
      CodepointNotSurrogate(s, i);
      CodepointCharacterValue(CodepointAt(s, i).0);
    } else {
      assert SequenceLength(s, i) == 1;
    }
  }

  /** Without it, exactly the well-formed UTF-8 strings do. */
  lemma {:induction false} QuoteRoundTripAscii(s: bytes, i: nat)
    requires i <= |s| && WellFormedFrom(s, i)
    ensures ValidCharacters(QuoteFrom(s, i, false)) && StringValue(QuoteFrom(s, i, false)) == s[i..]
    decreases |s| - i
  {
    if i < |s| {
      QuoteStepOfSequence(s, i);
      var r := QuoteStep(s, i, false);
      QuoteRoundTripAscii(s, r.1);
      assert s[i..] == s[i..r.1] + s[r.1..];
    }
  }

  /** A character the writers write in ASCII stands for one scalar value. */
  lemma QuoteStepIsScalar(s: bytes, i: nat)
    requires i < |s|
    ensures match QuoteStep(s, i, false).0
      case Plain(b) => b as int < 0x80
      case Short(e) => ShortEscape(e).Some? ==> ShortEscape(e).value as int < 0x80
      case Unicode(hex) => IsHex4(hex) ==> IsScalar(Hex4Val(hex))
      case Pair(high, low) =>
        ValidCharacter(Pair(high, low)) ==>
          IsScalar(0x10000 + (Hex4Val(high) - 0xD800) * 0x400 + (Hex4Val(low) - 0xDC00))
  {
    CodepointNotSurrogate(s, i);
  }

  lemma EncodeAscii(b: byte)
    requires b as int < 0x80
    ensures Encode(b as int) == [b]
  {}

  lemma QuoteStepScalar(s: bytes, i: nat)
    requires i < |s|
    ensures var c := QuoteStep(s, i, false).0;
      ValidCharacter(c) && exists cp :: IsScalar(cp) && CharacterValue(c) == Encode(cp)
  {
    hide QuoteStep, Encode, IsHex4, Hex4Val;
    QuoteStepValid(s, i, false);
    var c := QuoteStep(s, i, false).0;
    QuoteStepIsScalar(s, i);
    match c
    case Plain(b) => EncodeAscii(b);
    case Short(e) => EncodeAscii(ShortEscape(e).value);
    case Unicode(hex) => assert IsScalar(Hex4Val(hex));
    case Pair(high, low) =>
      assert IsScalar(0x10000 + (Hex4Val(high) - 0xD800) * 0x400 + (Hex4Val(low) - 0xDC00));
  }

  lemma {:induction false} AsciiQuoteWellFormed(s: bytes, i: nat)
    requires i <= |s|
    ensures ValidCharacters(QuoteFrom(s, i, false)) && WellFormed(StringValue(QuoteFrom(s, i, false)))
    decreases |s| - i
  {
    QuoteValid(s, i, false);
    if i < |s| {
      var r := QuoteStep(s, i, false);
      AsciiQuoteWellFormed(s, r.1);
      QuoteStepScalar(s, i);
      var cp :| IsScalar(cp) && CharacterValue(r.0) == Encode(cp);
      WellFormedPrepend(cp, StringValue(QuoteFrom(s, r.1, false)));
    }
  }

  /** Reading back what valueToQuotedStringN wrote returns the string: always with emitUTF8, and
      otherwise exactly when the string is well-formed UTF-8. */
  lemma StringRoundTrip(s: bytes, emitUTF8: bool)
    ensures var body := CharactersText(Quote(s, emitUTF8));
      Unescape(body, 0) == Good(s) <==> emitUTF8 || WellFormed(s)
  {
    var cs := Quote(s, emitUTF8);
    QuoteValid(s, 0, emitUTF8);
    UnescapeLiteral(cs, CharactersText(cs), 0);
    if emitUTF8 {
      QuoteRoundTripRaw(s, 0);
    } else {
      AsciiQuoteWellFormed(s, 0);
      if WellFormed(s) {
        QuoteRoundTripAscii(s, 0);
      }
    }
  }
}
