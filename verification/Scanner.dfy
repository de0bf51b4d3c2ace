/** The token level of OurReader, as functions of the document and a position in it. */
module Scanner {
  import opened Bytes
  import opened JsonValues

  datatype TokenType =
    | EndOfStream | ObjectBegin | ObjectEnd | ArrayBegin | ArrayEnd
    | StringToken | NumberToken | TrueToken | FalseToken | NullToken
    | NaNToken | PosInfToken | NegInfToken
    | ArraySeparator | MemberSeparator | Comment | ErrorToken

  /** The token read at bytes [start, end). */
  datatype Token = Token(kind: TokenType, start: nat, end: nat)

  /** OurFeatures.  The two conversions between doubles and text belong to the C++ library and are
      left uninterpreted: `toDouble` is what `stream >> double` accepts, `showDouble` what printf writes. */
  datatype Features = Features(
    allowComments: bool,
    allowTrailingCommas: bool,
    strictRoot: bool,
    allowDroppedNullPlaceholders: bool,
    allowNumericKeys: bool,
    allowSingleQuotes: bool,
    failIfExtra: bool,
    rejectDupKeys: bool,
    allowSpecialFloats: bool,
    skipBom: bool,
    stackLimit: nat,
    toDouble: bytes -> Option<Double>,
    showDouble: Double -> bytes)

  /** skipSpaces. */
  function SkipSpaces(doc: bytes, p: nat): (q: nat)
    requires p <= |doc|
    ensures p <= q <= |doc|
    decreases |doc| - p
  {
    if p < |doc| && IsSpace(doc[p]) then SkipSpaces(doc, p + 1) else p
  }

  /** readString and readStringSingleQuote, after the opening quote: whether the closing quote was
      found, and the position after the scan. */
  function ScanString(doc: bytes, p: nat, quote: byte): (r: (bool, nat))
    requires p <= |doc|
    ensures p <= r.1 <= |doc|
    ensures r.0 ==> p < r.1 && doc[r.1 - 1] == quote
    decreases |doc| - p
  {
    if p == |doc| then (false, p)
    else if doc[p] == '\\' then ScanString(doc, if p + 1 < |doc| then p + 2 else p + 1, quote)
    else if doc[p] == quote then (true, p + 1)
    else ScanString(doc, p + 1, quote)
  }

  function ScanDigits(doc: bytes, p: nat): (q: nat)
    requires p <= |doc|
    ensures p <= q <= |doc|
    decreases |doc| - p
  {
    if p < |doc| && IsDigit(doc[p]) then ScanDigits(doc, p + 1) else p
  }

  function ScanFraction(doc: bytes, p: nat): (q: nat)
    requires p <= |doc|
    ensures p <= q <= |doc|
  {
    if p < |doc| && doc[p] == '.' then ScanDigits(doc, p + 1) else p
  }

  function ScanExponent(doc: bytes, p: nat): (q: nat)
    requires p <= |doc|
    ensures p <= q <= |doc|
  {
    if p < |doc| && (doc[p] == 'e' || doc[p] == 'E') then
      if p + 1 < |doc| && (doc[p + 1] == '+' || doc[p + 1] == '-') then ScanDigits(doc, p + 2)
      else ScanDigits(doc, p + 1)
    else p
  }

  /** readNumber: false when the text can only be an infinity. */
  function ScanNumber(doc: bytes, p: nat, checkInf: bool): (r: (bool, nat))
    requires p <= |doc|
    ensures p <= r.1 <= |doc|
  {
    if checkInf && p < |doc| && doc[p] == 'I' then (false, p + 1)
    else (true, ScanExponent(doc, ScanFraction(doc, ScanDigits(doc, p))))
  }

  /** The loop of readCStyleComment: stops on the slash of the first star-slash, or one byte before
      the end of the document. */
  function ScanCStyle(doc: bytes, p: nat): (q: nat)
    requires p <= |doc|
    ensures p <= q <= |doc|
    decreases |doc| - p
  {
    if p + 1 < |doc| then
      if doc[p] == '*' && doc[p + 1] == '/' then p + 1 else ScanCStyle(doc, p + 1)
    else p
  }

  /** readCppStyleComment: to the end of the line, a line end being LF, CR or CR LF. */
  function ScanCppStyle(doc: bytes, p: nat): (q: nat)
    requires p <= |doc|
    ensures p <= q <= |doc|
    decreases |doc| - p
  {
    if p == |doc| then p
    else if doc[p] == '\n' then p + 1
    else if doc[p] == '\r' then
      if p + 1 < |doc| && doc[p + 1] == '\n' then p + 2 else p + 1
    else ScanCppStyle(doc, p + 1)
  }

  /** readComment, after the slash. */
  function ScanComment(doc: bytes, p: nat): (r: (bool, nat))
    requires p <= |doc|
    ensures p <= r.1 <= |doc|
  {
    if p == |doc| then (false, p)
    else if doc[p] == '*' then
      var q := ScanCStyle(doc, p + 1);
      if q == |doc| then (false, q) else (doc[q] == '/', q + 1)
    else if doc[p] == '/' then (true, ScanCppStyle(doc, p + 1))
    else (false, p + 1)
  }

  /** match: all of the pattern, or nothing. */
  function Match(doc: bytes, p: nat, pattern: bytes): (r: (bool, nat))
    requires p <= |doc|
    ensures p <= r.1 <= |doc|
  {
    if At(doc, p, pattern) then (true, p + |pattern|) else (false, p)
  }

  /** The end of a token whose scan may have failed. */
  function Scanned(kind: TokenType, start: nat, r: (bool, nat)): Token {
    Token(if r.0 then kind else ErrorToken, start, r.1)
  }

  /** A signed token: a number, or an infinity when those are allowed. */
  function SignedToken(f: Features, doc: bytes, s: nat, infinity: TokenType): (t: Token)
    requires s < |doc|
    ensures t.start == s < t.end <= |doc|
  {
    var r := ScanNumber(doc, s + 1, true);
    if r.0 then Token(NumberToken, s, r.1)
    else if f.allowSpecialFloats then Scanned(infinity, s, Match(doc, r.1, "nfinity"))
    else Token(ErrorToken, s, r.1)
  }

  /** The token that starts at byte `s` (the switch of readToken). */
  function TokenFrom(f: Features, doc: bytes, s: nat): (t: Token)
    requires s < |doc|
    ensures t.start == s < t.end <= |doc|
  {
    var c := doc[s];
    if c == '{' then Token(ObjectBegin, s, s + 1)
    else if c == '}' then Token(ObjectEnd, s, s + 1)
    else if c == '[' then Token(ArrayBegin, s, s + 1)
    else if c == ']' then Token(ArrayEnd, s, s + 1)
    else if c == '"' then Scanned(StringToken, s, ScanString(doc, s + 1, '"'))
    else if c == '\'' then
      if f.allowSingleQuotes then Scanned(StringToken, s, ScanString(doc, s + 1, '\''))
      else Token(ErrorToken, s, s + 1)
    else if c == '/' then Scanned(Comment, s, ScanComment(doc, s + 1))
    else if IsDigit(c) then Token(NumberToken, s, ScanNumber(doc, s + 1, false).1)
    else if c == '-' then SignedToken(f, doc, s, NegInfToken)
    else if c == '+' then SignedToken(f, doc, s, PosInfToken)
    else if c == 't' then Scanned(TrueToken, s, Match(doc, s + 1, "rue"))
    else if c == 'f' then Scanned(FalseToken, s, Match(doc, s + 1, "alse"))
    else if c == 'n' then Scanned(NullToken, s, Match(doc, s + 1, "ull"))
    else if c == 'N' then
      if f.allowSpecialFloats then Scanned(NaNToken, s, Match(doc, s + 1, "aN")) else Token(ErrorToken, s, s + 1)
    else if c == 'I' then
      if f.allowSpecialFloats then Scanned(PosInfToken, s, Match(doc, s + 1, "nfinity"))
      else Token(ErrorToken, s, s + 1)
    else if c == ',' then Token(ArraySeparator, s, s + 1)
    else if c == ':' then Token(MemberSeparator, s, s + 1)
    else if c == '\0' then Token(EndOfStream, s, s + 1)
    else Token(ErrorToken, s, s + 1)
  }

  /** readToken: it succeeded exactly when the token is not an ErrorToken. */
  function ReadToken(f: Features, doc: bytes, p: nat): (t: Token)
    requires p <= |doc|
    ensures p <= t.start <= t.end <= |doc|
    ensures t.kind != EndOfStream ==> p < t.end && t.start < t.end
  {
    var s := SkipSpaces(doc, p);
    if s == |doc| then Token(EndOfStream, s, s) else TokenFrom(f, doc, s)
  }

  /** The first token that is not a comment. */
  function NextToken(f: Features, doc: bytes, p: nat): (t: Token)
    requires p <= |doc|
    ensures p <= t.start <= t.end <= |doc| && t.kind != Comment
    ensures t.kind != EndOfStream ==> p < t.end && t.start < t.end
    decreases |doc| - p
  {
    var t := ReadToken(f, doc, p);
    if t.kind == Comment then NextToken(f, doc, t.end) else t
  }

  /** skipCommentTokens. */
  function SkipComments(f: Features, doc: bytes, p: nat): (t: Token)
    requires p <= |doc|
    ensures p <= t.start <= t.end <= |doc|
    ensures t.kind != EndOfStream ==> p < t.end && t.start < t.end
  {
    if f.allowComments then NextToken(f, doc, p) else ReadToken(f, doc, p)
  }
}
