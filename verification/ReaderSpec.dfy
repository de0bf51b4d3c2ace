/** OurReader as functions of its state: the position, the errors so far and the value being filled. */
module ReaderSpec {
  import opened Bytes
  import opened JsonValues
  import opened Numbers
  import opened Scanner
  import Strings

  datatype Message =
    | ValueExpected
    | MissingBraceOrName
    | DuplicateKey
    | MissingColon
    | MissingCommaOrBrace
    | MissingCommaOrBracket
    | NotANumber
    | BadString(fault: Strings.Fault)
    | ExtraAfterValue
    | RootMustBeContainer

  datatype ErrorInfo = ErrorInfo(token: Token, message: Message)

  /** `Thrown` is the C++ exception: the nesting limit, or a string or member name that is too long.
      `Undefined` is where C++ leaves open what happens: the int that counts the elements of an array
      overflows. */
  datatype Status = Success | Failure | Thrown | Undefined

  /** Reading did not return. */
  predicate Aborted(status: Status) { status == Thrown || status == Undefined }

  datatype Outcome = Outcome(status: Status, pos: nat, errors: seq<ErrorInfo>, value: Value)

  /** recoverFromError: where skipping to a token of the kind, or to the end, leaves the reader. */
  function RecoverPos(f: Features, doc: bytes, p: nat, kind: TokenType): (q: nat)
    requires p <= |doc|
    ensures p <= q <= |doc|
    decreases |doc| - p
  {
    var skip := ReadToken(f, doc, p);
    if skip.kind == kind || skip.kind == EndOfStream then skip.end else RecoverPos(f, doc, skip.end, kind)
  }

  function Recover(f: Features, doc: bytes, p: nat, errors: seq<ErrorInfo>, value: Value, kind: TokenType): Outcome
    requires p <= |doc|
  {
    Outcome(Failure, RecoverPos(f, doc, p, kind), errors, value)
  }

  /** addErrorAndRecover. */
  function FailAt(f: Features, doc: bytes, token: Token, message: Message, errors: seq<ErrorInfo>, value: Value,
                  kind: TokenType): Outcome
    requires token.end <= |doc|
  {
    Recover(f, doc, token.end, errors + [ErrorInfo(token, message)], value, kind)
  }

  function TokenText(doc: bytes, t: Token): bytes
    requires t.start <= t.end <= |doc|
  {
    doc[t.start..t.end]
  }

  /** decodeString on a string token: the bytes between its first and its last. */
  function DecodeString(doc: bytes, t: Token): Strings.Decoded
    requires t.start + 2 <= t.end <= |doc|
  {
    Strings.Unescape(doc[t.start + 1..t.end - 1], 0)
  }

  /** Value::asString on what a numeric key decodes to. */
  function NumberAsString(f: Features, p: Payload): bytes {
    match p
    case Int(i) => ShowInt(i)
    case UInt(u) => ShowInt(u)
    case Real(d) => f.showDouble(d)
    case _ => []
  }

  datatype KeyResult = KeyName(name: bytes) | KeyBad(message: Message) | KeyMissing

  /** The member name a token stands for. */
  function NameOf(f: Features, doc: bytes, t: Token): KeyResult
    requires t.start < t.end <= |doc| && (t.kind == StringToken ==> t.start + 2 <= t.end)
  {
    if t.kind == StringToken then
      match DecodeString(doc, t)
      case Good(name) => KeyName(name)
      case Bad(fault) => KeyBad(BadString(fault))
    else if t.kind == NumberToken && f.allowNumericKeys then
      match DecodeNumber(TokenText(doc, t), f.toDouble)
      case Some(p) => KeyName(NumberAsString(f, p))
      case None => KeyBad(NotANumber)
    else KeyMissing
  }

  /** Spans count from `base`, the position after a byte order mark. */
  function Spanned(data: Payload, t: Token, base: nat): Value {
    Value(data, t.start - base, t.end - base)
  }

  /** Sets the limit of a container's span, if reading it returned. */
  function Limited(o: Outcome, base: nat): (r: Outcome)
    ensures r.pos == o.pos && r.status == o.status && r.errors == o.errors
  {
    if Aborted(o.status) then o else o.(value := o.value.(limit := o.pos - base))
  }

  /** readValue on a token that opens no container. */
  function ReadScalar(f: Features, doc: bytes, base: nat, t: Token, errors: seq<ErrorInfo>, cur: Value): (o: Outcome)
    requires t.start <= t.end <= |doc| && (t.kind != EndOfStream ==> t.start < t.end)
    requires t.kind == StringToken ==> t.start + 2 <= t.end
    ensures t.start <= o.pos <= |doc| && o.status != Undefined
  {
    match t.kind
    case NumberToken =>
      (match DecodeNumber(TokenText(doc, t), f.toDouble)
       case Some(p) => Outcome(Success, t.end, errors, Spanned(p, t, base))
       case None => Outcome(Failure, t.end, errors + [ErrorInfo(t, NotANumber)], cur))
    case StringToken =>
      (match DecodeString(doc, t)
       case Good(s) =>
         if |Stored(s)| > MAX_STRING then Outcome(Thrown, t.end, errors, cur)
         else Outcome(Success, t.end, errors, Spanned(Str(Stored(s)), t, base))
       case Bad(fault) => Outcome(Failure, t.end, errors + [ErrorInfo(t, BadString(fault))], cur))
    case TrueToken => Outcome(Success, t.end, errors, Spanned(Bool(true), t, base))
    case FalseToken => Outcome(Success, t.end, errors, Spanned(Bool(false), t, base))
    case NullToken => Outcome(Success, t.end, errors, Spanned(Null, t, base))
    case NaNToken => Outcome(Success, t.end, errors, Spanned(Real(NaN), t, base))
    case PosInfToken => Outcome(Success, t.end, errors, Spanned(Real(PosInf), t, base))
    case NegInfToken => Outcome(Success, t.end, errors, Spanned(Real(NegInf), t, base))
    case _ => UnexpectedToken(f, t, base, errors, cur)
  }

  /** A token that starts no value: an error, unless it shows that a null was dropped.  In that case
      the token is left unread, and the null spans the byte before it. */
  function UnexpectedToken(f: Features, t: Token, base: nat, errors: seq<ErrorInfo>, cur: Value): Outcome
    requires t.kind != EndOfStream ==> t.end > 0
  {
    if (t.kind == ArraySeparator || t.kind == ObjectEnd || t.kind == ArrayEnd) && f.allowDroppedNullPlaceholders then
      Outcome(Success, t.end - 1, errors, Value(Null, t.end - 1 - base - 1, t.end - 1 - base))
    else
      Outcome(Failure, t.end, errors + [ErrorInfo(t, ValueExpected)], Spanned(cur.data, t, base))
  }

  lemma StringTokenLength(f: Features, doc: bytes, p: nat)
    requires p <= |doc|
    ensures var t := ReadToken(f, doc, p); t.kind == StringToken ==> t.start + 2 <= t.end
    ensures var t := NextToken(f, doc, p); t.kind == StringToken ==> t.start + 2 <= t.end
    ensures var t := SkipComments(f, doc, p); t.kind == StringToken ==> t.start + 2 <= t.end
    decreases |doc| - p
  {
    var t := ReadToken(f, doc, p);
    if t.kind == Comment {
      StringTokenLength(f, doc, t.end);
    }
  }

  /** readValue, filling the value `cur` from position `p` with `depth` entries on the node stack. */
  function ReadValue(f: Features, doc: bytes, base: nat, depth: nat, p: nat, errors: seq<ErrorInfo>, cur: Value)
    : (o: Outcome)
    requires p <= |doc|
    ensures p <= o.pos <= |doc|
    decreases |doc| - p, 0
  {
    if depth > f.stackLimit then Outcome(Thrown, p, errors, cur)
    else
      var t := SkipComments(f, doc, p);
      StringTokenLength(f, doc, p);
      if t.kind == ObjectBegin then
        Limited(ReadMembers(f, doc, base, depth, t.end, errors, [], Value(Obj(Nil), t.start - base, cur.limit)), base)
      else if t.kind == ArrayBegin then
        Limited(ReadElements(f, doc, base, depth, t.end, errors, 0, Value(Arr(Nil), t.start - base, cur.limit)), base)
      else
        ReadScalar(f, doc, base, t, errors, cur)
  }

  /** The start of a round of readObject: it returns, or has read a name and a colon. */
  datatype Header = Stop(o: Outcome) | Go(name: bytes, pos: nat)

  function ReadHeader(f: Features, doc: bytes, p: nat, errors: seq<ErrorInfo>, name: bytes, cur: Value): (h: Header)
    requires p <= |doc| && cur.data.Obj?
    ensures h.Stop? ==> p <= h.o.pos <= |doc|
    ensures h.Go? ==> p < h.pos <= |doc|
  {
    var t := NextToken(f, doc, p);
    StringTokenLength(f, doc, p);
    if t.kind == ErrorToken || t.kind == EndOfStream then
      Stop(FailAt(f, doc, t, MissingBraceOrName, errors, cur, ObjectEnd))
    else if t.kind == ObjectEnd && (name == [] || f.allowTrailingCommas) then
      Stop(Outcome(Success, t.end, errors, cur))
    else
      match NameOf(f, doc, t)
      case KeyMissing => Stop(FailAt(f, doc, t, MissingBraceOrName, errors, cur, ObjectEnd))
      case KeyBad(message) => Stop(FailAt(f, doc, t, message, errors, cur, ObjectEnd))
      case KeyName(newName) =>
        if |newName| >= NAME_LIMIT then Stop(Outcome(Thrown, t.end, errors, cur))
        else if f.rejectDupKeys && Find(cur.data.members, Name(newName)).Some? then
          Stop(FailAt(f, doc, t, DuplicateKey, errors, cur, ObjectEnd))
        else
          var colon := ReadToken(f, doc, t.end);
          if colon.kind == MemberSeparator then Go(newName, colon.end)
          else Stop(FailAt(f, doc, colon, MissingColon, errors, cur, ObjectEnd))
  }

  /** The loop of readObject; `name` is the name of the member before. */
  function ReadMembers(f: Features, doc: bytes, base: nat, depth: nat, p: nat, errors: seq<ErrorInfo>,
                       name: bytes, cur: Value): (o: Outcome)
    requires p <= |doc| && cur.data.Obj?
    ensures p <= o.pos <= |doc|
    decreases |doc| - p, 1
  {
    match ReadHeader(f, doc, p, errors, name, cur)
    case Stop(o) => o
    case Go(newName, q) =>
      var o := ReadValue(f, doc, base, depth + 1, q, errors, Child(cur.data.members, Name(newName)));
      AfterMember(f, doc, base, depth, p, o, newName, WithMember(cur, newName, o.value))
  }

  function WithMember(cur: Value, name: bytes, v: Value): (filled: Value)
    requires cur.data.Obj?
    ensures filled.data.Obj?
  {
    cur.(data := Obj(Put(cur.data.members, Name(name), v)))
  }

  function WithElement(cur: Value, index: nat, v: Value): (filled: Value)
    requires cur.data.Arr?
    ensures filled.data.Arr?
  {
    cur.(data := Arr(Put(cur.data.items, Index(index), v)))
  }

  /** What follows a member that was read with outcome `o`: a comma, a closing brace, or an error. */
  function AfterMember(f: Features, doc: bytes, base: nat, depth: nat, ghost p: nat, o: Outcome,
                       name: bytes, filled: Value): (r: Outcome)
    requires p < o.pos <= |doc| && filled.data.Obj?
    ensures o.pos <= r.pos <= |doc|
    decreases |doc| - p, 0
  {
    match o.status
    case Thrown => o.(value := filled)
    case Undefined => o.(value := filled)
    case Failure => Recover(f, doc, o.pos, o.errors, filled, ObjectEnd)
    case Success =>
      var comma := ReadToken(f, doc, o.pos);
      if comma.kind != ObjectEnd && comma.kind != ArraySeparator && comma.kind != Comment then
        FailAt(f, doc, comma, MissingCommaOrBrace, o.errors, filled, ObjectEnd)
      else
        var t := NextToken(f, doc, o.pos);
        if t.kind == ObjectEnd then Outcome(Success, t.end, o.errors, filled)
        else ReadMembers(f, doc, base, depth, t.end, o.errors, name, filled)
  }

  /** The loop of readArray, at element `index`. */
  function ReadElements(f: Features, doc: bytes, base: nat, depth: nat, p: nat, errors: seq<ErrorInfo>,
                        index: nat, cur: Value): (o: Outcome)
    requires p <= |doc| && cur.data.Arr?
    ensures p <= o.pos <= |doc|
    decreases |doc| - p, 1
  {
    var s := SkipSpaces(doc, p);
    if s < |doc| && doc[s] == ']' && (index == 0 || (f.allowTrailingCommas && !f.allowDroppedNullPlaceholders)) then
      Outcome(Success, ReadToken(f, doc, s).end, errors, cur)
    else if index >= MAX_INT32 then Outcome(Undefined, s, errors, cur)
    else
      var o := ReadValue(f, doc, base, depth + 1, s, errors, Child(cur.data.items, Index(index)));
      AfterElement(f, doc, base, depth, p, o, index, WithElement(cur, index, o.value))
  }

  /** What follows an element that was read with outcome `o`: a comma, a closing bracket, or an error. */
  function AfterElement(f: Features, doc: bytes, base: nat, depth: nat, ghost p: nat, o: Outcome,
                        index: nat, filled: Value): (r: Outcome)
    requires p <= o.pos <= |doc| && filled.data.Arr?
    ensures o.pos <= r.pos <= |doc|
    decreases |doc| - p, 0
  {
    match o.status
    case Thrown => o.(value := filled)
    case Undefined => o.(value := filled)
    case Failure => Recover(f, doc, o.pos, o.errors, filled, ArrayEnd)
    case Success =>
      var t := NextToken(f, doc, o.pos);
      if t.kind == ArrayEnd then Outcome(Success, t.end, o.errors, filled)
      else if t.kind == ArraySeparator then ReadElements(f, doc, base, depth, t.end, o.errors, index + 1, filled)
      else FailAt(f, doc, t, MissingCommaOrBracket, o.errors, filled, ArrayEnd)
  }

  /** The byte order mark in UTF-8. */
  const BOM: bytes := [0xEF as char, 0xBB as char, 0xBF as char]

  /** skipBom. */
  function BomLength(f: Features, doc: bytes): (n: nat)
    ensures n <= |doc|
  {
    if f.skipBom && At(doc, 0, BOM) then 3 else 0
  }

  /** parse: the value at the root, then what may follow it. */
  function Parse(f: Features, doc: bytes, root: Value): Outcome {
    var base := BomLength(f, doc);
    var o := ReadValue(f, doc, base, 1, base, [], root);
    if Aborted(o.status) then o
    else
      var t := SkipComments(f, doc, o.pos);
      if f.failIfExtra && t.kind != EndOfStream then
        Outcome(Failure, t.end, o.errors + [ErrorInfo(t, ExtraAfterValue)], o.value)
      else if f.strictRoot && !o.value.data.Arr? && !o.value.data.Obj? then
        Outcome(Failure, t.end, o.errors + [ErrorInfo(Token(ErrorToken, 0, |doc|), RootMustBeContainer)], o.value)
      else o.(pos := t.end)
  }

  /** readValue by the kind of its first token. */
  lemma ReadValueStep(f: Features, doc: bytes, base: nat, depth: nat, p: nat, errors: seq<ErrorInfo>, cur: Value,
                      t: Token)
    requires p <= |doc| && depth <= f.stackLimit && t == SkipComments(f, doc, p)
    requires t.kind == StringToken ==> t.start + 2 <= t.end
    ensures ReadValue(f, doc, base, depth, p, errors, cur)
      == if t.kind == ObjectBegin then
           Limited(ReadMembers(f, doc, base, depth, t.end, errors, [], Value(Obj(Nil), t.start - base, cur.limit)),
                   base)
         else if t.kind == ArrayBegin then
           Limited(ReadElements(f, doc, base, depth, t.end, errors, 0, Value(Arr(Nil), t.start - base, cur.limit)),
                   base)
         else
           ReadScalar(f, doc, base, t, errors, cur)
  {
    hide ReadMembers, ReadElements, AfterMember, ReadScalar, NextToken, ReadToken, SkipComments;
  }

  lemma ReadValueThrows(f: Features, doc: bytes, base: nat, depth: nat, p: nat, errors: seq<ErrorInfo>, cur: Value)
    requires p <= |doc| && depth > f.stackLimit
    ensures ReadValue(f, doc, base, depth, p, errors, cur) == Outcome(Thrown, p, errors, cur)
  {
    hide ReadMembers, ReadElements, AfterMember, ReadScalar, SkipComments;
  }

  /** The first token that is no comment, from the first token. */
  lemma NextOverComment(f: Features, doc: bytes, p: nat)
    requires p <= |doc|
    ensures var t := ReadToken(f, doc, p);
      NextToken(f, doc, p) == if t.kind == Comment then NextToken(f, doc, t.end) else t
  {
    hide ReadToken;
  }
}
