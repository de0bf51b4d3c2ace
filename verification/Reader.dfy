/** OurReader, the parser of the JSON library: a cursor, a stack of pointers to the values being
    filled, and a list of errors.  Its methods are proved against the functions of Scanner and
    ReaderSpec; the lemmas about those functions are then facts about the parser. */
module Reader {
  import opened Bytes
  import opened JsonValues
  import opened AccessPaths
  import S = Scanner
  import R = ReaderSpec
  import T = Totality
  import Strings
  import Numbers

  class OurReader {
    const features: S.Features
    var document: bytes
    var begin: nat
    var current: nat
    var errors: seq<R.ErrorInfo>
    /** nodes_: the top is the value readValue fills, as a path into `root`. */
    var nodes: seq<Path>
    var root: Value

    constructor (f: S.Features)
      ensures features == f && Valid()
    {
      features := f;
      document, begin, current, errors, nodes, root := [], 0, 0, [], [], NULL_VALUE;
    }

    /** begin_ <= current_ <= end_, and the node stack is at most one above its limit. */
    predicate Valid()
      reads `document, `begin, `current, `nodes
    {
      && begin <= current <= |document|
      && |nodes| <= features.stackLimit + 1
    }

    function Top(): Path
      reads `nodes
      requires nodes != []
    {
      nodes[|nodes| - 1]
    }

    predicate TopInTree()
      reads `nodes, `root
    {
      nodes != [] && InTree(root, Top())
    }

    /** currentValue(). */
    function CurrentValue(): Value
      reads `nodes, `root
      requires TopInTree()
    {
      GetAt(root, Top())
    }

    // ----- Characters and tokens -----------------------------------------------------------------

    /** getNextChar: a NUL, and no movement, at the end. */
    method GetNextChar() returns (c: byte)
      requires Valid()
      modifies `current
      ensures Valid()
      ensures old(current) == |document| ==> c == '\0' && current == old(current)
      ensures old(current) < |document| ==> c == document[old(current)] && current == old(current) + 1
    {
      if current == |document| {
        return '\0';
      }
      c := document[current];
      current := current + 1;
    }

    method SkipSpaces()
      requires Valid()
      modifies `current
      ensures Valid() && current == S.SkipSpaces(document, old(current))
    {
      while current != |document|
        invariant Valid()
        invariant S.SkipSpaces(document, current) == S.SkipSpaces(document, old(current))
        decreases |document| - current
      {
        if IsSpace(document[current]) {
          current := current + 1;
        } else {
          break;
        }
      }
    }

    method Match(pattern: bytes) returns (ok: bool)
      requires Valid()
      modifies `current
      ensures Valid() && (ok, current) == S.Match(document, old(current), pattern)
    {
      if |document| - current < |pattern| {
        return false;
      }
      var index := |pattern|;
      while index > 0
        invariant 0 <= index <= |pattern| && Valid() && current == old(current) && current + |pattern| <= |document|
        invariant forall i :: index <= i < |pattern| ==> document[current + i] == pattern[i]
      {
        index := index - 1;
        if document[current + index] != pattern[index] {
          return false;
        }
      }
      current := current + |pattern|;
      ok := true;
    }

    /** readString and readStringSingleQuote, which differ in the closing quote. */
    method ReadString(quote: byte) returns (ok: bool)
      requires Valid() && quote != '\0' && quote != '\\'
      modifies `current
      ensures Valid() && (ok, current) == S.ScanString(document, old(current), quote)
    {
      var c: byte := '\0';
      while current != |document|
        invariant Valid() && c != quote
        invariant S.ScanString(document, current, quote) == S.ScanString(document, old(current), quote)
        decreases |document| - current
      {
        c := GetNextChar();
        if c == '\\' {
          var _ := GetNextChar();
        } else if c == quote {
          break;
        }
      }
      ok := c == quote;
    }

    /** The digit loops of readNumber, entered with the cursor on the first character to look at. */
    method ReadDigits()
      requires Valid()
      modifies `current
      ensures Valid() && current == S.ScanDigits(document, old(current))
    {
      while current < |document| && IsDigit(document[current])
        invariant Valid()
        invariant S.ScanDigits(document, current) == S.ScanDigits(document, old(current))
        decreases |document| - current
      {
        current := current + 1;
      }
    }

    method ReadNumber(checkInf: bool) returns (ok: bool)
      requires Valid()
      modifies `current
      ensures Valid() && (ok, current) == S.ScanNumber(document, old(current), checkInf)
    {
      if checkInf && current != |document| && document[current] == 'I' {
        current := current + 1;
        return false;
      }
      ReadDigits();
      ReadFraction();
      ReadExponent();
      ok := true;
    }

    method ReadFraction()
      requires Valid()
      modifies `current
      ensures Valid() && current == S.ScanFraction(document, old(current))
    {
      if current < |document| && document[current] == '.' {
        current := current + 1;
        ReadDigits();
      }
    }

    method ReadExponent()
      requires Valid()
      modifies `current
      ensures Valid() && current == S.ScanExponent(document, old(current))
    {
      if current < |document| && (document[current] == 'e' || document[current] == 'E') {
        current := current + 1;
        if current < |document| && (document[current] == '+' || document[current] == '-') {
          current := current + 1;
        }
        ReadDigits();
      }
    }

    /** readCStyleComment, after the slash and the star. */
    method ReadCStyleComment() returns (ok: bool)
      requires Valid()
      modifies `current
      ensures Valid()
      ensures var q := S.ScanCStyle(document, old(current));
        if q == |document| then !ok && current == q else ok == (document[q] == '/') && current == q + 1
    {
      while current + 1 < |document|
        invariant Valid()
        invariant S.ScanCStyle(document, current) == S.ScanCStyle(document, old(current))
        decreases |document| - current
      {
        var c := GetNextChar();
        if c == '*' && document[current] == '/' {
          break;
        }
      }
      var last := GetNextChar();
      ok := last == '/';
    }

    /** readCppStyleComment, after the two slashes. */
    method ReadCppStyleComment()
      requires Valid()
      modifies `current
      ensures Valid() && current == S.ScanCppStyle(document, old(current))
    {
      while current != |document|
        invariant Valid()
        invariant S.ScanCppStyle(document, current) == S.ScanCppStyle(document, old(current))
        decreases |document| - current
      {
        var c := GetNextChar();
        if c == '\n' {
          break;
        }
        if c == '\r' {
          if current != |document| && document[current] == '\n' {
            var _ := GetNextChar();
          }
          break;
        }
      }
    }

    method ReadComment() returns (ok: bool)
      requires Valid()
      modifies `current
      ensures Valid() && (ok, current) == S.ScanComment(document, old(current))
    {
      var c := GetNextChar();
      ok := false;
      if c == '*' {
        ok := ReadCStyleComment();
      } else if c == '/' {
        ReadCppStyleComment();
        ok := true;
      }
    }

    /** readToken: false exactly on an error token. */
    method ReadToken() returns (ok: bool, token: S.Token)
      requires Valid()
      modifies `current
      ensures Valid() && token == S.ReadToken(features, document, old(current)) && current == token.end
      ensures ok <==> token.kind != S.ErrorToken
    {
      SkipSpaces();
      var start := current;
      if start == |document| {
        return true, S.Token(S.EndOfStream, start, start);
      }
      var kind;
      ok, kind := ReadTokenBody();
      token := S.Token(if ok then kind else S.ErrorToken, start, current);
    }

    /** The switch of readToken, at the first character of a token. */
    method ReadTokenBody() returns (ok: bool, kind: S.TokenType)
      requires Valid() && current < |document|
      modifies `current
      ensures Valid()
      ensures var t := S.TokenFrom(features, document, old(current));
        ok == (t.kind != S.ErrorToken) && current == t.end && (ok ==> kind == t.kind)
    {
      var c := GetNextChar();
      ok := true;
      kind := S.ErrorToken;
      if c == '{' {
        kind := S.ObjectBegin;
      } else if c == '}' {
        kind := S.ObjectEnd;
      } else if c == '[' {
        kind := S.ArrayBegin;
      } else if c == ']' {
        kind := S.ArrayEnd;
      } else if c == ',' {
        kind := S.ArraySeparator;
      } else if c == ':' {
        kind := S.MemberSeparator;
      } else if c == '\0' {
        kind := S.EndOfStream;
      } else {
        ok, kind := ReadLongToken(c);
      }
    }

    /** The cases of the switch that go on reading. */
    method ReadLongToken(c: byte) returns (ok: bool, kind: S.TokenType)
      requires Valid() && 0 < current && c == document[current - 1]
      requires c != '{' && c != '}' && c != '[' && c != ']' && c != ',' && c != ':' && c != '\0'
      modifies `current
      ensures Valid()
      ensures var t := S.TokenFrom(features, document, old(current) - 1);
        ok == (t.kind != S.ErrorToken) && current == t.end && (ok ==> kind == t.kind)
    {
      hide S.ScanString, S.ScanComment, S.ScanNumber, S.Match;
      ok := true;
      kind := S.ErrorToken;
      if c == '"' {
        kind := S.StringToken;
        ok := ReadString('"');
      } else if c == '\'' {
        kind := S.StringToken;
        ok := false;
        if features.allowSingleQuotes {
          ok := ReadString('\'');
        }
      } else if c == '/' {
        kind := S.Comment;
        ok := ReadComment();
      } else if IsDigit(c) {
        kind := S.NumberToken;
        var _ := ReadNumber(false);
      } else if c == '-' || c == '+' {
        ok, kind := ReadSigned(if c == '-' then S.NegInfToken else S.PosInfToken);
      } else if c == 't' {
        kind := S.TrueToken;
        ok := Match("rue");
      } else if c == 'f' {
        kind := S.FalseToken;
        ok := Match("alse");
      } else if c == 'n' {
        kind := S.NullToken;
        ok := Match("ull");
      } else if c == 'N' {
        kind := S.NaNToken;
        ok := false;
        if features.allowSpecialFloats {
          ok := Match("aN");
        }
      } else if c == 'I' {
        kind := S.PosInfToken;
        ok := false;
        if features.allowSpecialFloats {
          ok := Match("nfinity");
        }
      } else {
        ok := false;
      }
    }

    /** After a sign: a number, or an infinity. */
    method ReadSigned(infinity: S.TokenType) returns (ok: bool, kind: S.TokenType)
      requires Valid() && 0 < current && infinity != S.ErrorToken
      modifies `current
      ensures Valid()
      ensures var t := S.SignedToken(features, document, old(current) - 1, infinity);
        ok == (t.kind != S.ErrorToken) && current == t.end && (ok ==> kind == t.kind)
    {
      hide S.ScanNumber, S.Match;
      ok := ReadNumber(true);
      if ok {
        kind := S.NumberToken;
      } else {
        kind := infinity;
        if features.allowSpecialFloats {
          ok := Match("nfinity");
        }
      }
    }

    /** Reads on over comments. */
    method ReadNonComment() returns (ok: bool, token: S.Token)
      requires Valid()
      modifies `current
      ensures Valid() && token == S.NextToken(features, document, old(current)) && current == token.end
      ensures ok <==> token.kind != S.ErrorToken
    {
      ok, token := ReadToken();
      while token.kind == S.Comment && ok
        invariant Valid() && current == token.end && (ok <==> token.kind != S.ErrorToken)
        invariant S.NextToken(features, document, old(current))
               == if token.kind == S.Comment then S.NextToken(features, document, current) else token
        invariant token.kind != S.EndOfStream ==> old(current) < token.end
        decreases |document| - current, token.kind == S.Comment
      {
        ok, token := ReadToken();
      }
    }

    method SkipCommentTokens() returns (token: S.Token)
      requires Valid()
      modifies `current
      ensures Valid() && token == S.SkipComments(features, document, old(current)) && current == token.end
    {
      var ok;
      if features.allowComments {
        ok, token := ReadNonComment();
      } else {
        ok, token := ReadToken();
      }
    }

    // ----- Errors ----------------------------------------------------------------------------------

    method AddError(message: R.Message, token: S.Token) returns (ok: bool)
      modifies `errors
      ensures !ok && errors == old(errors) + [R.ErrorInfo(token, message)]
    {
      errors := errors + [R.ErrorInfo(token, message)];
      ok := false;
    }

    /** recoverFromError: skips to a token of the kind or to the end, and keeps the errors as they were. */
    method RecoverFromError(skipUntil: S.TokenType) returns (ok: bool)
      requires Valid()
      modifies `current, `errors
      ensures Valid() && !ok && errors == old(errors)
      ensures current == R.RecoverPos(features, document, old(current), skipUntil)
    {
      var errorCount := |errors|;
      while true
        invariant Valid() && errors == old(errors)
        invariant R.RecoverPos(features, document, current, skipUntil)
               == R.RecoverPos(features, document, old(current), skipUntil)
        decreases |document| - current
      {
        var read, skip := ReadToken();
        if !read {
          errors := errors[..errorCount];
        }
        if skip.kind == skipUntil || skip.kind == S.EndOfStream {
          break;
        }
      }
      errors := errors[..errorCount];
      ok := false;
    }

    method AddErrorAndRecover(message: R.Message, token: S.Token, skipUntil: S.TokenType) returns (ok: bool)
      requires Valid()
      modifies `current, `errors
      ensures Valid() && !ok && errors == old(errors) + [R.ErrorInfo(token, message)]
      ensures current == R.RecoverPos(features, document, old(current), skipUntil)
    {
      var _ := AddError(message, token);
      ok := RecoverFromError(skipUntil);
    }

    // ----- Values ----------------------------------------------------------------------------------

    /** The state a function of ReaderSpec describes: `v` stands where the top of the stack points. */
    ghost predicate Reached(o: R.Outcome, rootBefore: Value, top: Path)
      reads this
      requires InTree(rootBefore, top)
    {
      && Valid() && Ordered(root)
      && current == o.pos && errors == o.errors
      && root == SetAt(rootBefore, top, o.value)
    }

    /** Assigns the current value. */
    method SetCurrent(v: Value)
      requires TopInTree() && Ordered(root) && Ordered(v)
      modifies `root
      ensures root == SetAt(old(root), Top(), v) && Ordered(root)
      ensures TopInTree() && CurrentValue() == v
    {
      SetGet(root, Top(), v);
      SetOrdered(root, Top(), v);
      root := SetAt(root, Top(), v);
    }

    /** decodeNumber into the current value. */
    method DecodeNumber(token: S.Token) returns (ok: bool)
      requires Valid() && TopInTree() && Ordered(root) && token.start < token.end <= |document|
      modifies `root, `errors
      ensures Valid() && TopInTree() && Ordered(root)
      ensures match Numbers.DecodeNumber(R.TokenText(document, token), features.toDouble)
        case Some(p) =>
          ok && errors == old(errors) && root == SetAt(old(root), Top(), R.Spanned(p, token, begin))
        case None =>
          !ok && errors == old(errors) + [R.ErrorInfo(token, R.NotANumber)] && root == old(root)
    {
      var decoded := Numbers.Decode(document[token.start..token.end], features.toDouble);
      if decoded.None? {
        ok := AddError(R.NotANumber, token);
        return;
      }
      SetCurrent(R.Spanned(decoded.value, token, begin));
      ok := true;
    }

    /** decodeString of a token. */
    method DecodeText(token: S.Token) returns (ok: bool, text: bytes)
      requires Valid() && token.start + 2 <= token.end <= |document|
      modifies `errors
      ensures Valid()
      ensures match R.DecodeString(document, token)
        case Good(s) => ok && text == s && errors == old(errors)
        case Bad(fault) => !ok && errors == old(errors) + [R.ErrorInfo(token, R.BadString(fault))]
    {
      text := [];
      var r := Strings.DecodeBody(document[token.start + 1..token.end - 1]);
      if r.Bad? {
        ok := AddError(R.BadString(r.fault), token);
        return;
      }
      ok, text := true, r.text;
    }

    /** decodeString into the current value; making a Value of a string that is too long throws. */
    method DecodeString(token: S.Token) returns (status: R.Status)
      requires Valid() && TopInTree() && Ordered(root) && current == token.end && token.kind == S.StringToken
      requires R.ReadScalar.requires(features, document, begin, token, errors, CurrentValue()) && begin <= token.start
      modifies `root, `errors
      ensures var o := R.ReadScalar(features, document, begin, token, old(errors), old(CurrentValue()));
        status == o.status && Reached(o, old(root), Top())
    {
      hide R.DecodeString, InTree, GetAt, SetAt;
      SetSame(root, Top());
      var ok, text := DecodeText(token);
      if !ok {
        return R.Failure;
      }
      var decoded := Stored(text);
      if |decoded| > MAX_STRING {
        return R.Thrown;
      }
      SetCurrent(R.Spanned(Str(decoded), token, begin));
      return R.Success;
    }

    /** The cases of readValue that open no container. */
    method ReadScalar(token: S.Token) returns (status: R.Status)
      requires Valid() && TopInTree() && Ordered(root) && current == token.end
      requires R.ReadScalar.requires(features, document, begin, token, errors, CurrentValue()) && begin <= token.start
      modifies `current, `root, `errors
      ensures var o := R.ReadScalar(features, document, begin, token, old(errors), old(CurrentValue()));
        status == o.status && Reached(o, old(root), Top())
    {
      hide R.DecodeString, Numbers.DecodeNumber;
      SetSame(root, Top());
      var ok := true;
      match token.kind {
        case NumberToken => ok := DecodeNumber(token);
        case StringToken =>
          status := DecodeString(token);
          return;
        case TrueToken => SetCurrent(R.Spanned(Bool(true), token, begin));
        case FalseToken => SetCurrent(R.Spanned(Bool(false), token, begin));
        case NullToken => SetCurrent(R.Spanned(Null, token, begin));
        case NaNToken => SetCurrent(R.Spanned(Real(NaN), token, begin));
        case PosInfToken => SetCurrent(R.Spanned(Real(PosInf), token, begin));
        case NegInfToken => SetCurrent(R.Spanned(Real(NegInf), token, begin));
        case _ => ok := UnexpectedToken(token);
      }
      status := if ok then R.Success else R.Failure;
    }

    method UnexpectedToken(token: S.Token) returns (ok: bool)
      requires Valid() && TopInTree() && Ordered(root)
      requires begin <= token.start && current == token.end && (token.kind != S.EndOfStream ==> token.start < token.end)
      modifies `current, `root, `errors
      ensures var o := R.UnexpectedToken(features, token, begin, old(errors), old(CurrentValue()));
        ok == (o.status == R.Success) && Reached(o, old(root), Top())
    {
      hide InTree, SetAt;
      GetOrdered(root, Top());
      ok := true;
      if (token.kind == S.ArraySeparator || token.kind == S.ObjectEnd || token.kind == S.ArrayEnd)
         && features.allowDroppedNullPlaceholders {
        current := current - 1;
        SetCurrent(Value(Null, current - begin - 1, current - begin));
      } else {
        SetCurrent(R.Spanned(CurrentValue().data, token, begin));
        ok := AddError(R.ValueExpected, token);
      }
    }

    /** readValue.  If it returns, it leaves the stack as it found it. */
    method ReadValue() returns (status: R.Status)
      requires Valid() && TopInTree() && Ordered(root)
      modifies `current, `root, `errors, `nodes
      ensures var o := R.ReadValue(features, document, begin, |old(nodes)|, old(current), old(errors),
                                   old(CurrentValue()));
        status == o.status && Reached(o, old(root), old(Top()))
      ensures !R.Aborted(status) ==> nodes == old(nodes)
      decreases |document| - current, 0, 1
    {
      hide R.ReadValue, S.SkipComments, SetAt, GetAt, InTree, Ordered, Reached;
      if |nodes| > features.stackLimit {
        status := TooDeep();
        return;
      }
      var token := SkipCommentTokens();
      status := ReadFrom(token, old(current));
    }

    /** The switch of readValue on the first token after position `p`. */
    method ReadFrom(token: S.Token, ghost p: nat) returns (status: R.Status)
      requires Valid() && TopInTree() && Ordered(root) && |nodes| <= features.stackLimit
      requires begin <= p <= |document| && token == S.SkipComments(features, document, p) && current == token.end
      modifies `current, `root, `errors, `nodes
      ensures var o := R.ReadValue(features, document, begin, |old(nodes)|, p, old(errors), old(CurrentValue()));
        status == o.status && Reached(o, old(root), old(Top()))
      ensures !R.Aborted(status) ==> nodes == old(nodes)
      decreases |document| - p, 0, 0
    {
      hide R.ReadValue, R.ReadMembers, R.ReadElements, R.ReadScalar, S.SkipComments, SetAt, GetAt, InTree, Ordered;
      hide Reached, R.Limited, S.ReadToken, S.NextToken, R.RecoverPos, R.DecodeString, Numbers.DecodeNumber;
      R.StringTokenLength(features, document, p);
      R.ReadValueStep(features, document, begin, |nodes|, p, errors, CurrentValue(), token);
      if token.kind == S.ObjectBegin || token.kind == S.ArrayBegin {
        status := ReadContainer(token);
      } else {
        status := ReadScalar(token);
      }
    }

    /** The exception at the nesting limit. */
    method TooDeep() returns (status: R.Status)
      requires Valid() && TopInTree() && Ordered(root) && |nodes| > features.stackLimit
      ensures status == R.Thrown
      ensures var o := R.ReadValue(features, document, begin, |nodes|, current, errors, CurrentValue());
        status == o.status && Reached(o, root, Top())
    {
      hide R.ReadValue, SetAt, GetAt, InTree, Ordered;
      SetSame(root, Top());
      R.ReadValueThrows(features, document, begin, |nodes|, current, errors, CurrentValue());
      return R.Thrown;
    }

    /** The cases of readValue that open an object or an array. */
    method ReadContainer(token: S.Token) returns (status: R.Status)
      requires Valid() && TopInTree() && Ordered(root) && current == token.end && |nodes| <= features.stackLimit
      requires token.kind == S.ObjectBegin || token.kind == S.ArrayBegin
      modifies `current, `root, `errors, `nodes
      ensures var limit := old(CurrentValue()).limit;
        var o := R.Limited(
          if token.kind == S.ObjectBegin then
            R.ReadMembers(features, document, begin, |old(nodes)|, token.end, old(errors), [],
                          Value(Obj(Nil), token.start - begin, limit))
          else
            R.ReadElements(features, document, begin, |old(nodes)|, token.end, old(errors), 0,
                           Value(Arr(Nil), token.start - begin, limit)), begin);
        status == o.status && Reached(o, old(root), old(Top()))
      ensures !R.Aborted(status) ==> nodes == old(nodes)
      decreases |document| - current, 4
    {
      hide R.ReadMembers, R.ReadElements;
      if token.kind == S.ObjectBegin {
        status := ReadObject(token);
      } else {
        status := ReadArray(token);
      }
      if !R.Aborted(status) {
        SetLimit(old(root));
      }
    }

    /** currentValue().setOffsetLimit(current_ - begin_), where the current value replaced one of `before`. */
    method SetLimit(ghost before: Value)
      requires Valid() && TopInTree() && Ordered(root)
      requires InTree(before, Top()) && root == SetAt(before, Top(), CurrentValue())
      modifies `root
      ensures root == SetAt(before, Top(), old(CurrentValue()).(limit := current - begin)) && Ordered(root)
      ensures TopInTree() && CurrentValue() == old(CurrentValue()).(limit := current - begin)
    {
      var v := CurrentValue().(limit := current - begin);
      GetOrdered(root, Top());
      SetTwice(before, Top(), CurrentValue(), v);
      SetCurrent(v);
    }

    /** currentValue()[k] is pushed, filled and popped. */
    method ReadChild(k: Key, ghost before: Value) returns (status: R.Status)
      requires Valid() && TopInTree() && Ordered(root) && Fits(CurrentValue(), k) && |nodes| <= features.stackLimit
      requires InTree(before, Top()) && root == SetAt(before, Top(), CurrentValue())
      modifies `current, `root, `errors, `nodes
      ensures var cur := old(CurrentValue());
        var o := R.ReadValue(features, document, begin, |old(nodes)| + 1, old(current), old(errors),
                             Child(EntriesOf(cur), k));
        var filled := WithChild(cur, k, o.value);
        && status == o.status && Reached(o.(value := filled), before, old(Top()))
        && (!R.Aborted(status) ==> nodes == old(nodes) && TopInTree() && CurrentValue() == filled)
      decreases |document| - current, 1
    {
      hide R.ReadValue;
      var top := Top();
      var cur := CurrentValue();
      var child := Child(EntriesOf(cur), k);
      AddChild(k, child, before);
      ghost var added := root;
      nodes := nodes + [top + [k]];
      status := ReadValue();
      ghost var v := R.ReadValue(features, document, begin, |old(nodes)| + 1, old(current), old(errors), child).value;
      SetExtend(added, top, k, v);
      WithChildTwice(cur, k, child, v);
      SetTwice(before, top, WithChild(cur, k, child), WithChild(cur, k, v));
      SetGet(before, top, WithChild(cur, k, v));
      if !R.Aborted(status) {
        nodes := nodes[..|nodes| - 1];
      }
    }

    /** The reference currentValue()[k]: the child is there afterwards, null if it was not before. */
    method AddChild(k: Key, child: Value, ghost before: Value)
      requires TopInTree() && Ordered(root) && Fits(CurrentValue(), k)
      requires child == Child(EntriesOf(CurrentValue()), k)
      requires InTree(before, Top()) && root == SetAt(before, Top(), CurrentValue())
      modifies `root
      ensures root == SetAt(before, Top(), WithChild(old(CurrentValue()), k, child)) && Ordered(root)
      ensures TopInTree() && CurrentValue() == WithChild(old(CurrentValue()), k, child)
      ensures HasChild(CurrentValue(), k) && InTree(root, Top() + [k]) && GetAt(root, Top() + [k]) == child
    {
      var cur := CurrentValue();
      GetOrdered(root, Top());
      if Find(EntriesOf(cur), k).Some? {
        FindOrdered(EntriesOf(cur), k);
      }
      WithChildOrdered(cur, k, child);
      WithChildLaws(cur, k, child);
      SetTwice(before, Top(), cur, WithChild(cur, k, child));
      SetCurrent(WithChild(cur, k, child));
      Extend(root, Top(), k);
    }

    /** The member name a token stands for; an error in it is recorded. */
    method ReadName(token: S.Token) returns (r: R.KeyResult)
      requires Valid() && R.NameOf.requires(features, document, token)
      modifies `errors
      ensures Valid() && r == R.NameOf(features, document, token)
      ensures errors == if r.KeyBad? then old(errors) + [R.ErrorInfo(token, r.message)] else old(errors)
    {
      hide R.DecodeString, Numbers.DecodeNumber;
      if token.kind == S.StringToken {
        var ok, name := DecodeText(token);
        r := if ok then R.KeyName(name) else R.KeyBad(errors[|errors| - 1].message);
      } else if token.kind == S.NumberToken && features.allowNumericKeys {
        var decoded := Numbers.Decode(R.TokenText(document, token), features.toDouble);
        if decoded.None? {
          var _ := AddError(R.NotANumber, token);
          r := R.KeyBad(R.NotANumber);
        } else {
          r := R.KeyName(R.NumberAsString(features, decoded.value));
        }
      } else {
        r := R.KeyMissing;
      }
    }

    /** readObject, after the opening brace. */
    method ReadObject(token: S.Token) returns (status: R.Status)
      requires Valid() && TopInTree() && Ordered(root) && current == token.end && |nodes| <= features.stackLimit
      modifies `current, `root, `errors, `nodes
      ensures var o := R.ReadMembers(features, document, begin, |old(nodes)|, old(current), old(errors), [],
                                     Value(Obj(Nil), token.start - begin, old(CurrentValue()).limit));
        && status == o.status && Reached(o, old(root), old(Top()))
        && (!R.Aborted(status) ==> nodes == old(nodes) && TopInTree() && CurrentValue() == o.value)
      decreases |document| - current, 3
    {
      hide R.ReadMembers;
      var name: bytes := [];
      SetCurrent(Value(Obj(Nil), token.start - begin, CurrentValue().limit));
      ghost var final := R.ReadMembers(features, document, begin, |nodes|, current, errors, name, CurrentValue());
      while true
        invariant Valid() && nodes == old(nodes) && TopInTree() && Ordered(root) && CurrentValue().data.Obj?
        invariant root == SetAt(old(root), Top(), CurrentValue())
        invariant old(current) <= current
        invariant R.ReadMembers(features, document, begin, |nodes|, current, errors, name, CurrentValue()) == final
        decreases |document| - current
      {
        var done;
        done, status, name := ReadMember(name, old(root));
        if done {
          return;
        }
      }
    }

    /** One round of the loop of readObject; `done` when the round returns. */
    method ReadMember(name: bytes, ghost before: Value) returns (done: bool, status: R.Status, newName: bytes)
      requires Valid() && TopInTree() && Ordered(root) && CurrentValue().data.Obj? && |nodes| <= features.stackLimit
      requires InTree(before, Top()) && root == SetAt(before, Top(), CurrentValue())
      modifies `current, `root, `errors, `nodes
      ensures Round(done, status, old(current), before, old(nodes),
        R.ReadMembers(features, document, begin, |old(nodes)|, old(current), old(errors), name, old(CurrentValue())))
      ensures !done ==>
        CurrentValue().data.Obj?
        && R.ReadMembers(features, document, begin, |old(nodes)|, old(current), old(errors), name, old(CurrentValue()))
          == R.ReadMembers(features, document, begin, |nodes|, current, errors, newName, CurrentValue())
      decreases |document| - current, 2
    {
      hide R.ReadValue, R.ReadHeader;
      ghost var cur := CurrentValue();
      done, status, newName := ReadHeader(name);
      if !done {
        status := ReadChild(Name(newName), before);
        done := R.Aborted(status);
        if !done {
          ghost var o := R.ReadValue(features, document, begin, |nodes| + 1,
            R.ReadHeader(features, document, old(current), old(errors), name, cur).pos, old(errors),
            Child(cur.data.members, Name(newName)));
          done, status := FinishMember(status, newName, o, old(current), before);
        }
      }
    }

    /** The name and the colon of a member; `done` when the object ends before that, well or not. */
    method ReadHeader(name: bytes) returns (done: bool, status: R.Status, newName: bytes)
      requires Valid() && TopInTree() && CurrentValue().data.Obj?
      modifies `current, `errors
      ensures Valid()
      ensures match R.ReadHeader(features, document, old(current), old(errors), name, CurrentValue())
        case Stop(o) =>
          done && status == o.status && current == o.pos && errors == o.errors && CurrentValue() == o.value
        case Go(n, q) =>
          !done && newName == n && current == q && errors == old(errors)
    {
      hide R.NameOf, R.RecoverPos, S.NextToken, S.ReadToken, SetAt, GetAt, InTree;
      done, status, newName := true, R.Failure, name;
      R.StringTokenLength(features, document, current);
      var ok, token := ReadNonComment();
      if !ok || token.kind == S.EndOfStream {
        var _ := AddErrorAndRecover(R.MissingBraceOrName, token, S.ObjectEnd);
        return;
      }
      if token.kind == S.ObjectEnd && (name == [] || features.allowTrailingCommas) {
        status := R.Success;
        return;
      }
      var key := ReadName(token);
      if key.KeyMissing? {
        var _ := AddErrorAndRecover(R.MissingBraceOrName, token, S.ObjectEnd);
        return;
      }
      if key.KeyBad? {
        var _ := RecoverFromError(S.ObjectEnd);
        return;
      }
      newName := key.name;
      if |newName| >= NAME_LIMIT {
        status := R.Thrown;
        return;
      }
      if features.rejectDupKeys && Find(CurrentValue().data.members, Name(newName)).Some? {
        var _ := AddErrorAndRecover(R.DuplicateKey, token, S.ObjectEnd);
        return;
      }
      var colonOk, colon := ReadToken();
      if !colonOk || colon.kind != S.MemberSeparator {
        var _ := AddErrorAndRecover(R.MissingColon, colon, S.ObjectEnd);
        return;
      }
      done := false;
    }

    /** How a round of a container's loop ends: with the outcome, or ready for the next round. */
    ghost predicate Round(done: bool, status: R.Status, start: nat, before: Value, stack: seq<Path>, o: R.Outcome)
      reads this
      requires stack != [] && InTree(before, stack[|stack| - 1])
    {
      && Valid() && Ordered(root)
      && (!done || !R.Aborted(status) ==> nodes == stack && TopInTree())
      && (if done then
            && status == o.status && Reached(o, before, stack[|stack| - 1])
            && (!R.Aborted(status) ==> CurrentValue() == o.value)
          else start < current && root == SetAt(before, Top(), CurrentValue()))
    }

    /** The end of a round of readObject: the member was read with outcome `o`. */
    method FinishMember(read: R.Status, name: bytes, ghost o: R.Outcome, ghost start: nat, ghost before: Value)
      returns (done: bool, status: R.Status)
      requires Valid() && TopInTree() && Ordered(root) && CurrentValue().data.Obj? && start < current
      requires read == o.status && !R.Aborted(read) && o.pos == current && o.errors == errors
      requires InTree(before, Top()) && root == SetAt(before, Top(), CurrentValue())
      modifies `current, `errors
      ensures var r := R.AfterMember(features, document, begin, |nodes|, start, o, name, CurrentValue());
        && Round(done, status, start, before, nodes, r)
        && (!done ==> r == R.ReadMembers(features, document, begin, |nodes|, current, errors, name, CurrentValue()))
    {
      hide R.ReadMembers, R.RecoverPos, S.NextToken, S.ReadToken;
      done, status := true, R.Failure;
      if read == R.Failure {
        var _ := RecoverFromError(S.ObjectEnd);
        return;
      }
      ghost var p := current;
      var ok, comma := ReadToken();
      if !ok || (comma.kind != S.ObjectEnd && comma.kind != S.ArraySeparator && comma.kind != S.Comment) {
        var _ := AddErrorAndRecover(R.MissingCommaOrBrace, comma, S.ObjectEnd);
        return;
      }
      if comma.kind == S.Comment {
        ok, comma := ReadNonComment();
      }
      R.NextOverComment(features, document, p);
      if comma.kind == S.ObjectEnd {
        status := R.Success;
        return;
      }
      done := false;
    }

    /** readArray, after the opening bracket. */
    method ReadArray(token: S.Token) returns (status: R.Status)
      requires Valid() && TopInTree() && Ordered(root) && current == token.end && |nodes| <= features.stackLimit
      modifies `current, `root, `errors, `nodes
      ensures var o := R.ReadElements(features, document, begin, |old(nodes)|, old(current), old(errors), 0,
                                      Value(Arr(Nil), token.start - begin, old(CurrentValue()).limit));
        && status == o.status && Reached(o, old(root), old(Top()))
        && (!R.Aborted(status) ==> nodes == old(nodes) && TopInTree() && CurrentValue() == o.value)
      decreases |document| - current, 3
    {
      hide R.ReadElements;
      SetCurrent(Value(Arr(Nil), token.start - begin, CurrentValue().limit));
      var index := 0;
      ghost var final := R.ReadElements(features, document, begin, |nodes|, current, errors, index, CurrentValue());
      while true
        invariant Valid() && nodes == old(nodes) && TopInTree() && Ordered(root) && CurrentValue().data.Arr?
        invariant root == SetAt(old(root), Top(), CurrentValue())
        invariant old(current) <= current
        invariant R.ReadElements(features, document, begin, |nodes|, current, errors, index, CurrentValue()) == final
        decreases |document| - current
      {
        var done;
        done, status := ReadElement(index, old(root));
        if done {
          return;
        }
        index := index + 1;
      }
    }

    /** One round of the loop of readArray. */
    method ReadElement(index: nat, ghost before: Value) returns (done: bool, status: R.Status)
      requires Valid() && TopInTree() && Ordered(root) && CurrentValue().data.Arr? && |nodes| <= features.stackLimit
      requires InTree(before, Top()) && root == SetAt(before, Top(), CurrentValue())
      modifies `current, `root, `errors, `nodes
      ensures Round(done, status, old(current), before, old(nodes),
        R.ReadElements(features, document, begin, |old(nodes)|, old(current), old(errors), index, old(CurrentValue())))
      ensures !done ==>
        CurrentValue().data.Arr?
        && R.ReadElements(features, document, begin, |old(nodes)|, old(current), old(errors), index,
                          old(CurrentValue()))
          == R.ReadElements(features, document, begin, |nodes|, current, errors, index + 1, CurrentValue())
      decreases |document| - current, 2
    {
      hide R.ReadValue, S.ReadToken, S.SkipSpaces, S.NextToken, R.RecoverPos, Put, Find, InTree, GetAt, SetAt, Ordered;
      done, status := true, R.Success;
      SkipSpaces();
      if current != |document| && document[current] == ']'
         && (index == 0 || (features.allowTrailingCommas && !features.allowDroppedNullPlaceholders)) {
        var _, endArray := ReadToken();
        return;
      }
      if index >= Numbers.MAX_INT32 {
        status := R.Undefined;
        return;
      }
      ghost var cur := CurrentValue();
      ghost var o := R.ReadValue(features, document, begin, |nodes| + 1, current, errors,
                                 Child(cur.data.items, Index(index)));
      status := ReadChild(Index(index), before);
      if R.Aborted(status) {
        return;
      }
      done, status := FinishElement(status, index, o, old(current), before);
    }

    /** The end of a round of readArray: the element was read with outcome `o`. */
    method FinishElement(read: R.Status, index: nat, ghost o: R.Outcome, ghost start: nat, ghost before: Value)
      returns (done: bool, status: R.Status)
      requires Valid() && TopInTree() && Ordered(root) && CurrentValue().data.Arr? && start <= current
      requires read == o.status && !R.Aborted(read) && o.pos == current && o.errors == errors
      requires InTree(before, Top()) && root == SetAt(before, Top(), CurrentValue())
      modifies `current, `errors
      ensures var r := R.AfterElement(features, document, begin, |nodes|, start, o, index, CurrentValue());
        && Round(done, status, start, before, nodes, r)
        && (!done ==>
              r == R.ReadElements(features, document, begin, |nodes|, current, errors, index + 1, CurrentValue()))
    {
      hide R.ReadElements, R.RecoverPos, S.NextToken, S.ReadToken;
      done, status := true, R.Failure;
      if read == R.Failure {
        var _ := RecoverFromError(S.ArrayEnd);
        return;
      }
      var ok, token := ReadNonComment();
      if token.kind == S.ArrayEnd {
        status := R.Success;
        return;
      }
      if !ok || token.kind != S.ArraySeparator {
        var _ := AddErrorAndRecover(R.MissingCommaOrBracket, token, S.ArrayEnd);
        return;
      }
      done := false;
    }

    method SkipBom(skip: bool)
      requires Valid() && current == begin == 0 && skip == features.skipBom
      modifies `begin, `current
      ensures Valid() && begin == current == R.BomLength(features, document)
    {
      if skip && |document| >= 3 && document[0] == R.BOM[0] && document[1] == R.BOM[1] && document[2] == R.BOM[2] {
        begin := 3;
        current := begin;
      }
    }

    /** parse, into a root that holds `initial`.  It always stops, and reports success exactly when it
        recorded no error; if it returns, the node stack is empty again. */
    method Parse(doc: bytes, initial: Value) returns (status: R.Status)
      requires Ordered(initial)
      modifies this
      ensures var o := R.Parse(features, doc, initial);
        status == o.status && current == o.pos && errors == o.errors && root == o.value
      ensures Valid() && document == doc && Ordered(root)
      ensures !R.Aborted(status) ==> nodes == []
      ensures status == R.Success ==> errors == []
      ensures status == R.Failure ==> 1 <= |errors| <= 2
    {
      hide R.ReadValue, S.SkipComments;
      T.ParseTotal(features, doc, initial);
      document, begin, current, errors, nodes, root := doc, 0, 0, [], [[]], initial;
      SkipBom(features.skipBom);
      status := ReadValue();
      if R.Aborted(status) {
        return;
      }
      nodes := [];
      var token := SkipCommentTokens();
      if features.failIfExtra && token.kind != S.EndOfStream {
        var _ := AddError(R.ExtraAfterValue, token);
        return R.Failure;
      }
      if features.strictRoot && !root.data.Arr? && !root.data.Obj? {
        var _ := AddError(R.RootMustBeContainer, S.Token(S.ErrorToken, 0, |document|));
        return R.Failure;
      }
    }
  }
}
