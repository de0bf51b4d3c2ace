/** The parser looks at no byte outside the ones a value takes up: reading the value in a window of the
    document gives the same value, with its spans counted from the window. */
module LocalReading {
  import opened Bytes
  import opened JsonValues
  import opened Scanner
  import opened ReaderSpec
  import opened Locality

  // ----- Moving spans --------------------------------------------------------------------------

  /** The value read `k` bytes earlier. */
  function Shift(v: Value, k: int): Value {
    Value(ShiftData(v.data, k), v.start - k, v.limit - k)
  }

  function ShiftData(p: Payload, k: int): Payload {
    match p
    case Arr(es) => Arr(ShiftEntries(es, k))
    case Obj(es) => Obj(ShiftEntries(es, k))
    case _ => p
  }

  function ShiftEntries(es: Entries, k: int): Entries {
    match es
    case Nil => Nil
    case Cons(key, val, rest) => Cons(key, Shift(val, k), ShiftEntries(rest, k))
  }

  lemma {:induction false} ShiftFind(es: Entries, k: int, key: Key)
    ensures Find(ShiftEntries(es, k), key).Some? <==> Find(es, key).Some?
  {
    if es.Cons? {
      ShiftFind(es.rest, k, key);
    }
  }

  lemma {:induction false} ShiftPut(es: Entries, k: int, key: Key, v: Value)
    ensures ShiftEntries(Put(es, key, v), k) == Put(ShiftEntries(es, k), key, Shift(v, k))
  {
    if es.Cons? {
      ShiftPut(es.rest, k, key, v);
    }
  }

  // ----- Reading inside a window ---------------------------------------------------------------

  /** A round of readObject that ends the object. */
  lemma HeaderStopLocal(f: Features, doc: bytes, a: nat, b: nat, sub: bytes, p: nat, errors: seq<ErrorInfo>,
                        errors': seq<ErrorInfo>, name: bytes, cur: Value, cur': Value)
    requires Window(doc, a, b, sub, p) && cur.data.Obj? && cur'.data.Obj?
    requires var h := ReadHeader(f, doc, p, errors, name, cur); h.Stop? && h.o.status == Success && h.o.pos <= b
    ensures var h := ReadHeader(f, doc, p, errors, name, cur);
      && a <= h.o.pos && h.o == Outcome(Success, h.o.pos, errors, cur)
      && ReadHeader(f, sub, p - a, errors', name, cur') == Stop(Outcome(Success, h.o.pos - a, errors', cur'))
  {
    hide NextToken, ReadToken, NameOf, RecoverPos, Find;
    StringTokenLength(f, doc, p);
    NextTokenLocal(f, doc, a, b, sub, p);
  }

  /** What a round of readObject meets that reads a name and a colon. */
  predicate Goes(f: Features, doc: bytes, p: nat, name: bytes, cur: Value, newName: bytes, q: nat)
    requires p <= |doc| && cur.data.Obj?
  {
    var t := NextToken(f, doc, p);
    StringTokenLength(f, doc, p);
    && t.kind != ErrorToken && t.kind != EndOfStream
    && !(t.kind == ObjectEnd && (name == [] || f.allowTrailingCommas))
    && NameOf(f, doc, t) == KeyName(newName) && |newName| < NAME_LIMIT
    && !(f.rejectDupKeys && Find(cur.data.members, Name(newName)).Some?)
    && ReadToken(f, doc, t.end).kind == MemberSeparator && ReadToken(f, doc, t.end).end == q
  }

  lemma HeaderGoes(f: Features, doc: bytes, p: nat, errors: seq<ErrorInfo>, name: bytes, cur: Value, newName: bytes,
                   q: nat)
    requires p <= |doc| && cur.data.Obj?
    ensures ReadHeader(f, doc, p, errors, name, cur) == Go(newName, q) <==> Goes(f, doc, p, name, cur, newName, q)
  {
    hide NextToken, ReadToken, NameOf, FailAt, Find;
  }

  lemma GoesLocal(f: Features, doc: bytes, a: nat, b: nat, sub: bytes, p: nat, name: bytes, cur: Value, cur': Value,
                  newName: bytes, q: nat)
    requires Window(doc, a, b, sub, p) && cur.data.Obj? && cur'.data.Obj? && q <= b
    requires Find(cur'.data.members, Name(newName)).Some? <==> Find(cur.data.members, Name(newName)).Some?
    requires Goes(f, doc, p, name, cur, newName, q)
    ensures a <= q && Goes(f, sub, p - a, name, cur', newName, q - a)
  {
    hide NextToken, ReadToken, NameOf, Find, Window;
    var t := NextToken(f, doc, p);
    StringTokenLength(f, doc, p);
    WindowOnward(doc, a, b, sub, p, t.start);
    WindowOnward(doc, a, b, sub, p, t.end);
    NextTokenLocal(f, doc, a, b, sub, p);
    NameOfLocal(f, doc, a, b, sub, t);
    ReadTokenLocal(f, doc, a, b, sub, t.end);
  }

  /** A round of readObject that reads a name and a colon. */
  lemma HeaderGoLocal(f: Features, doc: bytes, a: nat, b: nat, sub: bytes, p: nat, errors: seq<ErrorInfo>,
                      errors': seq<ErrorInfo>, name: bytes, cur: Value, cur': Value)
    requires Window(doc, a, b, sub, p) && cur.data.Obj? && cur'.data.Obj?
    requires var h := ReadHeader(f, doc, p, errors, name, cur);
      h.Go? && h.pos <= b
      && (Find(cur'.data.members, Name(h.name)).Some? <==> Find(cur.data.members, Name(h.name)).Some?)
    ensures var h := ReadHeader(f, doc, p, errors, name, cur);
      a <= h.pos && ReadHeader(f, sub, p - a, errors', name, cur') == Go(h.name, h.pos - a)
  {
    hide ReadHeader, Goes, Find;
    var h := ReadHeader(f, doc, p, errors, name, cur);
    HeaderGoes(f, doc, p, errors, name, cur, h.name, h.pos);
    GoesLocal(f, doc, a, b, sub, p, name, cur, cur', h.name, h.pos);
    HeaderGoes(f, sub, p - a, errors', name, cur', h.name, h.pos - a);
  }

  lemma HeaderLocal(f: Features, doc: bytes, a: nat, b: nat, sub: bytes, p: nat, errors: seq<ErrorInfo>,
                    errors': seq<ErrorInfo>, name: bytes, cur: Value, cur': Value, k: int)
    requires Window(doc, a, b, sub, p) && cur.data.Obj? && cur'.data == ShiftData(cur.data, k)
    requires var h := ReadHeader(f, doc, p, errors, name, cur);
      if h.Go? then h.pos <= b else h.o.status == Success && h.o.pos <= b
    ensures var h := ReadHeader(f, doc, p, errors, name, cur);
      var h' := ReadHeader(f, sub, p - a, errors', name, cur');
      && (h.Go? ==> a <= h.pos && h' == Go(h.name, h.pos - a))
      && (h.Stop? ==> a <= h.o.pos && h.o == Outcome(Success, h.o.pos, errors, cur)
                      && h' == Stop(Outcome(Success, h.o.pos - a, errors', cur')))
  {
    hide ReadHeader, Find, ShiftEntries;
    var h := ReadHeader(f, doc, p, errors, name, cur);
    if h.Go? {
      ShiftFind(cur.data.members, k, Name(h.name));
      HeaderGoLocal(f, doc, a, b, sub, p, errors, errors', name, cur, cur');
    } else {
      HeaderStopLocal(f, doc, a, b, sub, p, errors, errors', name, cur, cur');
    }
  }

  lemma DecodedIsScalar(text: bytes, toDouble: bytes -> Option<Double>, k: int)
    requires text != []
    ensures var d := Numbers.DecodeNumber(text, toDouble); d.Some? ==> ShiftData(d.value, k) == d.value
  {
    hide Numbers.Accumulate;
  }

  lemma ScalarLocal(f: Features, doc: bytes, base: nat, t: Token, errors: seq<ErrorInfo>, cur: Value,
                    a: nat, b: nat, sub: bytes, errors': seq<ErrorInfo>, cur': Value)
    requires !f.allowDroppedNullPlaceholders
    requires ReadScalar.requires(f, doc, base, t, errors, cur) && Window(doc, a, b, sub, t.start) && t.end <= b
    requires ReadScalar(f, doc, base, t, errors, cur).status == Success
    ensures var o := ReadScalar(f, doc, base, t, errors, cur);
      o.pos == t.end && ReadScalar(f, sub, 0, Shifted(t, a), errors', cur')
        == Outcome(Success, o.pos - a, errors', Shift(o.value, a - base))
  {
    hide Numbers.DecodeNumber, Strings.Unescape;
    var t' := Shifted(t, a);
    assert TokenText(sub, t') == TokenText(doc, t) by {
      SliceOfWindow(doc, a, b, t.start, t.end);
    }
    if t.kind == NumberToken {
      DecodedIsScalar(TokenText(doc, t), f.toDouble, a - base);
    } else if t.kind == StringToken {
      assert DecodeString(sub, t') == DecodeString(doc, t) by {
        SliceOfWindow(doc, a, b, t.start + 1, t.end - 1);
      }
    }
  }

  /** readValue sees only the bytes it consumes: on a window around them it does the same, whatever
      errors were there before, at no greater depth, and filling any value. */
  lemma {:induction false} ValueLocal(f: Features, doc: bytes, base: nat, depth: nat, p: nat, errors: seq<ErrorInfo>,
                                      cur: Value, a: nat, b: nat, sub: bytes, depth': nat, errors': seq<ErrorInfo>,
                                      cur': Value)
    requires !f.allowDroppedNullPlaceholders && depth' <= depth && Window(doc, a, b, sub, p)
    requires var o := ReadValue(f, doc, base, depth, p, errors, cur); o.status == Success && o.pos <= b
    ensures var o := ReadValue(f, doc, base, depth, p, errors, cur);
      a <= o.pos && ReadValue(f, sub, 0, depth', p - a, errors', cur')
        == Outcome(Success, o.pos - a, errors', Shift(o.value, a - base))
    decreases |doc| - p, 0
  {
    hide ReadValue, ReadMembers, ReadElements, ReadScalar, SkipComments, ReadToken, NextToken, Limited, Window, Shift;
    WindowOnward(doc, a, b, sub, p, p);
    if depth > f.stackLimit {
      ReadValueThrows(f, doc, base, depth, p, errors, cur);
    } else {
      var t := SkipComments(f, doc, p);
      StringTokenLength(f, doc, p);
      ReadValueStep(f, doc, base, depth, p, errors, cur, t);
      FirstTokenWithin(f, doc, base, depth, p, errors, cur);
      WindowOnward(doc, a, b, sub, p, t.start);
      WindowOnward(doc, a, b, sub, p, t.end);
      SkipCommentsLocal(f, doc, a, b, sub, p);
      ReadValueStep(f, sub, 0, depth', p - a, errors', cur', Shifted(t, a));
      if t.kind == ObjectBegin {
        ObjectLocal(f, doc, base, depth, t, errors, cur.limit, a, b, sub, depth', errors', cur'.limit);
      } else if t.kind == ArrayBegin {
        ArrayLocal(f, doc, base, depth, t, errors, cur.limit, a, b, sub, depth', errors', cur'.limit);
      } else {
        ScalarLocal(f, doc, base, t, errors, cur, a, b, sub, errors', cur');
      }
    }
  }

  lemma {:induction false} ObjectLocal(f: Features, doc: bytes, base: nat, depth: nat, t: Token, errors: seq<ErrorInfo>,
                                       limit: int, a: nat, b: nat, sub: bytes, depth': nat, errors': seq<ErrorInfo>,
                                       limit': int)
    requires !f.allowDroppedNullPlaceholders && depth' <= depth && Window(doc, a, b, sub, t.end)
    requires var o := ReadMembers(f, doc, base, depth, t.end, errors, [], Value(Obj(Nil), t.start - base, limit));
      o.status == Success && o.pos <= b
    ensures var o :=
        Limited(ReadMembers(f, doc, base, depth, t.end, errors, [], Value(Obj(Nil), t.start - base, limit)), base);
      a <= o.pos
      && Limited(ReadMembers(f, sub, 0, depth', t.end - a, errors', [], Value(Obj(Nil), t.start - a, limit')), 0)
        == Outcome(Success, o.pos - a, errors', Shift(o.value, a - base))
    decreases |doc| - t.end, 2
  {
    hide ReadMembers;
    var c, c' := Value(Obj(Nil), t.start - base, limit), Value(Obj(Nil), t.start - a, limit');
    MembersLocal(f, doc, base, depth, t.end, errors, [], c, a, b, sub, depth', errors', c');
  }

  lemma {:induction false} ArrayLocal(f: Features, doc: bytes, base: nat, depth: nat, t: Token, errors: seq<ErrorInfo>,
                                      limit: int, a: nat, b: nat, sub: bytes, depth': nat, errors': seq<ErrorInfo>,
                                      limit': int)
    requires !f.allowDroppedNullPlaceholders && depth' <= depth && Window(doc, a, b, sub, t.end)
    requires var o := ReadElements(f, doc, base, depth, t.end, errors, 0, Value(Arr(Nil), t.start - base, limit));
      o.status == Success && o.pos <= b
    ensures var o :=
        Limited(ReadElements(f, doc, base, depth, t.end, errors, 0, Value(Arr(Nil), t.start - base, limit)), base);
      a <= o.pos
      && Limited(ReadElements(f, sub, 0, depth', t.end - a, errors', 0, Value(Arr(Nil), t.start - a, limit')), 0)
        == Outcome(Success, o.pos - a, errors', Shift(o.value, a - base))
    decreases |doc| - t.end, 2
  {
    hide ReadElements;
    var c, c' := Value(Arr(Nil), t.start - base, limit), Value(Arr(Nil), t.start - a, limit');
    ElementsLocal(f, doc, base, depth, t.end, errors, 0, c, a, b, sub, depth', errors', c');
  }

  /** What a value that was read consumed: from its first token, to the position reached. */
  lemma FirstTokenWithin(f: Features, doc: bytes, base: nat, depth: nat, p: nat, errors: seq<ErrorInfo>, cur: Value)
    requires p <= |doc| && depth <= f.stackLimit && !f.allowDroppedNullPlaceholders
    requires ReadValue(f, doc, base, depth, p, errors, cur).status == Success
    ensures var o := ReadValue(f, doc, base, depth, p, errors, cur); var t := SkipComments(f, doc, p);
      t.end <= o.pos && t.kind != EndOfStream && t.kind != Comment
      && o.value.limit == o.pos - base
  {
    hide ReadValue, ReadMembers, ReadElements, SkipComments;
    var t := SkipComments(f, doc, p);
    StringTokenLength(f, doc, p);
    ReadValueStep(f, doc, base, depth, p, errors, cur, t);
  }

  lemma {:induction false} MembersLocal(f: Features, doc: bytes, base: nat, depth: nat, p: nat, errors: seq<ErrorInfo>,
                                        name: bytes, cur: Value, a: nat, b: nat, sub: bytes, depth': nat,
                                        errors': seq<ErrorInfo>, cur': Value)
    requires !f.allowDroppedNullPlaceholders && depth' <= depth && Window(doc, a, b, sub, p)
    requires cur.data.Obj? && cur'.data == ShiftData(cur.data, a - base)
    requires var o := ReadMembers(f, doc, base, depth, p, errors, name, cur); o.status == Success && o.pos <= b
    ensures var o := ReadMembers(f, doc, base, depth, p, errors, name, cur);
      a <= o.pos && o.value == cur.(data := o.value.data)
      && ReadMembers(f, sub, 0, depth', p - a, errors', name, cur')
        == Outcome(Success, o.pos - a, errors', cur'.(data := ShiftData(o.value.data, a - base)))
    decreases |doc| - p, 1
  {
    hide ReadValue, AfterMember, ReadHeader, Find, Put, Child;
    var h := ReadHeader(f, doc, p, errors, name, cur);
    if h.Go? {
      var child := Child(cur.data.members, Name(h.name));
      var o := ReadValue(f, doc, base, depth + 1, h.pos, errors, child);
      var filled := WithMember(cur, h.name, o.value);
      AfterMemberSucceeds(f, doc, base, depth, p, o, h.name, filled);
      HeaderLocal(f, doc, a, b, sub, p, errors, errors', name, cur, cur', a - base);
      var child' := Child(cur'.data.members, Name(h.name));
      ValueLocal(f, doc, base, depth + 1, h.pos, errors, child, a, b, sub, depth' + 1, errors', child');
      var o' := ReadValue(f, sub, 0, depth' + 1, h.pos - a, errors', child');
      ShiftPut(cur.data.members, a - base, Name(h.name), o.value);
      AfterMemberLocal(f, doc, base, depth, p, o, h.name, filled, a, b, sub, depth', o',
                       WithMember(cur', h.name, o'.value));
    } else {
      HeaderLocal(f, doc, a, b, sub, p, errors, errors', name, cur, cur', a - base);
    }
  }

  /** After a member, success needs the member to have succeeded. */
  lemma AfterMemberSucceeds(f: Features, doc: bytes, base: nat, depth: nat, p: nat, o: Outcome, name: bytes,
                            filled: Value)
    requires p < o.pos <= |doc| && filled.data.Obj?
    requires AfterMember(f, doc, base, depth, p, o, name, filled).status == Success
    ensures o.status == Success
  {
    hide ReadMembers, RecoverPos, NextToken;
  }

  lemma {:induction false} AfterMemberLocal(f: Features, doc: bytes, base: nat, depth: nat, p: nat, o: Outcome,
                                            name: bytes, filled: Value, a: nat, b: nat, sub: bytes, depth': nat,
                                            o': Outcome, filled': Value)
    requires !f.allowDroppedNullPlaceholders && depth' <= depth && p < o.pos && a <= p && Window(doc, a, b, sub, o.pos)
    requires o.status == Success && o'.status == Success && o'.pos == o.pos - a
    requires filled.data.Obj? && filled'.data == ShiftData(filled.data, a - base)
    requires var r := AfterMember(f, doc, base, depth, p, o, name, filled); r.status == Success && r.pos <= b
    ensures var r := AfterMember(f, doc, base, depth, p, o, name, filled);
      a <= r.pos && r.value == filled.(data := r.value.data)
      && AfterMember(f, sub, 0, depth', p - a, o', name, filled')
        == Outcome(Success, r.pos - a, o'.errors, filled'.(data := ShiftData(r.value.data, a - base)))
    decreases |doc| - p, 0
  {
    hide ReadMembers, ReadToken, NextToken, RecoverPos;
    var t := NextToken(f, doc, o.pos);
    NextOverComment(f, doc, o.pos);
    NextTokenLocal(f, doc, a, b, sub, o.pos);
    ReadTokenLocal(f, doc, a, b, sub, o.pos);
    if t.kind != ObjectEnd {
      MembersLocal(f, doc, base, depth, t.end, o.errors, name, filled, a, b, sub, depth', o'.errors, filled');
    }
  }

  lemma ClosingBracket(f: Features, doc: bytes, s: nat)
    requires s < |doc| && doc[s] == ']'
    ensures ReadToken(f, doc, s) == Token(ArrayEnd, s, s + 1)
  {
    hide ScanString, ScanNumber, ScanComment, SignedToken, Match;
  }

  lemma {:induction false} ElementsLocal(f: Features, doc: bytes, base: nat, depth: nat, p: nat, errors: seq<ErrorInfo>,
                                         index: nat, cur: Value, a: nat, b: nat, sub: bytes, depth': nat,
                                         errors': seq<ErrorInfo>, cur': Value)
    requires !f.allowDroppedNullPlaceholders && depth' <= depth && Window(doc, a, b, sub, p)
    requires cur.data.Arr? && cur'.data == ShiftData(cur.data, a - base)
    requires var o := ReadElements(f, doc, base, depth, p, errors, index, cur); o.status == Success && o.pos <= b
    ensures var o := ReadElements(f, doc, base, depth, p, errors, index, cur);
      a <= o.pos && o.value == cur.(data := o.value.data)
      && ReadElements(f, sub, 0, depth', p - a, errors', index, cur')
        == Outcome(Success, o.pos - a, errors', cur'.(data := ShiftData(o.value.data, a - base)))
    decreases |doc| - p, 1
  {
    hide ReadValue, AfterElement, ReadToken, NextToken, SkipSpaces, Find, Put, Child, ShiftEntries, Shift;
    var s := SkipSpaces(doc, p);
    SkipSpacesLocal(doc, a, b, sub, p);
    if s < |doc| && doc[s] == ']' && (index == 0 || f.allowTrailingCommas) {
      ClosingBracket(f, doc, s);
      ReadTokenLocal(f, doc, a, b, sub, s);
    } else {
      var child := Child(cur.data.items, Index(index));
      var o := ReadValue(f, doc, base, depth + 1, s, errors, child);
      var filled := WithElement(cur, index, o.value);
      AfterElementSucceeds(f, doc, base, depth, p, o, index, filled);
      var child' := Child(cur'.data.items, Index(index));
      ValueLocal(f, doc, base, depth + 1, s, errors, child, a, b, sub, depth' + 1, errors', child');
      var o' := ReadValue(f, sub, 0, depth' + 1, s - a, errors', child');
      ShiftPut(cur.data.items, a - base, Index(index), o.value);
      AfterElementLocal(f, doc, base, depth, p, o, index, filled, a, b, sub, depth', o',
                        WithElement(cur', index, o'.value));
    }
  }

  lemma AfterElementSucceeds(f: Features, doc: bytes, base: nat, depth: nat, p: nat, o: Outcome, index: nat,
                             filled: Value)
    requires p <= o.pos <= |doc| && filled.data.Arr?
    requires AfterElement(f, doc, base, depth, p, o, index, filled).status == Success
    ensures o.status == Success
  {
    hide ReadElements, RecoverPos, NextToken;
  }

  lemma {:induction false} AfterElementLocal(f: Features, doc: bytes, base: nat, depth: nat, p: nat, o: Outcome,
                                             index: nat, filled: Value, a: nat, b: nat, sub: bytes, depth': nat,
                                             o': Outcome, filled': Value)
    requires !f.allowDroppedNullPlaceholders && depth' <= depth && p <= o.pos && a <= p && Window(doc, a, b, sub, o.pos)
    requires o.status == Success && o'.status == Success && o'.pos == o.pos - a
    requires filled.data.Arr? && filled'.data == ShiftData(filled.data, a - base)
    requires var r := AfterElement(f, doc, base, depth, p, o, index, filled); r.status == Success && r.pos <= b
    ensures var r := AfterElement(f, doc, base, depth, p, o, index, filled);
      a <= r.pos && r.value == filled.(data := r.value.data)
      && AfterElement(f, sub, 0, depth', p - a, o', index, filled')
        == Outcome(Success, r.pos - a, o'.errors, filled'.(data := ShiftData(r.value.data, a - base)))
    decreases |doc| - p, 0
  {
    hide ReadElements, NextToken, RecoverPos;
    var t := NextToken(f, doc, o.pos);
    NextTokenLocal(f, doc, a, b, sub, o.pos);
    if t.kind == ArraySeparator {
      ElementsLocal(f, doc, base, depth, t.end, o.errors, index + 1, filled, a, b, sub, depth', o'.errors, filled');
    }
  }
}
