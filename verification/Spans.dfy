/** Every node of a parsed value knows where it was written: the bytes of its span, parsed on their
    own, give the node back; spans nest as the nodes do, and siblings do not overlap. */
module Spans {
  import opened Bytes
  import opened JsonValues
  import opened Scanner
  import opened ReaderSpec
  import opened LocalReading
  import opened AccessPaths

  /** Parsing the bytes of the span alone gives the value back, whatever value is filled. */
  ghost predicate Spelled(f: Features, doc: bytes, base: nat, v: Value) {
    && 0 <= v.start < v.limit && base + v.limit <= |doc|
    && var sub := doc[base + v.start..base + v.limit];
       forall root :: Parse(f, sub, root) == Outcome(Success, |sub|, [], Shift(v, v.start))
  }

  /** The spans do not overlap. */
  predicate Apart(v: Value, w: Value) { v.limit <= w.start || w.limit <= v.start }

  predicate ApartFrom(v: Value, es: Entries) {
    es.Nil? || (Apart(v, es.val) && ApartFrom(v, es.rest))
  }

  /** Every node is spelled by its span, lies inside its parent's brackets, and apart from its siblings. */
  ghost predicate Traced(f: Features, doc: bytes, base: nat, v: Value)
    decreases v
  {
    Spelled(f, doc, base, v) &&
    match v.data
    case Arr(es) => EntriesTraced(f, doc, base, es, v.start + 1, v.limit - 1)
    case Obj(es) => EntriesTraced(f, doc, base, es, v.start + 1, v.limit - 1)
    case _ => true
  }

  ghost predicate EntriesTraced(f: Features, doc: bytes, base: nat, es: Entries, lo: int, hi: int)
    decreases es
  {
    match es
    case Nil => true
    case Cons(_, v, rest) =>
      lo <= v.start && v.limit <= hi && Traced(f, doc, base, v) && ApartFrom(v, rest)
      && EntriesTraced(f, doc, base, rest, lo, hi)
  }

  lemma {:induction false} Widen(f: Features, doc: bytes, base: nat, es: Entries, lo: int, hi: int, lo': int, hi': int)
    requires EntriesTraced(f, doc, base, es, lo, hi) && lo' <= lo && hi <= hi'
    ensures EntriesTraced(f, doc, base, es, lo', hi')
  {
    hide Traced;
    if es.Cons? {
      Widen(f, doc, base, es.rest, lo, hi, lo', hi');
    }
  }

  lemma {:induction false} LaterIsApart(f: Features, doc: bytes, base: nat, es: Entries, lo: int, hi: int, v: Value)
    requires EntriesTraced(f, doc, base, es, lo, hi) && hi <= v.start
    ensures ApartFrom(v, es)
  {
    hide Traced;
    if es.Cons? {
      LaterIsApart(f, doc, base, es.rest, lo, hi, v);
    }
  }

  lemma {:induction false} PutApart(w: Value, es: Entries, k: Key, v: Value)
    requires ApartFrom(w, es) && Apart(w, v)
    ensures ApartFrom(w, Put(es, k, v))
  {
    if es.Cons? {
      PutApart(w, es.rest, k, v);
    }
  }

  /** A later node joins the others, in the place of the one that had its key, if any. */
  lemma {:induction false} PutTraced(f: Features, doc: bytes, base: nat, es: Entries, lo: int, hi: int,
                                     k: Key, v: Value, hi': int)
    requires EntriesTraced(f, doc, base, es, lo, hi) && Traced(f, doc, base, v)
    requires lo <= hi <= v.start && v.limit <= hi' && hi <= hi'
    ensures EntriesTraced(f, doc, base, Put(es, k, v), lo, hi')
  {
    hide Traced;
    if es.Cons? {
      LaterIsApart(f, doc, base, es.rest, lo, hi, v);
      Widen(f, doc, base, es.rest, lo, hi, lo, hi');
      PutTraced(f, doc, base, es.rest, lo, hi, k, v, hi');
      PutApart(es.val, es.rest, k, v);
    }
  }

  // ----- A value re-read from its own bytes ----------------------------------------------------

  lemma SpacesAgain(doc: bytes, p: nat)
    requires p <= |doc|
    ensures var s := SkipSpaces(doc, p); SkipSpaces(doc, s) == s && (s < |doc| ==> !IsSpace(doc[s]))
    decreases |doc| - p
  {
    if p < |doc| && IsSpace(doc[p]) {
      SpacesAgain(doc, p + 1);
    }
  }

  lemma {:induction false} TokenAgain(f: Features, doc: bytes, p: nat)
    requires p <= |doc|
    ensures var t := ReadToken(f, doc, p); t.start <= |doc| && ReadToken(f, doc, t.start) == t
    ensures var t := NextToken(f, doc, p); t.start <= |doc| && ReadToken(f, doc, t.start) == t
    decreases |doc| - p
  {
    hide SkipSpaces, TokenFrom;
    SpacesAgain(doc, p);
    var t := ReadToken(f, doc, p);
    if t.kind == Comment {
      TokenAgain(f, doc, t.end);
    }
  }

  /** Reading from the first token of a value is reading from the space before it. */
  lemma FromFirstToken(f: Features, doc: bytes, base: nat, depth: nat, p: nat, errors: seq<ErrorInfo>, cur: Value)
    requires p <= |doc| && depth <= f.stackLimit && SkipComments(f, doc, p).kind != Comment
    ensures var t := SkipComments(f, doc, p);
      ReadValue(f, doc, base, depth, t.start, errors, cur) == ReadValue(f, doc, base, depth, p, errors, cur)
  {
    hide ReadValue, ReadMembers, ReadElements, ReadScalar, ReadToken;
    var t := SkipComments(f, doc, p);
    StringTokenLength(f, doc, p);
    TokenAgain(f, doc, p);
    ReadValueStep(f, doc, base, depth, p, errors, cur, t);
    ReadValueStep(f, doc, base, depth, t.start, errors, cur, t);
  }

  lemma MarkFirst(doc: bytes)
    requires doc != []
    ensures At(doc, 0, BOM) ==> doc[0] == 0xEF as char
  {
    if At(doc, 0, BOM) {
      AtIndex(doc, 0, BOM, 0);
    }
  }

  /** A value starts with no byte order mark. */
  lemma NoMark(f: Features, doc: bytes, a: nat, b: nat)
    requires a < b <= |doc| && ReadToken(f, doc, a).kind != ErrorToken
    ensures BomLength(f, doc[a..b]) == 0
  {
    hide ScanString, ScanNumber, ScanComment, SignedToken, Match;
    MarkFirst(doc[a..b]);
    assert doc[a..b][0] == doc[a];
  }

  /** The span of a value that was read. */
  lemma ReadSpan(f: Features, doc: bytes, base: nat, depth: nat, p: nat, errors: seq<ErrorInfo>, cur: Value)
    requires p <= |doc| && depth <= f.stackLimit && !f.allowDroppedNullPlaceholders
    requires ReadValue(f, doc, base, depth, p, errors, cur).status == Success
    ensures var o := ReadValue(f, doc, base, depth, p, errors, cur); var t := SkipComments(f, doc, p);
      o.value.start == t.start - base && o.value.limit == o.pos - base && t.start < t.end <= o.pos
      && t.kind != ErrorToken && t.kind != Comment
  {
    hide ReadValue, ReadMembers, ReadElements, ReadToken, NextToken, SkipComments;
    hide Numbers.DecodeNumber, Strings.Unescape;
    var t := SkipComments(f, doc, p);
    StringTokenLength(f, doc, p);
    ReadValueStep(f, doc, base, depth, p, errors, cur, t);
    FirstTokenWithin(f, doc, base, depth, p, errors, cur);
    var c := Value(Obj(Nil), t.start - base, cur.limit);
    if t.kind == ObjectBegin {
      MembersLocal(f, doc, base, depth, t.end, errors, [], c, 0, |doc|, doc[0..|doc|], depth, errors, c);
    } else if t.kind == ArrayBegin {
      var c := Value(Arr(Nil), t.start - base, cur.limit);
      ElementsLocal(f, doc, base, depth, t.end, errors, 0, c, 0, |doc|, doc[0..|doc|], depth, errors, c);
    }
  }

  /** Parsing the bytes of the span of a value that was read, and nothing else, gives the value. */
  lemma ReadSpelled(f: Features, doc: bytes, base: nat, depth: nat, p: nat, errors: seq<ErrorInfo>, cur: Value)
    requires base <= p <= |doc| && 1 <= depth <= f.stackLimit && !f.allowDroppedNullPlaceholders && !f.strictRoot
    requires ReadValue(f, doc, base, depth, p, errors, cur).status == Success
    ensures Spelled(f, doc, base, ReadValue(f, doc, base, depth, p, errors, cur).value)
  {
    hide ReadValue, SkipComments, ReadToken, BomLength;
    var o := ReadValue(f, doc, base, depth, p, errors, cur);
    var t := SkipComments(f, doc, p);
    ReadSpan(f, doc, base, depth, p, errors, cur);
    FromFirstToken(f, doc, base, depth, p, errors, cur);
    TokenKindAgain(f, doc, p);
    NoMark(f, doc, t.start, o.pos);
    var sub := doc[t.start..o.pos];
    forall root ensures Parse(f, sub, root) == Outcome(Success, |sub|, [], Shift(o.value, o.value.start)) {
      ValueLocal(f, doc, base, depth, t.start, errors, cur, t.start, o.pos, sub, 1, [], root);
      AtEnd(f, sub);
    }
  }

  lemma TokenKindAgain(f: Features, doc: bytes, p: nat)
    requires p <= |doc|
    ensures var t := SkipComments(f, doc, p); ReadToken(f, doc, t.start).kind == t.kind
  {
    TokenAgain(f, doc, p);
  }

  lemma AtEnd(f: Features, doc: bytes)
    ensures SkipComments(f, doc, |doc|) == Token(EndOfStream, |doc|, |doc|)
  {}

  // ----- All the nodes of a value that was read ------------------------------------------------

  lemma {:induction false} ValueTraced(f: Features, doc: bytes, base: nat, depth: nat, p: nat,
                                       errors: seq<ErrorInfo>, cur: Value)
    requires base <= p <= |doc| && 1 <= depth && !f.allowDroppedNullPlaceholders && !f.strictRoot
    requires ReadValue(f, doc, base, depth, p, errors, cur).status == Success
    ensures Traced(f, doc, base, ReadValue(f, doc, base, depth, p, errors, cur).value)
    decreases |doc| - p, 0
  {
    hide ReadValue, ReadMembers, ReadElements, ReadScalar, SkipComments, ReadToken, NextToken, Spelled, EntriesTraced;
    hide Numbers.DecodeNumber, Strings.Unescape;
    if depth > f.stackLimit {
      ReadValueThrows(f, doc, base, depth, p, errors, cur);
    } else {
      var t := SkipComments(f, doc, p);
      StringTokenLength(f, doc, p);
      ReadValueStep(f, doc, base, depth, p, errors, cur, t);
      ReadSpelled(f, doc, base, depth, p, errors, cur);
      ReadSpan(f, doc, base, depth, p, errors, cur);
      if t.kind == ObjectBegin {
        ObjectTraced(f, doc, base, depth, t, errors, cur.limit);
      } else if t.kind == ArrayBegin {
        ArrayTraced(f, doc, base, depth, t, errors, cur.limit);
      } else {
        ScalarHasNoNodes(f, doc, base, t, errors, cur);
      }
    }
  }

  lemma {:induction false} ObjectTraced(f: Features, doc: bytes, base: nat, depth: nat, t: Token,
                                        errors: seq<ErrorInfo>, limit: int)
    requires base <= t.start < t.end <= |doc| && !f.allowDroppedNullPlaceholders && !f.strictRoot
    requires var o := ReadMembers(f, doc, base, depth, t.end, errors, [], Value(Obj(Nil), t.start - base, limit));
      o.status == Success
    ensures var o := ReadMembers(f, doc, base, depth, t.end, errors, [], Value(Obj(Nil), t.start - base, limit));
      o.value.data.Obj? && EntriesTraced(f, doc, base, o.value.data.members, t.start - base + 1, o.pos - base - 1)
    decreases |doc| - t.end, 2
  {
    hide ReadMembers;
    var c := Value(Obj(Nil), t.start - base, limit);
    var o := ReadMembers(f, doc, base, depth, t.end, errors, [], c);
    MembersTraced(f, doc, base, depth, t.end, errors, [], c, t.end - base);
    Widen(f, doc, base, o.value.data.members, t.end - base, o.pos - base - 1, t.start - base + 1, o.pos - base - 1);
  }

  lemma {:induction false} ArrayTraced(f: Features, doc: bytes, base: nat, depth: nat, t: Token,
                                       errors: seq<ErrorInfo>, limit: int)
    requires base <= t.start < t.end <= |doc| && !f.allowDroppedNullPlaceholders && !f.strictRoot
    requires var o := ReadElements(f, doc, base, depth, t.end, errors, 0, Value(Arr(Nil), t.start - base, limit));
      o.status == Success
    ensures var o := ReadElements(f, doc, base, depth, t.end, errors, 0, Value(Arr(Nil), t.start - base, limit));
      o.value.data.Arr? && EntriesTraced(f, doc, base, o.value.data.items, t.start - base + 1, o.pos - base - 1)
    decreases |doc| - t.end, 2
  {
    hide ReadElements;
    var c := Value(Arr(Nil), t.start - base, limit);
    var o := ReadElements(f, doc, base, depth, t.end, errors, 0, c);
    ElementsTraced(f, doc, base, depth, t.end, errors, 0, c, t.end - base);
    Widen(f, doc, base, o.value.data.items, t.end - base, o.pos - base - 1, t.start - base + 1, o.pos - base - 1);
  }

  lemma ScalarHasNoNodes(f: Features, doc: bytes, base: nat, t: Token, errors: seq<ErrorInfo>, cur: Value)
    requires ReadScalar.requires(f, doc, base, t, errors, cur)
    requires ReadScalar(f, doc, base, t, errors, cur).status == Success
    ensures var d := ReadScalar(f, doc, base, t, errors, cur).value.data; !d.Arr? && !d.Obj?
  {}

  lemma {:induction false} MembersTraced(f: Features, doc: bytes, base: nat, depth: nat, p: nat, errors: seq<ErrorInfo>,
                                         name: bytes, cur: Value, lo: int)
    requires base <= p <= |doc| && !f.allowDroppedNullPlaceholders && !f.strictRoot
    requires cur.data.Obj? && lo <= p - base && EntriesTraced(f, doc, base, cur.data.members, lo, p - base)
    requires ReadMembers(f, doc, base, depth, p, errors, name, cur).status == Success
    ensures var o := ReadMembers(f, doc, base, depth, p, errors, name, cur);
      o.value.data.Obj? && EntriesTraced(f, doc, base, o.value.data.members, lo, o.pos - base - 1)
    decreases |doc| - p, 1
  {
    hide ReadValue, AfterMember, ReadHeader, Find, Put, Child, Traced, EntriesTraced;
    var h := ReadHeader(f, doc, p, errors, name, cur);
    HeaderStops(f, doc, p, errors, name, cur);
    if h.Go? {
      var child := Child(cur.data.members, Name(h.name));
      var o := ReadValue(f, doc, base, depth + 1, h.pos, errors, child);
      var filled := WithMember(cur, h.name, o.value);
      AfterMemberSucceeds(f, doc, base, depth, p, o, h.name, filled);
      ValueTraced(f, doc, base, depth + 1, h.pos, errors, child);
      ReadValueDepth(f, doc, base, depth + 1, h.pos, errors, child);
      ReadSpan(f, doc, base, depth + 1, h.pos, errors, child);
      PutTraced(f, doc, base, cur.data.members, lo, p - base, Name(h.name), o.value, o.pos - base);
      AfterMemberTraced(f, doc, base, depth, p, o, h.name, filled, lo);
    } else {
      Widen(f, doc, base, cur.data.members, lo, p - base, lo, h.o.pos - base - 1);
    }
  }

  lemma ReadValueDepth(f: Features, doc: bytes, base: nat, depth: nat, p: nat, errors: seq<ErrorInfo>, cur: Value)
    requires p <= |doc| && ReadValue(f, doc, base, depth, p, errors, cur).status == Success
    ensures depth <= f.stackLimit
  {
    if depth > f.stackLimit {
      ReadValueThrows(f, doc, base, depth, p, errors, cur);
    }
  }

  lemma HeaderStops(f: Features, doc: bytes, p: nat, errors: seq<ErrorInfo>, name: bytes, cur: Value)
    requires p <= |doc| && cur.data.Obj?
    ensures var h := ReadHeader(f, doc, p, errors, name, cur);
      h.Stop? && h.o.status == Success ==> h.o.value == cur && p < h.o.pos
  {
    hide NextToken, ReadToken, NameOf, RecoverPos, Find;
  }

  lemma {:induction false} AfterMemberTraced(f: Features, doc: bytes, base: nat, depth: nat, p: nat, o: Outcome,
                                             name: bytes, filled: Value, lo: int)
    requires base <= p < o.pos <= |doc| && !f.allowDroppedNullPlaceholders && !f.strictRoot && o.status == Success
    requires filled.data.Obj? && lo <= o.pos - base
    requires EntriesTraced(f, doc, base, filled.data.members, lo, o.pos - base)
    requires AfterMember(f, doc, base, depth, p, o, name, filled).status == Success
    ensures var r := AfterMember(f, doc, base, depth, p, o, name, filled);
      r.value.data.Obj? && EntriesTraced(f, doc, base, r.value.data.members, lo, r.pos - base - 1)
    decreases |doc| - p, 0
  {
    hide ReadMembers, ReadToken, NextToken, RecoverPos, Traced, EntriesTraced;
    var t := NextToken(f, doc, o.pos);
    if t.kind == ObjectEnd {
      Widen(f, doc, base, filled.data.members, lo, o.pos - base, lo, t.end - base - 1);
    } else {
      Widen(f, doc, base, filled.data.members, lo, o.pos - base, lo, t.end - base);
      MembersTraced(f, doc, base, depth, t.end, o.errors, name, filled, lo);
    }
  }

  lemma {:induction false} ElementsTraced(f: Features, doc: bytes, base: nat, depth: nat, p: nat,
                                          errors: seq<ErrorInfo>, index: nat, cur: Value, lo: int)
    requires base <= p <= |doc| && !f.allowDroppedNullPlaceholders && !f.strictRoot
    requires cur.data.Arr? && lo <= p - base && EntriesTraced(f, doc, base, cur.data.items, lo, p - base)
    requires ReadElements(f, doc, base, depth, p, errors, index, cur).status == Success
    ensures var o := ReadElements(f, doc, base, depth, p, errors, index, cur);
      o.value.data.Arr? && EntriesTraced(f, doc, base, o.value.data.items, lo, o.pos - base - 1)
    decreases |doc| - p, 1
  {
    hide ReadValue, AfterElement, ReadToken, SkipSpaces, Find, Put, Child, Traced, EntriesTraced;
    var s := SkipSpaces(doc, p);
    if s < |doc| && doc[s] == ']' && (index == 0 || f.allowTrailingCommas) {
      ClosingBracket(f, doc, s);
      Widen(f, doc, base, cur.data.items, lo, p - base, lo, s - base);
    } else {
      var child := Child(cur.data.items, Index(index));
      var o := ReadValue(f, doc, base, depth + 1, s, errors, child);
      var filled := WithElement(cur, index, o.value);
      AfterElementSucceeds(f, doc, base, depth, p, o, index, filled);
      ValueTraced(f, doc, base, depth + 1, s, errors, child);
      ReadValueDepth(f, doc, base, depth + 1, s, errors, child);
      ReadSpan(f, doc, base, depth + 1, s, errors, child);
      PutTraced(f, doc, base, cur.data.items, lo, p - base, Index(index), o.value, o.pos - base);
      AfterElementTraced(f, doc, base, depth, p, o, index, filled, lo);
    }
  }

  lemma {:induction false} AfterElementTraced(f: Features, doc: bytes, base: nat, depth: nat, p: nat, o: Outcome,
                                              index: nat, filled: Value, lo: int)
    requires base <= p <= o.pos <= |doc| && !f.allowDroppedNullPlaceholders && !f.strictRoot && o.status == Success
    requires filled.data.Arr? && lo <= o.pos - base
    requires EntriesTraced(f, doc, base, filled.data.items, lo, o.pos - base)
    requires AfterElement(f, doc, base, depth, p, o, index, filled).status == Success
    ensures var r := AfterElement(f, doc, base, depth, p, o, index, filled);
      r.value.data.Arr? && EntriesTraced(f, doc, base, r.value.data.items, lo, r.pos - base - 1)
    decreases |doc| - p, 0
  {
    hide ReadElements, ReadToken, NextToken, RecoverPos, Traced, EntriesTraced;
    var t := NextToken(f, doc, o.pos);
    if t.kind == ArrayEnd {
      Widen(f, doc, base, filled.data.items, lo, o.pos - base, lo, t.end - base - 1);
    } else {
      Widen(f, doc, base, filled.data.items, lo, o.pos - base, lo, t.end - base);
      ElementsTraced(f, doc, base, depth, t.end, o.errors, index + 1, filled, lo);
    }
  }

  /** After a successful parse every node is spelled by its own bytes, inside its parent's brackets,
      apart from its siblings. */
  lemma ParseTraced(f: Features, doc: bytes, root: Value)
    requires !f.allowDroppedNullPlaceholders && !f.strictRoot && Parse(f, doc, root).status == Success
    ensures Traced(f, doc, BomLength(f, doc), Parse(f, doc, root).value)
  {
    hide ReadValue, SkipComments, Traced, BomLength;
    var base := BomLength(f, doc);
    ValueTraced(f, doc, base, 1, base, [], root);
  }

  // ----- The same, along the access paths ------------------------------------------------------

  lemma {:induction false} EntryTraced(f: Features, doc: bytes, base: nat, es: Entries, lo: int, hi: int, k: Key)
    requires EntriesTraced(f, doc, base, es, lo, hi) && Find(es, k).Some?
    ensures var v := Find(es, k).value; Traced(f, doc, base, v) && lo <= v.start && v.limit <= hi
  {
    hide Traced;
    if es.key != k {
      EntryTraced(f, doc, base, es.rest, lo, hi, k);
    }
  }

  lemma {:induction false} ApartFromEntry(v: Value, es: Entries, k: Key)
    requires ApartFrom(v, es) && Find(es, k).Some?
    ensures Apart(v, Find(es, k).value)
  {
    if es.key != k {
      ApartFromEntry(v, es.rest, k);
    }
  }

  lemma {:induction false} EntriesApart(f: Features, doc: bytes, base: nat, es: Entries, lo: int, hi: int, j: Key,
                                        k: Key)
    requires EntriesTraced(f, doc, base, es, lo, hi) && j != k && Find(es, j).Some? && Find(es, k).Some?
    ensures Apart(Find(es, j).value, Find(es, k).value)
  {
    hide Traced;
    if es.key == j {
      ApartFromEntry(es.val, es.rest, k);
    } else if es.key == k {
      ApartFromEntry(es.val, es.rest, j);
    } else {
      EntriesApart(f, doc, base, es.rest, lo, hi, j, k);
    }
  }

  lemma {:induction false} NodeTraced(f: Features, doc: bytes, base: nat, v: Value, path: Path)
    requires Traced(f, doc, base, v) && InTree(v, path)
    ensures Traced(f, doc, base, GetAt(v, path))
    decreases |path|
  {
    if path != [] {
      EntryTraced(f, doc, base, EntriesOf(v), v.start + 1, v.limit - 1, path[0]);
      NodeTraced(f, doc, base, ChildAt(v, path[0]), path[1..]);
    }
  }

  /** Any node of a parsed value: the bytes of its span alone parse to it. */
  lemma NodeSpelled(f: Features, doc: bytes, root: Value, path: Path)
    requires !f.allowDroppedNullPlaceholders && !f.strictRoot && Parse(f, doc, root).status == Success
    requires InTree(Parse(f, doc, root).value, path)
    ensures Spelled(f, doc, BomLength(f, doc), GetAt(Parse(f, doc, root).value, path))
  {
    hide Parse, BomLength, Spelled;
    ParseTraced(f, doc, root);
    NodeTraced(f, doc, BomLength(f, doc), Parse(f, doc, root).value, path);
  }

  /** Any two children of a node of a parsed value lie inside it and apart from each other. */
  lemma SiblingsApart(f: Features, doc: bytes, root: Value, path: Path, j: Key, k: Key)
    requires !f.allowDroppedNullPlaceholders && !f.strictRoot && Parse(f, doc, root).status == Success
    requires var v := Parse(f, doc, root).value;
      InTree(v, path) && HasChild(GetAt(v, path), j) && HasChild(GetAt(v, path), k) && j != k
    ensures var v := GetAt(Parse(f, doc, root).value, path); var x := ChildAt(v, j); var y := ChildAt(v, k);
      v.start < x.start && x.limit < v.limit && v.start < y.start && y.limit < v.limit && Apart(x, y)
  {
    hide Parse, BomLength, Spelled;
    ParseTraced(f, doc, root);
    var base := BomLength(f, doc);
    var v := GetAt(Parse(f, doc, root).value, path);
    NodeTraced(f, doc, base, Parse(f, doc, root).value, path);
    EntryTraced(f, doc, base, EntriesOf(v), v.start + 1, v.limit - 1, j);
    EntryTraced(f, doc, base, EntriesOf(v), v.start + 1, v.limit - 1, k);
    EntriesApart(f, doc, base, EntriesOf(v), v.start + 1, v.limit - 1, j, k);
  }
}
