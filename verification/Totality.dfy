/** Parsing is total: on every byte string and every feature setting it stops, and a failure leaves
    exactly one error however deep the recovery, a success none. */
module Totality {
  import opened Bytes
  import opened JsonValues
  import opened Scanner
  import opened Numbers
  import opened ReaderSpec

  /** One more error after a failure, the same errors otherwise; the value's maps stay in order; and an
      array can only have too many elements for an int in a document of 2^31 bytes or more. */
  predicate Accounted(doc: bytes, o: Outcome, errors: seq<ErrorInfo>) {
    && (o.status == Failure ==> |o.errors| == |errors| + 1 && o.errors[..|errors|] == errors)
    && (o.status != Failure ==> o.errors == errors)
    && (o.status == Undefined ==> |doc| > MAX_INT32)
    && Ordered(o.value)
  }

  lemma ScalarAccounted(f: Features, doc: bytes, base: nat, t: Token, errors: seq<ErrorInfo>, cur: Value)
    requires ReadScalar.requires(f, doc, base, t, errors, cur) && Ordered(cur)
    ensures Accounted(doc, ReadScalar(f, doc, base, t, errors, cur), errors)
  {}

  lemma ChildOrdered(es: Entries, k: Key)
    requires EntriesOrdered(es)
    ensures Ordered(Child(es, k))
  {
    if Find(es, k).Some? {
      FindOrdered(es, k);
    }
  }

  lemma {:induction false} ValueAccounted(f: Features, doc: bytes, base: nat, depth: nat, p: nat,
                                          errors: seq<ErrorInfo>, cur: Value)
    requires p <= |doc| && Ordered(cur)
    ensures Accounted(doc, ReadValue(f, doc, base, depth, p, errors, cur), errors)
    decreases |doc| - p, 0
  {
    hide ReadValue, ReadMembers, ReadElements, ReadScalar, SkipComments;
    if depth > f.stackLimit {
      ReadValueThrows(f, doc, base, depth, p, errors, cur);
    } else {
      var t := SkipComments(f, doc, p);
      StringTokenLength(f, doc, p);
      ReadValueStep(f, doc, base, depth, p, errors, cur, t);
      if t.kind == ObjectBegin {
        MembersAccounted(f, doc, base, depth, t.end, errors, [], Value(Obj(Nil), t.start - base, cur.limit));
      } else if t.kind == ArrayBegin {
        ElementsAccounted(f, doc, base, depth, t.end, errors, 0, Value(Arr(Nil), t.start - base, cur.limit));
      } else {
        ScalarAccounted(f, doc, base, t, errors, cur);
      }
    }
  }

  lemma {:induction false} MembersAccounted(f: Features, doc: bytes, base: nat, depth: nat, p: nat,
                                            errors: seq<ErrorInfo>, name: bytes, cur: Value)
    requires p <= |doc| && cur.data.Obj? && Ordered(cur)
    ensures Accounted(doc, ReadMembers(f, doc, base, depth, p, errors, name, cur), errors)
    decreases |doc| - p, 1
  {
    hide ReadValue, AfterMember, ReadHeader, Find, Put, Child;
    HeaderAccounted(f, doc, p, errors, name, cur);
    match ReadHeader(f, doc, p, errors, name, cur)
    case Stop(_) =>
    case Go(newName, q) =>
      ChildOrdered(cur.data.members, Name(newName));
      ValueAccounted(f, doc, base, depth + 1, q, errors, Child(cur.data.members, Name(newName)));
      var o := ReadValue(f, doc, base, depth + 1, q, errors, Child(cur.data.members, Name(newName)));
      PutOrdered(cur.data.members, Name(newName), o.value);
      AfterAccounted(f, doc, base, depth, p, o, newName, WithMember(cur, newName, o.value), errors);
  }

  lemma HeaderAccounted(f: Features, doc: bytes, p: nat, errors: seq<ErrorInfo>, name: bytes, cur: Value)
    requires p <= |doc| && cur.data.Obj? && Ordered(cur)
    ensures var h := ReadHeader(f, doc, p, errors, name, cur); h.Stop? ==> Accounted(doc, h.o, errors)
  {
    hide NextToken, ReadToken, NameOf, RecoverPos;
  }

  lemma {:induction false} AfterAccounted(f: Features, doc: bytes, base: nat, depth: nat, p: nat, o: Outcome,
                                          name: bytes, filled: Value, errors: seq<ErrorInfo>)
    requires p < o.pos <= |doc| && filled.data.Obj? && Ordered(filled) && Accounted(doc, o, errors)
    ensures Accounted(doc, AfterMember(f, doc, base, depth, p, o, name, filled), errors)
    decreases |doc| - p, 0
  {
    hide ReadMembers, NextToken, ReadToken, RecoverPos;
    if o.status == Success {
      var t := NextToken(f, doc, o.pos);
      if t.kind != ObjectEnd {
        MembersAccounted(f, doc, base, depth, t.end, o.errors, name, filled);
      }
    }
  }

  lemma {:induction false} ElementsAccounted(f: Features, doc: bytes, base: nat, depth: nat, p: nat,
                                             errors: seq<ErrorInfo>, index: nat, cur: Value)
    requires index < p <= |doc| && cur.data.Arr? && Ordered(cur)
    ensures Accounted(doc, ReadElements(f, doc, base, depth, p, errors, index, cur), errors)
    decreases |doc| - p, 1
  {
    hide ReadValue, ReadToken, SkipSpaces, Find, Put, Child;
    var s := SkipSpaces(doc, p);
    var child := Child(cur.data.items, Index(index));
    ChildOrdered(cur.data.items, Index(index));
    ValueAccounted(f, doc, base, depth + 1, s, errors, child);
    var o := ReadValue(f, doc, base, depth + 1, s, errors, child);
    PutOrdered(cur.data.items, Index(index), o.value);
    AfterElementAccounted(f, doc, base, depth, p, o, index, WithElement(cur, index, o.value), errors);
  }

  lemma {:induction false} AfterElementAccounted(f: Features, doc: bytes, base: nat, depth: nat, p: nat, o: Outcome,
                                                 index: nat, filled: Value, errors: seq<ErrorInfo>)
    requires index < p <= o.pos <= |doc| && filled.data.Arr? && Ordered(filled) && Accounted(doc, o, errors)
    ensures Accounted(doc, AfterElement(f, doc, base, depth, p, o, index, filled), errors)
    decreases |doc| - p, 0
  {
    hide ReadElements, NextToken, ReadToken, RecoverPos;
    if o.status == Success {
      var t := NextToken(f, doc, o.pos);
      if t.kind == ArraySeparator {
        ElementsAccounted(f, doc, base, depth, t.end, o.errors, index + 1, filled);
      }
    }
  }

  /** parse: it stops inside the document; it reports success exactly when it records no error at all;
      and it records at most one error for the value and one for what is wrong around it. */
  lemma ParseTotal(f: Features, doc: bytes, root: Value)
    requires Ordered(root)
    ensures var o := Parse(f, doc, root);
      && o.pos <= |doc| && Ordered(o.value)
      && (o.status == Success ==> o.errors == [])
      && (o.status == Failure ==> 1 <= |o.errors| <= 2)
      && (Aborted(o.status) ==> o.errors == [])
      && (|doc| <= MAX_INT32 ==> o.status != Undefined)
  {
    hide ReadValue, SkipComments;
    var base := BomLength(f, doc);
    ValueAccounted(f, doc, base, 1, base, [], root);
  }

  // ----- Where recovery stops ------------------------------------------------------------------

  /** The position behind the first `n` tokens. */
  function Behind(f: Features, doc: bytes, p: nat, n: nat): (q: nat)
    requires p <= |doc|
    ensures q <= |doc|
    decreases n
  {
    if n == 0 then p else Behind(f, doc, ReadToken(f, doc, p).end, n - 1)
  }

  /** recoverFromError stops behind the first token of the kind, or at the end of the text. */
  lemma {:induction false} RecoverStops(f: Features, doc: bytes, p: nat, kind: TokenType) returns (n: nat)
    requires p <= |doc|
    ensures forall k :: 0 <= k < n ==>
      var t := ReadToken(f, doc, Behind(f, doc, p, k)); t.kind != kind && t.kind != EndOfStream
    ensures var t := ReadToken(f, doc, Behind(f, doc, p, n));
      (t.kind == kind || t.kind == EndOfStream) && RecoverPos(f, doc, p, kind) == t.end
    decreases |doc| - p
  {
    hide ReadToken;
    var t := ReadToken(f, doc, p);
    if t.kind == kind || t.kind == EndOfStream {
      n := 0;
    } else {
      var m := RecoverStops(f, doc, t.end, kind);
      n := m + 1;
      forall k | 0 <= k < n
        ensures var u := ReadToken(f, doc, Behind(f, doc, p, k)); u.kind != kind && u.kind != EndOfStream {
        if k > 0 {
          assert Behind(f, doc, p, k) == Behind(f, doc, t.end, k - 1);
        }
      }
    }
  }
}
