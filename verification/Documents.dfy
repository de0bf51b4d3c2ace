/** Writing a document and reading it back, with the writers and the reader as they are. */
module Documents {
  import opened Bytes
  import opened JsonValues
  import opened Canonical
  import opened RoundTrip
  import opened Dropping
  import opened Layouts
  import Grammar
  import ReaderSpec
  import FastWriting
  import StyledWriting
  import BuiltStyledWriting
  import Truncation
  import Reader

  method ThroughFastWriter(w: FastWriting.FastWriter, r: Reader.OurReader, value: Value, root: Value)
    returns (status: ReaderSpec.Status)
    requires WellFormed(value.data) && Keeps(value.data, w.Style(), r.features.toDouble)
    requires w.dropNullPlaceholders ==> r.features.allowDroppedNullPlaceholders && !value.data.Null?
    requires Accepts(r.features, value.data) && Ordered(root)
    modifies w, r
    ensures if w.dropNullPlaceholders then CameBackFilled(value.data, status, r.errors, r.root)
            else CameBack(value.data, status, r.errors, r.root)
  {
    hide ReaderSpec.Parse, Grammar.Text, Canon, ReadBack, CameBack, CameBackFilled;
    var text := w.Write(value);
    status := r.Parse(text, root);
    ghost var bare := w.Style().(gap := []);
    CanonGap(value.data, w.Style());
    KeepsGap(value.data, w.Style(), r.features.toDouble);
    ghost var t := Canon(value.data, w.Style());
    ghost var trail: bytes := if w.omitEndingLineFeed then [] else "\n";
    assert [] + Grammar.Text(t) + trail == text;
    if w.dropNullPlaceholders {
      DroppedRoundTrip(value.data, bare, r.features, [], t, trail, root);
    } else {
      DocumentRoundTrip(value.data, bare, r.features, [], t, trail, root);
    }
  }

  method ThroughStyledWriter(w: StyledWriting.StyledWriter, r: Reader.OurReader, value: Value, root: Value)
    returns (status: ReaderSpec.Status)
    requires Writable(value.data) && Keeps(value.data, w.Style(), r.features.toDouble)
    requires Accepts(r.features, value.data) && Ordered(root)
    modifies w, r
    ensures CameBack(value.data, status, r.errors, r.root) <==> StyledWriting.NamesNulFree(value.data)
  {
    hide ReaderSpec.Parse, Grammar.Text, Canon, ReadBack, CameBack, Laid;
    var text := w.Write(value);
    status := r.Parse(text, root);
    ghost var t := Laid(StyledWriting.Truncate(value.data), 0, w.Manner());
    LaidBare(StyledWriting.Truncate(value.data), 0, w.Manner());
    assert [] + Grammar.Text(t) + "\n" == text;
    if StyledWriting.NamesNulFree(value.data) {
      StyledWriting.NothingCut(value.data, w.Style());
      DocumentRoundTrip(value.data, w.Style(), r.features, [], t, "\n", root);
    } else {
      Truncation.CutLost(value.data, w.Style(), r.features, [], t, "\n", root);
    }
  }

  method ThroughBuiltStyledWriter(w: BuiltStyledWriting.BuiltStyledStreamWriter, r: Reader.OurReader, value: Value,
                                  root: Value)
    returns (status: ReaderSpec.Status)
    requires Writable(value.data) && Keeps(value.data, w.Style(), r.features.toDouble)
    requires w.dropNulls ==> r.features.allowDroppedNullPlaceholders && !value.data.Null?
    requires w.Valid() && Accepts(r.features, value.data) && Ordered(root)
    modifies w, r
    ensures if w.dropNulls then CameBackFilled(value.data, status, r.errors, r.root)
            else CameBack(value.data, status, r.errors, r.root)
  {
    hide ReaderSpec.Parse, Grammar.Text, Canon, ReadBack, Laid, CameBack, CameBackFilled;
    var text := w.Write(value);
    status := r.Parse(text, root);
    ghost var t := Laid(value.data, 0, w.Manner());
    LaidBare(value.data, 0, w.Manner());
    assert [] + Grammar.Text(t) + w.endingLineFeedSymbol == text;
    if w.dropNulls {
      DroppedRoundTrip(value.data, w.Style(), r.features, [], t, w.endingLineFeedSymbol, root);
    } else {
      DocumentRoundTrip(value.data, w.Style(), r.features, [], t, w.endingLineFeedSymbol, root);
    }
  }

  lemma {:induction false} KeepsGap(p: Payload, style: Style, toDouble: Parser)
    ensures Keeps(p, style.(gap := []), toDouble) == Keeps(p, style, toDouble)
  {
    match p
    case Arr(es) => EntriesKeepGap(es, style, toDouble);
    case Obj(es) => EntriesKeepGap(es, style, toDouble);
    case _ =>
  }

  lemma {:induction false} EntriesKeepGap(es: Entries, style: Style, toDouble: Parser)
    ensures KeepsEntries(es, style.(gap := []), toDouble) == KeepsEntries(es, style, toDouble)
  {
    if es.Cons? {
      KeepsGap(es.val.data, style, toDouble);
      EntriesKeepGap(es.rest, style, toDouble);
    }
  }
}
