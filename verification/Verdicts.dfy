/** Exactly which texts are accepted, with which value, under every setting of the features; and what stops
    the others. */
module Verdicts {
  import opened Bytes
  import opened JsonValues
  import opened Numbers
  import opened Grammar
  import opened Scanner
  import opened ReaderSpec
  import opened Completeness

  // ----- What the features permit --------------------------------------------------------------

  /** Every extension in the tree is permitted. */
  ghost predicate Permits(f: Features, t: Tree)
    requires ValidTree(t, f.toDouble)
    decreases t
  {
    match t
    case TSingle(_) => f.allowSingleQuotes
    case TSpecial(_) => f.allowSpecialFloats
    case TDropped => f.allowDroppedNullPlaceholders
    case TArray(_, es) => PermitsElements(f, es)
    case TObject(_, ms) => PermitsMembers(f, [], ms)
    case _ => true
  }

  ghost predicate PermitsElements(f: Features, es: Elements)
    requires ValidElements(es, f.toDouble)
    decreases es
  {
    match es
    case NoElement => true
    case LastComma(_) => f.allowTrailingCommas
    case Element(before, value, _, rest) =>
      (f.allowComments || AllSpace(before)) && Permits(f, value) && PermitsElements(f, rest)
  }

  /** A final comma also passes behind an empty name. */
  ghost predicate PermitsMembers(f: Features, name: bytes, ms: Members)
    requires ValidMembers(ms, f.toDouble)
    decreases ms
  {
    match ms
    case NoMember => true
    case FinalComma(_) => f.allowTrailingCommas || name == []
    case Member(_, tag, _, before2, value, _, rest) =>
      && PermitsLabel(f, tag) && (f.allowComments || AllSpace(before2)) && Permits(f, value)
      && PermitsMembers(f, LabelName(tag), rest)
  }

  /** Within the limits, with extensions only where they are permitted. */
  ghost predicate Acceptable(f: Features, depth: nat, t: Tree) {
    && ValidTree(t, f.toDouble) && depth + Depth(t) <= f.stackLimit + 1 && InLimits(t, f.rejectDupKeys, f.toDouble)
    && Permits(f, t)
  }

  /** There is no obstacle exactly for acceptable trees. */
  lemma {:induction false} StatusAcceptable(f: Features, depth: nat, gap: bytes, t: Tree)
    requires ValidTree(t, f.toDouble)
    ensures TreeStatus(f, depth, gap, t) == Success <==> Acceptable(f, depth, t) && (f.allowComments || AllSpace(gap))
    decreases t
  {
    DepthPositive(t);
    if depth <= f.stackLimit {
      match t
      case TArray(_, es) => ElementsStatusAcceptable(f, depth, 0, es);
      case TObject(_, ms) => MembersStatusAcceptable(f, depth, [], {}, ms);
      case _ =>
    }
  }

  lemma DepthPositive(t: Tree)
    ensures Depth(t) >= 1
  {}

  lemma {:induction false} ElementsStatusAcceptable(f: Features, depth: nat, index: nat, es: Elements)
    requires ValidElements(es, f.toDouble) && depth <= f.stackLimit && index <= MAX_INT32
    ensures ElementsStatus(f, depth, index, es) == Success <==>
      && depth + ElementsDepth(es) <= f.stackLimit && ElementsInLimits(es, f.rejectDupKeys, f.toDouble)
      && index + ElementCount(es) <= MAX_INT32 && PermitsElements(f, es)
    decreases es
  {
    hide TreeStatus, Gap, ValidTree, AllSpace;
    if es.Element? && index < MAX_INT32 {
      StatusAcceptable(f, depth + 1, es.before, es.value);
      ElementsStatusAcceptable(f, depth, index + 1, es.rest);
    }
  }

  lemma {:induction false} MembersStatusAcceptable(f: Features, depth: nat, name: bytes, seen: set<bytes>, ms: Members)
    requires ValidMembers(ms, f.toDouble) && depth <= f.stackLimit
    ensures MembersStatus(f, depth, name, seen, ms) == Success <==>
      && depth + MembersDepth(ms) <= f.stackLimit && MembersInLimits(ms, seen, f.rejectDupKeys, f.toDouble)
      && PermitsMembers(f, name, ms)
    decreases ms
  {
    hide TreeStatus, Gap, ValidTree, AllSpace, LabelName, ValidLabel;
    if ms.Member? {
      StatusAcceptable(f, depth + 1, ms.before2, ms.value);
      MembersStatusAcceptable(f, depth, LabelName(ms.name), seen + {LabelName(ms.name)}, ms.rest);
    }
  }

  // ----- The trees of the RFC ------------------------------------------------------------------

  /** A JSON text within the limits. */
  ghost predicate Readable(f: Features, depth: nat, t: Tree) {
    && ValidTree(t, f.toDouble) && Standard(t) && depth + Depth(t) <= f.stackLimit + 1
    && InLimits(t, f.rejectDupKeys, f.toDouble)
  }

  lemma {:induction false} StandardPermits(f: Features, t: Tree)
    requires ValidTree(t, f.toDouble) && Standard(t)
    ensures Permits(f, t) && Suits(f.allowDroppedNullPlaceholders, t) && !t.TDropped?
    decreases t
  {
    match t
    case TArray(_, es) => StandardPermitsElements(f, es);
    case TObject(_, ms) => StandardPermitsMembers(f, [], ms);
    case _ =>
  }

  lemma {:induction false} StandardPermitsElements(f: Features, es: Elements)
    requires ValidElements(es, f.toDouble) && StandardElements(es)
    ensures PermitsElements(f, es) && SuitsElements(f.allowDroppedNullPlaceholders, es)
    decreases es
  {
    if es.Element? {
      StandardPermits(f, es.value);
      StandardPermitsElements(f, es.rest);
    }
  }

  lemma {:induction false} StandardPermitsMembers(f: Features, name: bytes, ms: Members)
    requires ValidMembers(ms, f.toDouble) && StandardMembers(ms)
    ensures PermitsMembers(f, name, ms) && SuitsMembers(f.allowDroppedNullPlaceholders, ms)
    decreases ms
  {
    hide LabelName, ValidLabel, Gap, AllSpace;
    if ms.Member? {
      StandardPermits(f, ms.value);
      StandardPermitsMembers(f, LabelName(ms.name), ms.rest);
    }
  }

  // ----- Documents -----------------------------------------------------------------------------

  /** What comes behind the value is more than may be passed over; a NUL counts as the end of the text. */
  predicate Extra(f: Features, trail: bytes, more: bytes) {
    (!f.allowComments && !AllSpace(trail)) || (more != [] && more[0] != '\0')
  }

  /** How the parse of a text ends: at the first obstacle in its tree, because of what follows it, or because
      its root is a scalar where it must not be. */
  ghost function Verdict(f: Features, lead: bytes, t: Tree, trail: bytes, more: bytes): Status
    requires ValidTree(t, f.toDouble)
  {
    var status := TreeStatus(f, 1, lead, t);
    if status != Success then status
    else if f.failIfExtra && Extra(f, trail, more) then Failure
    else if f.strictRoot && !t.TArray? && !t.TObject? then Failure
    else Success
  }

  /** A tree between gaps, and what is no gap any more. */
  ghost predicate Document(f: Features, lead: bytes, t: Tree, trail: bytes, more: bytes) {
    && Gap(lead) && Gap(trail) && ValidTree(t, f.toDouble) && Suits(f.allowDroppedNullPlaceholders, t) && !t.TDropped?
    && (more != [] ==> !IsSpace(more[0]) && more[0] != '/' && (trail == [] ==> FollowByte(more[0])))
  }

  /** The token behind the value. */
  lemma TokenAtEnd(f: Features, doc: bytes, q: nat, trail: bytes, more: bytes)
    requires Gap(trail) && At(doc, q, trail) && At(doc, q + |trail|, more) && q + |trail| + |more| == |doc|
    requires more != [] ==> !IsSpace(more[0]) && more[0] != '/'
    ensures q <= |doc|
    ensures var t := SkipComments(f, doc, q);
      && (t.kind != EndOfStream <==> Extra(f, trail, more))
      && (more == [] && !Extra(f, trail, more) ==> t.end == |doc|)
  {
    hide At, Gap, TokenFrom;
    var r := q + |trail|;
    AtStart(doc, q, trail);
    GapSkipped(f, doc, q, trail);
    AtNothing(doc, r);
    if more != [] {
      AtIndex(doc, r, more, 0);
      OtherToken(f, doc, r);
      TokenAt(f, doc, r, []);
    }
    if AllSpace(trail) {
      SkipSpacesAt(doc, q, trail);
      SkipSpacesAt(doc, r, []);
    } else {
      var k := GapComment(f, doc, q, trail);
    }
  }

  lemma OtherToken(f: Features, doc: bytes, s: nat)
    requires s < |doc| && doc[s] != '/'
    ensures TokenFrom(f, doc, s).kind != Comment
    ensures TokenFrom(f, doc, s).kind == EndOfStream <==> doc[s] == '\0'
  {
    hide ScanString, ScanNumber, SignedToken;
    SignedKind(f, doc, s);
  }

  lemma SignedKind(f: Features, doc: bytes, s: nat)
    requires s < |doc|
    ensures forall kind :: (kind == NegInfToken || kind == PosInfToken) ==>
      SignedToken(f, doc, s, kind).kind != Comment && SignedToken(f, doc, s, kind).kind != EndOfStream
  {}

  /** A document behind `base` bytes that are passed over as a byte order mark. */
  lemma ParseFrom(f: Features, doc: bytes, base: nat, lead: bytes, t: Tree, trail: bytes, more: bytes, root: Value)
    requires Document(f, lead, t, trail, more) && base == BomLength(f, doc)
    requires At(doc, base, lead) && At(doc, base + |lead|, Text(t)) && At(doc, base + |lead| + |Text(t)|, trail)
    requires At(doc, base + |lead| + |Text(t)| + |trail|, more)
    requires base + |lead| + |Text(t)| + |trail| + |more| == |doc|
    ensures var o := Parse(f, doc, root);
      && o.status == Verdict(f, lead, t, trail, more)
      && (o.status == Success ==> o.errors == [] && o.value == Denote(t, |lead|, f.toDouble))
      && (o.status == Success && more == [] && !Extra(f, trail, more) ==> o.pos == |doc|)
      && (TreeStatus(f, 1, lead, t) == Success && o.status == Failure ==>
            |o.errors| == 1 && o.value == Denote(t, |lead|, f.toDouble)
            && o.errors[0].message == if f.failIfExtra && Extra(f, trail, more) then ExtraAfterValue
                                      else RootMustBeContainer)
  {
    hide ReadValue, SkipComments, At, Gap, Text, Denote, ValidTree, Suits, TreeStatus, BomLength, Extra;
    var q := base + |lead| + |Text(t)|;
    AtStart(doc, q, trail);
    EndFollows(doc, q, trail, more);
    ReadTree(f, doc, base, 1, base, [], root, lead, t);
    TokenAtEnd(f, doc, q, trail, more);
    DenoteKind(t, |lead|, f.toDouble);
  }

  lemma EndFollows(doc: bytes, q: nat, trail: bytes, more: bytes)
    requires Gap(trail) && At(doc, q, trail) && At(doc, q + |trail|, more) && q + |trail| + |more| == |doc|
    requires trail == [] && more != [] ==> FollowByte(more[0])
    ensures Follow(doc, q)
  {
    if trail != [] {
      GapFollow(trail);
      AtIndex(doc, q, trail, 0);
    } else if more != [] {
      AtIndex(doc, q, more, 0);
    }
  }

  lemma DenoteKind(t: Tree, p: int, toDouble: bytes -> Option<Double>)
    requires ValidTree(t, toDouble)
    ensures var d := Denote(t, p, toDouble).data; (d.Arr? <==> t.TArray?) && (d.Obj? <==> t.TObject?)
  {}

  lemma DocumentLayout(mark: bytes, lead: bytes, text: bytes, trail: bytes, more: bytes)
    ensures var doc := mark + (lead + text + trail + more);
      && At(doc, 0, mark) && At(doc, |mark|, lead) && At(doc, |mark| + |lead|, text)
      && At(doc, |mark| + |lead| + |text|, trail) && At(doc, |mark| + |lead| + |text| + |trail|, more)
  {
    hide At;
    var doc := mark + (lead + text + trail + more);
    AtSlice(doc, 0, doc);
    assert doc == mark + (lead + (text + (trail + (more + []))));
    AtConcat(doc, 0, mark, lead + (text + (trail + (more + []))));
    AtParts(doc, |mark|, lead, text, trail, more, []);
  }

  /** A document does not start like a byte order mark. */
  lemma NoBom(f: Features, doc: bytes, lead: bytes, t: Tree)
    requires At(doc, 0, lead) && At(doc, |lead|, Text(t)) && Gap(lead) && ValidTree(t, f.toDouble) && !t.TDropped?
    ensures BomLength(f, doc) == 0
  {
    hide Gap, Text;
    TextStartsValue(t, f.toDouble);
    AtIndex(doc, |lead|, Text(t), 0);
    if lead != [] {
      GapFollow(lead);
      AtIndex(doc, 0, lead, 0);
    }
    if At(doc, 0, BOM) {
      AtIndex(doc, 0, BOM, 0);
    }
  }

  /** The parse of any document ends with its verdict, and if successfully, with the value it denotes. */
  lemma ParseDocument(f: Features, lead: bytes, t: Tree, trail: bytes, more: bytes, root: Value)
    requires Document(f, lead, t, trail, more)
    ensures var doc := lead + Text(t) + trail + more; var o := Parse(f, doc, root);
      && o.status == Verdict(f, lead, t, trail, more)
      && (o.status == Success ==> o.errors == [] && o.value == Denote(t, |lead|, f.toDouble))
      && (o.status == Success && more == [] && !Extra(f, trail, more) ==> o.pos == |doc|)
      && (TreeStatus(f, 1, lead, t) == Success && o.status == Failure ==>
            |o.errors| == 1 && o.value == Denote(t, |lead|, f.toDouble)
            && o.errors[0].message == if f.failIfExtra && Extra(f, trail, more) then ExtraAfterValue
                                      else RootMustBeContainer)
  {
    hide At, Gap, Text, Denote, ValidTree, Suits, Verdict, Parse, BomLength, Extra;
    var doc := lead + Text(t) + trail + more;
    DocumentLayout([], lead, Text(t), trail, more);
    assert [] + doc == doc;
    NoBom(f, doc, lead, t);
    ParseFrom(f, doc, 0, lead, t, trail, more, root);
  }

  /** Behind a byte order mark, a document is read as without it, where marks are skipped; elsewhere the mark
      is no value. */
  lemma ParseMarked(f: Features, lead: bytes, t: Tree, trail: bytes, more: bytes, root: Value)
    requires Document(f, lead, t, trail, more)
    ensures var o := Parse(f, BOM + (lead + Text(t) + trail + more), root);
      if f.skipBom then
        && o.status == Verdict(f, lead, t, trail, more)
        && (o.status == Success ==> o.errors == [] && o.value == Denote(t, |lead|, f.toDouble))
      else
        o.status == if 1 > f.stackLimit then Thrown else Failure
  {
    hide At, Gap, Text, Denote, ValidTree, Suits, Verdict, Extra;
    var doc := BOM + (lead + Text(t) + trail + more);
    DocumentLayout(BOM, lead, Text(t), trail, more);
    if f.skipBom {
      ParseFrom(f, doc, 3, lead, t, trail, more, root);
    } else {
      MarkRefused(f, doc, root);
    }
  }

  lemma MarkRefused(f: Features, doc: bytes, root: Value)
    requires At(doc, 0, BOM) && !f.skipBom
    ensures Parse(f, doc, root).status == if 1 > f.stackLimit then Thrown else Failure
  {
    hide ReadValue, ReadElements, ReadMembers, SkipComments;
    AtIndex(doc, 0, BOM, 0);
    if 1 > f.stackLimit {
      ReadValueThrows(f, doc, 0, 1, 0, [], root);
    } else {
      AtNothing(doc, 0);
      MarkToken(f, doc);
      ReadValueStep(f, doc, 0, 1, 0, [], root, SkipComments(f, doc, 0));
    }
  }

  lemma MarkToken(f: Features, doc: bytes)
    requires doc != [] && doc[0] == BOM[0]
    ensures SkipComments(f, doc, 0).kind == ErrorToken
  {}

  // ----- JSON texts ----------------------------------------------------------------------------

  /** Completeness: with any whitespace around it, a JSON text parses to the value it denotes and
      leaves no error, provided that nesting, names, strings and arrays stay within the limits, that names are
      not repeated where that is forbidden, and that the root is a container where that is demanded. */
  lemma ParseJsonText(f: Features, lead: bytes, t: Tree, trail: bytes, root: Value)
    requires AllSpace(lead) && AllSpace(trail) && Readable(f, 1, t)
    requires f.strictRoot ==> t.TArray? || t.TObject?
    ensures Parse(f, lead + Text(t) + trail, root)
      == Outcome(Success, |lead + Text(t) + trail|, [], Denote(t, |lead|, f.toDouble))
  {
    hide Parse, Text, Denote, Gap, InLimits, Permits;
    StandardPermits(f, t);
    StatusAcceptable(f, 1, lead, t);
    SpaceGap(lead);
    SpaceGap(trail);
    ParseDocument(f, lead, t, trail, [], root);
    assert lead + Text(t) + trail + [] == lead + Text(t) + trail;
  }

  /** Exactly the JSON texts within the limits are accepted, and with the value they denote; any other ends
      as its first obstacle says. */
  lemma ParseVerdict(f: Features, lead: bytes, t: Tree, trail: bytes, root: Value)
    requires AllSpace(lead) && AllSpace(trail) && ValidTree(t, f.toDouble) && Standard(t)
    ensures Parse(f, lead + Text(t) + trail, root).status == Verdict(f, lead, t, trail, [])
    ensures Verdict(f, lead, t, trail, []) == Success
      <==> Readable(f, 1, t) && (f.strictRoot ==> t.TArray? || t.TObject?)
    ensures Verdict(f, lead, t, trail, []) == Success ==>
      Parse(f, lead + Text(t) + trail, root)
        == Outcome(Success, |lead + Text(t) + trail|, [], Denote(t, |lead|, f.toDouble))
  {
    hide Parse, Text, Denote, Gap, InLimits, Permits, TreeStatus;
    StandardPermits(f, t);
    StatusAcceptable(f, 1, lead, t);
    SpaceGap(lead);
    SpaceGap(trail);
    ParseDocument(f, lead, t, trail, [], root);
    assert lead + Text(t) + trail + [] == lead + Text(t) + trail;
  }

  // ----- Strings that are too long -------------------------------------------------------------

  /** The literal of `n` times the letter a. */
  function Letters(n: nat): (cs: Characters)
    ensures ValidCharacters(cs)
  {
    if n == 0 then End else Char(Plain('a'), Letters(n - 1))
  }

  lemma {:induction false} LettersLength(n: nat)
    ensures |StringValue(Letters(n))| == n
  {
    if n > 0 {
      LettersLength(n - 1);
    }
  }

  /** A string literal that is the whole text. */
  lemma StringVerdict(f: Features, cs: Characters, root: Value)
    requires 1 <= f.stackLimit && !f.strictRoot && ValidCharacters(cs)
    ensures var o := Parse(f, Text(TString(cs)), root); var s := Stored(StringValue(cs));
      if |s| > MAX_STRING then o.status == Thrown else o.status == Success && o.value.data == Str(s)
  {
    hide Parse, Text, Stored, StringValue, ValidCharacters;
    var t := TString(cs);
    ParseVerdict(f, [], t, [], root);
    assert [] + Text(t) + [] == Text(t);
  }

  /** What the reader makes of it: from 2147483643 letters on it throws, and from 2^32 on it begins to accept
      the literals again, but keeps only what is beyond the 2^32: of 2^32 letters, none. */
  lemma LongString(f: Features, n: nat, root: Value)
    requires 1 <= f.stackLimit && !f.strictRoot
    ensures var o := Parse(f, Text(TString(Letters(n))), root); var kept := n % 0x1_0000_0000;
      if kept > MAX_STRING then o.status == Thrown
      else o.status == Success && o.value.data.Str? && |o.value.data.s| == kept
  {
    hide Parse, Text, Letters, StringValue, ValidCharacters;
    LettersLength(n);
    StringVerdict(f, Letters(n), root);
  }
}
