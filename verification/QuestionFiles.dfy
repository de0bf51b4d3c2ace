/** The text of a question file: how WriteQuestion lays it out, and how ReadQuestion takes it apart line
    by line. */
module QuestionFiles {
  import opened Bytes
  import opened HexNames
  import Replacing

  /** What a field holds until it is set. */
  const INV: bytes := "=invalid="

  datatype MultipleAnswer = MultipleAnswer(multipleanswer: bytes, question: bytes)

  datatype Question = Question(
    serverid: bytes,
    name: bytes,
    answer: bytes,
    multipleanswer: seq<MultipleAnswer>,
    channelid: bytes,
    roleid: bytes,
    hint: bytes,
    permission: bytes)

  const UNSET := Question(INV, INV, INV, [], INV, INV, INV, INV)

  /** The section a line belongs to; `Finished` is the value "END" of the source. */
  datatype Section = NoSection | Answer | ChannelId | RoleId | Hint | ManyAnswers | Permission | Finished

  function Marker(s: Section): bytes {
    match s
    case Answer => "{{answer}}"
    case ChannelId => "{{channelid}}"
    case RoleId => "{{roleid}}"
    case Hint => "{{hint}}"
    case ManyAnswers => "{{manswer}}"
    case Permission => "{{permission}}"
    case NoSection => []
    case Finished => []
  }

  /** The section that a line opens, if any. */
  function Opens(line: bytes): Section {
    if line == Marker(Answer) then Answer
    else if line == Marker(ChannelId) then ChannelId
    else if line == Marker(RoleId) then RoleId
    else if line == Marker(Hint) then Hint
    else if line == Marker(ManyAnswers) then ManyAnswers
    else if line == Marker(Permission) then Permission
    else NoSection
  }

  lemma MarkerOpens(s: Section)
    ensures s != NoSection && s != Finished ==> Opens(Marker(s)) == s
  {
    assert Marker(Answer)[2] == 'a' && Marker(RoleId)[2] == 'r';
  }

  // ----- Lines ---------------------------------------------------------------------------------

  function LineEnd(s: bytes, i: nat): (j: nat)
    requires i <= |s|
    ensures i <= j <= |s| && (j < |s| ==> s[j] == '\n') && forall k :: i <= k < j ==> s[k] != '\n'
    decreases |s| - i
  {
    if i == |s| || s[i] == '\n' then i else LineEnd(s, i + 1)
  }

  /** The strings that the body of `while (readFile) { getline(readFile, str); ... }` sees: every line;
      then, as the failure shows only after a getline, once more: the empty string after a final line
      feed, the last line again if there is none. */
  function Seen(content: bytes): seq<bytes>
    decreases |content|
  {
    var n := LineEnd(content, 0);
    if n < |content| then [content[..n]] + Seen(content[n + 1..])
    else if content == [] then [[]]
    else [content, content]
  }

  /** The lines, each with a line feed. */
  function Joined(lines: seq<bytes>): bytes {
    if lines == [] then [] else lines[0] + "\n" + Joined(lines[1..])
  }

  function PairLines(ms: seq<MultipleAnswer>): seq<bytes> {
    if ms == [] then [] else [ms[0].multipleanswer, ms[0].question] + PairLines(ms[1..])
  }

  /** What WriteQuestion writes before the hint, and after it. */
  function Before(q: Question): seq<bytes> {
    [Marker(Answer), q.answer, Marker(ChannelId), q.channelid, Marker(RoleId), q.roleid, Marker(Hint)]
  }

  function Behind(q: Question): seq<bytes> {
    [Marker(ManyAnswers)] + PairLines(q.multipleanswer) + [Marker(Permission), q.permission]
  }

  /** The text WriteQuestion writes. */
  function Text(q: Question): bytes {
    Joined(Before(q) + [q.hint] + Behind(q))
  }

  /** The pairs, a line for each half. */
  function PairText(ms: seq<MultipleAnswer>): bytes {
    if ms == [] then [] else ms[0].multipleanswer + "\n" + ms[0].question + "\n" + PairText(ms[1..])
  }

  /** The text of a question, spelled out. */
  lemma TextIs(q: Question)
    ensures Text(q) == "{{answer}}\n" + q.answer + "\n{{channelid}}\n" + q.channelid + "\n{{roleid}}\n" + q.roleid
      + "\n{{hint}}\n" + q.hint + "\n{{manswer}}\n" + PairText(q.multipleanswer)
      + "{{permission}}\n" + q.permission + "\n"
  {
    hide Joined, PairText, PairLines;
    var pairs := PairLines(q.multipleanswer);
    JoinedPairs(q.multipleanswer);
    JoinedConcat(Before(q) + [q.hint], Behind(q));
    JoinedConcat(Before(q), [q.hint]);
    JoinedConcat([Marker(ManyAnswers)] + pairs, [Marker(Permission), q.permission]);
    JoinedConcat([Marker(ManyAnswers)], pairs);
    JoinedTwo(Marker(Permission), q.permission);
    JoinedOne(q.hint);
    JoinedOne(Marker(ManyAnswers));
    JoinedBefore(q);
    TextParts(Joined(Before(q)), q.hint, PairText(q.multipleanswer), q.permission);
  }

  lemma TextParts(before: bytes, hint: bytes, pairs: bytes, permission: bytes)
    ensures before + (hint + "\n")
      + ((Marker(ManyAnswers) + "\n" + pairs) + (Marker(Permission) + "\n" + permission + "\n"))
      == before + hint + "\n{{manswer}}\n" + pairs + "{{permission}}\n" + permission + "\n"
  {
    assert "\n" + (Marker(ManyAnswers) + "\n") == "\n{{manswer}}\n";
    assert Marker(Permission) + "\n" == "{{permission}}\n";
    var many, last := Marker(ManyAnswers) + "\n", Marker(Permission) + "\n";
    assert before + (hint + "\n") + ((many + pairs) + (last + permission + "\n"))
      == before + hint + ("\n" + many) + pairs + last + permission + "\n";
  }

  lemma JoinedOne(a: bytes)
    ensures Joined([a]) == a + "\n"
  {
    assert [a][1..] == [];
    assert a + "\n" + [] == a + "\n";
  }

  lemma JoinedTwo(a: bytes, b: bytes)
    ensures Joined([a, b]) == a + "\n" + b + "\n"
  {
    JoinedOne(b);
    assert [a, b][1..] == [b];
  }

  lemma JoinedBefore(q: Question)
    ensures Joined(Before(q)) == "{{answer}}\n" + q.answer + "\n{{channelid}}\n" + q.channelid
      + "\n{{roleid}}\n" + q.roleid + "\n{{hint}}\n"
  {
    hide Joined;
    var a, b, c := [Marker(Answer), q.answer], [Marker(ChannelId), q.channelid], [Marker(RoleId), q.roleid];
    JoinedTwo(a[0], a[1]);
    JoinedTwo(b[0], b[1]);
    JoinedTwo(c[0], c[1]);
    JoinedOne(Marker(Hint));
    JoinedConcat(a, b);
    JoinedConcat(a + b, c);
    JoinedConcat(a + b + c, [Marker(Hint)]);
    assert Before(q) == a + b + c + [Marker(Hint)];
    assert "{{answer}}\n" == Marker(Answer) + "\n";
    assert "\n{{channelid}}\n" == "\n" + (Marker(ChannelId) + "\n");
    assert "\n{{roleid}}\n" == "\n" + (Marker(RoleId) + "\n");
    assert "\n{{hint}}\n" == "\n" + (Marker(Hint) + "\n");
  }

  lemma {:induction false} JoinedPairs(ms: seq<MultipleAnswer>)
    ensures Joined(PairLines(ms)) == PairText(ms)
  {
    hide Joined;
    if ms == [] {
      NoLines();
    } else {
      JoinedPairs(ms[1..]);
      JoinedConcat([ms[0].multipleanswer, ms[0].question], PairLines(ms[1..]));
      JoinedTwo(ms[0].multipleanswer, ms[0].question);
    }
  }

  lemma NoLines()
    ensures Joined([]) == []
  {}

  predicate OneLine(s: bytes) { '\n' !in s }

  lemma FirstLine(line: bytes, rest: bytes)
    requires OneLine(line)
    ensures Seen(line + "\n" + rest) == [line] + Seen(rest)
  {
    var s := line + "\n" + rest;
    assert s[|line|] == '\n';
    var n := LineEnd(s, 0);
    forall k | 0 <= k < |line| ensures s[k] != '\n' {
      assert s[k] == line[k];
    }
    assert s[..n] == line && s[n + 1..] == rest;
  }

  lemma SeenNothing()
    ensures Seen([]) == [[]]
  {}

  lemma {:induction false} SeenJoined(lines: seq<bytes>)
    requires forall i :: 0 <= i < |lines| ==> OneLine(lines[i])
    ensures Seen(Joined(lines)) == lines + [[]]
  {
    hide Seen;
    SeenNothing();
    if lines != [] {
      FirstLine(lines[0], Joined(lines[1..]));
      SeenJoined(lines[1..]);
      assert lines + [[]] == [lines[0]] + (lines[1..] + [[]]);
    }
  }

  lemma {:induction false} JoinedConcat(a: seq<bytes>, b: seq<bytes>)
    ensures Joined(a + b) == Joined(a) + Joined(b)
  {
    if a == [] {
      assert a + b == b;
    } else {
      JoinedConcat(a[1..], b);
      assert (a + b)[1..] == a[1..] + b;
      assert a[0] + "\n" + (Joined(a[1..]) + Joined(b)) == a[0] + "\n" + Joined(a[1..]) + Joined(b);
    }
  }

  /** A string cut at its line feeds. */
  function Lines(s: bytes): (lines: seq<bytes>)
    ensures lines != []
    decreases |s|
  {
    var n := LineEnd(s, 0);
    if n == |s| then [s] else [s[..n]] + Lines(s[n + 1..])
  }

  lemma {:induction false} JoinedLines(s: bytes)
    ensures Joined(Lines(s)) == s + "\n"
    ensures forall i :: 0 <= i < |Lines(s)| ==> OneLine(Lines(s)[i])
    decreases |s|
  {
    var n := LineEnd(s, 0);
    if n == |s| {
      assert Lines(s) == [s] && Joined([s]) == s + "\n" + Joined([s][1..]);
    } else {
      JoinedLines(s[n + 1..]);
      var rest := Lines(s[n + 1..]);
      assert Lines(s)[1..] == rest;
      assert s == s[..n] + "\n" + s[n + 1..];
      assert s[..n] + "\n" + (s[n + 1..] + "\n") == s[..n] + "\n" + s[n + 1..] + "\n";
    }
  }

  // ----- Reading -------------------------------------------------------------------------------

  /** The variables of ReadQuestion: the section, whether half a pair was read, the pair, the record. */
  datatype Reading = Reading(it: Section, mit: bool, m: MultipleAnswer, q: Question)

  /** A field is set by its first line, and extended by others. */
  function Extended(field: bytes, between: bytes, line: bytes): bytes {
    if field == INV then line else field + between + line
  }

  /** The body of the loop, on a line without carriage returns. */
  function Take(r: Reading, line: bytes): Reading {
    if Opens(line) != NoSection then r.(it := Opens(line))
    else
      match r.it
      case Answer => r.(q := r.q.(answer := Extended(r.q.answer, [], line)))
      case ChannelId => r.(q := r.q.(channelid := Extended(r.q.channelid, [], line)))
      case RoleId => r.(q := r.q.(roleid := Extended(r.q.roleid, [], line)))
      case Hint => r.(q := r.q.(hint := Extended(r.q.hint, "\n", line)))
      case ManyAnswers =>
        if !r.mit then r.(m := r.m.(multipleanswer := line), mit := true)
        else
          var m := r.m.(question := line);
          r.(m := m, mit := false, q := r.q.(multipleanswer := r.q.multipleanswer + [m]))
      case Permission =>
        if r.q.permission == INV then r.(it := Finished, q := r.q.(permission := line))
        else r.(q := r.q.(permission := r.q.permission + line))
      case NoSection => r
      case Finished => r
  }

  function WithoutReturns(s: bytes): bytes {
    Replacing.Replaced(s, "\r", [])
  }

  function TakeAll(r: Reading, lines: seq<bytes>): Reading
    decreases |lines|
  {
    if lines == [] then r else TakeAll(Take(r, WithoutReturns(lines[0])), lines[1..])
  }

  function Start(serverid: bytes, name: bytes): Reading {
    Reading(NoSection, false, MultipleAnswer(INV, INV), UNSET.(serverid := serverid, name := name))
  }

  /** Each line is printed through hexprint, and stays inside its buffer. */
  predicate Legible(lines: seq<bytes>) {
    forall line :: line in lines ==> Printable(WithoutReturns(line))
  }

  /** What ReadQuestion reads from a file; nothing where hexprint writes past its buffer. */
  function ReadFile(serverid: bytes, name: bytes, content: bytes): Option<Question> {
    if Legible(Seen(content)) then Some(TakeAll(Start(serverid, name), Seen(content)).q) else None
  }

  lemma {:induction false} TakeConcat(r: Reading, a: seq<bytes>, b: seq<bytes>)
    ensures TakeAll(r, a + b) == TakeAll(TakeAll(r, a), b)
    decreases |a|
  {
    hide Take, WithoutReturns;
    if a == [] {
      assert a + b == b;
    } else {
      TakeConcat(Take(r, WithoutReturns(a[0])), a[1..], b);
      assert (a + b)[1..] == a[1..] + b;
    }
  }

  /** A line that can be stored: it is no marker, and has no carriage return. */
  predicate Plain(line: bytes) {
    OneLine(line) && Opens(line) == NoSection && '\r' !in line
  }

  lemma NothingReturned(s: bytes)
    requires '\r' !in s
    ensures WithoutReturns(s) == s
  {
    var p := Replacing.FindFrom(s, "\r", 0);
    if p >= 0 {
      AtIndex(s, p, "\r", 0);
    }
  }

  /** The bytes that are no carriage returns. */
  function Returnless(s: bytes): bytes {
    if s == [] then [] else (if s[0] == '\r' then [] else [s[0]]) + Returnless(s[1..])
  }

  /** Carriage returns are dropped, and nothing else. */
  lemma {:induction false} ReturnsDropped(s: bytes)
    ensures WithoutReturns(s) == Returnless(s)
    decreases |s|
  {
    hide Replacing.FindFrom, Returnless;
    var p := Replacing.FindFrom(s, "\r", 0);
    if p < 0 {
      NoReturnFound(s);
      NothingDropped(s);
    } else {
      var rest := s[p + 1..];
      ReturnsDropped(rest);
      AtIndex(s, p, "\r", 0);
      forall i | 0 <= i < p ensures s[..p][i] != '\r' {
        assert !At(s, i, "\r");
      }
      NothingDropped(s[..p]);
      OneDropped(rest);
      assert s == s[..p] + (['\r'] + rest);
      DroppedConcat(s[..p], ['\r'] + rest);
      assert s[..p] + [] == s[..p];
    }
  }

  lemma OneDropped(rest: bytes)
    ensures Returnless(['\r'] + rest) == Returnless(rest)
  {
    assert (['\r'] + rest)[1..] == rest && [] + Returnless(rest) == Returnless(rest);
  }

  lemma {:induction false} NothingDropped(s: bytes)
    requires '\r' !in s
    ensures Returnless(s) == s
  {
    if s != [] {
      NothingDropped(s[1..]);
    }
  }

  lemma {:induction false} DroppedConcat(a: bytes, b: bytes)
    ensures Returnless(a + b) == Returnless(a) + Returnless(b)
  {
    if a == [] {
      assert a + b == b;
    } else {
      DroppedConcat(a[1..], b);
      assert (a + b)[1..] == a[1..] + b && (a + b)[0] == a[0];
      var x, y, z := if a[0] == '\r' then [] else [a[0]], Returnless(a[1..]), Returnless(b);
      assert Returnless(a + b) == x + (y + z);
      assert x + (y + z) == x + y + z;
    }
  }

  // ----- Sections ------------------------------------------------------------------------------

  /** The lines one behind the other. */
  function Run(lines: seq<bytes>): bytes {
    if lines == [] then [] else Run(lines[..|lines| - 1]) + lines[|lines| - 1]
  }

  /** What a field is after some lines; it stays unset for as long as they spell the unset mark. */
  predicate Spells(lines: seq<bytes>) {
    forall k :: 0 < k < |lines| ==> Run(lines[..k]) != INV
  }

  predicate AllPlain(lines: seq<bytes>) {
    forall i :: 0 <= i < |lines| ==> Plain(lines[i])
  }

  /** A field that several lines are read for holds them one behind the other: answer, channel and role. */
  lemma {:induction false} FieldTaken(r: Reading, lines: seq<bytes>)
    requires lines != [] && AllPlain(lines) && Spells(lines)
    ensures r.it == Answer && r.q.answer == INV ==> TakeAll(r, lines) == r.(q := r.q.(answer := Run(lines)))
    ensures r.it == ChannelId && r.q.channelid == INV ==> TakeAll(r, lines) == r.(q := r.q.(channelid := Run(lines)))
    ensures r.it == RoleId && r.q.roleid == INV ==> TakeAll(r, lines) == r.(q := r.q.(roleid := Run(lines)))
    decreases |lines|
  {
    hide Opens, Take, TakeAll, Run;
    var n := |lines| - 1;
    var first, last := lines[..n], lines[n];
    assert lines == first + [last];
    TakeConcat(r, first, [last]);
    TakeOne(TakeAll(r, first), last);
    RunSnoc(lines);
    if n > 0 {
      forall k | 0 < k < |first| ensures Run(first[..k]) != INV {
        assert first[..k] == lines[..k];
      }
      FieldTaken(r, first);
      assert Run(first) != INV;
      LineTaken(TakeAll(r, first), last);
    } else {
      assert first == [];
      NoLinesTaken(r);
      LineTaken(r, last);
    }
  }

  lemma RunSnoc(lines: seq<bytes>)
    requires lines != []
    ensures Run(lines) == Run(lines[..|lines| - 1]) + lines[|lines| - 1]
    ensures |lines| == 1 ==> Run(lines) == lines[0]
  {
    if |lines| == 1 {
      assert lines[..0] == [] && Run([]) == [] && [] + lines[0] == lines[0];
    }
  }

  /** One more line for a field. */
  lemma LineTaken(r: Reading, line: bytes)
    requires Plain(line)
    ensures r.it == Answer ==> Take(r, line) == r.(q := r.q.(answer := Extended(r.q.answer, [], line)))
    ensures r.it == ChannelId ==> Take(r, line) == r.(q := r.q.(channelid := Extended(r.q.channelid, [], line)))
    ensures r.it == RoleId ==> Take(r, line) == r.(q := r.q.(roleid := Extended(r.q.roleid, [], line)))
  {
    hide Opens;
  }

  lemma NoLinesTaken(r: Reading)
    ensures TakeAll(r, []) == r
  {}

  /** Of the lines for the permission only the first counts. */
  lemma {:induction false} PermissionTaken(r: Reading, lines: seq<bytes>)
    requires lines != [] && AllPlain(lines) && r.it == Permission && r.q.permission == INV
    ensures TakeAll(r, lines) == r.(it := Finished, q := r.q.(permission := lines[0]))
  {
    hide Opens;
    assert lines == [lines[0]] + lines[1..];
    TakeConcat(r, [lines[0]], lines[1..]);
    TakeOne(r, lines[0]);
    NothingTaken(Take(r, lines[0]), lines[1..]);
  }

  /** In a second section for the permission, lines are added to it. */
  lemma {:induction false} PermissionExtended(r: Reading, lines: seq<bytes>)
    requires AllPlain(lines) && r.it == Permission
    requires forall k :: 0 <= k < |lines| ==> r.q.permission + Run(lines[..k]) != INV
    ensures TakeAll(r, lines) == r.(q := r.q.(permission := r.q.permission + Run(lines)))
    decreases |lines|
  {
    hide Opens, Take, TakeAll, Run;
    if lines == [] {
      NoLinesTaken(r);
      EmptyRun();
      assert r.q.permission + [] == r.q.permission;
    } else {
      var n := |lines| - 1;
      var first, last := lines[..n], lines[n];
      assert lines == first + [last];
      TakeConcat(r, first, [last]);
      TakeOne(TakeAll(r, first), last);
      RunSnoc(lines);
      forall k | 0 <= k < |first| ensures r.q.permission + Run(first[..k]) != INV {
        assert first[..k] == lines[..k];
      }
      PermissionExtended(r, first);
      assert r.q.permission + Run(first) != INV;
      AnotherPermission(TakeAll(r, first), last);
      assert r.q.permission + Run(first) + last == r.q.permission + (Run(first) + last);
    }
  }

  lemma EmptyRun()
    ensures Run([]) == []
  {}

  lemma AnotherPermission(r: Reading, line: bytes)
    requires Plain(line) && r.it == Permission && r.q.permission != INV
    ensures Take(r, line) == r.(q := r.q.(permission := r.q.permission + line))
  {
    hide Opens;
  }

  /** A marker opens its section and changes nothing else: half a pair waits for its other half. */
  lemma MarkerTaken(r: Reading, s: Section)
    requires s != NoSection && s != Finished
    ensures Take(r, Marker(s)) == r.(it := s)
  {
    MarkerOpens(s);
  }

  /** Lines before the first marker, and behind the permission, are passed over. */
  lemma {:induction false} NothingTaken(r: Reading, lines: seq<bytes>)
    requires AllPlain(lines) && (r.it == NoSection || r.it == Finished)
    ensures TakeAll(r, lines) == r
    decreases |lines|
  {
    hide Opens;
    if lines != [] {
      NothingReturned(lines[0]);
      NothingTaken(r, lines[1..]);
    }
  }

  // ----- The round trip ------------------------------------------------------------------------

  /** The hint can be stored: its lines are plain, and it does not start with a line that is the unset
      mark, which the next line would replace. */
  predicate StorableHint(hint: bytes) {
    && (forall i :: 0 <= i < |Lines(hint)| ==> Plain(Lines(hint)[i]))
    && (|Lines(hint)| > 1 ==> Lines(hint)[0] != INV)
  }

  predicate StorablePairs(ms: seq<MultipleAnswer>) {
    forall i :: 0 <= i < |ms| ==> Plain(ms[i].multipleanswer) && Plain(ms[i].question)
  }

  predicate Storable(q: Question) {
    && Plain(q.answer) && Plain(q.channelid) && Plain(q.roleid) && Plain(q.permission)
    && StorableHint(q.hint) && StorablePairs(q.multipleanswer)
  }

  /** A line as it reaches the record. */
  predicate Clean(line: bytes) { '\n' !in line && '\r' !in line }

  predicate CleanPairs(ms: seq<MultipleAnswer>) {
    forall i :: 0 <= i < |ms| ==> Clean(ms[i].multipleanswer) && Clean(ms[i].question)
  }

  predicate CleanRecord(q: Question) {
    && Clean(q.answer) && Clean(q.channelid) && Clean(q.roleid) && Clean(q.permission) && '\r' !in q.hint
    && CleanPairs(q.multipleanswer)
  }

  /** No line is too long for hexprint. */
  predicate ShortLines(q: Question) {
    && Printable(q.answer) && Printable(q.channelid) && Printable(q.roleid) && Printable(q.permission)
    && (forall line :: line in Lines(q.hint) ==> Printable(line)) && ShortPairs(q.multipleanswer)
  }

  predicate ShortPairs(ms: seq<MultipleAnswer>) {
    forall i :: 0 <= i < |ms| ==> Printable(ms[i].multipleanswer) && Printable(ms[i].question)
  }

  lemma TakeOne(r: Reading, line: bytes)
    requires '\r' !in line
    ensures TakeAll(r, [line]) == Take(r, line)
  {
    hide Take, WithoutReturns;
    NothingReturned(line);
    assert [line][1..] == [];
  }

  lemma NoReturns(s: Section)
    ensures '\r' !in Marker(s)
  {}

  lemma TakeTwo(r: Reading, a: bytes, b: bytes)
    requires '\r' !in a && '\r' !in b
    ensures TakeAll(r, [a, b]) == Take(Take(r, a), b)
  {
    hide Take, TakeAll;
    TakeOne(r, a);
    TakeOne(Take(r, a), b);
    TakeConcat(r, [a], [b]);
    assert [a] + [b] == [a, b];
  }

  lemma MarkerLine(s: Section)
    requires s != NoSection && s != Finished
    ensures Opens(Marker(s)) == s && '\r' !in Marker(s)
  {
    MarkerOpens(s);
    NoReturns(s);
  }

  /** What becomes of a one-line field: a marker is taken for one, and the field stays unset. */
  function Kept(field: bytes): bytes {
    if Opens(field) == NoSection then field else INV
  }

  lemma KeptIff(field: bytes)
    ensures Kept(field) == field <==> Opens(field) == NoSection
  {}

  /** The answer, the channel and the role. */
  lemma TakeBefore(q: Question)
    requires Clean(q.answer) && Clean(q.channelid) && Clean(q.roleid)
    ensures TakeAll(Start(q.serverid, q.name), Before(q))
      == Reading(Hint, false, MultipleAnswer(INV, INV),
                 UNSET.(serverid := q.serverid, name := q.name, answer := Kept(q.answer),
                        channelid := Kept(q.channelid), roleid := Kept(q.roleid)))
  {
    hide Marker, TakeAll, Opens;
    var r0 := Start(q.serverid, q.name);
    MarkerLine(Answer);
    MarkerLine(ChannelId);
    MarkerLine(RoleId);
    TakeTwo(r0, Marker(Answer), q.answer);
    var r1 := Take(r0.(it := Answer), q.answer);
    TakeTwo(r1, Marker(ChannelId), q.channelid);
    var r2 := Take(r1.(it := ChannelId), q.channelid);
    TakeTwo(r2, Marker(RoleId), q.roleid);
    var r3 := Take(r2.(it := RoleId), q.roleid);
    TakeConcat(r0, [Marker(Answer), q.answer], [Marker(ChannelId), q.channelid]);
    TakeConcat(r0, [Marker(Answer), q.answer] + [Marker(ChannelId), q.channelid], [Marker(RoleId), q.roleid]);
    NoReturns(Hint);
    MarkerOpens(Hint);
    TakeOne(r3, Marker(Hint));
    var fields := [Marker(Answer), q.answer] + [Marker(ChannelId), q.channelid] + [Marker(RoleId), q.roleid];
    TakeConcat(r0, fields, [Marker(Hint)]);
    assert fields + [Marker(Hint)] == Before(q);
  }

  /** The text of some lines of a hint, without a last line feed. */
  function Glued(lines: seq<bytes>): bytes
    requires lines != []
  {
    if |lines| == 1 then lines[0] else lines[0] + "\n" + Glued(lines[1..])
  }

  lemma {:induction false} GluedLines(s: bytes)
    ensures Glued(Lines(s)) == s
    decreases |s|
  {
    var n := LineEnd(s, 0);
    if n < |s| {
      GluedLines(s[n + 1..]);
      assert Lines(s)[1..] == Lines(s[n + 1..]);
      assert s == s[..n] + "\n" + s[n + 1..];
    }
  }

  lemma {:induction false} TakeMoreHint(r: Reading, lines: seq<bytes>)
    requires r.it == Hint && r.q.hint != INV && forall i :: 0 <= i < |lines| ==> Plain(lines[i])
    ensures lines != [] ==> TakeAll(r, lines) == r.(q := r.q.(hint := r.q.hint + "\n" + Glued(lines)))
    ensures lines == [] ==> TakeAll(r, lines) == r
    decreases |lines|
  {
    hide Opens;
    if lines != [] {
      NothingReturned(lines[0]);
      var longer := r.q.hint + "\n" + lines[0];
      assert longer != INV by {
        assert longer[|r.q.hint|] == '\n';
        InvHasNoLineFeed();
      }
      TakeMoreHint(r.(q := r.q.(hint := longer)), lines[1..]);
      if |lines| > 1 {
        assert r.q.hint + "\n" + lines[0] + "\n" + Glued(lines[1..])
            == r.q.hint + "\n" + (lines[0] + "\n" + Glued(lines[1..]));
      }
    }
  }

  lemma InvHasNoLineFeed()
    ensures '\n' !in INV
  {}

  lemma TakeHint(r: Reading, hint: bytes)
    requires r.it == Hint && r.q.hint == INV && StorableHint(hint)
    ensures TakeAll(r, Lines(hint)) == r.(q := r.q.(hint := hint))
  {
    hide Opens, Lines, Plain;
    var lines := Lines(hint);
    GluedLines(hint);
    assert Plain(lines[0]);
    TakeFirstHint(r, lines[0]);
    var r1 := r.(q := r.q.(hint := lines[0]));
    TakeConcat(r, [lines[0]], lines[1..]);
    assert lines == [lines[0]] + lines[1..];
    if |lines| > 1 {
      TakeMoreHint(r1, lines[1..]);
    } else {
      assert lines[1..] == [];
    }
  }

  lemma TakeFirstHint(r: Reading, line: bytes)
    requires r.it == Hint && r.q.hint == INV && Plain(line)
    ensures TakeAll(r, [line]) == r.(q := r.q.(hint := line))
  {
    hide Opens, TakeAll;
    TakeOne(r, line);
  }

  function LastPair(m: MultipleAnswer, ms: seq<MultipleAnswer>): MultipleAnswer {
    if ms == [] then m else ms[|ms| - 1]
  }

  lemma {:induction false} TakePairs(r: Reading, ms: seq<MultipleAnswer>)
    requires r.it == ManyAnswers && !r.mit && StorablePairs(ms)
    ensures TakeAll(r, PairLines(ms))
      == r.(m := LastPair(r.m, ms), q := r.q.(multipleanswer := r.q.multipleanswer + ms))
    decreases |ms|
  {
    hide TakeAll, Opens, Plain, Take;
    if ms == [] {
      TakeNone(r);
      assert r.q.multipleanswer + ms == r.q.multipleanswer;
    } else {
      TakePair(r, ms[0]);
      TakeConcat(r, [ms[0].multipleanswer, ms[0].question], PairLines(ms[1..]));
      TakePairs(r.(m := ms[0], q := r.q.(multipleanswer := r.q.multipleanswer + [ms[0]])), ms[1..]);
      assert r.q.multipleanswer + [ms[0]] + ms[1..] == r.q.multipleanswer + ms;
    }
  }

  lemma TakeNone(r: Reading)
    ensures TakeAll(r, []) == r
  {}

  lemma TakePair(r: Reading, m: MultipleAnswer)
    requires r.it == ManyAnswers && !r.mit && Plain(m.multipleanswer) && Plain(m.question)
    ensures TakeAll(r, [m.multipleanswer, m.question])
      == r.(m := m, q := r.q.(multipleanswer := r.q.multipleanswer + [m]))
  {
    hide TakeAll, Opens;
    TakeOne(r, m.multipleanswer);
    var r1 := r.(m := r.m.(multipleanswer := m.multipleanswer), mit := true);
    TakeOne(r1, m.question);
    TakeConcat(r, [m.multipleanswer], [m.question]);
    assert [m.multipleanswer] + [m.question] == [m.multipleanswer, m.question];
  }

  lemma TakeBehind(r: Reading, q: Question)
    requires !r.mit && r.q.permission == INV && StorablePairs(q.multipleanswer) && Clean(q.permission)
    ensures var t := TakeAll(r, Behind(q));
      && t.q == r.q.(multipleanswer := r.q.multipleanswer + q.multipleanswer, permission := Kept(q.permission))
      && (Opens(q.permission) == NoSection ==> t.it == Finished)
  {
    hide TakeAll, Opens, Marker, StorablePairs;
    NoReturns(ManyAnswers);
    MarkerOpens(ManyAnswers);
    TakeOne(r, Marker(ManyAnswers));
    var r1 := r.(it := ManyAnswers);
    TakePairs(r1, q.multipleanswer);
    var r2 := TakeAll(r1, PairLines(q.multipleanswer));
    MarkerLine(Permission);
    TakeTwo(r2, Marker(Permission), q.permission);
    TakeConcat(r, [Marker(ManyAnswers)], PairLines(q.multipleanswer));
    TakeConcat(r, [Marker(ManyAnswers)] + PairLines(q.multipleanswer), [Marker(Permission), q.permission]);
  }

  /** The empty string after the last line: nothing if the permission was read, and never a marker. */
  lemma TakeEnd(r: Reading)
    ensures r.it == Finished ==> TakeAll(r, [[]]) == r
    ensures r.q.permission == INV ==> Opens(TakeAll(r, [[]]).q.permission) == NoSection
  {
    TakeOne(r, []);
  }

  /** The lines of a written question. */
  function AllLines(q: Question): seq<bytes> {
    Before(q) + Lines(q.hint) + Behind(q)
  }

  lemma LinesOfText(q: Question)
    requires Clean(q.answer) && Clean(q.channelid) && Clean(q.roleid) && Clean(q.permission)
    requires StorablePairs(q.multipleanswer)
    ensures Seen(Text(q)) == AllLines(q) + [[]]
  {
    hide Seen, Lines, Joined, Opens, Marker, StorableHint;
    JoinedLines(q.hint);
    JoinedConcat(Before(q) + [q.hint], Behind(q));
    JoinedConcat(Before(q), [q.hint]);
    JoinedConcat(Before(q) + Lines(q.hint), Behind(q));
    JoinedConcat(Before(q), Lines(q.hint));
    JoinedOne(q.hint);
    PairsOneLine(q.multipleanswer);
    MarkersOneLine();
    SeenJoined(AllLines(q));
  }

  lemma MarkersOneLine()
    ensures forall s: Section :: OneLine(Marker(s))
  {
    forall s: Section ensures OneLine(Marker(s)) {
      match s case _ =>
    }
  }

  lemma {:induction false} PairsOneLine(ms: seq<MultipleAnswer>)
    requires StorablePairs(ms)
    ensures forall i :: 0 <= i < |PairLines(ms)| ==> OneLine(PairLines(ms)[i])
  {
    hide Opens;
    if ms != [] {
      PairsOneLine(ms[1..]);
    }
  }

  /** The lines of a hint never make more than the hint. */
  lemma {:induction false} TakeHintBound(r: Reading, lines: seq<bytes>)
    requires r.it == Hint && lines != [] && forall i :: 0 <= i < |lines| ==> Plain(lines[i])
    ensures var t := TakeAll(r, lines);
      t == r.(q := r.q.(hint := t.q.hint))
      && |t.q.hint| <= (if r.q.hint == INV then 0 else |r.q.hint| + 1) + |Glued(lines)|
    decreases |lines|
  {
    hide Opens, Take, WithoutReturns;
    var r1 := r.(q := r.q.(hint := Extended(r.q.hint, "\n", lines[0])));
    TakeHintLine(r, lines[0]);
    if |lines| > 1 {
      TakeHintBound(r1, lines[1..]);
    }
  }

  lemma TakeHintLine(r: Reading, line: bytes)
    requires r.it == Hint && Plain(line)
    ensures Take(r, WithoutReturns(line)) == r.(q := r.q.(hint := Extended(r.q.hint, "\n", line)))
  {
    hide Opens;
    NothingReturned(line);
  }

  /** A hint comes back unless its first line is the unset mark and others follow: then it is shorter. */
  lemma HintTaken(r: Reading, hint: bytes)
    requires r.it == Hint && r.q.hint == INV && forall i :: 0 <= i < |Lines(hint)| ==> Plain(Lines(hint)[i])
    ensures var t := TakeAll(r, Lines(hint));
      t == r.(q := r.q.(hint := t.q.hint)) && (t.q.hint == hint <==> StorableHint(hint))
  {
    hide Opens, Lines, Plain, Take, WithoutReturns;
    if StorableHint(hint) {
      TakeHint(r, hint);
    } else {
      var lines := Lines(hint);
      GluedLines(hint);
      TakeHintLine(r, lines[0]);
      TakeHintBound(r, lines[1..]);
    }
  }

  /** What is read back when the lines of the hint and of the pairs are plain. */
  lemma FieldsTaken(q: Question)
    requires Clean(q.answer) && Clean(q.channelid) && Clean(q.roleid) && Clean(q.permission)
    requires StorablePairs(q.multipleanswer) && forall i :: 0 <= i < |Lines(q.hint)| ==> Plain(Lines(q.hint)[i])
    ensures var t := TakeAll(Start(q.serverid, q.name), Seen(Text(q))).q;
      if Opens(q.permission) != NoSection then t.permission != q.permission
      else
        && t == q.(answer := Kept(q.answer), channelid := Kept(q.channelid), roleid := Kept(q.roleid), hint := t.hint)
        && (t.hint == q.hint <==> StorableHint(q.hint))
  {
    hide Seen, Lines, Joined, Opens, Marker, StorableHint, StorablePairs, Plain, Take, TakeAll, Before, Behind, Clean;
    LinesOfText(q);
    var r0 := Start(q.serverid, q.name);
    TakeBefore(q);
    var r1 := TakeAll(r0, Before(q));
    HintTaken(r1, q.hint);
    var r2 := TakeAll(r1, Lines(q.hint));
    TakeBehind(r2, q);
    var r3 := TakeAll(r2, Behind(q));
    TakeEnd(r3);
    TakeConcat(r0, Before(q), Lines(q.hint));
    TakeConcat(r0, Before(q) + Lines(q.hint), Behind(q));
    TakeConcat(r0, AllLines(q), [[]]);
    assert [] + q.multipleanswer == q.multipleanswer;
  }

  lemma PlainIff(field: bytes)
    ensures Plain(field) <==> Clean(field) && Opens(field) == NoSection
  {}

  lemma FieldsPlain(q: Question)
    ensures var clean := Clean(q.answer) && Clean(q.channelid) && Clean(q.roleid) && Clean(q.permission);
      Plain(q.answer) && Plain(q.channelid) && Plain(q.roleid) && Plain(q.permission)
      <==> clean && Kept(q.answer) == q.answer && Kept(q.channelid) == q.channelid && Kept(q.roleid) == q.roleid
           && Opens(q.permission) == NoSection
  {
    hide Clean, Plain, Opens, Kept;
    PlainIff(q.answer);
    PlainIff(q.channelid);
    PlainIff(q.roleid);
    PlainIff(q.permission);
    KeptIff(q.answer);
    KeptIff(q.channelid);
    KeptIff(q.roleid);
  }

  lemma {:induction false} PairLinesShort(ms: seq<MultipleAnswer>)
    requires StorablePairs(ms)
    ensures (forall line :: line in PairLines(ms) ==> Printable(line)) <==> ShortPairs(ms)
    ensures forall line :: line in PairLines(ms) ==> '\r' !in line
  {
    hide Opens, Printable;
    if ms != [] {
      PairLinesShort(ms[1..]);
      var first := [ms[0].multipleanswer, ms[0].question];
      assert PairLines(ms) == first + PairLines(ms[1..]);
      assert ms == [ms[0]] + ms[1..];
      assert ms[0].multipleanswer in first && ms[0].question in first;
      assert forall line :: line in first ==> line == ms[0].multipleanswer || line == ms[0].question;
    }
  }

  lemma MarkersShort()
    ensures forall s: Section :: Printable(Marker(s)) && '\r' !in Marker(s)
    ensures Printable([])
  {
    forall s: Section ensures Printable(Marker(s)) && '\r' !in Marker(s) {
      NoReturns(s);
      match s case _ =>
    }
  }

  /** The lines of a question that can be stored, as they are read. */
  lemma LinesLegible(q: Question)
    requires Storable(q)
    ensures Legible(AllLines(q) + [[]]) <==> ShortLines(q)
  {
    hide Opens, Lines, Marker, Printable, WithoutReturns, StorablePairs, ShortPairs, PairLines, Plain;
    var lines := AllLines(q) + [[]];
    MarkersShort();
    PairLinesShort(q.multipleanswer);
    PlainLines(q);
    forall line | line in lines ensures WithoutReturns(line) == line {
      NothingReturned(line);
    }
    AllLinesAre(q);
  }

  lemma PlainLines(q: Question)
    requires Storable(q)
    ensures '\r' !in q.answer && '\r' !in q.channelid && '\r' !in q.roleid && '\r' !in q.permission
    ensures forall line :: line in Lines(q.hint) ==> '\r' !in line
  {
    hide Opens, Lines;
  }

  lemma AllLinesAre(q: Question)
    ensures forall line :: line in AllLines(q) + [[]] <==>
      || line in Before(q) || line in Lines(q.hint) || line in PairLines(q.multipleanswer)
      || line == Marker(ManyAnswers) || line == Marker(Permission) || line == q.permission || line == []
    ensures q.answer in Before(q) && q.channelid in Before(q) && q.roleid in Before(q)
  {
    hide Marker, Lines, PairLines;
  }

  /** A question that can be stored, with no line that is too long, is read back as it was written. */
  lemma QuestionRoundTrip(q: Question)
    requires Storable(q) && ShortLines(q)
    ensures ReadFile(q.serverid, q.name, Text(q)) == Some(q)
  {
    hide Seen, Text, TakeAll, Legible, Storable, ShortLines;
    RecordBack(q);
    LinesLegible(q);
    StorableLines(q);
  }

  lemma StorableLines(q: Question)
    requires Storable(q)
    ensures Seen(Text(q)) == AllLines(q) + [[]]
  {
    hide Seen, Text, Lines, Opens, StorablePairs, Clean, Kept;
    FieldsPlain(q);
    LinesOfText(q);
  }

  /** The record, as far as hexprint lets it be read. */
  lemma RecordBack(q: Question)
    requires Storable(q)
    ensures TakeAll(Start(q.serverid, q.name), Seen(Text(q))).q == q
  {
    hide Seen, Text, Lines, Opens, StorablePairs, Plain, TakeAll, Clean, Kept;
    FieldsPlain(q);
    FieldsTaken(q);
  }

  // ----- What is not read back -----------------------------------------------------------------

  /** No line of the text is a marker. */
  predicate NoMarker(text: bytes) {
    forall i :: 0 <= i < |Lines(text)| ==> Opens(Lines(text)[i]) == NoSection
  }

  lemma TakeClean(r: Reading, line: bytes)
    requires Clean(line) && CleanRecord(r.q) && Clean(r.m.multipleanswer) && Clean(r.m.question)
    ensures var t := Take(r, line); CleanRecord(t.q) && Clean(t.m.multipleanswer) && Clean(t.m.question)
  {
    hide Opens;
  }

  lemma {:induction false} ReplacedKeeps(s: bytes, from: bytes, c: byte)
    requires from != [] && c !in s
    ensures c !in Replacing.Replaced(s, from, [])
    decreases |s|
  {
    hide Replacing.FindFrom;
    var p := Replacing.FindFrom(s, from, 0);
    if p >= 0 {
      ReplacedKeeps(s[p + |from|..], from, c);
    }
  }

  lemma ReturnsRemoved(s: bytes)
    requires OneLine(s)
    ensures Clean(WithoutReturns(s))
  {
    hide Replacing.FindFrom, Replacing.Replaced, Replacing.Restarted;
    ReplacedKeeps(s, "\r", '\n');
    Replacing.SameReplacement(s, "\r", []);
    NoReturnFound(WithoutReturns(s));
  }

  lemma NoReturnFound(s: bytes)
    requires Replacing.FindFrom(s, "\r", 0) == -1
    ensures '\r' !in s
  {
    forall i | 0 <= i < |s| ensures s[i] != '\r' {
      assert !At(s, i, "\r");
    }
  }

  lemma {:induction false} SeenOneLine(content: bytes)
    ensures forall i :: 0 <= i < |Seen(content)| ==> OneLine(Seen(content)[i])
    decreases |content|
  {
    var n := LineEnd(content, 0);
    if n < |content| {
      SeenOneLine(content[n + 1..]);
    }
  }

  lemma {:induction false} TakeAllClean(r: Reading, lines: seq<bytes>)
    requires CleanRecord(r.q) && Clean(r.m.multipleanswer) && Clean(r.m.question)
    requires forall i :: 0 <= i < |lines| ==> OneLine(lines[i])
    ensures CleanRecord(TakeAll(r, lines).q)
    decreases |lines|
  {
    hide Take, WithoutReturns, CleanRecord, Clean;
    if lines != [] {
      ReturnsRemoved(lines[0]);
      TakeClean(r, WithoutReturns(lines[0]));
      TakeAllClean(Take(r, WithoutReturns(lines[0])), lines[1..]);
    }
  }

  /** Whatever is in a file, the record read from it is clean. */
  lemma ReadClean(serverid: bytes, name: bytes, content: bytes)
    ensures CleanRecord(TakeAll(Start(serverid, name), Seen(content)).q)
    ensures var q := ReadFile(serverid, name, content); q.Some? ==> CleanRecord(q.value)
  {
    hide Seen, TakeAll;
    SeenOneLine(content);
    TakeAllClean(Start(serverid, name), Seen(content));
  }

  lemma {:induction false} LinesWithin(s: bytes, c: byte)
    requires c !in s
    ensures forall i :: 0 <= i < |Lines(s)| ==> c !in Lines(s)[i]
    decreases |s|
  {
    var n := LineEnd(s, 0);
    if n < |s| {
      LinesWithin(s[n + 1..], c);
    }
  }

  lemma {:induction false} LinesExtended(s: bytes, line: bytes)
    requires OneLine(line)
    ensures Lines(s + "\n" + line) == Lines(s) + [line]
    decreases |s|
  {
    hide Lines, LineEnd;
    var t := s + "\n" + line;
    var n := LineEnd(s, 0);
    LinesStep(s);
    LinesStep(t);
    EndOfLine(s, "\n" + line);
    assert s + ("\n" + line) == t;
    if n < |s| {
      LinesExtended(s[n + 1..], line);
      assert t[n + 1..] == s[n + 1..] + "\n" + line;
      assert t[..n] == s[..n];
    } else {
      OneLineOnly(line);
      assert t[n + 1..] == line && t[..n] == s;
    }
  }

  lemma LinesStep(s: bytes)
    ensures var n := LineEnd(s, 0); Lines(s) == if n == |s| then [s] else [s[..n]] + Lines(s[n + 1..])
  {
    hide LineEnd;
  }

  lemma EndOfLine(s: bytes, more: bytes)
    requires more != [] && more[0] == '\n'
    ensures LineEnd(s + more, 0) == LineEnd(s, 0)
  {
    var m, n := LineEnd(s + more, 0), LineEnd(s, 0);
    assert (s + more)[n] == '\n';
    assert m < |s| ==> (s + more)[m] == s[m];
  }

  /** No line that reached a pair or the hint is a marker. */
  predicate UnmarkedRecord(q: Question) {
    && NoMarker(q.hint)
    && forall i :: 0 <= i < |q.multipleanswer| ==>
         Opens(q.multipleanswer[i].multipleanswer) == NoSection && Opens(q.multipleanswer[i].question) == NoSection
  }

  predicate Unmarked(r: Reading) {
    UnmarkedRecord(r.q) && (r.mit ==> Opens(r.m.multipleanswer) == NoSection)
  }

  lemma OneLineOnly(line: bytes)
    requires OneLine(line)
    ensures Lines(line) == [line]
  {
    assert LineEnd(line, 0) == |line|;
  }

  lemma HintUnmarked(hint: bytes, line: bytes)
    requires NoMarker(hint) && OneLine(line) && Opens(line) == NoSection
    ensures NoMarker(Extended(hint, "\n", line))
  {
    hide Opens, Lines;
    OneLineOnly(line);
    LinesExtended(hint, line);
  }

  lemma TakeUnmarked(r: Reading, line: bytes)
    requires Unmarked(r) && OneLine(line)
    ensures Unmarked(Take(r, line))
  {
    hide Opens, NoMarker;
    if Opens(line) == NoSection {
      HintUnmarked(r.q.hint, line);
    }
  }

  lemma {:induction false} TakeAllUnmarked(r: Reading, lines: seq<bytes>)
    requires Unmarked(r) && forall i :: 0 <= i < |lines| ==> OneLine(lines[i])
    ensures Unmarked(TakeAll(r, lines))
    decreases |lines|
  {
    hide Take, WithoutReturns, Unmarked;
    if lines != [] {
      ReturnsRemoved(lines[0]);
      TakeUnmarked(r, WithoutReturns(lines[0]));
      TakeAllUnmarked(Take(r, WithoutReturns(lines[0])), lines[1..]);
    }
  }

  /** Whatever is in a file, no pair that is read from it holds a marker, and no line of the hint is one. */
  lemma ReadUnmarked(serverid: bytes, name: bytes, content: bytes)
    ensures UnmarkedRecord(TakeAll(Start(serverid, name), Seen(content)).q)
    ensures var q := ReadFile(serverid, name, content); q.Some? ==> UnmarkedRecord(q.value)
  {
    hide Seen, TakeAll, Opens, Lines, Legible;
    SeenOneLine(content);
    InvHasNoLineFeed();
    OneLineOnly(INV);
    InvOpensNothing();
    TakeAllUnmarked(Start(serverid, name), Seen(content));
  }

  lemma InvOpensNothing()
    ensures Opens(INV) == NoSection
  {}

  lemma RecordBackIff(q: Question)
    ensures TakeAll(Start(q.serverid, q.name), Seen(Text(q))).q == q <==> Storable(q)
  {
    hide Seen, Text, TakeAll, Plain, StorableHint, Clean, Lines, Opens, Kept, NoMarker;
    if Storable(q) {
      RecordBack(q);
    } else if TakeAll(Start(q.serverid, q.name), Seen(Text(q))).q == q {
      ReadClean(q.serverid, q.name, Text(q));
      ReadUnmarked(q.serverid, q.name, Text(q));
      PairsPlain(q.multipleanswer);
      HintLines(q.hint);
      FieldsTaken(q);
      FieldsPlain(q);
    }
  }

  /** A question is read back as it was written exactly when it can be stored and no line is too long. */
  lemma ReadBackIff(q: Question)
    ensures ReadFile(q.serverid, q.name, Text(q)) == Some(q) <==> Storable(q) && ShortLines(q)
    ensures Storable(q) && !ShortLines(q) ==> ReadFile(q.serverid, q.name, Text(q)) == None
  {
    hide Seen, Text, TakeAll, Legible, Storable, ShortLines;
    RecordBackIff(q);
    if Storable(q) {
      LinesLegible(q);
      StorableLines(q);
    }
  }

  /** An answer of 500 letters can be stored, but not read. */
  lemma LongAnswer(serverid: bytes, name: bytes)
    ensures var q := UNSET.(serverid := serverid, name := name, answer := seq(500, _ => 'a'));
      Storable(q) && ReadFile(serverid, name, Text(q)) == None
  {
    hide Lines, ReadFile;
    var q := UNSET.(serverid := serverid, name := name, answer := seq(500, _ => 'a'));
    InvPlain();
    OneLineOnly(INV);
    LetterPlain(q.answer);
    ReadBackIff(q);
  }

  lemma InvPlain()
    ensures Plain(INV)
  {}

  lemma LetterPlain(s: bytes)
    requires |s| == 500 && forall i :: 0 <= i < |s| ==> s[i] == 'a'
    ensures Plain(s)
  {}

  lemma PairsPlain(ms: seq<MultipleAnswer>)
    requires CleanPairs(ms)
    requires forall i :: 0 <= i < |ms| ==>
               Opens(ms[i].multipleanswer) == NoSection && Opens(ms[i].question) == NoSection
    ensures StorablePairs(ms)
  {
    hide Opens, Clean, Plain;
    forall i | 0 <= i < |ms| ensures Plain(ms[i].multipleanswer) && Plain(ms[i].question) {
      PlainIff(ms[i].multipleanswer);
      PlainIff(ms[i].question);
    }
  }

  lemma HintLines(hint: bytes)
    requires '\r' !in hint && NoMarker(hint)
    ensures forall i :: 0 <= i < |Lines(hint)| ==> Plain(Lines(hint)[i])
  {
    hide Opens, Lines;
    JoinedLines(hint);
    LinesWithin(hint, '\r');
  }
}
