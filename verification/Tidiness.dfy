/** What a reader of a styled text sees, told from the bytes of the text alone: lines are indented by their
    brackets, and what is in a container on several lines has lines of its own. */
module Tidiness {
  import opened Bytes
  import opened JsonValues
  import opened Grammar
  import opened Canonical
  import opened Layouts
  import Strings
  import ValueOrder

  predicate Opens(c: byte) { c == '[' || c == '{' }

  predicate Closes(c: byte) { c == ']' || c == '}' }

  // ----- Places in a text ----------------------------------------------------------------------

  /** How many brackets are open, and whether the place is in a string, right behind a backslash. */
  datatype Place = Place(depth: int, quoted: bool, escaped: bool)

  function Advance(at: Place, c: byte): Place {
    if at.quoted then at.(quoted := at.escaped || c != '"', escaped := !at.escaped && c == '\\')
    else at.(depth := at.depth + (if Opens(c) then 1 else if Closes(c) then -1 else 0), quoted := c == '"')
  }

  /** The place behind `s`. */
  function Behind(s: bytes): Place {
    if s == [] then Place(0, false, false) else Advance(Behind(s[..|s| - 1]), s[|s| - 1])
  }

  /** The whitespace at the start of every line outside strings is one unit for each bracket that is open
      there, and one less before a closing bracket. */
  ghost predicate Indented(s: bytes, unit: bytes) {
    forall i, j :: 0 <= i < j < |s| && s[i] == '\n' && !Behind(s[..i]).quoted && AllSpace(s[i + 1..j]) && !IsSpace(s[j])
      ==> s[i + 1..j] == Repeat(unit, Level(s, j))
  }

  function Level(s: bytes, j: nat): nat
    requires j < |s|
  {
    var depth := Behind(s[..j]).depth - if Closes(s[j]) then 1 else 0;
    if depth < 0 then 0 else depth
  }

  /** The bracket at `i` is the innermost that is open at `k`, which is in no string. */
  ghost predicate Encloses(s: bytes, i: nat, k: nat) {
    && i < k < |s| && Opens(s[i]) && !Behind(s[..i]).quoted && !Behind(s[..k]).quoted
    && Behind(s[..k]).depth == Behind(s[..i]).depth + 1
    && forall j :: i < j <= k ==> Behind(s[..j]).depth > Behind(s[..i]).depth
  }

  /** Where a line ends behind the opening bracket, a line ends behind each comma, and the closing bracket is the
      first on its line: every element or member is on lines of its own.  The members of an object always are. */
  ghost predicate OnLines(s: bytes) {
    && (forall i :: 0 <= i < |s| - 1 && s[i] == '{' && !Behind(s[..i]).quoted ==> s[i + 1] == '\n' || s[i + 1] == '}')
    && forall i, k :: 0 <= i < k < |s| - 1 && Encloses(s, i, k) && s[i + 1] == '\n' ==>
      && (s[k] == ',' ==> s[k + 1] == '\n')
      && (Closes(s[k]) ==> exists e :: i < e < k && s[e] == '\n' && AllSpace(s[e + 1..k]))
  }

  // ----- Reading a text byte by byte -----------------------------------------------------------

  /** The last byte that is no whitespace, or the line feed behind it. */
  datatype Last = LineFeed | Bracket(brace: bool) | AComma | AColon | Other

  /** For each bracket that is open, whether a line ended behind it; whether the place is in a string; and the
      whitespace behind the last byte. */
  datatype State = State(open: seq<bool>, quoted: bool, escaped: bool, last: Last, white: bytes)

  const START: State := State([], false, false, Other, [])

  predicate Top(open: seq<bool>) { open != [] && open[|open| - 1] }

  /** The next byte, unless it is out of place. */
  function Step(st: State, c: byte, m: Manner): Option<State> {
    if st.quoted then
      Some(st.(quoted := st.escaped || c != '"', escaped := !st.escaped && c == '\\', last := Other, white := []))
    else if c == '\n' then if MayBreak(st, m) then Some(NextLine(st)) else None
    else if IsSpace(c) then if Blankless(st) then None else Some(st.(white := st.white + [c]))
    else if Fits(st, c, m) then Some(Moved(st, c)) else None
  }

  /** No blank where a line has to end. */
  predicate Blankless(st: State) { st.last == Bracket(true) || (st.last == AComma && Top(st.open)) }

  /** Lines end behind opening brackets, and in containers on several lines; there are no empty lines. */
  predicate MayBreak(st: State, m: Manner) {
    match st.last
    case LineFeed => false
    case Bracket(_) => st.white == []
    case AComma => st.white == [] && Top(st.open)
    case AColon => st.white == m.after && m.below
    case Other => st.white == [] && (st.open == [] || Top(st.open))
  }

  function NextLine(st: State): State {
    st.(open := if st.last.Bracket? && st.open != [] then st.open[..|st.open| - 1] + [true] else st.open,
        last := LineFeed, white := [])
  }

  predicate Fits(st: State, c: byte, m: Manner) {
    && (Closes(c) ==> st.open != [])
    && match st.last
       case LineFeed => c != ',' && c != ':' && st.white == Repeat(m.unit, |st.open| - if Closes(c) then 1 else 0)
       case Bracket(brace) =>
         && c != ',' && c != ':' && !Top(st.open)
         && (if Closes(c) then st.white == [] && (c == '}' <==> brace) else !brace && st.white == " ")
       case AComma => c != ',' && c != ':' && !Closes(c) && !Top(st.open) && st.white == " "
       case AColon => c != ',' && c != ':' && !Closes(c) && st.white == m.after
       case Other =>
         if Closes(c) then !Top(st.open) && st.white == " " else st.white == if c == ':' then m.before else []
  }

  function Moved(st: State, c: byte): State
    requires Closes(c) ==> st.open != []
  {
    var open := if Opens(c) then st.open + [false] else if Closes(c) then st.open[..|st.open| - 1] else st.open;
    var last := if Opens(c) then Bracket(c == '{') else if c == ',' then AComma else if c == ':' then AColon else Other;
    State(open, c == '"', false, last, [])
  }

  function Run(st: State, s: bytes, m: Manner): Option<State>
    decreases |s|
  {
    if s == [] then Some(st)
    else
      var next := Step(st, s[0], m);
      if next.None? then None else Run(next.value, s[1..], m)
  }

  predicate Tidy(s: bytes, m: Manner) { Run(START, s, m).Some? }

  function Then(r: Option<State>, s: bytes, m: Manner): Option<State> {
    if r.None? then None else Run(r.value, s, m)
  }

  lemma {:induction false} RunConcat(st: State, a: bytes, b: bytes, m: Manner)
    ensures Run(st, a + b, m) == Then(Run(st, a, m), b, m)
    decreases |a|
  {
    hide Step;
    if a == [] {
      assert a + b == b;
    } else {
      assert (a + b)[1..] == a[1..] + b;
      var next := Step(st, a[0], m);
      if next.Some? {
        RunConcat(next.value, a[1..], b, m);
      }
    }
  }

  lemma RunByte(st: State, c: byte, m: Manner)
    ensures Run(st, [c], m) == Step(st, c, m)
  {
    hide Step;
    assert [c][1..] == [];
  }

  // ----- What tidiness means for the text ------------------------------------------------------

  /** A text is read up to each of its places. */
  lemma Prefix(s: bytes, i: nat, m: Manner)
    requires Tidy(s, m) && i <= |s|
    ensures Run(START, s[..i], m).Some?
    ensures i < |s| ==> Step(Run(START, s[..i], m).value, s[i], m) == Run(START, s[..i + 1], m) != None
  {
    hide Step;
    assert s[..i] + s[i..] == s;
    RunConcat(START, s[..i], s[i..], m);
    if i < |s| {
      assert s[..i] + [s[i]] == s[..i + 1];
      assert s[..i + 1] + s[i + 1..] == s;
      RunConcat(START, s[..i], [s[i]], m);
      RunConcat(START, s[..i + 1], s[i + 1..], m);
      RunByte(Run(START, s[..i], m).value, s[i], m);
    }
  }

  lemma {:induction false} StateAt(s: bytes, i: nat, m: Manner)
    requires Tidy(s, m) && i <= |s|
    ensures var r := Run(START, s[..i], m);
      r.Some? && Behind(s[..i]) == Place(|r.value.open|, r.value.quoted, r.value.escaped)
      && (!r.value.quoted ==> !r.value.escaped)
  {
    hide MayBreak, Repeat;
    Prefix(s, i, m);
    if i == 0 {
      assert s[..0] == [];
    } else {
      Prefix(s, i - 1, m);
      StateAt(s, i - 1, m);
      assert s[..i][..i - 1] == s[..i - 1];
    }
  }

  /** Whitespace behind a line feed is kept for the next byte. */
  lemma {:induction false} WhiteKept(s: bytes, i: nat, j: nat, m: Manner)
    requires Tidy(s, m) && i < j <= |s| && s[i] == '\n' && !Behind(s[..i]).quoted && AllSpace(s[i + 1..j])
    ensures var r := Run(START, s[..j], m);
      r.Some? && !r.value.quoted && r.value.last == LineFeed && r.value.white == s[i + 1..j]
  {
    hide Fits, Repeat, Behind;
    StateAt(s, j - 1, m);
    Prefix(s, j - 1, m);
    if i + 1 < j {
      assert s[i + 1..j - 1] == s[i + 1..j][..j - 1 - (i + 1)];
      WhiteKept(s, i, j - 1, m);
      assert s[i + 1..j][j - 1 - (i + 1)] == s[j - 1];
      assert s[i + 1..j] == s[i + 1..j - 1] + [s[j - 1]];
    }
  }

  lemma TidyIndented(s: bytes, m: Manner)
    requires Tidy(s, m)
    ensures Indented(s, m.unit)
  {
    hide Repeat, Behind, Run, MayBreak;
    forall i, j | 0 <= i < j < |s| && s[i] == '\n' && !Behind(s[..i]).quoted && AllSpace(s[i + 1..j]) && !IsSpace(s[j])
      ensures s[i + 1..j] == Repeat(m.unit, Level(s, j)) {
      WhiteKept(s, i, j, m);
      StateAt(s, j, m);
      Prefix(s, j, m);
    }
  }

  /** The bracket at `i` stays open, and it is remembered that a line ended behind it. */
  lemma {:induction false} StaysOpen(s: bytes, i: nat, k: nat, m: Manner)
    requires Tidy(s, m) && i + 2 <= k <= |s| && Opens(s[i]) && !Behind(s[..i]).quoted && s[i + 1] == '\n'
    requires forall j :: i < j <= k ==> Behind(s[..j]).depth > Behind(s[..i]).depth
    ensures var before, r := Run(START, s[..i], m), Run(START, s[..k], m);
      before.Some? && r.Some? && |r.value.open| > |before.value.open| && r.value.open[|before.value.open|]
  {
    hide Behind, Run, MayBreak, Fits, Repeat;
    StateAt(s, i, m);
    StateAt(s, k - 1, m);
    StateAt(s, k, m);
    Prefix(s, i, m);
    Prefix(s, k - 1, m);
    if k > i + 2 {
      StaysOpen(s, i, k - 1, m);
    }
  }

  /** Behind a line feed there has been nothing but whitespace. */
  lemma {:induction false} LineStart(s: bytes, k: nat, m: Manner)
    requires Tidy(s, m) && k <= |s|
    ensures var r := Run(START, s[..k], m);
      r.Some? && (!r.value.quoted && r.value.last == LineFeed ==>
        exists e :: 0 <= e < k && s[e] == '\n' && AllSpace(s[e + 1..k]))
  {
    hide MayBreak, Fits, Repeat;
    Prefix(s, k, m);
    if k == 0 {
      assert s[..0] == [];
    } else {
      Prefix(s, k - 1, m);
      LineStart(s, k - 1, m);
      var r := Run(START, s[..k], m);
      if !r.value.quoted && r.value.last == LineFeed {
        if s[k - 1] == '\n' {
          assert AllSpace(s[k - 1 + 1..k]);
        } else {
          var e :| 0 <= e < k - 1 && s[e] == '\n' && AllSpace(s[e + 1..k - 1]);
          assert s[e + 1..k] == s[e + 1..k - 1] + [s[k - 1]];
        }
      }
    }
  }

  lemma MembersBreak(s: bytes, i: nat, m: Manner)
    requires Tidy(s, m) && i < |s| - 1 && s[i] == '{' && !Behind(s[..i]).quoted
    ensures s[i + 1] == '\n' || s[i + 1] == '}'
  {
    hide Repeat, Run, Behind;
    StateAt(s, i, m);
    Prefix(s, i, m);
    Prefix(s, i + 1, m);
  }

  lemma TidyOnLines(s: bytes, m: Manner)
    requires Tidy(s, m)
    ensures OnLines(s)
  {
    hide Repeat, Run, Behind;
    forall i | 0 <= i < |s| - 1 && s[i] == '{' && !Behind(s[..i]).quoted
      ensures s[i + 1] == '\n' || s[i + 1] == '}' {
      MembersBreak(s, i, m);
    }
    forall i, k | 0 <= i < k < |s| - 1 && Encloses(s, i, k) && s[i + 1] == '\n'
      ensures s[k] == ',' ==> s[k + 1] == '\n'
      ensures Closes(s[k]) ==> exists e :: i < e < k && s[e] == '\n' && AllSpace(s[e + 1..k]) {
      TidyAt(s, i, k, m);
    }
  }

  lemma TidyAt(s: bytes, i: nat, k: nat, m: Manner)
    requires Tidy(s, m) && i < k < |s| - 1 && Encloses(s, i, k) && s[i + 1] == '\n'
    ensures s[k] == ',' ==> s[k + 1] == '\n'
    ensures Closes(s[k]) ==> exists e :: i < e < k && s[e] == '\n' && AllSpace(s[e + 1..k])
  {
    hide Repeat, Run, Behind;
    StateAt(s, i, m);
    StateAt(s, k, m);
    Prefix(s, k, m);
    Prefix(s, k + 1, m);
    LineStart(s, k, m);
    if i + 2 <= k {
      StaysOpen(s, i, k, m);
      if Closes(s[k]) {
        assert Run(START, s[..k], m).value.last == LineFeed;
        var e :| 0 <= e < k && s[e] == '\n' && AllSpace(s[e + 1..k]);
      }
    }
  }

  // ----- Pieces of laid out texts --------------------------------------------------------------

  predicate Word(s: bytes) {
    forall i :: 0 <= i < |s| ==> WordByte(s[i])
  }

  predicate WordByte(c: byte) { !IsSpace(c) && c != '"' && c != ',' && c != ':' && !Opens(c) && !Closes(c) }

  /** A value may begin here. */
  predicate Awaits(st: State, m: Manner) { !st.quoted && !st.escaped && Fits(st, 'a', m) }

  lemma {:induction false} WordRun(st: State, s: bytes, m: Manner)
    requires Word(s) && s != [] && !st.quoted && Fits(st, 'a', m)
    ensures Run(st, s, m) == Some(State(st.open, false, false, Other, []))
    decreases |s|
  {
    hide Repeat;
    var next := State(st.open, false, false, Other, []);
    assert Step(st, s[0], m) == Some(next);
    if |s| > 1 {
      WordRun(next, s[1..], m);
    }
  }

  /** Inside a string nothing is out of place. */
  function Within(open: seq<bool>): State { State(open, true, false, Other, []) }

  lemma {:induction false} QuotedRun(open: seq<bool>, s: bytes, m: Manner)
    requires forall i :: 0 <= i < |s| ==> s[i] != '"' && s[i] != '\\'
    ensures Run(Within(open), s, m) == Some(Within(open))
    decreases |s|
  {
    if s != [] {
      QuotedRun(open, s[1..], m);
    }
  }

  lemma EscapeRun(open: seq<bool>, c: byte, hex: bytes, m: Manner)
    requires forall i :: 0 <= i < |hex| ==> hex[i] != '"' && hex[i] != '\\'
    ensures Run(Within(open), ['\\', c] + hex, m) == Some(Within(open))
  {
    var s := ['\\', c] + hex;
    assert s[1..][1..] == hex;
    QuotedRun(open, hex, m);
    assert Step(Within(open), '\\', m) == Some(Within(open).(escaped := true));
    assert Step(Within(open).(escaped := true), c, m) == Some(Within(open));
  }

  lemma CharacterRun(open: seq<bool>, c: Character, m: Manner)
    requires ValidCharacter(c)
    ensures Run(Within(open), CharacterText(c), m) == Some(Within(open))
  {
    hide Run, Step, Hex4Val, IsHighSurrogate, IsLowSurrogate, ShortEscape;
    match c
    case Plain(b) => QuotedRun(open, [b], m);
    case Short(c) =>
      EscapeRun(open, c, [], m);
      assert ['\\', c] + [] == CharacterText(Short(c));
    case Unicode(hex) => EscapeRun(open, 'u', hex, m);
    case Pair(high, low) =>
      EscapeRun(open, 'u', high, m);
      EscapeRun(open, 'u', low, m);
      RunConcat(Within(open), "\\u" + high, "\\u" + low, m);
      assert CharacterText(c) == ("\\u" + high) + ("\\u" + low);
  }

  lemma {:induction false} CharactersRun(open: seq<bool>, cs: Characters, m: Manner)
    requires ValidCharacters(cs)
    ensures Run(Within(open), CharactersText(cs), m) == Some(Within(open))
  {
    hide Step, CharacterText;
    if cs.Char? {
      CharacterRun(open, cs.head, m);
      CharactersRun(open, cs.tail, m);
      RunConcat(Within(open), CharacterText(cs.head), CharactersText(cs.tail), m);
    }
  }

  lemma StringRun(st: State, cs: Characters, m: Manner)
    requires ValidCharacters(cs) && !st.quoted && Fits(st, '"', m)
    ensures Run(st, StringText(cs), m) == Some(State(st.open, false, false, Other, []))
  {
    hide Run, Fits, CharactersText;
    var text := CharactersText(cs);
    CharactersRun(st.open, cs, m);
    RunConcat(st, "\"" + text, "\"", m);
    RunConcat(st, "\"", text, m);
    RunByte(st, '"', m);
    RunByte(Within(st.open), '"', m);
  }

  lemma {:induction false} SpaceRun(st: State, w: bytes, m: Manner)
    requires AllSpace(w) && NoBreak(w) && !st.quoted && !Blankless(st)
    ensures Run(st, w, m) == Some(st.(white := st.white + w))
    decreases |w|
  {
    if w == [] {
      assert st.white + w == st.white;
    } else {
      SpaceRun(st.(white := st.white + [w[0]]), w[1..], m);
      assert st.white + [w[0]] + w[1..] == st.white + w;
    }
  }

  predicate NoBreak(w: bytes) { forall i :: 0 <= i < |w| ==> w[i] != '\n' }

  lemma {:induction false} RepeatNoBreak(unit: bytes, n: nat)
    requires NoBreak(unit)
    ensures NoBreak(Repeat(unit, n))
  {
    if n > 0 {
      RepeatNoBreak(unit, n - 1);
    }
  }

  /** Lines are broken, and nothing else that is inserted breaks them. */
  predicate Orderly(m: Manner) {
    && m.breaks && !m.style.dropNulls && WhiteManner(m)
    && NoBreak(m.unit) && NoBreak(m.before) && NoBreak(m.after)
  }

  lemma LineRun(st: State, d: nat, m: Manner)
    requires Orderly(m) && !st.quoted && MayBreak(st, m)
    ensures Run(st, Line(m, d), m) == Some(NextLine(st).(white := Repeat(m.unit, d)))
  {
    hide Repeat, MayBreak;
    var indent := Repeat(m.unit, d);
    RepeatSpace(m.unit, d);
    RepeatNoBreak(m.unit, d);
    RunConcat(st, "\n", indent, m);
    RunByte(st, '\n', m);
    SpaceRun(NextLine(st), indent, m);
    assert [] + indent == indent;
  }

  // ----- Texts of the styled writers -----------------------------------------------------------

  /** Behind a value, in the brackets `open`. */
  function Done(open: seq<bool>): State { State(open, false, false, Other, []) }

  lemma NumberWord(n: Number)
    requires ValidNumber(n)
    ensures Word(NumberText(n)) && NumberText(n) != []
  {
    assert Word(FractionText(n.fraction)) && Word(ExponentText(n.exponent)) && Word(n.whole);
  }

  lemma QuotedValid(s: bytes, emitUTF8: bool)
    ensures ValidCharacters(Strings.Quote(s, emitUTF8))
  {
    Strings.QuoteValid(s, 0, emitUTF8);
  }

  lemma ScalarTidy(p: Payload, d: nat, m: Manner, st: State)
    requires !p.Arr? && !p.Obj? && !m.style.dropNulls && Awaits(st, m)
    ensures Run(st, Text(Laid(p, d, m)), m) == Some(Done(st.open))
  {
    hide NumberText, Run, IntegerNumber, ValidNumber, StringText, Strings.Quote, Repeat;
    match p
    case Int(i) => NumberTidy(IntegerNumber(i), m, st) by { IntegerNumberValid(i); }
    case UInt(u) => NumberTidy(IntegerNumber(u), m, st) by { IntegerNumberValid(u); }
    case Real(r) =>
      var t := m.style.showDouble(r);
      if t.TNumber? {
        NumberTidy(t.n, m, st);
      } else {
        WordRun(st, "null", m);
      }
    case Str(s) =>
      QuotedValid(s, m.style.emitUTF8);
      StringRun(st, Strings.Quote(s, m.style.emitUTF8), m);
    case Bool(b) => WordRun(st, if b then "true" else "false", m);
    case Null => WordRun(st, "null", m);
  }

  lemma NumberTidy(n: Number, m: Manner, st: State)
    requires ValidNumber(n) && Awaits(st, m)
    ensures Run(st, NumberText(n), m) == Some(Done(st.open))
  {
    NumberWord(n);
    WordRun(st, NumberText(n), m);
  }

  lemma ItemCounted(es: Entries, i: nat)
    requires CountedEntries(es)
    ensures Counted(Item(es, i))
  {
    if Find(es, Index(i)).Some? {
      FindCounted(es, Index(i));
    }
  }

  lemma {:induction false} DropCounted(es: Entries, i: nat)
    requires CountedEntries(es) && i < Count(es)
    ensures Drop(es, i).Cons? && Counted(Drop(es, i).val.data)
    ensures ValueOrder.Size(Drop(es, i).val.data) < ValueOrder.EntriesSize(es)
  {
    if i > 0 {
      DropCounted(es.rest, i - 1);
    }
  }

  /** A laid out value is tidy wherever a value may begin at its depth. */
  lemma {:induction false} LaidTidy(p: Payload, d: nat, m: Manner, st: State)
    requires Orderly(m) && Awaits(st, m) && |st.open| == d && Counted(p)
    ensures Run(st, Text(Laid(p, d, m)), m) == Some(Done(st.open))
    decreases ValueOrder.Size(p), 0
  {
    hide Run, Fits, Text, Laid, BrokenLeft, LineLeft, BrokenMembersLeft, Size32, Leaf, Item;
    LaidText(p, d, m);
    if p.Arr? || p.Obj? {
      var rest :=
        if p.Obj? then BrokenMembersLeft(p.members, 0, d, m)
        else if Broken(p, m) then BrokenLeft(p.items, 0, d, m) else LineLeft(p.items, 0, m);
      OpeningRun(st, p.Obj?, rest, m);
      if p.Arr? && Size32(p.items) != 0 {
        if Broken(p, m) {
          BrokenElementsTidy(p.items, 0, d, m, st.open);
        } else {
          LineElementsTidy(p.items, 0, m, st.open);
        }
      } else if p.Obj? && p.members.Cons? {
        BrokenMembersTidy(p.members, 0, d, m, st.open);
      } else {
        EmptyRun(st, p.Obj?, m);
      }
    } else {
      ScalarTidy(p, d, m, st);
    }
  }

  /** Behind an opening bracket. */
  function Entered(open: seq<bool>, brace: bool): State { State(open + [false], false, false, Bracket(brace), []) }

  lemma OpeningRun(st: State, brace: bool, rest: bytes, m: Manner)
    requires Awaits(st, m)
    ensures Run(st, (if brace then "{" else "[") + rest, m) == Run(Entered(st.open, brace), rest, m)
  {
    hide Run;
    var c := if brace then '{' else '[';
    RunConcat(st, [c], rest, m);
    RunByte(st, c, m);
  }

  lemma EmptyRun(st: State, brace: bool, m: Manner)
    requires Awaits(st, m)
    ensures Run(st, if brace then "{}" else "[]", m) == Some(Done(st.open))
  {
    hide Run;
    var close: bytes := if brace then "}" else "]";
    OpeningRun(st, brace, close, m);
    assert (if brace then "{" else "[") + close == if brace then "{}" else "[]";
    RunByte(Entered(st.open, brace), close[0], m);
    assert (st.open + [false])[..|st.open|] == st.open;
  }

  /** In a container on several lines: at its start, or behind an element. */
  function Amid(open: seq<bool>, brace: bool, i: nat): State {
    if i == 0 then Entered(open, brace) else Done(open + [true])
  }

  /** At the start of a line, behind its indentation. */
  function AtLine(open: seq<bool>, m: Manner): State {
    State(open, false, false, LineFeed, Repeat(m.unit, |open|))
  }

  /** A line of its own for the next element. */
  lemma NextLineRun(open: seq<bool>, brace: bool, i: nat, m: Manner)
    requires Orderly(m)
    ensures Run(Amid(open, brace, i), Comma(i) + Line(m, |open| + 1), m)
      == Some(AtLine(open + [true], m))
  {
    hide Run, Repeat;
    var st := Amid(open, brace, i);
    RunConcat(st, Comma(i), Line(m, |open| + 1), m);
    if i == 0 {
      assert [] + Line(m, |open| + 1) == Line(m, |open| + 1);
      assert (open + [false])[..|open|] + [true] == open + [true];
      LineRun(st, |open| + 1, m);
    } else {
      RunByte(st, ',', m);
      LineRun(State(open + [true], false, false, AComma, []), |open| + 1, m);
    }
  }

  /** The line of the closing bracket. */
  lemma ClosingLineRun(open: seq<bool>, brace: bool, m: Manner)
    requires Orderly(m)
    ensures Run(Done(open + [true]), Line(m, |open|) + (if brace then "}" else "]"), m) == Some(Done(open))
  {
    hide Run, Repeat;
    var st := Done(open + [true]);
    var close: byte := if brace then '}' else ']';
    RunConcat(st, Line(m, |open|), [close], m);
    LineRun(st, |open|, m);
    RunByte(State(open + [true], false, false, LineFeed, Repeat(m.unit, |open|)), close, m);
    assert (open + [true])[..|open|] == open;
  }

  lemma {:induction false} BrokenElementsTidy(es: Entries, i: nat, d: nat, m: Manner, open: seq<bool>)
    requires Orderly(m) && |open| == d && i <= Size32(es) && 0 < Size32(es) && CountedEntries(es)
    ensures Run(Amid(open, false, i), BrokenLeft(es, i, d, m), m) == Some(Done(open))
    decreases ValueOrder.EntriesSize(es), 2, Size32(es) - i
  {
    hide Run, Text, Laid, BrokenLeft, Size32, Item, Line, Repeat;
    var st := Amid(open, false, i);
    if i >= Size32(es) {
      LastElement(es, d, m);
      ClosingLineRun(open, false, m);
    } else {
      ItemSize(es, i);
      ItemCounted(es, i);
      BrokenLeftStep(es, i, d, m);
      var head, text, rest := Comma(i) + Line(m, d + 1), Text(Laid(Item(es, i), d + 1, m)), BrokenLeft(es, i + 1, d, m);
      NextLineRun(open, false, i, m);
      var next := AtLine(open + [true], m);
      LaidTidy(Item(es, i), d + 1, m, next);
      RunConcat(st, head + text, rest, m);
      RunConcat(st, head, text, m);
      BrokenElementsTidy(es, i + 1, d, m, open);
    }
  }

  lemma {:induction false} BrokenMembersTidy(es: Entries, i: nat, d: nat, m: Manner, open: seq<bool>)
    requires Orderly(m) && |open| == d && i <= Count(es) && 0 < Count(es) && CountedEntries(es)
    ensures Run(Amid(open, true, i), BrokenMembersLeft(es, i, d, m), m) == Some(Done(open))
    decreases ValueOrder.EntriesSize(es), 1, Count(es) - i
  {
    hide Run, Text, Laid, BrokenMembersLeft, Line, Repeat, Lead, NamePart, Drop, NameBytes;
    var st := Amid(open, true, i);
    if i >= Count(es) {
      LastMember(es, d, m);
      ClosingLineRun(open, true, m);
    } else {
      BrokenMembersLeftStep(es, i, d, m);
      var x := Drop(es, i);
      DropCounted(es, i);
      var head, name := Comma(i) + Line(m, d + 1), NamePart(NameBytes(x.key), m);
      var lead, text := Lead(x.val.data, d + 1, m), Text(Laid(x.val.data, d + 1, m));
      var rest := BrokenMembersLeft(es, i + 1, d, m);
      NextLineRun(open, true, i, m);
      var line := AtLine(open + [true], m);
      NameRun(line, NameBytes(x.key), m);
      LeadRun(open + [true], x.val.data, m);
      LaidTidy(x.val.data, d + 1, m, Valued(x.val.data, open + [true], m));
      RunConcat(st, head + name + (lead + text), rest, m);
      RunConcat(st, head + name, lead + text, m);
      RunConcat(st, head, name, m);
      RunConcat(Named(open + [true], m), lead, text, m);
      BrokenMembersTidy(es, i + 1, d, m, open);
    }
  }

  /** In an array on one line: at its start, or behind an element. */
  function OnLine(open: seq<bool>, i: nat): State {
    if i == 0 then Entered(open, false) else Done(open + [false])
  }

  /** Behind a blank, where an element begins. */
  function Blanked(open: seq<bool>, i: nat): State {
    State(open + [false], false, false, if i == 0 then Bracket(false) else AComma, " ")
  }

  lemma BlankRun(open: seq<bool>, i: nat, m: Manner)
    ensures Run(OnLine(open, i), Comma(i) + " ", m) == Some(Blanked(open, i)) && Awaits(Blanked(open, i), m)
  {
    hide Run;
    var st := OnLine(open, i);
    RunConcat(st, Comma(i), " ", m);
    assert [] + " " == " ";
    if i == 0 {
      RunByte(st, ' ', m);
    } else {
      RunByte(st, ',', m);
      RunByte(State(open + [false], false, false, AComma, []), ' ', m);
    }
  }

  lemma {:induction false} LineElementsTidy(es: Entries, i: nat, m: Manner, open: seq<bool>)
    requires Orderly(m) && i <= Size32(es) && 0 < Size32(es) && CountedEntries(es)
    requires forall k :: 0 <= k < Size32(es) ==> Leaf(Item(es, k))
    ensures Run(OnLine(open, i), LineLeft(es, i, m), m) == Some(Done(open))
    decreases ValueOrder.EntriesSize(es), 2, Size32(es) - i
  {
    hide Run, Text, Canon, Laid, LineLeft, Size32, Item, Leaf;
    var st := OnLine(open, i);
    if i >= Size32(es) {
      LastOnLine(es, m);
      RunConcat(st, " ", "]", m);
      RunByte(st, ' ', m);
      RunByte(st.(white := " "), ']', m);
      assert [] + [' '] == " ";
      assert (open + [false])[..|open|] == open;
    } else {
      LineLeftStep(es, i, m);
      ItemSize(es, i);
      ItemCounted(es, i);
      var value := Item(es, i);
      LeafLaid(value, |open| + 1, m);
      var head, text, rest := Comma(i) + " ", Text(Canon(value, m.style)), LineLeft(es, i + 1, m);
      BlankRun(open, i, m);
      LaidTidy(value, |open| + 1, m, Blanked(open, i));
      RunConcat(st, head + text, rest, m);
      RunConcat(st, head, text, m);
      LineElementsTidy(es, i + 1, m, open);
    }
  }

  /** Behind a name and its colon. */
  function Named(open: seq<bool>, m: Manner): State { State(open, false, false, AColon, m.after) }

  lemma NameRun(st: State, name: bytes, m: Manner)
    requires Orderly(m) && Awaits(st, m)
    ensures Run(st, NamePart(name, m), m) == Some(Named(st.open, m))
  {
    hide Run, StringText, Strings.Quote, Repeat;
    var cs := Strings.Quote(name, m.style.emitUTF8);
    QuotedValid(name, m.style.emitUTF8);
    StringRun(st, cs, m);
    var named, colon := Done(st.open), State(st.open, false, false, AColon, []);
    RunConcat(st, StringText(cs), m.before + ":" + m.after, m);
    RunConcat(named, m.before + ":", m.after, m);
    RunConcat(named, m.before, ":", m);
    SpaceRun(named, m.before, m);
    assert [] + m.before == m.before && [] + m.after == m.after;
    RunByte(named.(white := m.before), ':', m);
    SpaceRun(colon, m.after, m);
  }

  /** Where the value of a member begins. */
  function Valued(p: Payload, open: seq<bool>, m: Manner): State {
    if m.below && Broken(p, m) then AtLine(open, m) else Named(open, m)
  }

  lemma LeadRun(open: seq<bool>, p: Payload, m: Manner)
    requires Orderly(m)
    ensures Run(Named(open, m), Lead(p, |open|, m), m) == Some(Valued(p, open, m)) && Awaits(Valued(p, open, m), m)
  {
    hide Broken, Repeat;
    if m.below && Broken(p, m) {
      LineRun(Named(open, m), |open|, m);
    }
  }

  lemma LastBreak(m: Manner)
    ensures Run(Done([]), "\n", m).Some?
  {
    RunByte(Done([]), '\n', m);
  }

  /** The styled writers' texts: indented, and with a line for every element and member of a container on
      several lines. */
  lemma LaidIsTidy(p: Payload, m: Manner, trail: bytes)
    requires Orderly(m) && Counted(p) && (trail == [] || trail == "\n")
    ensures var s := Text(Laid(p, 0, m)) + trail; Indented(s, m.unit) && OnLines(s)
  {
    hide Text, Laid, Indented, OnLines, Step;
    var text := Text(Laid(p, 0, m));
    LaidTidy(p, 0, m, START);
    RunConcat(START, text, trail, m);
    LastBreak(m);
    TidyIndented(text + trail, m);
    TidyOnLines(text + trail, m);
  }
}
