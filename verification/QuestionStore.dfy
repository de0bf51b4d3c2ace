/** The question store of the bot: a directory of files, one for each question of each server. */
module QuestionStore {
  import opened Bytes
  import opened HexNames
  import opened QuestionFiles
  import Replacing

  /** The length of a server id, which QuestionList relies on. */
  const ID_LENGTH := 18

  datatype QuestionKey = QuestionKey(serverid: bytes, name: bytes)

  /** A server id of the usual length, and a name that a file name can hold. */
  predicate Named(k: QuestionKey) {
    |k.serverid| == ID_LENGTH && AllDigits(k.serverid) && 1 <= |k.name| <= 63 && NulFree(k.name)
  }

  function FileName(k: QuestionKey): bytes {
    k.serverid + "-" + HexName(k.name) + ".txt"
  }

  /** The name without its last four characters; a shorter one, whole. */
  function Stem(e: bytes): bytes {
    if |e| < 4 then e else e[..|e| - 4]
  }

  lemma StemOfFile(k: QuestionKey)
    requires |k.serverid| == ID_LENGTH
    ensures var s := Stem(FileName(k));
      |s| >= 19 && s[..ID_LENGTH] == k.serverid && s[19..] == HexName(k.name)
  {
    var s := k.serverid + "-" + HexName(k.name);
    assert FileName(k) == s + ".txt" && Stem(FileName(k)) == s;
  }

  /** Different questions have different files. */
  lemma FileNameInjective(a: QuestionKey, b: QuestionKey)
    requires Named(a) && Named(b)
    ensures FileName(a) == FileName(b) <==> a == b
  {
    hide FileName, Stem, HexName, UnhexName;
    StemOfFile(a);
    StemOfFile(b);
    NameRoundTrip(a.name);
    NameRoundTrip(b.name);
  }

  /** startsWith: it only answers yes for a longer string, and when it runs off the end of the string it
      returns nothing at all. */
  method StartsWith(s: bytes, compare: bytes) returns (r: Option<bool>)
    ensures r == Some(true) <==> compare < s
    ensures r == None <==> s <= compare
  {
    var i := 0;
    while i < |s|
      invariant i <= |s| && i <= |compare| && s[..i] == compare[..i]
    {
      if |compare| > i {
        if compare[i] != s[i] {
          Differ(s, compare, i);
          return Some(false);
        }
      } else {
        assert compare[..i] == compare;
        return Some(true);
      }
      i := i + 1;
    }
    assert s[..i] == s;
    return None;
  }

  lemma Differ(s: bytes, t: bytes, i: nat)
    requires i < |s| && i < |t| && s[i] != t[i]
    ensures !(s <= t) && !(t <= s)
  {}

  /** What QuestionList takes from a directory entry. */
  function PickOne(e: bytes, serverid: bytes): Option<bytes> {
    if serverid < Stem(e) && |Stem(e)| >= 19 then Some(Stem(e)[19..]) else None
  }

  function Picked(entries: seq<bytes>, serverid: bytes): seq<bytes> {
    if entries == [] then []
    else
      var init := Picked(entries[..|entries| - 1], serverid);
      match PickOne(entries[|entries| - 1], serverid) case Some(x) => init + [x] case None => init
  }

  /** The entry does not send QuestionList off the end of a string. */
  predicate Harmless(e: bytes, serverid: bytes) {
    !(Stem(e) <= serverid) && (serverid < Stem(e) ==> |Stem(e)| >= 19)
  }

  lemma PickFile(k: QuestionKey, serverid: bytes)
    requires Named(k) && |serverid| == ID_LENGTH
    ensures Harmless(FileName(k), serverid)
    ensures PickOne(FileName(k), serverid) == if k.serverid == serverid then Some(HexName(k.name)) else None
  {
    hide FileName, Stem, HexName;
    StemOfFile(k);
    var s := Stem(FileName(k));
    if serverid < s {
      assert s[..ID_LENGTH] == serverid;
    }
  }

  lemma PickDots(serverid: bytes)
    requires |serverid| == ID_LENGTH && AllDigits(serverid)
    ensures Harmless(".", serverid) && Harmless("..", serverid)
    ensures PickOne(".", serverid) == None && PickOne("..", serverid) == None
  {
    assert serverid[0] != '.';
    Differ(".", serverid, 0);
    Differ("..", serverid, 0);
  }

  lemma {:induction false} PickedMembers(entries: seq<bytes>, serverid: bytes)
    ensures forall x :: x in Picked(entries, serverid) <==> exists e :: e in entries && PickOne(e, serverid) == Some(x)
  {
    hide PickOne;
    if entries != [] {
      var init, e := entries[..|entries| - 1], entries[|entries| - 1];
      PickedMembers(init, serverid);
      assert entries == init + [e];
      forall x ensures x in Picked(entries, serverid) <==> exists e :: e in entries && PickOne(e, serverid) == Some(x) {
        if x in Picked(entries, serverid) && x !in Picked(init, serverid) {
          assert PickOne(e, serverid) == Some(x);
        }
      }
    }
  }

  /** Where a stream stands in its text: `eof` is set by reading to the end, `fail` by reading nothing. */
  datatype Stream = Stream(pos: nat, eof: bool, fail: bool)

  /** What the loop has still to see, when its last line was `str`. */
  function ToSee(content: bytes, t: Stream, str: bytes): seq<bytes>
    requires t.pos <= |content|
  {
    if t.fail then [] else if t.eof then [str] else Seen(content[t.pos..])
  }

  /** getline: at the end of the text the line is left as it was. */
  method GetLine(content: bytes, t: Stream, line: bytes) returns (t': Stream, str: bytes)
    requires t.pos <= |content| && !t.fail
    ensures t'.pos <= |content|
    ensures ToSee(content, t, line) == [str] + ToSee(content, t', str)
    ensures t'.fail || (t'.eof && !t.eof) || (t.eof == t'.eof && t.pos < t'.pos)
  {
    if t.eof {
      return t.(fail := true), line;
    }
    ghost var rest := content[t.pos..];
    var n := LineEnd(content, t.pos);
    LineEndFrom(content, t.pos);
    str := content[t.pos..n];
    if n < |content| {
      assert rest[n - t.pos + 1..] == content[n + 1..];
      assert rest[..n - t.pos] == str;
      return Stream(n + 1, false, false), str;
    }
    assert str == rest;
    return Stream(n, true, n == t.pos), str;
  }

  lemma {:induction false} LineEndFrom(s: bytes, i: nat)
    requires i <= |s|
    ensures LineEnd(s, i) == i + LineEnd(s[i..], 0)
  {
    var rest := s[i..];
    forall k | 0 <= k < |rest| ensures rest[k] == s[i + k] {}
    assert LineEnd(s, i) < |s| ==> rest[LineEnd(s, i) - i] == '\n';
  }

  lemma TakeFirst(r: Reading, lines: seq<bytes>)
    ensures lines != [] ==> TakeAll(r, lines) == TakeAll(Take(r, WithoutReturns(lines[0])), lines[1..])
  {
    hide Take, WithoutReturns;
  }

  lemma LegibleFirst(lines: seq<bytes>)
    requires lines != []
    ensures Legible(lines) <==> Printable(WithoutReturns(lines[0])) && Legible(lines[1..])
  {
    hide WithoutReturns, Printable;
    assert lines == [lines[0]] + lines[1..];
  }

  /** It makes no difference that a line which is seen twice has lost its carriage returns before. */
  lemma SeeStripped(content: bytes, t: Stream, line: bytes, r: Reading)
    requires t.pos <= |content|
    ensures TakeAll(r, ToSee(content, t, line)) == TakeAll(r, ToSee(content, t, WithoutReturns(line)))
    ensures Legible(ToSee(content, t, line)) <==> Legible(ToSee(content, t, WithoutReturns(line)))
  {
    hide Take, Seen, Replacing.Replaced, Replacing.FindFrom, Replacing.Restarted, WithoutReturns;
    StrippedTwice(line);
    TakeFirst(r, [line]);
    TakeFirst(r, [WithoutReturns(line)]);
  }

  lemma StrippedTwice(line: bytes)
    ensures WithoutReturns(WithoutReturns(line)) == WithoutReturns(line)
  {
    hide Replacing.Replaced, Replacing.FindFrom, Replacing.Restarted;
    Replacing.SameReplacement(line, "\r", []);
    NoReturnFound(WithoutReturns(line));
    NothingReturned(WithoutReturns(line));
  }

  /** The body of the loop of ReadQuestion. */
  method TakeLine(r: Reading, str: bytes) returns (t: Reading)
    ensures t == Take(r, str)
  {
    hide Marker;
    NothingBetween(r.q.answer, str);
    NothingBetween(r.q.channelid, str);
    NothingBetween(r.q.roleid, str);
    var it, mit, m, q := r.it, r.mit, r.m, r.q;
    if Opens(str) != NoSection {
      it := Opens(str);
    } else {
      match it {
        case Answer =>
          q := q.(answer := if q.answer == INV then str else q.answer + str);
        case ChannelId =>
          q := q.(channelid := if q.channelid == INV then str else q.channelid + str);
        case RoleId =>
          q := q.(roleid := if q.roleid == INV then str else q.roleid + str);
        case Hint =>
          q := q.(hint := if q.hint == INV then str else q.hint + "\n" + str);
        case ManyAnswers =>
          if !mit {
            m := m.(multipleanswer := str);
            mit := true;
          } else {
            m := m.(question := str);
            q := q.(multipleanswer := q.multipleanswer + [m]);
            mit := false;
          }
        case Permission =>
          if q.permission == INV {
            q := q.(permission := str);
            it := Finished;
          } else {
            q := q.(permission := q.permission + str);
          }
        case NoSection =>
        case Finished =>
      }
    }
    t := Reading(it, mit, m, q);
  }

  lemma NothingBetween(a: bytes, b: bytes)
    ensures a + [] + b == a + b
  {
    assert a + [] == a;
  }

  lemma FileNameIs(k: QuestionKey)
    ensures FileName(k) == k.serverid + "-" + HexName(k.name) + ".txt"
  {}

  lemma NothingJoined()
    ensures Joined([]) == []
  {}

  lemma JoinedSnoc(lines: seq<bytes>, x: bytes)
    ensures Joined(lines + [x]) == Joined(lines) + (x + "\n")
  {
    hide Joined;
    JoinedConcat(lines, [x]);
    JoinedOne(x);
  }

  /** One line more: out += x + "\n". */
  method Append(out: bytes, x: bytes, ghost lines: seq<bytes>) returns (longer: bytes, ghost more: seq<bytes>)
    requires out == Joined(lines)
    ensures more == lines + [x] && longer == Joined(more)
  {
    JoinedSnoc(lines, x);
    longer, more := out + (x + "\n"), lines + [x];
  }

  method AppendPairs(out: bytes, ms: seq<MultipleAnswer>, ghost lines: seq<bytes>) returns (longer: bytes)
    requires out == Joined(lines)
    ensures longer == Joined(lines + PairLines(ms))
  {
    hide Joined;
    longer := out;
    var i := 0;
    ghost var done := lines;
    assert lines + PairLines(ms[..0]) == lines;
    while i < |ms|
      invariant i <= |ms| && longer == Joined(done) && done == lines + PairLines(ms[..i])
    {
      longer, done := Append(longer, ms[i].multipleanswer, done);
      longer, done := Append(longer, ms[i].question, done);
      PairLinesStep(ms, i);
      assert done == lines + (PairLines(ms[..i]) + [ms[i].multipleanswer, ms[i].question]);
      i := i + 1;
    }
    assert ms[..i] == ms;
  }

  lemma {:induction false} PairLinesStep(ms: seq<MultipleAnswer>, i: nat)
    requires i < |ms|
    ensures PairLines(ms[..i + 1]) == PairLines(ms[..i]) + [ms[i].multipleanswer, ms[i].question]
  {
    if i > 0 {
      PairLinesStep(ms[1..], i - 1);
      assert ms[1..][..i] == ms[..i + 1][1..] && ms[1..][..i - 1] == ms[..i][1..];
    }
  }

  /** The directory of question files. */
  class Store {
    var files: map<bytes, bytes>
    /** The questions written so far. */
    ghost var stored: set<QuestionKey>

    constructor ()
      ensures files == map[] && stored == {} && Valid()
    {
      files, stored := map[], {};
    }

    /** The files are those of the questions written. */
    ghost predicate Valid()
      reads this
    {
      && (forall k :: k in stored ==> Named(k) && FileName(k) in files)
      && (forall f :: f in files ==> exists k :: k in stored && FileName(k) == f)
    }

    /** WriteQuestion. */
    method WriteQuestion(q: Question)
      requires 1 <= |q.name| <= 499
      modifies this
      ensures files == old(files)[FileName(QuestionKey(q.serverid, q.name)) := Text(q)]
      ensures stored == old(stored) + {QuestionKey(q.serverid, q.name)}
      ensures old(Valid()) && Named(QuestionKey(q.serverid, q.name)) ==> Valid()
    {
      hide Marker, Joined, FileName, Named, HexName;
      var _, file := HexPrint(q.name);
      var key := QuestionKey(q.serverid, q.name);
      FileNameIs(key);
      var out: bytes := [];
      NothingJoined();
      ghost var lines: seq<bytes> := [];
      out, lines := Append(out, Marker(Answer), lines);
      out, lines := Append(out, q.answer, lines);
      out, lines := Append(out, Marker(ChannelId), lines);
      out, lines := Append(out, q.channelid, lines);
      out, lines := Append(out, Marker(RoleId), lines);
      out, lines := Append(out, q.roleid, lines);
      out, lines := Append(out, Marker(Hint), lines);
      assert lines == Before(q);
      out, lines := Append(out, q.hint, lines);
      out, lines := Append(out, Marker(ManyAnswers), lines);
      out := AppendPairs(out, q.multipleanswer, lines);
      lines := lines + PairLines(q.multipleanswer);
      out, lines := Append(out, Marker(Permission), lines);
      out, lines := Append(out, q.permission, lines);
      assert lines == Before(q) + [q.hint] + Behind(q);
      files := files[q.serverid + "-" + file + ".txt" := out];
      stored := stored + {key};
    }

    /** What the store holds for a question: a record that is unset everywhere if there is no such file. */
    function Held(k: QuestionKey): Option<Question>
      reads this
    {
      if FileName(k) in files then ReadFile(k.serverid, k.name, files[FileName(k)]) else Some(UNSET)
    }

    /** ReadQuestion; nothing where it is undefined, because a line passes the end of hexprint's buffer. */
    method ReadQuestion(serverid: bytes, questionname: bytes) returns (r: Option<Question>)
      requires 1 <= |questionname| <= LONGEST
      ensures r == Held(QuestionKey(serverid, questionname))
    {
      hide Take, TakeAll, Seen, FileName, HexName, Printable;
      var q := UNSET;
      var _, file := HexPrint(questionname);
      FileNameIs(QuestionKey(serverid, questionname));
      var path := serverid + "-" + file + ".txt";
      if path in files {
        var content := files[path];
        var reading := Start(serverid, questionname);
        var t, str: bytes := Stream(0, false, false), [];
        assert content[0..] == content;
        while !t.fail
          invariant t.pos <= |content|
          invariant TakeAll(reading, ToSee(content, t, str)) == TakeAll(Start(serverid, questionname), Seen(content))
          invariant Legible(ToSee(content, t, str)) <==> Legible(Seen(content))
          decreases !t.fail, !t.eof, |content| - t.pos
        {
          ghost var left := ToSee(content, t, str);
          var line: bytes;
          t, line := GetLine(content, t, str);
          // the line is kept without its carriage returns, also for the next getline
          str := Replacing.ReplaceOnce(line, "\r", []);
          LegibleFirst(left);
          var printed, _ := HexPrint(str);
          if !printed {
            return None;
          }
          TakeFirst(reading, left);
          SeeStripped(content, t, line, Take(reading, str));
          reading := TakeLine(reading, str);
        }
        TakeNone(reading);
        q := reading.q;
      }
      return Some(q);
    }

    /** Serverinfo::QuestionList, on the entries of the directory in the order readdir gives them: false
        when it meets undefined behaviour in startsWith, or substr throws. */
    method QuestionList(serverid: bytes, entries: seq<bytes>) returns (ok: bool, r: seq<bytes>)
      requires Distinct(entries) && forall e :: e in entries <==> e == "." || e == ".." || e in files
      ensures ok <==> forall e :: e in entries ==> Harmless(e, serverid)
      ensures Valid() && |serverid| == ID_LENGTH && AllDigits(serverid) ==>
        && ok && Distinct(r)
        && (forall name :: QuestionKey(serverid, name) in stored
                           <==> HexName(name) in r && UnhexName(HexName(name)) == name)
        && (forall x :: x in r ==> QuestionKey(serverid, UnhexName(x)) in stored)
    {
      hide Picked, PickOne, FileName, Harmless, Named, HexName, UnhexName;
      r := [];
      if Valid() && |serverid| == ID_LENGTH && AllDigits(serverid) {
        EntriesListed(files.Keys, stored, serverid, entries);
      }
      NothingPicked(serverid);
      var i := 0;
      while i < |entries|
        invariant i <= |entries| && r == Picked(entries[..i], serverid)
        invariant forall k :: 0 <= k < i ==> Harmless(entries[k], serverid)
      {
        var s := Stem(entries[i]);
        var starts := StartsWith(s, serverid);
        PickStep(entries, i, serverid);
        if starts == None || (starts == Some(true) && |s| < 19) {
          return false, [];
        }
        if starts == Some(true) {
          r := r + [s[19..]];
        }
        i := i + 1;
      }
      assert entries[..i] == entries;
      return true, r;
    }

    /** A question is read back as it was written exactly when it can be stored and no line is too long; and
        no other question is touched. */
    method WriteThenRead(q: Question, other: QuestionKey) returns (back: Option<Question>, untouched: Option<Question>)
      requires Named(QuestionKey(q.serverid, q.name)) && Named(other) && Valid()
      requires other != QuestionKey(q.serverid, q.name)
      modifies this
      ensures Valid() && (back == Some(q) <==> Storable(q) && ShortLines(q))
      ensures untouched == old(Held(other))
    {
      hide Seen, TakeAll, FileName, Text, Storable, ShortLines, ReadFile;
      ReadBackIff(q);
      FileNameInjective(other, QuestionKey(q.serverid, q.name));
      WriteQuestion(q);
      back := ReadQuestion(q.serverid, q.name);
      untouched := ReadQuestion(other.serverid, other.name);
    }
  }

  predicate Distinct(s: seq<bytes>) {
    forall i, j :: 0 <= i < j < |s| ==> s[i] != s[j]
  }

  lemma NothingPicked(serverid: bytes)
    ensures Picked([], serverid) == []
  {}

  lemma PickStep(entries: seq<bytes>, i: nat, serverid: bytes)
    requires i < |entries|
    ensures var s := Stem(entries[i]);
      && (Harmless(entries[i], serverid) <==> !(s <= serverid) && (serverid < s ==> |s| >= 19))
      && Picked(entries[..i + 1], serverid)
         == Picked(entries[..i], serverid) + (if serverid < s && |s| >= 19 then [s[19..]] else [])
  {
    assert entries[..i + 1][..i] == entries[..i];
  }

  /** What a store of named questions lists for a server. */
  lemma EntriesListed(files: set<bytes>, stored: set<QuestionKey>, serverid: bytes, entries: seq<bytes>)
    requires |serverid| == ID_LENGTH && AllDigits(serverid) && Distinct(entries)
    requires forall e :: e in entries <==> e == "." || e == ".." || e in files
    requires forall k :: k in stored ==> Named(k) && FileName(k) in files
    requires forall f :: f in files ==> exists k :: k in stored && FileName(k) == f
    ensures forall e :: e in entries ==> Harmless(e, serverid)
    ensures var r := Picked(entries, serverid);
      && Distinct(r)
      && (forall name :: QuestionKey(serverid, name) in stored
                         <==> HexName(name) in r && UnhexName(HexName(name)) == name)
      && (forall x :: x in r ==> QuestionKey(serverid, UnhexName(x)) in stored)
  {
    hide Picked, PickOne, FileName, Harmless, Named, HexName, UnhexName;
    PickDots(serverid);
    forall f | f in files
      ensures Harmless(f, serverid)
      ensures var x := PickOne(f, serverid); x.Some? ==>
        var name := UnhexName(x.value);
        QuestionKey(serverid, name) in stored && FileName(QuestionKey(serverid, name)) == f && HexName(name) == x.value
    {
      var k :| k in stored && FileName(k) == f;
      PickFile(k, serverid);
      NamedName(k);
    }
    PickedMembers(entries, serverid);
    PickedDistinct(entries, serverid);
    forall name | QuestionKey(serverid, name) in stored
      ensures HexName(name) in Picked(entries, serverid) && UnhexName(HexName(name)) == name
    {
      var k := QuestionKey(serverid, name);
      PickFile(k, serverid);
      NamedName(k);
      assert FileName(k) in entries;
    }
  }

  lemma NamedName(k: QuestionKey)
    requires Named(k)
    ensures UnhexName(HexName(k.name)) == k.name
  {
    NameRoundTrip(k.name);
  }

  lemma {:induction false} PickedDistinct(entries: seq<bytes>, serverid: bytes)
    requires Distinct(entries)
    requires forall e, f ::
      (e in entries && f in entries && PickOne(e, serverid).Some? && PickOne(e, serverid) == PickOne(f, serverid))
      ==> e == f
    ensures Distinct(Picked(entries, serverid))
  {
    hide PickOne;
    if entries != [] {
      var init, e := entries[..|entries| - 1], entries[|entries| - 1];
      PickedDistinct(init, serverid);
      PickedMembers(init, serverid);
      assert e !in init;
    }
  }
}
