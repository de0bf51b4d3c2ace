/** The two ReplaceAll functions: one restarts from the beginning after every replacement, the other
    goes on after it. */
module Replacing {
  import opened Bytes

  /** std::string::find: the first position from `i` on where `from` stands, or -1. */
  function FindFrom(s: bytes, from: bytes, i: nat): (p: int)
    requires i <= |s|
    ensures p == -1 || (i <= p && At(s, p, from))
    ensures forall q: nat :: i <= q && (p == -1 || q < p) ==> !At(s, q, from)
    decreases |s| - i
  {
    if At(s, i, from) then i
    else if i == |s| then -1
    else FindFrom(s, from, i + 1)
  }

  predicate NoCommon(from: bytes, to: bytes) {
    forall i :: 0 <= i < |to| ==> to[i] !in from
  }

  /** How many characters of `s` are in `from`. */
  function Letters(s: bytes, from: bytes): nat {
    if s == [] then 0 else (if s[0] in from then 1 else 0) + Letters(s[1..], from)
  }

  lemma {:induction false} LettersConcat(a: bytes, b: bytes, from: bytes)
    ensures Letters(a + b, from) == Letters(a, from) + Letters(b, from)
  {
    if a == [] {
      assert a + b == b;
    } else {
      LettersConcat(a[1..], b, from);
      assert (a + b)[1..] == a[1..] + b;
    }
  }

  lemma {:induction false} LettersNone(a: bytes, from: bytes)
    requires NoCommon(from, a)
    ensures Letters(a, from) == 0
  {
    if a != [] {
      LettersNone(a[1..], from);
    }
  }

  lemma {:induction false} LettersAll(a: bytes, from: bytes)
    requires forall i :: 0 <= i < |a| ==> a[i] in from
    ensures Letters(a, from) == |a|
  {
    if a != [] {
      LettersAll(a[1..], from);
    }
  }

  /** The string with `to` instead of the `n` characters at `p`. */
  function Spliced(s: bytes, p: nat, n: nat, to: bytes): bytes
    requires p + n <= |s|
  {
    s[..p] + to + s[p + n..]
  }

  lemma Parts(s: bytes, p: nat, from: bytes)
    requires At(s, p, from)
    ensures s == s[..p] + from + s[p + |from|..]
  {
    AtSlice(s, p, from);
  }

  lemma SpliceShrinks(s: bytes, p: nat, from: bytes, to: bytes)
    requires from != [] && NoCommon(from, to) && At(s, p, from)
    ensures Letters(Spliced(s, p, |from|, to), from) == Letters(s, from) - |from|
  {
    var x, y := s[..p], s[p + |from|..];
    Parts(s, p, from);
    LettersConcat(x + from, y, from);
    LettersConcat(x, from, from);
    LettersConcat(x + to, y, from);
    LettersConcat(x, to, from);
    LettersNone(to, from);
    LettersAll(from, from);
  }

  /** The string after `n` rounds of replacing the leftmost occurrence. */
  function After(s: bytes, from: bytes, to: bytes, n: nat): bytes
    decreases n
  {
    var p := FindFrom(s, from, 0);
    if n == 0 || p < 0 then s else After(Spliced(s, p, |from|, to), from, to, n - 1)
  }

  /** After some round no occurrence is left. */
  ghost predicate Stops(s: bytes, from: bytes, to: bytes) {
    exists n: nat :: StopsAt(s, from, to, n)
  }

  predicate StopsAt(s: bytes, from: bytes, to: bytes, n: nat) {
    FindFrom(After(s, from, to, n), from, 0) == -1
  }

  /** Replacing the leftmost occurrence until there is none. */
  ghost function Restarted(s: bytes, from: bytes, to: bytes): bytes
    requires Stops(s, from, to)
  {
    var n: nat :| StopsAt(s, from, to, n);
    After(s, from, to, n)
  }

  lemma {:induction false} AfterStable(s: bytes, from: bytes, to: bytes, m: nat, n: nat)
    requires m <= n && StopsAt(s, from, to, m)
    ensures After(s, from, to, n) == After(s, from, to, m)
    decreases n
  {
    hide FindFrom, Spliced;
    var p := FindFrom(s, from, 0);
    if m > 0 && p >= 0 {
      AfterStable(Spliced(s, p, |from|, to), from, to, m - 1, n - 1);
    }
  }

  lemma RestartedIs(s: bytes, from: bytes, to: bytes, n: nat)
    requires StopsAt(s, from, to, n)
    ensures Stops(s, from, to) && Restarted(s, from, to) == After(s, from, to, n)
  {
    hide After, FindFrom;
    var m: nat :| StopsAt(s, from, to, m) && Restarted(s, from, to) == After(s, from, to, m);
    if m <= n {
      AfterStable(s, from, to, m, n);
    } else {
      AfterStable(s, from, to, n, m);
    }
  }

  /** One round more or less changes nothing. */
  lemma RestartedStep(s: bytes, p: nat, from: bytes, to: bytes)
    requires p == FindFrom(s, from, 0)
    ensures p + |from| <= |s|
    ensures Stops(s, from, to) <==> Stops(Spliced(s, p, |from|, to), from, to)
    ensures Stops(s, from, to) ==> Restarted(s, from, to) == Restarted(Spliced(s, p, |from|, to), from, to)
  {
    hide FindFrom, Spliced, At, Stops, Restarted;
    OccurrenceFits(s, p, from);
    var t := Spliced(s, p, |from|, to);
    if Stops(s, from, to) {
      var n := StoppingRound(s, from, to);
      RestartedIs(s, from, to, n);
      RestartedIs(t, from, to, n - 1);
    }
    if Stops(t, from, to) {
      var n := StoppingRound(t, from, to);
      assert After(s, from, to, n + 1) == After(t, from, to, n);
      RestartedIs(s, from, to, n + 1);
    }
  }

  lemma StoppingRound(s: bytes, from: bytes, to: bytes) returns (n: nat)
    requires Stops(s, from, to)
    ensures StopsAt(s, from, to, n) && (FindFrom(s, from, 0) != -1 ==> n > 0)
  {
    n :| StopsAt(s, from, to, n);
  }

  lemma OccurrenceFits(s: bytes, p: nat, from: bytes)
    requires p == FindFrom(s, from, 0)
    ensures p + |from| <= |s| && At(s, p, from)
  {}

  lemma NothingToRestart(s: bytes, from: bytes, to: bytes)
    requires FindFrom(s, from, 0) == -1
    ensures Stops(s, from, to) && Restarted(s, from, to) == s
  {
    RestartedIs(s, from, to, 0);
  }

  /** It stops on every string if the two share no character: each round takes characters of the search
      string away. */
  lemma {:induction false} StopsApart(s: bytes, from: bytes, to: bytes)
    requires from != [] && NoCommon(from, to)
    ensures Stops(s, from, to)
    decreases Letters(s, from)
  {
    hide FindFrom, Stops, Spliced, NoCommon, At;
    var p := FindFrom(s, from, 0);
    if p < 0 {
      NothingToRestart(s, from, to);
    } else {
      OccurrenceFits(s, p, from);
      SpliceShrinks(s, p, from, to);
      StopsApart(Spliced(s, p, |from|, to), from, to);
      RestartedStep(s, p, from, to);
    }
  }

  /** And if the replacement is shorter than the search string. */
  lemma {:induction false} StopsShorter(s: bytes, from: bytes, to: bytes)
    requires |to| < |from|
    ensures Stops(s, from, to)
    decreases |s|
  {
    hide FindFrom, Stops, At;
    var p := FindFrom(s, from, 0);
    if p < 0 {
      NothingToRestart(s, from, to);
    } else {
      OccurrenceFits(s, p, from);
      StopsShorter(Spliced(s, p, |from|, to), from, to);
      RestartedStep(s, p, from, to);
    }
  }

  /** It never stops, once it has found something, if the replacement contains the search string. */
  lemma NeverStops(s: bytes, from: bytes, to: bytes, j: nat)
    requires At(to, j, from)
    ensures Stops(s, from, to) <==> FindFrom(s, from, 0) == -1
  {
    hide FindFrom, Stops, At;
    if FindFrom(s, from, 0) == -1 {
      NothingToRestart(s, from, to);
    } else if Stops(s, from, to) {
      var n := StoppingRound(s, from, to);
      StillFound(s, from, to, j, n);
    }
  }

  lemma {:induction false} StillFound(s: bytes, from: bytes, to: bytes, j: nat, n: nat)
    requires At(to, j, from) && FindFrom(s, from, 0) != -1
    ensures !StopsAt(s, from, to, n)
    decreases n
  {
    hide FindFrom, At, Spliced;
    var p := FindFrom(s, from, 0);
    OccurrenceFits(s, p, from);
    if n > 0 {
      FoundAgain(s, p, from, to, j);
      StillFound(Spliced(s, p, |from|, to), from, to, j, n - 1);
    }
  }

  lemma FoundAgain(s: bytes, p: nat, from: bytes, to: bytes, j: nat)
    requires p + |from| <= |s| && At(to, j, from)
    ensures FindFrom(Spliced(s, p, |from|, to), from, 0) != -1
  {
    hide FindFrom;
    var t := Spliced(s, p, |from|, to);
    forall k | 0 <= k < |from| ensures t[p + j + k] == from[k] {
      assert t[p + (j + k)] == to[j + k];
    }
    assert At(t, p + j, from);
  }

  /** Replacing the occurrences in one pass: each search starts after the last replacement. */
  function Replaced(s: bytes, from: bytes, to: bytes): bytes
    requires from != []
    decreases |s|
  {
    var p := FindFrom(s, from, 0);
    if p < 0 then s else s[..p] + to + Replaced(s[p + |from|..], from, to)
  }

  /** TextManager::ReplaceAll, where it stops. */
  method ReplaceRestarting(s: bytes, from: bytes, to: bytes) returns (content: bytes)
    requires Stops(s, from, to)
    ensures content == Restarted(s, from, to) && FindFrom(content, from, 0) == -1
  {
    hide FindFrom, Spliced, Restarted, Stops;
    content := s;
    ghost var rounds := StoppingRound(s, from, to);
    var pos := FindFrom(content, from, 0);
    while pos != -1
      invariant pos == FindFrom(content, from, 0) && StopsAt(content, from, to, rounds)
      invariant Stops(content, from, to) && Restarted(content, from, to) == Restarted(s, from, to)
      decreases rounds
    {
      RestartedStep(content, pos, from, to);
      content := Spliced(content, pos, |from|, to);
      rounds := rounds - 1;
      pos := FindFrom(content, from, 0);
    }
    NothingToRestart(content, from, to);
  }

  /** The bot's ReplaceAll. */
  method ReplaceOnce(s: bytes, from: bytes, to: bytes) returns (str: bytes)
    requires from != []
    ensures str == Replaced(s, from, to)
  {
    hide At, FindFrom, Replaced, Spliced;
    str := s;
    var start: nat := 0;
    ghost var done: bytes, rest := [], s;
    assert [] + s == s && [] + Replaced(s, from, to) == Replaced(s, from, to);
    var pos := FindFrom(str, from, start);
    while pos != -1
      invariant str == done + rest && |done| == start && pos == FindFrom(str, from, start)
      invariant done + Replaced(rest, from, to) == Replaced(s, from, to)
      decreases |str| - start
    {
      FindShift(done, rest, from, 0);
      AtSlice(str, pos, from);
      Pass(done, rest, pos - start, from, to);
      done, rest := done + rest[..pos - start] + to, rest[pos - start + |from|..];
      str := Spliced(str, pos, |from|, to);
      start := pos + |to|;
      pos := FindFrom(str, from, start);
    }
    FindShift(done, rest, from, 0);
    NothingToReplace(rest, from, to);
  }

  lemma NothingToReplace(s: bytes, from: bytes, to: bytes)
    requires from != [] && FindFrom(s, from, 0) == -1
    ensures Replaced(s, from, to) == s
  {}

  lemma {:induction false} FindShift(x: bytes, s: bytes, from: bytes, i: nat)
    requires i <= |s|
    ensures FindFrom(x + s, from, |x| + i) == (var p := FindFrom(s, from, i); if p < 0 then -1 else |x| + p)
    decreases |s| - i
  {
    AtShift(x, s, from, i);
    if i < |s| {
      FindShift(x, s, from, i + 1);
    }
  }

  lemma AtShift(x: bytes, s: bytes, from: bytes, i: nat)
    ensures At(x + s, |x| + i, from) <==> At(s, i, from)
  {
    if At(x + s, |x| + i, from) {
      forall k | 0 <= k < |from| ensures s[i + k] == from[k] {
        assert (x + s)[|x| + i + k] == from[k];
      }
    }
  }

  /** One round of the single pass, after `done`. */
  lemma Pass(done: bytes, rest: bytes, q: nat, from: bytes, to: bytes)
    requires from != [] && q == FindFrom(rest, from, 0)
    ensures q + |from| <= |rest|
    ensures var m, y := rest[..q], rest[q + |from|..];
      && Spliced(done + rest, |done| + q, |from|, to) == done + m + to + y
      && done + m + to + Replaced(y, from, to) == done + Replaced(rest, from, to)
  {
    hide At, FindFrom, Replaced, Spliced;
    AtSlice(rest, q, from);
    SpliceAfter(done, rest, q, |from|, to);
    ReplacedStep(rest, q, from, to);
    Append3(done, rest[..q], to, Replaced(rest[q + |from|..], from, to));
  }

  lemma SpliceAfter(done: bytes, rest: bytes, q: nat, n: nat, to: bytes)
    requires q + n <= |rest|
    ensures Spliced(done + rest, |done| + q, n, to) == done + rest[..q] + to + rest[q + n..]
  {
    assert (done + rest)[..|done| + q] == done + rest[..q];
    assert (done + rest)[|done| + q + n..] == rest[q + n..];
  }

  lemma ReplacedStep(s: bytes, p: nat, from: bytes, to: bytes)
    requires from != [] && p == FindFrom(s, from, 0) && p + |from| <= |s|
    ensures Replaced(s, from, to) == s[..p] + to + Replaced(s[p + |from|..], from, to)
  {
    hide At, FindFrom;
  }

  // ----- When the two agree --------------------------------------------------------------------

  /** `from`, started at `q`, agrees with what there is of the string. */
  predicate Agree(s: bytes, q: nat, from: bytes) {
    forall k :: 0 <= k < |from| && q + k < |s| ==> s[q + k] == from[k]
  }

  /** No occurrence can start in the string, whatever comes after it. */
  predicate Sealed(s: bytes, from: bytes) {
    forall q: nat :: q < |s| ==> !Agree(s, q, from)
  }

  predicate AllSame(from: bytes) {
    forall i :: 0 <= i < |from| ==> from[i] == from[0]
  }

  lemma {:induction false} FindSkip(s: bytes, from: bytes, i: nat, j: nat)
    requires i <= j <= |s| && forall q: nat :: i <= q < j ==> !At(s, q, from)
    ensures FindFrom(s, from, i) == FindFrom(s, from, j)
    decreases j - i
  {
    if i < j {
      FindSkip(s, from, i + 1, j);
    }
  }

  lemma AtAgrees(x: bytes, z: bytes, q: nat, from: bytes)
    ensures At(x + z, q, from) ==> Agree(x, q, from)
  {
    if At(x + z, q, from) {
      forall k | 0 <= k < |from| && q + k < |x| ensures x[q + k] == from[k] {
        assert (x + z)[q + k] == from[k];
      }
    }
  }

  lemma SealedFind(x: bytes, z: bytes, from: bytes)
    requires Sealed(x, from)
    ensures FindFrom(x + z, from, 0) == (var p := FindFrom(z, from, 0); if p < 0 then -1 else |x| + p)
  {
    hide FindFrom;
    forall q: nat | 0 <= q < |x| ensures !At(x + z, q, from) {
      AtAgrees(x, z, q, from);
    }
    FindSkip(x + z, from, 0, |x|);
    FindShift(x, z, from, 0);
  }

  /** What was searched stays sealed when the occurrence after it is replaced: a new one would use a
      character of `to`, or, if `to` is empty, reach across the gap. */
  lemma SealStep(done: bytes, m: bytes, y: bytes, from: bytes, to: bytes)
    requires from != [] && NoCommon(from, to) && (to != [] || AllSame(from))
    requires Sealed(done, from) && FindFrom(m + from + y, from, 0) == |m|
    ensures Sealed(done + m + to, from)
  {
    hide FindFrom;
    var s := done + m + to;
    assert done + (m + to) == s;
    forall q: nat | q < |s| ensures !Agree(s, q, from) {
      if q < |done| {
        AgreePrefix(done, m + to, q, from);
      } else if q < |done| + |m| {
        NoCrossing(m, y, q - |done|, from, to);
        AgreeSuffix(done, m + to, q - |done|, from);
      } else {
        assert s[q] == to[q - |done| - |m|];
        assert s[q + 0] != from[0];
      }
    }
  }

  lemma AgreePrefix(a: bytes, b: bytes, q: nat, from: bytes)
    ensures Agree(a + b, q, from) ==> Agree(a, q, from)
  {
    if Agree(a + b, q, from) {
      forall k | 0 <= k < |from| && q + k < |a| ensures a[q + k] == from[k] {
        assert (a + b)[q + k] == from[k];
      }
    }
  }

  lemma AgreeSuffix(a: bytes, b: bytes, q: nat, from: bytes)
    ensures Agree(a + b, |a| + q, from) ==> Agree(b, q, from)
  {
    if Agree(a + b, |a| + q, from) {
      forall k | 0 <= k < |from| && q + k < |b| ensures b[q + k] == from[k] {
        assert (a + b)[|a| + q + k] == from[k];
      }
    }
  }

  lemma NoCrossing(m: bytes, y: bytes, t: nat, from: bytes, to: bytes)
    requires from != [] && NoCommon(from, to) && (to != [] || AllSame(from)) && t < |m|
    requires FindFrom(m + from + y, from, 0) == |m|
    ensures !Agree(m + to, t, from)
  {
    hide FindFrom;
    if |m| - t < |from| && to != [] {
      assert (m + to)[t + (|m| - t)] == to[0];
      assert from[|m| - t] in from;
    } else {
      AgreePrefix(m, to, t, from);
      OccursEarlier(m, y, t, if |m| - t >= |from| then t else |m| - 1, from);
    }
  }

  lemma OccursEarlier(m: bytes, y: bytes, t: nat, w: nat, from: bytes)
    requires t < |m| && from != []
    requires if |m| - t >= |from| then w == t else AllSame(from) && w == |m| - 1
    ensures Agree(m, t, from) ==> At(m + from + y, w, from)
  {
    var s := m + from + y;
    if Agree(m, t, from) {
      forall k | 0 <= k < |from| ensures s[w + k] == from[k] {
        if |m| - t >= |from| {
          assert s[w + k] == m[t + k];
        } else if k > 0 {
          assert s[w + k] == from[k - 1] == from[0] == from[k];
        } else {
          assert m[t + (|m| - 1 - t)] == from[|m| - 1 - t];
          assert s[w] == m[|m| - 1] == from[|m| - 1 - t] == from[0];
        }
      }
    }
  }

  lemma {:induction false} RestartAfter(done: bytes, rest: bytes, from: bytes, to: bytes)
    requires from != [] && NoCommon(from, to) && (to != [] || AllSame(from)) && Sealed(done, from)
    ensures Stops(done + rest, from, to)
    ensures Restarted(done + rest, from, to) == done + Replaced(rest, from, to)
    ensures FindFrom(done + Replaced(rest, from, to), from, 0) == -1
    decreases |rest|
  {
    hide At, FindFrom, Replaced, Restarted, Stops, Spliced, Sealed, NoCommon, AllSame;
    SealedFind(done, rest, from);
    var q := FindFrom(rest, from, 0);
    if q < 0 {
      NothingToReplace(rest, from, to);
      NothingToRestart(done + rest, from, to);
    } else {
      Pass(done, rest, q, from, to);
      var m, y := rest[..q], rest[q + |from|..];
      Parts(rest, q, from);
      SealStep(done, m, y, from, to);
      RestartedStep(done + rest, |done| + q, from, to);
      RestartAfter(done + m + to, y, from, to);
    }
  }

  /** For a search string and a replacement without a common character, the two functions agree on
      every string, and leave no occurrence, unless the replacement is empty and the search string has
      two different characters. */
  lemma SameReplacement(s: bytes, from: bytes, to: bytes)
    requires from != [] && NoCommon(from, to) && (to != [] || AllSame(from))
    ensures Stops(s, from, to) && Restarted(s, from, to) == Replaced(s, from, to)
    ensures FindFrom(Replaced(s, from, to), from, 0) == -1
  {
    hide FindFrom, Replaced, Restarted, Stops;
    RestartAfter([], s, from, to);
    assert [] + s == s && [] + Replaced(s, from, to) == Replaced(s, from, to);
  }

  /** And then they do differ: the restarting function finds an occurrence across the gap. */
  lemma DifferentReplacement(from: bytes)
    requires from != [] && !AllSame(from)
    ensures var s := [from[0]] + from + from[1..];
      Stops(s, from, []) && Restarted(s, from, []) == [] && Replaced(s, from, []) == from
  {
    hide Replaced, Restarted, Stops, Spliced;
    var s := [from[0]] + from + from[1..];
    FirstAtOne(from);
    RestartedStep(s, 1, from, []);
    SpliceOut(from);
    FirstAtZero(from);
    RestartedStep(from, 0, from, []);
    SpliceAll(from);
    NothingToRestart([], from, []);
    ReplacedStep(s, 1, from, []);
    assert s[1 + |from|..] == from[1..];
    NothingToReplace(from[1..], from, []);
  }

  lemma {:induction false} Constant(from: bytes, i: nat)
    requires i < |from| && forall k :: 1 <= k < |from| ==> from[k] == from[k - 1]
    ensures from[i] == from[0]
  {
    if i > 0 {
      Constant(from, i - 1);
    }
  }

  lemma FirstAtOne(from: bytes)
    requires from != [] && !AllSame(from)
    ensures FindFrom([from[0]] + from + from[1..], from, 0) == 1
  {
    var s := [from[0]] + from + from[1..];
    assert At(s, 1, from);
    if At(s, 0, from) {
      forall k | 1 <= k < |from| ensures from[k] == from[k - 1] {
        assert s[0 + k] == from[k] && s[k] == from[k - 1];
      }
      forall i | 0 <= i < |from| ensures from[i] == from[0] {
        Constant(from, i);
      }
    }
  }

  lemma FirstAtZero(from: bytes)
    requires from != []
    ensures FindFrom(from, from, 0) == 0
    ensures FindFrom([], from, 0) == -1 && FindFrom(from[1..], from, 0) == -1
  {
    assert At(from, 0, from);
  }

  lemma SpliceOut(from: bytes)
    requires from != []
    ensures Spliced([from[0]] + from + from[1..], 1, |from|, []) == from
  {}

  lemma SpliceAll(from: bytes)
    ensures Spliced(from, 0, |from|, []) == []
  {}

  // ----- What one pass leaves ------------------------------------------------------------------

  /** The parts with `between` between them. */
  function Joined(parts: seq<bytes>, between: bytes): bytes {
    if parts == [] then [] else if |parts| == 1 then parts[0] else parts[0] + between + Joined(parts[1..], between)
  }

  predicate Absent(s: bytes, from: bytes) {
    forall i :: 0 <= i <= |s| ==> !At(s, i, from)
  }

  /** Cutting the string at each leftmost occurrence behind the cut before: the pass joins the same parts with the
      replacement. */
  lemma {:induction false} ReplacedParts(s: bytes, from: bytes, to: bytes) returns (parts: seq<bytes>)
    requires from != []
    ensures parts != [] && Joined(parts, from) == s && Joined(parts, to) == Replaced(s, from, to)
    ensures forall k, i: nat :: 0 <= k < |parts| - 1 && At(parts[k] + from, i, from) ==> i == |parts[k]|
    ensures Absent(parts[|parts| - 1], from)
    decreases |s|
  {
    var p := FindFrom(s, from, 0);
    if p < 0 {
      parts := [s];
      NoneBeyond(s, from);
    } else {
      var rest := ReplacedParts(s[p + |from|..], from, to);
      parts := [s[..p]] + rest;
      Parts(s, p, from);
      assert parts[1..] == rest;
      forall i: nat | At(s[..p] + from, i, from) ensures i == p {
        Leftmost(s, from, p, i);
      }
    }
  }

  lemma NoneBeyond(s: bytes, from: bytes)
    requires from != [] && FindFrom(s, from, 0) == -1
    ensures Absent(s, from)
  {}

  lemma Leftmost(s: bytes, from: bytes, p: nat, i: nat)
    requires from != [] && FindFrom(s, from, 0) == p && At(s, p, from) && At(s[..p] + from, i, from)
    ensures i == p
  {
    AtSlice(s, p, from);
    assert s[..p] + from == s[..p + |from|];
    if i < p {
      forall j | 0 <= j < |from| ensures s[i + j] == from[j] {
        assert (s[..p] + from)[i + j] == s[i + j];
      }
      assert At(s, i, from);
    }
  }
}
