/** UTF-8: the reader's codePointToUTF8, the writer's utf8ToCodepoint, and RFC 3629 between them. */
module Utf8 {
  import opened Bytes

  const REPLACEMENT: nat := 0xFFFD

  function Byte(n: nat): byte
    requires n < 256
  {
    n as char
  }

  /** codePointToUTF8; nothing at all beyond 0x10FFFF. */
  function Encode(cp: nat): bytes {
    if cp <= 0x7F then [Byte(cp)]
    else if cp <= 0x7FF then [Byte(0xC0 + cp / 64), Byte(0x80 + cp % 64)]
    else if cp <= 0xFFFF then [Byte(0xE0 + cp / 4096), Byte(0x80 + cp / 64 % 64), Byte(0x80 + cp % 64)]
    else if cp <= 0x10FFFF then
      [Byte(0xF0 + cp / 262144), Byte(0x80 + cp / 4096 % 64), Byte(0x80 + cp / 64 % 64), Byte(0x80 + cp % 64)]
    else []
  }

  /** A Unicode scalar value: a code point that is no surrogate. */
  predicate IsScalar(cp: nat) { cp < 0xD800 || 0xDFFF < cp <= 0x10FFFF }

  /** utf8ToCodepoint at index `i`: the code point it reports and the index after the bytes it used. */
  function CodepointAt(s: bytes, i: nat): (r: (nat, nat))
    requires i < |s|
    ensures i < r.1 <= |s|
  {
    var first := s[i] as int;
    if first < 0x80 then (first, i + 1)
    else if first < 0xE0 then
      if |s| - i < 2 then (REPLACEMENT, i + 1)
      else
        var cp := first % 32 * 64 + s[i + 1] as int % 64;
        (if cp < 0x80 then REPLACEMENT else cp, i + 2)
    else if first < 0xF0 then
      if |s| - i < 3 then (REPLACEMENT, i + 1)
      else
        var cp := first % 16 * 4096 + s[i + 1] as int % 64 * 64 + s[i + 2] as int % 64;
        (if 0xD800 <= cp <= 0xDFFF || cp < 0x800 then REPLACEMENT else cp, i + 3)
    else if first < 0xF8 then
      if |s| - i < 4 then (REPLACEMENT, i + 1)
      else
        var cp := first % 8 * 262144 + s[i + 1] as int % 64 * 4096 + s[i + 2] as int % 64 * 64 + s[i + 3] as int % 64;
        (if cp < 0x10000 then REPLACEMENT else cp, i + 4)
    else (REPLACEMENT, i + 1)
  }

  // ----- Section 4 of RFC 3629 -----------------------------------------------------------------

  predicate InRange(s: bytes, i: nat, lo: nat, hi: nat) {
    i < |s| && lo <= s[i] as int <= hi
  }

  predicate Tail(s: bytes, i: nat) { InRange(s, i, 0x80, 0xBF) }

  /** The length of the UTF8-1, UTF8-2, UTF8-3 or UTF8-4 sequence at `i`; 0 when there is none. */
  function SequenceLength(s: bytes, i: nat): nat {
    if InRange(s, i, 0x00, 0x7F) then 1
    else if InRange(s, i, 0xC2, 0xDF) && Tail(s, i + 1) then 2
    else if InRange(s, i, 0xE0, 0xE0) && InRange(s, i + 1, 0xA0, 0xBF) && Tail(s, i + 2) then 3
    else if InRange(s, i, 0xE1, 0xEC) && Tail(s, i + 1) && Tail(s, i + 2) then 3
    else if InRange(s, i, 0xED, 0xED) && InRange(s, i + 1, 0x80, 0x9F) && Tail(s, i + 2) then 3
    else if InRange(s, i, 0xEE, 0xEF) && Tail(s, i + 1) && Tail(s, i + 2) then 3
    else if InRange(s, i, 0xF0, 0xF0) && InRange(s, i + 1, 0x90, 0xBF) && Tail(s, i + 2) && Tail(s, i + 3) then 4
    else if InRange(s, i, 0xF1, 0xF3) && Tail(s, i + 1) && Tail(s, i + 2) && Tail(s, i + 3) then 4
    else if InRange(s, i, 0xF4, 0xF4) && InRange(s, i + 1, 0x80, 0x8F) && Tail(s, i + 2) && Tail(s, i + 3) then 4
    else 0
  }

  /** s[i..] is well-formed UTF-8. */
  predicate WellFormedFrom(s: bytes, i: nat)
    decreases |s| - i
  {
    if i >= |s| then true
    else
      var n := SequenceLength(s, i);
      n > 0 && WellFormedFrom(s, i + n)
  }

  predicate WellFormed(s: bytes) { WellFormedFrom(s, 0) }

  lemma Join2(a: nat, b: nat)
    requires 2 <= a < 32 && b < 64
    ensures var cp := a * 64 + b; 0x80 <= cp <= 0x7FF && cp / 64 == a && cp % 64 == b
  {}

  lemma Join3(a: nat, b: nat, c: nat)
    requires a < 16 && b < 64 && c < 64
    ensures var cp := a * 4096 + b * 64 + c; cp / 4096 == a && cp / 64 % 64 == b && cp % 64 == c
  {
    var cp := a * 4096 + b * 64 + c;
    assert cp / 64 == a * 64 + b;
  }

  lemma Join4(a: nat, b: nat, c: nat, d: nat)
    requires a < 8 && b < 64 && c < 64 && d < 64
    ensures var cp := a * 262144 + b * 4096 + c * 64 + d;
      cp / 262144 == a && cp / 4096 % 64 == b && cp / 64 % 64 == c && cp % 64 == d
  {
    var cp := a * 262144 + b * 4096 + c * 64 + d;
    assert cp / 64 == a * 4096 + b * 64 + c;
    assert cp / 4096 == a * 64 + b;
  }

  predicate Recovers(s: bytes, i: nat)
    requires i < |s|
  {
    var r := CodepointAt(s, i);
    r.1 == i + SequenceLength(s, i) && IsScalar(r.0) && Encode(r.0) == s[i..r.1]
  }

  lemma Recovers2(s: bytes, i: nat)
    requires i < |s| && SequenceLength(s, i) == 2
    ensures Recovers(s, i)
  {
    var a, b := s[i] as int - 0xC0, s[i + 1] as int - 0x80;
    Join2(a, b);
    var r := CodepointAt(s, i);
    assert r == (a * 64 + b, i + 2);
    assert Encode(r.0) == [s[i], s[i + 1]] == s[i..i + 2];
  }

  lemma Recovers3(s: bytes, i: nat)
    requires i < |s| && SequenceLength(s, i) == 3
    ensures Recovers(s, i)
  {
    var a, b, c := s[i] as int - 0xE0, s[i + 1] as int - 0x80, s[i + 2] as int - 0x80;
    Join3(a, b, c);
    var r := CodepointAt(s, i);
    assert r == (a * 4096 + b * 64 + c, i + 3);
    assert Encode(r.0) == [s[i], s[i + 1], s[i + 2]] == s[i..i + 3];
  }

  lemma Recovers4(s: bytes, i: nat)
    requires i < |s| && SequenceLength(s, i) == 4
    ensures Recovers(s, i)
  {
    var a, b, c, d := s[i] as int - 0xF0, s[i + 1] as int - 0x80, s[i + 2] as int - 0x80, s[i + 3] as int - 0x80;
    Join4(a, b, c, d);
    var r := CodepointAt(s, i);
    assert r == (a * 262144 + b * 4096 + c * 64 + d, i + 4);
    assert Encode(r.0) == [s[i], s[i + 1], s[i + 2], s[i + 3]] == s[i..i + 4];
  }

  /** On a well-formed sequence the writer finds its scalar value, which encodes to those very bytes. */
  lemma CodepointOfSequence(s: bytes, i: nat)
    requires i < |s| && SequenceLength(s, i) > 0
    ensures var r := CodepointAt(s, i);
      r.1 == i + SequenceLength(s, i) && IsScalar(r.0) && Encode(r.0) == s[i..r.1]
  {
    assert Recovers(s, i) by {
      match SequenceLength(s, i)
      case 2 => Recovers2(s, i);
      case 3 => Recovers3(s, i);
      case 4 => Recovers4(s, i);
      case _ =>
        assert CodepointAt(s, i) == (s[i] as int, i + 1);
        assert Encode(s[i] as int) == [s[i]] == s[i..i + 1];
    }
  }

  // ----- Malformed input -----------------------------------------------------------------------

  /** How many bytes a lead byte asks for. */
  function Asked(lead: byte): nat {
    if (lead as int) < 0x80 || lead as int >= 0xF8 then 1
    else if (lead as int) < 0xE0 then 2
    else if (lead as int) < 0xF0 then 3
    else 4
  }

  /** The byte with the two highest bits of a tail. */
  function AsTail(b: byte): byte { Byte(0x80 + b as int % 64) }

  /** The bytes at `i` as if those behind the lead byte were tails, and those from 0x80 to 0xBF leads. */
  function Repaired(s: bytes, i: nat): bytes
    requires i < |s| && i + Asked(s[i]) <= |s|
  {
    match Asked(s[i])
    case 2 => [Byte(0xC0 + s[i] as int % 32), AsTail(s[i + 1])]
    case 3 => [s[i], AsTail(s[i + 1]), AsTail(s[i + 2])]
    case 4 => [s[i], AsTail(s[i + 1]), AsTail(s[i + 2]), AsTail(s[i + 3])]
    case _ => [s[i]]
  }

  /** Whatever the bytes: without enough of them, and for a byte that starts nothing, one byte is passed over
      as the replacement character.  Otherwise the bytes that are asked for are repaired: to the scalar value they
      then encode, or, overlong or a surrogate, to the replacement character.  Only codes beyond 0x10FFFF are
      kept as they are. */
  lemma CodepointRepaired(s: bytes, i: nat)
    requires i < |s|
    ensures var r, n := CodepointAt(s, i), Asked(s[i]);
      if i + n > |s| || s[i] as int >= 0xF8 then r == (REPLACEMENT, i + 1)
      else
        && r.1 == i + n
        && (SequenceLength(Repaired(s, i), 0) == n ==> IsScalar(r.0) && Encode(r.0) == Repaired(s, i))
        && (SequenceLength(Repaired(s, i), 0) != n ==> r.0 == REPLACEMENT || r.0 > 0x10FFFF)
        && (r.0 > 0x10FFFF ==> s[i] as int >= 0xF4)
  {
    hide CodepointAt, SequenceLength, Repaired, Encode;
    var n := Asked(s[i]);
    if i + n <= |s| && (s[i] as int) < 0xF8 {
      RepairedSame(s, i);
      var t := Repaired(s, i);
      if SequenceLength(t, 0) == n {
        CodepointOfSequence(t, 0);
        assert t[0..n] == t;
      } else {
        Unrepairable(t);
      }
    } else {
      Nothing(s, i);
    }
  }

  lemma Nothing(s: bytes, i: nat)
    requires i < |s| && (i + Asked(s[i]) > |s| || s[i] as int >= 0xF8)
    ensures CodepointAt(s, i) == (REPLACEMENT, i + 1)
  {}

  lemma TailBits(b: byte)
    ensures AsTail(b) as int % 64 == b as int % 64
  {}

  /** Repairing changes no bit that counts. */
  lemma RepairedSame(s: bytes, i: nat)
    requires i < |s| && i + Asked(s[i]) <= |s| && (s[i] as int) < 0xF8
    ensures var t, n := Repaired(s, i), Asked(s[i]);
      && |t| == n && Asked(t[0]) == n && CodepointAt(s, i).1 == i + n && CodepointAt(t, 0) == (CodepointAt(s, i).0, n)
      && forall k :: 1 <= k < n ==> 0x80 <= t[k] as int <= 0xBF
    ensures (Repaired(s, i)[0] as int) < 0xF8 && (Asked(s[i]) == 4 ==> Repaired(s, i)[0] == s[i])
    ensures Asked(s[i]) == 2 ==> Repaired(s, i)[0] as int >= 0xC0
  {
    hide AsTail;
    var n := Asked(s[i]);
    if n >= 2 { TailBits(s[i + 1]); }
    if n >= 3 { TailBits(s[i + 2]); }
    if n >= 4 { TailBits(s[i + 3]); }
    TailRange();
  }

  lemma TailRange()
    ensures forall b :: 0x80 <= AsTail(b) as int <= 0xBF
  {}

  /** A lead byte with tails that encode nothing. */
  lemma Unrepairable(t: bytes)
    requires t != [] && |t| == Asked(t[0]) && (t[0] as int) < 0xF8 && SequenceLength(t, 0) != |t|
    requires forall k :: 1 <= k < |t| ==> 0x80 <= t[k] as int <= 0xBF
    requires Asked(t[0]) == 2 ==> t[0] as int >= 0xC0
    ensures var cp := CodepointAt(t, 0).0;
      (cp == REPLACEMENT || cp > 0x10FFFF) && (cp > 0x10FFFF ==> t[0] as int >= 0xF4)
  {}

  /** A scalar value encodes to one well-formed sequence, wherever it stands. */
  lemma EncodeWellFormed(cp: nat, rest: bytes)
    requires IsScalar(cp)
    ensures Encode(cp) != [] && SequenceLength(Encode(cp) + rest, 0) == |Encode(cp)|
  {
    var s := Encode(cp) + rest;
    if 0x7F < cp <= 0x7FF {
      assert s[0] == Byte(0xC0 + cp / 64) && s[1] == Byte(0x80 + cp % 64);
    } else if 0x7FF < cp <= 0xFFFF {
      assert s[0] == Byte(0xE0 + cp / 4096) && s[1] == Byte(0x80 + cp / 64 % 64) && s[2] == Byte(0x80 + cp % 64);
    } else if 0xFFFF < cp {
      assert s[0] == Byte(0xF0 + cp / 262144) && s[1] == Byte(0x80 + cp / 4096 % 64);
      assert s[2] == Byte(0x80 + cp / 64 % 64) && s[3] == Byte(0x80 + cp % 64);
    }
  }

  lemma {:induction false} WellFormedSuffix(s: bytes, i: nat)
    requires i <= |s|
    ensures WellFormedFrom(s, i) <==> WellFormed(s[i..])
  {
    WellFormedShift(s, i, 0);
  }

  lemma {:induction false} WellFormedShift(s: bytes, i: nat, j: nat)
    requires i + j <= |s|
    ensures WellFormedFrom(s, i + j) <==> WellFormedFrom(s[i..], j)
    decreases |s| - j
  {
    if i + j < |s| {
      var n := SequenceLength(s, i + j);
      assert SequenceLength(s[i..], j) == n;
      if n > 0 {
        WellFormedShift(s, i, j + n);
      }
    }
  }

  lemma WellFormedPrepend(cp: nat, rest: bytes)
    requires IsScalar(cp) && WellFormed(rest)
    ensures WellFormed(Encode(cp) + rest)
  {
    var s := Encode(cp) + rest;
    EncodeWellFormed(cp, rest);
    assert s[|Encode(cp)|..] == rest;
    WellFormedSuffix(s, |Encode(cp)|);
  }
}
