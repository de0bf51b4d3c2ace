/** hexprint and hexdeprint: the names of questions in the names of their files. */
module HexNames {
  import opened Bytes

  function HexDigit(n: nat): (c: byte)
    requires n < 16
    ensures c != '\0'
  {
    if n < 10 then ('0' as int + n) as char else ('a' as int + n - 10) as char
  }

  function HexValue(c: byte): Option<nat> {
    if '0' <= c <= '9' then Some(c as int - '0' as int)
    else if 'a' <= c <= 'f' then Some(c as int - 'a' as int + 10)
    else None
  }

  lemma HexInverse(n: nat)
    requires n < 16
    ensures HexValue(HexDigit(n)) == Some(n)
  {}

  /** Two digits for every byte. */
  function Hex(s: bytes): (h: bytes)
    ensures |h| == 2 * |s|
  {
    if s == [] then [] else [HexDigit(s[0] as int / 16), HexDigit(s[0] as int % 16)] + Hex(s[1..])
  }

  /** The digits of the k-th byte, the high one first. */
  lemma {:induction false} HexAt(s: bytes, k: nat)
    requires k < |s|
    ensures var digits: bytes := "0123456789abcdef";
      Hex(s)[2 * k] == digits[s[k] as int / 16] && Hex(s)[2 * k + 1] == digits[s[k] as int % 16]
  {
    if k > 0 {
      HexAt(s[1..], k - 1);
    }
  }

  /** The length at which hexprint cuts its output. */
  const CUT := 127

  /** What hexprint returns. */
  function HexName(s: bytes): bytes {
    if |Hex(s)| > CUT then Hex(s)[..CUT] else Hex(s)
  }

  /** The bytes of a string of digit pairs. */
  function Unhex(h: bytes): Option<bytes> {
    if h == [] then Some([])
    else if |h| == 1 then None
    else
      match (HexValue(h[0]), HexValue(h[1]))
      case (Some(a), Some(b)) =>
        (match Unhex(h[2..]) case Some(rest) => Some([(16 * a + b) as char] + rest) case None => None)
      case _ => None
  }

  /** What hexdeprint returns: nothing for anything but digit pairs. */
  function UnhexName(h: bytes): bytes {
    match Unhex(h) case Some(s) => UpToNul(s) case None => []
  }

  lemma {:induction false} UnhexHex(s: bytes)
    ensures Unhex(Hex(s)) == Some(s)
  {
    if s != [] {
      HexInverse(s[0] as int / 16);
      HexInverse(s[0] as int % 16);
      UnhexHex(s[1..]);
      assert Hex(s)[2..] == Hex(s[1..]);
      assert s == [s[0]] + s[1..];
    }
  }

  lemma {:induction false} UnhexOdd(h: bytes)
    requires |h| % 2 == 1
    ensures Unhex(h) == None
  {
    if |h| > 1 {
      UnhexOdd(h[2..]);
    }
  }

  /** A name comes back from its file name exactly when it is not cut, by the buffer or by a NUL. */
  lemma NameRoundTrip(s: bytes)
    requires s != []
    ensures UnhexName(HexName(s)) == s <==> |s| <= 63 && NulFree(s)
  {
    if |s| <= 63 {
      UnhexHex(s);
      UpToNulPrefix(s);
    } else {
      UnhexOdd(Hex(s)[..CUT]);
    }
  }

  /** (int)str.length(). */
  function AsInt(n: nat): (i: int)
    ensures i <= n
    ensures n < 0x8000_0000 ==> i == n
  {
    (n + 0x8000_0000) % 0x1_0000_0000 - 0x8000_0000
  }

  /** The longest string whose digits, and the NUL after them, fit hexprint's buffer. */
  const LONGEST := 499

  /** hexprint stays inside its buffer. */
  predicate Printable(s: bytes) { AsInt(|s|) <= LONGEST }

  /** hexprint, in its buffer: false when it writes past the end, which is undefined.  Of an empty string it
      returns what the buffer happens to hold. */
  method HexPrint(str: bytes) returns (ok: bool, output: bytes)
    ensures ok <==> Printable(str)
    ensures 1 <= |str| <= LONGEST ==> output == HexName(str)
    ensures ok ==> |output| <= CUT
  {
    hide Hex, HexDigit, UpToNul, AsInt;
    var length := AsInt(|str|);
    var buf := new byte[1000];
    output := [];
    var i := 0;
    while i < length
      invariant 0 <= i && (i <= length || i == 0) && i <= |str| && i <= LONGEST
      invariant buf[..2 * i] == Hex(str[..i])
      invariant i > 0 ==> buf[2 * i] == '\0'
    {
      if 2 * i + 2 >= buf.Length {
        return false, [];
      }
      HexStep(str, i);
      PutDigits(buf, i, str[i]);
      i := i + 1;
    }
    buf[CUT] := '\0';
    output := FirstString(buf, CUT);
    ok := true;
    UpToNulPrefix(buf[..CUT]);
    if 1 <= |str| <= LONGEST {
      assert str[..i] == str;
      HexHasNoNul(str);
      ghost var n := if 2 * i < CUT then 2 * i else CUT;
      assert n < CUT ==> buf[..CUT][n] == buf[2 * i] == '\0';
      UpToNulAt(buf[..CUT], n);
    }
  }

  /** sprintf of one byte, and the NUL. */
  method PutDigits(buf: array<byte>, i: nat, c: byte)
    requires 2 * i + 2 < buf.Length
    modifies buf
    ensures buf[..2 * (i + 1)] == old(buf[..2 * i]) + [HexDigit(c as int / 16), HexDigit(c as int % 16)]
    ensures buf[2 * (i + 1)] == '\0'
  {
    buf[2 * i] := HexDigit(c as int / 16);
    buf[2 * i + 1] := HexDigit(c as int % 16);
    buf[2 * i + 2] := '\0';
    assert buf[..2 * (i + 1)] == buf[..2 * i] + [buf[2 * i], buf[2 * i + 1]];
  }

  /** A C string ends at its first NUL. */
  lemma {:induction false} UpToNulAt(s: bytes, n: nat)
    requires n <= |s| && NulFree(s[..n]) && (n < |s| ==> s[n] == '\0')
    ensures UpToNul(s) == s[..n]
    decreases n
  {
    if n > 0 {
      assert s[..n][0] == s[0];
      assert s[..n][1..] == s[1..][..n - 1];
      UpToNulAt(s[1..], n - 1);
      assert s[..n] == [s[0]] + s[1..][..n - 1];
    }
  }

  lemma {:induction false} HexStep(s: bytes, i: nat)
    requires i < |s|
    ensures Hex(s[..i + 1]) == Hex(s[..i]) + [HexDigit(s[i] as int / 16), HexDigit(s[i] as int % 16)]
  {
    if i > 0 {
      HexStep(s[1..], i - 1);
      assert s[1..][..i] == s[..i + 1][1..] && s[1..][..i - 1] == s[..i][1..];
    }
  }

  lemma {:induction false} HexHasNoNul(s: bytes)
    ensures NulFree(Hex(s))
  {
    if s != [] {
      HexHasNoNul(s[1..]);
    }
  }

  /** hexdeprint, in its buffer. */
  method HexDePrint(inpstr: bytes) returns (output: bytes)
    requires 1 <= |inpstr| < 1000 && NulFree(inpstr)
    ensures output == UnhexName(inpstr)
  {
    hide Unhex, UpToNul;
    var str := inpstr + ['\0'];
    var buf := new byte[1000];
    var i := 0;
    assert inpstr[0..] == inpstr && buf[..0] == [];
    PrependNothing(Unhex(inpstr));
    while i < |inpstr|
      invariant i <= |inpstr| && i % 2 == 0
      invariant Unhex(inpstr) == Prepended(buf[..i / 2], Unhex(inpstr[i..]))
      invariant i > 0 ==> buf[i / 2] == '\0'
    {
      UnhexStep(inpstr, i, buf[..i / 2]);
      var high := HexValue(str[i]);
      if high.None? {
        return [];
      }
      i := i + 1;
      var low := HexValue(str[i]);
      if low.None? {
        return [];
      }
      var a := 16 * high.value + low.value;
      buf[(i - 1) / 2] := a as char;
      buf[(i - 1) / 2 + 1] := '\0';
      assert buf[..(i + 1) / 2] == buf[..(i - 1) / 2] + [a as char];
      i := i + 1;
    }
    ghost var decoded := buf[..i / 2];
    UnhexNothing(inpstr[i..]);
    assert decoded + [] == decoded;
    buf[999] := '\0';
    assert buf[..i / 2] == decoded;
    output := FirstString(buf, i / 2);
  }

  function Prepended(a: bytes, b: Option<bytes>): Option<bytes> {
    match b case Some(s) => Some(a + s) case None => None
  }

  lemma PrependNothing(b: Option<bytes>)
    ensures Prepended([], b) == b
  {
    assert b.Some? ==> [] + b.value == b.value;
  }

  lemma UnhexNothing(h: bytes)
    ensures h == [] ==> Unhex(h) == Some([])
  {}

  /** The pair of digits at `i`, after the bytes `done`. */
  lemma UnhexStep(h: bytes, i: nat, done: bytes)
    requires i < |h|
    ensures HexValue(h[i]).None? ==> Unhex(h[i..]) == None
    ensures i + 1 == |h| || HexValue(h[i + 1]).None? ==> Unhex(h[i..]) == None
    ensures i + 1 < |h| && HexValue(h[i]).Some? && HexValue(h[i + 1]).Some? ==>
      Prepended(done, Unhex(h[i..]))
        == Prepended(done + [(16 * HexValue(h[i]).value + HexValue(h[i + 1]).value) as char], Unhex(h[i + 2..]))
  {
    assert h[i..][0] == h[i];
    if i + 1 < |h| {
      assert h[i..][1] == h[i + 1] && h[i..][2..] == h[i + 2..];
      if HexValue(h[i]).Some? && HexValue(h[i + 1]).Some? && Unhex(h[i + 2..]).Some? {
        var c: byte := (16 * HexValue(h[i]).value + HexValue(h[i + 1]).value) as char;
        assert done + ([c] + Unhex(h[i + 2..]).value) == done + [c] + Unhex(h[i + 2..]).value;
      }
    }
  }

  /** The string in a buffer that may hold a NUL before its end. */
  method FirstString(buf: array<byte>, ghost end: nat) returns (s: bytes)
    requires end < buf.Length && buf[end] == '\0'
    ensures s == UpToNul(buf[..end])
  {
    var n := 0;
    s := [];
    assert buf[0..end] == buf[..end];
    while buf[n] != '\0'
      invariant n <= end && s == buf[..n]
      invariant UpToNul(buf[..end]) == s + UpToNul(buf[n..end])
      decreases end - n
    {
      assert buf[n..end][1..] == buf[n + 1..end];
      s := s + [buf[n]];
      n := n + 1;
    }
  }
}
