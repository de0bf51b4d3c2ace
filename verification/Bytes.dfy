/** Byte strings, as the sources use `char*` buffers: every character is below 256. */
module Bytes {
  type byte = c: char | c as int < 256 witness 'a'
  type bytes = seq<byte>

  datatype Option<+T> = None | Some(value: T)

  predicate IsDigit(c: byte) { '0' <= c <= '9' }

  /** The four whitespace characters of RFC 8259 section 2 (and of the reader's skipSpaces). */
  predicate IsSpace(c: byte) { c == ' ' || c == '\t' || c == '\r' || c == '\n' }

  predicate AllSpace(s: bytes) { forall i :: 0 <= i < |s| ==> IsSpace(s[i]) }

  predicate AllDigits(s: bytes) { forall i :: 0 <= i < |s| ==> IsDigit(s[i]) }

  function Min(a: int, b: int): int { if a <= b then a else b }

  /** `text` stands in `doc` at position `p`. */
  predicate At(doc: bytes, p: nat, text: bytes) {
    p + |text| <= |doc| && forall i :: 0 <= i < |text| ==> doc[p + i] == text[i]
  }

  lemma AtConcat(doc: bytes, p: nat, a: bytes, b: bytes)
    ensures At(doc, p, a + b) <==> At(doc, p, a) && At(doc, p + |a|, b)
  {
    var c := a + b;
    assert |c| == |a| + |b|;
    if At(doc, p, c) {
      forall i | 0 <= i < |a| ensures doc[p + i] == a[i] {
        assert c[i] == a[i];
      }
      forall i | 0 <= i < |b| ensures doc[p + |a| + i] == b[i] {
        assert c[|a| + i] == b[i];
      }
    }
    if At(doc, p, a) && At(doc, p + |a|, b) {
      forall i | 0 <= i < |c| ensures doc[p + i] == c[i] {
        if i < |a| {
          assert c[i] == a[i];
        } else {
          assert c[i] == b[i - |a|];
        }
      }
    }
  }

  lemma AtIndex(doc: bytes, p: nat, text: bytes, i: nat)
    requires At(doc, p, text) && i < |text|
    ensures p + i < |doc| && doc[p + i] == text[i]
  {}

  lemma AtSlice(doc: bytes, p: nat, text: bytes)
    ensures At(doc, p, text) <==> p + |text| <= |doc| && doc[p..p + |text|] == text
  {
    if At(doc, p, text) {
      assert doc[p..p + |text|] == text;
    }
    if p + |text| <= |doc| && doc[p..p + |text|] == text {
      forall i | 0 <= i < |text| ensures doc[p + i] == text[i] {
        assert doc[p..p + |text|][i] == doc[p + i];
      }
    }
  }

  lemma Append3(a: bytes, b: bytes, c: bytes, d: bytes)
    ensures a + (b + c + d) == a + b + c + d
  {}

  lemma Append4(a: bytes, b: bytes, c: bytes, d: bytes, e: bytes)
    ensures a + (b + c + d + e) == a + b + c + d + e
  {}

  // ----- First differences ---------------------------------------------------------------------

  /** The smaller byte where the strings first differ. */
  predicate LowerByte(a: bytes, b: bytes) {
    exists i :: 0 <= i < |a| && i < |b| && a[..i] == b[..i] && a[i] < b[i]
  }

  lemma SameBefore(a: bytes, b: bytes, i: nat)
    requires i <= |a| && i <= |b| && a[..i] == b[..i]
    ensures forall k :: 0 <= k < i ==> a[k] == b[k]
    ensures forall k :: 0 <= k <= i ==> a[..k] == b[..k]
  {
    forall k | 0 <= k < i ensures a[k] == b[k] {
      assert a[..i][k] == b[..i][k];
    }
  }

  lemma LowerAt(a: bytes, b: bytes, i: nat)
    requires i < |a| && i < |b| && a[..i] == b[..i] && a[i] != b[i]
    ensures LowerByte(a, b) <==> a[i] < b[i]
  {
    SameBefore(a, b, i);
    if LowerByte(a, b) {
      var k :| 0 <= k < |a| && k < |b| && a[..k] == b[..k] && a[k] < b[k];
      SameBefore(a, b, k);
    }
  }

  // ----- C strings -----------------------------------------------------------------------------

  predicate NulFree(s: bytes) { forall i :: 0 <= i < |s| ==> s[i] != '\0' }

  /** What is left of a string that is passed as a C string: its bytes up to the first NUL. */
  function UpToNul(s: bytes): bytes {
    if s == [] || s[0] == '\0' then [] else [s[0]] + UpToNul(s[1..])
  }

  lemma {:induction false} UpToNulPrefix(s: bytes)
    ensures |UpToNul(s)| <= |s| && UpToNul(s) == s[..|UpToNul(s)|] && NulFree(UpToNul(s))
    ensures |UpToNul(s)| < |s| ==> s[|UpToNul(s)|] == '\0'
    ensures NulFree(s) <==> UpToNul(s) == s
    decreases |s|
  {
    if s != [] && s[0] != '\0' {
      UpToNulPrefix(s[1..]);
      assert s == [s[0]] + s[1..];
    }
  }
}
