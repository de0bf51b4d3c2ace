/** Decimal expansions, as digit strings of any length. */
module Decimals {
  import opened Bytes
  import opened Numbers

  lemma DigitsConcat(a: bytes, b: bytes)
    ensures AllDigits(a + b) <==> AllDigits(a) && AllDigits(b)
  {
    var c := a + b;
    assert c[..|a|] == a && c[|a|..] == b;
    if AllDigits(c) {
      forall i | 0 <= i < |b| ensures IsDigit(b[i]) {
        assert c[|a| + i] == b[i];
      }
      forall i | 0 <= i < |a| ensures IsDigit(a[i]) {
        assert c[i] == a[i];
      }
    }
  }

  lemma Rearrange(x: int, y: int, z: int)
    ensures (x * y) * z == x * (y * z)
  {}

  lemma {:induction false} Pow10Sum(a: nat, b: nat)
    ensures Pow10(a + b) == Pow10(a) * Pow10(b)
  {
    if a > 0 {
      Pow10Sum(a - 1, b);
      Rearrange(10, Pow10(a - 1), Pow10(b));
    }
  }

  lemma Pow10Next(k: nat)
    ensures Pow10(k + 1) == 10 * Pow10(k) && Pow10(k) > 0
  {
    if k > 0 {
      Pow10Next(k - 1);
    }
  }

  lemma {:induction false} PowerGrows(a: nat, b: nat)
    ensures a <= b ==> Pow10(a) <= Pow10(b)
    decreases b
  {
    if a < b {
      PowerGrows(a, b - 1);
    }
  }

  lemma Scaled(x: int, y: int, q: int)
    requires x <= y && 0 <= q
    ensures x * q <= y * q
  {}

  lemma {:induction false} ValBound(s: bytes)
    requires AllDigits(s)
    ensures Val(s) < Pow10(|s|)
  {
    if s != [] {
      ValBound(s[..|s| - 1]);
    }
  }

  lemma ValNext(s: bytes, i: nat)
    requires AllDigits(s) && i < |s|
    ensures Val(s[..i + 1]) == Val(s[..i]) * 10 + Digit(s[i])
  {
    assert s[..i + 1][..i] == s[..i];
  }

  lemma PowerOfZero()
    ensures Pow10(0) == 1
  {}

  lemma TenTimes(q: int, p: int)
    ensures q * (10 * p) == 10 * (q * p) && (q + 1) * (10 * p) == 10 * (q * p) + 10 * p
  {}

  /** The number a digit string starts with, and one more, bound it once scaled. */
  lemma {:induction false} PrefixBounds(s: bytes, i: nat)
    requires AllDigits(s) && i <= |s|
    ensures Val(s[..i]) * Pow10(|s| - i) <= Val(s) < (Val(s[..i]) + 1) * Pow10(|s| - i)
    decreases |s|
  {
    hide Val, Pow10;
    if i == |s| {
      assert s[..i] == s;
      PowerOfZero();
    } else {
      var t := s[..|s| - 1];
      PrefixBounds(t, i);
      assert t[..i] == s[..i];
      ValNext(s, |t|);
      assert s[..|s|] == s;
      Pow10Next(|t| - i);
      TenTimes(Val(s[..i]), Pow10(|t| - i));
    }
  }
}
