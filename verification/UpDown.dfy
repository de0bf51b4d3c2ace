/** The guessing games of the bot: a guess is a natural number, a ratio or a decimal, and is told
    whether the number to guess is above (UP), below (DOWN) or equal. */
module UpDown {
  import opened Bytes
  import opened Numbers
  import opened Decimals

  /** `Undefined` is C++ undefined behaviour: an int read before it is set, a division by zero, or an
      int overflow. */
  datatype Answer = Invalid | Up | Down | Correct | Undefined

  datatype Guess = Whole(n: bytes) | Ratio(f: bytes, l: bytes) | Decimal(f: bytes, l: bytes) | Malformed

  function NonDigit(s: bytes, i: nat): (j: nat)
    requires i <= |s|
    ensures i <= j <= |s| && AllDigits(s[i..j]) && (j < |s| ==> !IsDigit(s[j]))
    decreases |s| - i
  {
    if i < |s| && IsDigit(s[i]) then
      var j := NonDigit(s, i + 1);
      assert s[i..j] == [s[i]] + s[i + 1..j];
      j
    else i
  }

  predicate Numeric(g: Guess) {
    match g
    case Whole(n) => AllDigits(n)
    case Ratio(f, l) => AllDigits(f) && AllDigits(l) && f != [] && l != []
    case Decimal(f, l) => AllDigits(f) && AllDigits(l) && f != [] && l != []
    case Malformed => true
  }

  /** What a message means as a guess: only digits; or digits on both sides of its one separator. */
  function Classify(s: bytes): (g: Guess)
    ensures Numeric(g)
  {
    var i := NonDigit(s, 0);
    assert s[0..i] == s[..i];
    if i == |s| then Whole(s[..i])
    else if i == 0 || i + 1 == |s| || !AllDigits(s[i + 1..]) then Malformed
    else if s[i] == '/' then Ratio(s[..i], s[i + 1..])
    else if s[i] == '.' then Decimal(s[..i], s[i + 1..])
    else Malformed
  }

  /** Exactly the messages of the three forms are guesses. */
  lemma ClassifyForms(f: bytes, l: bytes)
    requires AllDigits(f)
    ensures Classify(f) == Whole(f)
    ensures f != [] && l != [] && AllDigits(l) ==>
      Classify(f + "/" + l) == Ratio(f, l) && Classify(f + "." + l) == Decimal(f, l)
    ensures forall s :: match Classify(s)
      case Whole(n) => s == n
      case Ratio(a, b) => s == a + "/" + b
      case Decimal(a, b) => s == a + "." + b
      case Malformed => true
  {
    NonDigitAfter(f, []);
    assert f + [] == f && f[..|f|] == f;
    if f != [] && l != [] && AllDigits(l) {
      NonDigitAfter(f, "/" + l);
      NonDigitAfter(f, "." + l);
      assert f + "/" + l == f + ("/" + l) && f + "." + l == f + ("." + l);
      assert (f + ("/" + l))[|f| + 1..] == l && (f + ("." + l))[|f| + 1..] == l;
    }
    forall s ensures match Classify(s)
      case Whole(n) => s == n
      case Ratio(a, b) => s == a + "/" + b
      case Decimal(a, b) => s == a + "." + b
      case Malformed => true
    {
      var i := NonDigit(s, 0);
      assert i < |s| ==> s == s[..i] + [s[i]] + s[i + 1..];
    }
  }

  lemma NonDigitAfter(f: bytes, rest: bytes)
    requires AllDigits(f) && (rest != [] ==> !IsDigit(rest[0]))
    ensures NonDigit(f + rest, 0) == |f| && (f + rest)[..|f|] == f
  {
    NonDigitFrom(f, rest, 0);
  }

  lemma {:induction false} NonDigitFrom(f: bytes, rest: bytes, i: nat)
    requires AllDigits(f) && (rest != [] ==> !IsDigit(rest[0])) && i <= |f|
    ensures NonDigit(f + rest, i) == |f|
    decreases |f| - i
  {
    if i < |f| {
      NonDigitFrom(f, rest, i + 1);
    }
  }

  /** The classification loop: one pass, one character at a time. */
  method ClassifyLoop(content: bytes) returns (kind: nat, fr: bytes, ls: bytes)
    ensures var g := Classify(content);
      match g
      case Whole(n) => kind == 1 && fr == n
      case Ratio(f, l) => kind == 2 && fr == f && ls == l
      case Decimal(f, l) => kind == 3 && fr == f && ls == l
      case Malformed => kind == 4
  {
    kind, fr, ls := 1, [], [];
    ghost var j := NonDigit(content, 0);
    var i := 0;
    while i < |content|
      invariant i <= |content|
      invariant i <= j ==> kind == 1 && fr == content[..i] && ls == []
      invariant i > j ==> kind == if !AllDigits(content[j + 1..i]) then 4
        else if content[j] == '/' then 2 else if content[j] == '.' then 3 else 4
      invariant i > j ==> fr == content[..j] && (AllDigits(content[j + 1..i]) ==> ls == content[j + 1..i])
    {
      DigitsStep(content, j, i);
      if !IsDigit(content[i]) {
        if kind != 1 {
          kind := 4;
        } else if content[i] == '/' {
          kind := 2;
        } else if content[i] == '.' {
          kind := 3;
        } else {
          kind := 4;
        }
      } else if kind == 1 {
        fr := fr + [content[i]];
      } else {
        ls := ls + [content[i]];
      }
      i := i + 1;
    }
    assert content[..i] == content;
    if (fr == [] || ls == []) && kind != 1 {
      kind := 4;
    }
  }

  lemma DigitsStep(s: bytes, j: nat, i: nat)
    requires j == NonDigit(s, 0) && i < |s|
    ensures i < j ==> IsDigit(s[i]) && s[..i + 1] == s[..i] + [s[i]]
    ensures i == j ==> !IsDigit(s[i]) && s[j + 1..i + 1] == []
    ensures j < i ==> s[j + 1..i + 1] == s[j + 1..i] + [s[i]]
    ensures j < i ==> (AllDigits(s[j + 1..i + 1]) <==> AllDigits(s[j + 1..i]) && IsDigit(s[i]))
  {
    hide NonDigit, AllDigits;
    if i < j {
      InRun(s, j, i);
    } else if j < i {
      SliceStep(s, j + 1, i);
    }
  }

  lemma InRun(s: bytes, j: nat, i: nat)
    requires i < j <= |s| && AllDigits(s[0..j])
    ensures IsDigit(s[i]) && s[..i + 1] == s[..i] + [s[i]]
  {
    assert s[0..j][i] == s[i];
  }

  lemma SliceStep(s: bytes, from: nat, i: nat)
    requires from <= i < |s|
    ensures s[from..i + 1] == s[from..i] + [s[i]]
    ensures AllDigits(s[from..i + 1]) <==> AllDigits(s[from..i]) && IsDigit(s[i])
  {
    hide AllDigits;
    DigitsConcat(s[from..i], [s[i]]);
    OneDigit(s[i]);
    assert s[from..i + 1] == s[from..i] + [s[i]];
  }

  lemma OneDigit(c: byte)
    ensures AllDigits([c]) <==> IsDigit(c)
  {
    assert [c][0] == c;
  }

  /** The guess as a fraction. */
  function Numerator(g: Guess): nat
    requires Numeric(g)
  {
    match g
    case Whole(n) => Val(n)
    case Ratio(f, l) => Val(f)
    case Decimal(f, l) => Val(f) * Pow10(|l|) + Val(l)
    case Malformed => 0
  }

  function Denominator(g: Guess): nat
    requires Numeric(g)
  {
    match g
    case Ratio(_, l) => Val(l)
    case Decimal(_, l) => Pow10(|l|)
    case _ => 1
  }

  /** stream >> int on digits: the largest int when the number is beyond it. */
  function ReadInt(s: bytes): (n: nat)
    requires AllDigits(s)
    ensures n <= MAX_INT32
  {
    Min(Val(s), MAX_INT32)
  }

  // ----- .91updown: the number is 31/7 ---------------------------------------------------------

  const PERIOD: bytes := "428571"

  /** 10^i * 3 modulo 7, for 3/7 the part of 31/7 below the point. */
  function Remainder(i: nat): (r: nat)
    ensures 0 < r < 7
  {
    [3, 2, 6, 4, 5, 1][i % 6]
  }

  /** Long division of 3 by 7 goes round the period. */
  lemma PeriodStep(i: nat)
    ensures IsDigit(PERIOD[i % 6]) && 10 * Remainder(i) == 7 * Digit(PERIOD[i % 6]) + Remainder(i + 1)
  {
    assert (i + 1) % 6 == if i % 6 == 5 then 0 else i % 6 + 1;
  }

  /** The digits read so far are those of 3/7. */
  predicate OnPeriod(s: bytes, i: nat)
    requires AllDigits(s) && i <= |s|
  {
    3 * Pow10(i) == 7 * Val(s[..i]) + Remainder(i)
  }

  /** A first digit off the period decides, whatever digits follow. */
  lemma OffPeriod(s: bytes, i: nat)
    requires AllDigits(s) && i < |s| && OnPeriod(s, i)
    ensures s[i] < PERIOD[i % 6] ==> 7 * Val(s) < 3 * Pow10(|s|)
    ensures s[i] > PERIOD[i % 6] ==> 7 * Val(s) > 3 * Pow10(|s|)
    ensures s[i] == PERIOD[i % 6] ==> OnPeriod(s, i + 1)
  {
    hide Val, Pow10;
    PeriodStep(i);
    ValNext(s, i);
    Pow10Next(i);
    PrefixBounds(s, i + 1);
    Pow10Sum(i + 1, |s| - (i + 1));
    var w, q, p := Val(s[..i + 1]), Pow10(|s| - (i + 1)), Pow10(i + 1);
    Pow10Next(|s| - (i + 1));
    assert i + 1 + (|s| - (i + 1)) == |s|;
    Decided(Val(s), w, p, q);
  }

  /** Where the digits read so far leave no doubt. */
  lemma Decided(v: nat, w: nat, p: nat, q: nat)
    requires w * q <= v < (w + 1) * q
    ensures 7 * (w + 1) <= 3 * p ==> 7 * v < 3 * (p * q)
    ensures 3 * p < 7 * w ==> 3 * (p * q) < 7 * v
  {
    Rearrange(7, w + 1, q);
    Rearrange(3, p, q);
    Rearrange(7, w, q);
    if 7 * (w + 1) <= 3 * p {
      Scaled(7 * (w + 1), 3 * p, q);
    }
    if 3 * p < 7 * w {
      Scaled(3 * p + 1, 7 * w, q);
    }
  }

  /** The loop on the digits below the point, after a 4. */
  method ComparePeriod(ls: bytes) returns (a: Answer)
    requires AllDigits(ls)
    ensures a == Up || a == Down
    ensures a == Up <==> 7 * Val(ls) < 3 * Pow10(|ls|)
    ensures a == Down <==> 7 * Val(ls) > 3 * Pow10(|ls|)
  {
    hide Val, Pow10;
    NoDigits(ls);
    var i := 0;
    while i < |ls|
      invariant i <= |ls| && OnPeriod(ls, i)
    {
      OffPeriod(ls, i);
      if ls[i] < PERIOD[i % 6] {
        return Up;
      }
      if ls[i] > PERIOD[i % 6] {
        return Down;
      }
      i := i + 1;
    }
    assert ls[..i] == ls;
    return Up;
  }

  lemma NoDigits(s: bytes)
    requires AllDigits(s)
    ensures OnPeriod(s, 0)
  {}

  /** The units decide, unless they are 4. */
  lemma UnitsDecide(f: nat, l: nat, p: nat)
    requires l < p
    ensures f < 4 ==> 7 * (f * p + l) < 31 * p
    ensures f > 4 ==> 7 * (f * p + l) > 31 * p
    ensures f == 4 ==> 7 * (f * p + l) == 28 * p + 7 * l
  {
    if f < 4 {
      Scaled(f, 3, p);
    } else if f > 4 {
      Scaled(5, f, p);
    }
  }

  /** The products f * 7 or l * 31 do not fit an int. */
  predicate Overflows(g: Guess)
    requires Numeric(g)
  {
    g.Ratio? && (ReadInt(g.f) * 7 > MAX_INT32 || ReadInt(g.l) * 31 > MAX_INT32)
  }

  /** The whole of .91updown: any guess but a ratio of large numbers is judged exactly. */
  method Judge91(content: bytes) returns (a: Answer)
    ensures content == [] ==> a == Undefined
    ensures Classify(content).Malformed? ==> a == Invalid
    ensures Overflows(Classify(content)) ==> a == Undefined
    ensures var g := Classify(content); content != [] && !g.Malformed? && !Overflows(g) ==>
      && (a == Up <==> 7 * Numerator(g) < 31 * Denominator(g))
      && (a == Down <==> 7 * Numerator(g) > 31 * Denominator(g))
      && (a == Correct <==> 7 * Numerator(g) == 31 * Denominator(g))
  {
    hide Val, Pow10, AllDigits;
    ClassifyForms([], []);
    var kind, fr, ls := ClassifyLoop(content);
    ghost var g := Classify(content);
    match kind {
      case 1 =>
        if content == [] {
          return Undefined;
        }
        assert g.n == content;
        var i := ReadInt(content);
        a := if i <= 4 then Up else Down;
      case 2 =>
        var f, l := ReadInt(fr), ReadInt(ls);
        if f * 7 > MAX_INT32 || l * 31 > MAX_INT32 {
          return Undefined;
        }
        a := if f * 7 > l * 31 then Down else if f * 7 < l * 31 then Up else Correct;
      case 3 =>
        var f := ReadInt(fr);
        ValBound(ls);
        UnitsDecide(Val(fr), Val(ls), Pow10(|ls|));
        if f > 4 {
          a := Down;
        } else if f < 4 {
          a := Up;
        } else {
          a := ComparePeriod(ls);
        }
      case _ =>
        a := Invalid;
    }
  }
}
