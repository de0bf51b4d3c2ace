/** .14updown: the number to guess is the square root of 2, of which the bot has a string of decimals. */
module RootTwo {
  import opened Bytes
  import opened Numbers
  import opened Decimals
  import opened UpDown

  /** n / d is below the square root of 2. */
  predicate UnderRoot(n: nat, d: nat) { n * n < 2 * (d * d) }

  /** n / d is above the square root of 2. */
  predicate OverRoot(n: nat, d: nat) { n * n > 2 * (d * d) }

  /** The decimals `s` after "1." are the square root of 2, cut off. */
  predicate CutRoot(s: bytes) {
    && AllDigits(s)
    && var x, p := Pow10(|s|) + Val(s), Pow10(|s|);
       x * x < 2 * (p * p) < (x + 1) * (x + 1)
  }

  /** The first 20 decimals in the source, as a number. */
  const FIRST_DECIMALS: nat := 41421356237309504880
  const FIRST: nat := 20

  /** The decimals the source has start with these. */
  predicate StartsRight(r2: bytes) {
    |r2| >= FIRST && r2[..FIRST] == Show(FIRST_DECIMALS)
  }

  lemma FirstDecimalsCut(r2: bytes)
    requires StartsRight(r2)
    ensures CutRoot(r2[..FIRST])
  {
    hide Show;
    ValShow(FIRST_DECIMALS);
    assert Pow10(10) == 10000000000;
    assert Pow10(20) == 100000000000000000000;
  }

  lemma Swap(a: int, b: int, c: int, d: int)
    ensures (a * b) * (c * d) == (a * c) * (b * d)
  {
    Rearrange(a, b, c * d);
    Rearrange(c, b, d);
    Rearrange(b, c, d);
    Rearrange(a, c, b * d);
  }

  lemma SquareMonotone(x: int, y: int)
    requires 0 <= x <= y
    ensures x * x <= y * y
  {
    Scaled(x, y, x);
    Scaled(x, y, y);
  }

  lemma Cancel(x: int, y: int, q: int)
    requires 0 < q && x * q < y * q
    ensures x < y
  {
    if y <= x {
      Scaled(y, x, q);
    }
  }

  /** The square root of 2 to `i` of its decimals, times 10^i. */
  function Root(r2: bytes, i: nat): nat
    requires AllDigits(r2) && i <= |r2|
  {
    Pow10(i) + Val(r2[..i])
  }

  /** Every prefix of the decimals is the square root of 2, cut off. */
  lemma RootCut(r2: bytes, n: nat, i: nat)
    requires AllDigits(r2) && i <= n <= |r2| && CutRoot(r2[..n])
    ensures CutRoot(r2[..i])
  {
    hide Val, Pow10;
    var s := r2[..n];
    assert s[..i] == r2[..i];
    var r, p, q := Root(r2, i), Pow10(i), Pow10(n - i);
    Pow10Sum(i, n - i);
    Pow10Next(n - i);
    PrefixBounds(s, i);
    Spread(Pow10(i), Val(s[..i]), q);
    CutBracketed(r, p, q, Pow10(n) + Val(s));
  }

  lemma Spread(a: int, b: int, q: int)
    ensures (a + b) * q == a * q + b * q && (a + b + 1) * q == a * q + (b + 1) * q
  {}

  lemma CutBracketed(r: nat, p: nat, q: nat, x: nat)
    requires 0 < q && r * q <= x < (r + 1) * q
    requires x * x < 2 * ((p * q) * (p * q)) < (x + 1) * (x + 1)
    ensures r * r < 2 * (p * p) < (r + 1) * (r + 1)
  {
    Swap(p, q, p, q);
    Rearrange(2, p * p, q * q);
    SquareMonotone(r * q, x);
    Swap(r, q, r, q);
    SquareMonotone(x + 1, (r + 1) * q);
    Swap(r + 1, q, r + 1, q);
    SquareMonotone(1, q);
    Cancel(r * r, 2 * (p * p), q * q);
    Cancel(2 * (p * p), (r + 1) * (r + 1), q * q);
  }

  /** The square root of 2 is irrational. */
  lemma {:induction false} Irrational(f: nat, l: nat)
    requires l > 0
    ensures f * f != 2 * (l * l)
    decreases f
  {
    if f * f == 2 * (l * l) {
      var g := f / 2;
      EvenSquare(f);
      assert f == 2 * g;
      Swap(2, g, 2, g);
      if f <= l {
        SquareMonotone(f, l);
        SquareMonotone(1, l);
      }
      if g > 0 {
        Irrational(l, g);
      }
    }
  }

  /** Every fraction is on one side of the square root of 2. */
  lemma OneSide(n: nat, d: nat)
    requires 0 < d
    ensures UnderRoot(n, d) != OverRoot(n, d)
  {
    Irrational(n, d);
  }

  lemma OddSquare(g: int)
    ensures (2 * g + 1) * (2 * g + 1) == 2 * (2 * (g * g) + 2 * g) + 1
  {}

  lemma EvenSquare(f: nat)
    requires f * f % 2 == 0
    ensures f % 2 == 0
  {
    var g := f / 2;
    OddSquare(g);
  }

  // ----- Ratios: long division -----------------------------------------------------------------

  /** What the digits before decimal `i` add up to, times 10^i. */
  function Prefix(r2: bytes, i: nat): nat
    requires AllDigits(r2) && i <= |r2| + 1
  {
    if i == 0 then 0 else 10 * Root(r2, i - 1)
  }

  /** The digit of the square root that round `i` compares with. */
  function RootDigit(r2: bytes, i: nat): nat
    requires AllDigits(r2) && i <= |r2|
  {
    if i == 0 then 1 else Digit(r2[i - 1])
  }

  lemma RootNext(r2: bytes, i: nat)
    requires AllDigits(r2) && i <= |r2|
    ensures Root(r2, i) == Prefix(r2, i) + RootDigit(r2, i)
  {
    hide Val;
    if i == 0 {
      NoVal(r2);
    } else {
      Pow10Next(i - 1);
      ValNext(r2, i - 1);
    }
  }

  lemma NoVal(s: bytes)
    requires AllDigits(s)
    ensures Val(s[..0]) == 0 && Pow10(0) == 1
  {}

  /** f / l lies between r / p and (r + 1) / p, or on one side of both, where r / p is the root cut off:
      the squares compare the same way. */
  lemma Below(f: nat, l: nat, p: nat, r: nat)
    requires 0 < p && r * r < 2 * (p * p) && f * p < l * r
    ensures UnderRoot(f, l)
  {
    SquareMonotone(f * p, l * r);
    Swap(f, p, f, p);
    Swap(l, r, l, r);
    SquareMonotone(1, l);
    SquaresBelow(f * f, p * p, l * l, r * r);
  }

  lemma SquaresBelow(a: nat, b: nat, c: nat, d: nat)
    requires a * b <= c * d && d < 2 * b && 0 < c
    ensures a < 2 * c
  {
    Scaled(d + 1, 2 * b, c);
    TwiceOver(b, c);
    Cancel(a, 2 * c, b);
  }

  lemma SquaresAbove(a: nat, b: nat, c: nat, d: nat)
    requires c * d <= a * b && 2 * b < d && 0 < c
    ensures 2 * c < a
  {
    Scaled(2 * b + 1, d, c);
    TwiceOver(b, c);
    if a <= 2 * c {
      Scaled(a, 2 * c, b);
    }
  }

  lemma TwiceOver(b: int, c: int)
    ensures (2 * b) * c == (2 * c) * b
  {}

  lemma AboveRoot(f: nat, l: nat, p: nat, r: nat)
    requires 0 < l && 2 * (p * p) < (r + 1) * (r + 1) && l * (r + 1) <= f * p
    ensures OverRoot(f, l)
  {
    SquareMonotone(l * (r + 1), f * p);
    Swap(f, p, f, p);
    Swap(l, r + 1, l, r + 1);
    SquareMonotone(1, l);
    SquaresAbove(f * f, p * p, l * l, (r + 1) * (r + 1));
  }

  /** A ratio whose digits agree with the root so far has a large denominator: f * f and 2 * l * l are
      different integers. */
  lemma Undecided(f: nat, l: nat, p: nat, r: nat)
    requires 0 < l && 0 < p && r * r < 2 * (p * p) < (r + 1) * (r + 1)
    requires l * r <= f * p < l * (r + 1)
    ensures p <= 3 * (l * l)
  {
    var ll, pp := l * l, p * p;
    Irrational(f, l);
    SquareMonotone(1, p);
    Between(f, l, p, r);
    SquareStep(ll, r);
    Apart(f * f, 2 * ll, pp);
    assert pp <= ll * (2 * r + 1);
    RootSize(p, r);
    Shrink(p, ll, 2 * r + 1);
  }

  lemma Between(f: nat, l: nat, p: nat, r: nat)
    requires r * r < 2 * (p * p) < (r + 1) * (r + 1)
    requires l * r <= f * p < l * (r + 1)
    ensures var ll, pp := l * l, p * p;
      && ll * (r * r) <= (f * f) * pp <= ll * ((r + 1) * (r + 1))
      && ll * (r * r) <= (2 * ll) * pp <= ll * ((r + 1) * (r + 1))
  {
    Swap(f, p, f, p);
    Swap(l, r, l, r);
    Swap(l, r + 1, l, r + 1);
    SquareMonotone(l * r, f * p);
    SquareMonotone(f * p, l * (r + 1));
    TwiceBetween(l * l, p * p, r * r, (r + 1) * (r + 1));
  }

  lemma TwiceBetween(ll: nat, pp: nat, low: nat, high: nat)
    requires low < 2 * pp < high
    ensures ll * low <= (2 * ll) * pp <= ll * high
  {
    Scaled(low, 2 * pp, ll);
    Scaled(2 * pp, high, ll);
    Rearrange(2, pp, ll);
    Rearrange(2, ll, pp);
  }

  lemma Apart(x: int, y: int, q: nat)
    requires x != y
    ensures x * q + q <= y * q || y * q + q <= x * q
  {
    if x < y {
      Scaled(x + 1, y, q);
    } else {
      Scaled(y + 1, x, q);
    }
  }

  lemma Shrink(p: nat, ll: nat, w: nat)
    requires p * p <= ll * w && w <= 3 * p
    ensures p <= 3 * ll
  {
    Scaled(w, 3 * p, ll);
    Rearrange(3, ll, p);
    if 3 * ll < p {
      Scaled(3 * ll + 1, p, p);
    }
  }

  lemma SquareStep(ll: nat, r: nat)
    ensures ll * ((r + 1) * (r + 1)) == ll * (r * r) + ll * (2 * r + 1)
  {
    assert (r + 1) * (r + 1) == r * r + (2 * r + 1);
  }

  lemma RootSize(p: nat, r: nat)
    requires 0 < p && r * r < 2 * (p * p)
    ensures 2 * r + 1 <= 3 * p
  {
    if 3 * p <= 2 * r {
      SquareMonotone(3 * p, 2 * r);
      Swap(3, p, 3, p);
      Swap(2, r, 2, r);
    }
  }

  /** `f` is what is left of f0 * 10^i after the digits before decimal `i`, if they were those of the root. */
  predicate Remains(r2: bytes, i: nat, f0: nat, l: nat, f: nat)
    requires AllDigits(r2) && i <= |r2| + 1
  {
    f0 * Pow10(i) == l * Prefix(r2, i) + f
  }

  predicate Early(i: nat, l: nat) { Pow10(i) <= 3 * (l * l) }

  /** f0 / l and the root have the same digits up to decimal `i`. */
  predicate Agrees(r2: bytes, i: nat, f0: nat, l: nat)
    requires AllDigits(r2) && i <= |r2|
  {
    l * Root(r2, i) <= f0 * Pow10(i) < l * (Root(r2, i) + 1)
  }

  /** And what is left of f0 * 10^i after them is too large to be multiplied by 10 as an int. */
  predicate OverflowsAt(r2: bytes, i: nat, f0: nat, l: nat)
    requires AllDigits(r2) && i <= |r2|
  {
    Agrees(r2, i, f0, l) && (f0 * Pow10(i) - l * Root(r2, i)) * 10 > MAX_INT32
  }

  /** Where the loop on a ratio has undefined behaviour. */
  predicate DivisionFails(r2: bytes, f0: nat, l: nat)
    requires AllDigits(r2) && FIRST <= |r2|
  {
    l == 0 || exists i :: 0 <= i <= FIRST && OverflowsAt(r2, i, f0, l)
  }

  /** Numbers that agree with the root to some decimal agree with it to every decimal before. */
  lemma {:induction false} AgreesBefore(r2: bytes, i: nat, k: nat, f0: nat, l: nat)
    requires AllDigits(r2) && i <= k <= |r2| && Agrees(r2, k, f0, l)
    ensures Agrees(r2, i, f0, l)
    decreases k - i
  {
    hide Val, Pow10, Root, AllDigits;
    if i < k {
      Pow10Next(k - 1);
      RootNext(r2, k);
      AgreesOneBefore(f0, l, Pow10(k - 1), Root(r2, k - 1), RootDigit(r2, k));
      AgreesBefore(r2, i, k - 1, f0, l);
    }
  }

  lemma AgreesOneBefore(f0: nat, l: nat, p: nat, r: nat, c: nat)
    requires c < 10 && l * (10 * r + c) <= f0 * (10 * p) < l * (10 * r + c + 1)
    ensures l * r <= f0 * p < l * (r + 1)
  {
    Scaled(10 * r, 10 * r + c, l);
    Scaled(10 * r + c + 1, 10 * (r + 1), l);
    Rearrange(10, l, r);
    Rearrange(10, l, r + 1);
    Rearrange(10, f0, p);
  }

  /** Small denominators leave small remainders. */
  lemma SmallDenominator(r2: bytes, f0: nat, l: nat)
    requires AllDigits(r2) && FIRST <= |r2| && 0 < l <= 214748365
    ensures !DivisionFails(r2, f0, l)
  {
    hide Root, Pow10, AllDigits;
    forall i | 0 <= i <= FIRST ensures !OverflowsAt(r2, i, f0, l) {
      Distribute(l, Root(r2, i), 0);
    }
  }

  /** One round: the digit `q` of f0 / l, after `f` was left of f0 * 10^i. */
  lemma Round(r2: bytes, i: nat, f0: nat, l: nat, f: nat, q: nat, rest: nat)
    requires AllDigits(r2) && StartsRight(r2) && i <= FIRST && 0 < l
    requires Remains(r2, i, f0, l, f) && f == q * l + rest && rest < l
    ensures q < RootDigit(r2, i) ==> UnderRoot(f0, l)
    ensures q > RootDigit(r2, i) ==> OverRoot(f0, l)
    ensures q == RootDigit(r2, i) <==> Agrees(r2, i, f0, l)
    ensures q == RootDigit(r2, i) ==> rest == f0 * Pow10(i) - l * Root(r2, i)
    ensures q == RootDigit(r2, i) ==> Early(i, l)
    ensures q == RootDigit(r2, i) ==> Remains(r2, i + 1, f0, l, rest * 10)
  {
    hide Val, Pow10, Show, CutRoot, Root, RootDigit;
    FirstDecimalsCut(r2);
    RootCut(r2, FIRST, i);
    RootNext(r2, i);
    Pow10Next(i);
    CutSquares(r2, i);
    Compared(f0, l, Pow10(i), Prefix(r2, i), RootDigit(r2, i), f, q);
  }

  /** The same for any number `x` that the digit `c` extends to the root, cut off. */
  lemma Compared(f0: nat, l: nat, p: nat, x: nat, c: nat, f: nat, q: nat)
    requires 0 < l && 0 < p && (x + c) * (x + c) < 2 * (p * p) < (x + c + 1) * (x + c + 1)
    requires f0 * p == l * x + f && q * l <= f < q * l + l
    ensures q < c ==> UnderRoot(f0, l)
    ensures q > c ==> OverRoot(f0, l)
    ensures q == c <==> l * (x + c) <= f0 * p < l * (x + c + 1)
    ensures q == c ==> f - q * l == f0 * p - l * (x + c)
    ensures q == c ==> p <= 3 * (l * l) && f0 * (10 * p) == l * (10 * (x + c)) + (f - q * l) * 10
  {
    Distribute(l, x, c);
    if q < c {
      Scaled(q + 1, c, l);
      Below(f0, l, p, x + c);
    } else if q > c {
      Scaled(c + 1, q, l);
      AboveRoot(f0, l, p, x + c);
    } else {
      Undecided(f0, l, p, x + c);
      Tenfold(f0, p, l, x + c, f - q * l);
    }
  }

  lemma Tenfold(a: int, b: int, c: int, d: int, e: int)
    requires a * b == c * d + e
    ensures a * (10 * b) == c * (10 * d) + e * 10
  {
    Rearrange(10, a, b);
    Rearrange(10, c, d);
    assert a * (10 * b) == 10 * (a * b) && c * (10 * d) == 10 * (c * d);
  }

  lemma Distribute(l: int, x: int, c: int)
    ensures l * (x + c) == l * x + c * l && l * (x + c + 1) == l * x + (c + 1) * l
  {}

  lemma CutSquares(r2: bytes, i: nat)
    requires AllDigits(r2) && i <= |r2| && CutRoot(r2[..i])
    ensures var r, p := Root(r2, i), Pow10(i); 0 < p && r * r < 2 * (p * p) < (r + 1) * (r + 1)
  {
    Pow10Next(i);
  }

  lemma LateRound(l: nat, i: nat)
    requires l <= MAX_INT32 && Early(i, l)
    ensures i < FIRST
  {
    SquareMonotone(l, MAX_INT32);
    assert Pow10(10) == 10000000000;
    assert Pow10(20) == 100000000000000000000;
    PowerGrows(20, i);
  }

  /** The loop on a ratio: in one of its first 21 rounds it decides, and rightly, unless a division or a
      product is undefined. */
  method LongDivision(r2: bytes, f0: nat, l: nat) returns (answer: Answer)
    requires AllDigits(r2) && StartsRight(r2) && f0 <= MAX_INT32 && l <= MAX_INT32
    ensures answer == if DivisionFails(r2, f0, l) then Undefined else if UnderRoot(f0, l) then Up else Down
  {
    hide Val, Pow10, Show, Root, Prefix, Remains, AllDigits, UnderRoot, OverRoot, Early, Agrees;
    var f: nat := f0;
    var i := 0;
    FirstRound(r2, f0, l);
    while i < 1000
      invariant i <= FIRST && i <= |r2| && f <= MAX_INT32
      invariant Remains(r2, i, f0, l, f)
      invariant forall j :: 0 <= j < i ==> !OverflowsAt(r2, j, f0, l)
    {
      if l == 0 {
        return Undefined;
      }
      OneSide(f0, l);
      var a, rest := Divide(f, l);
      Round(r2, i, f0, l, f, a, rest);
      f := rest;
      var c := if i == 0 then 1 else Digit(r2[i - 1]);
      if c > a {
        NoLaterOverflow(r2, i, f0, l);
        return Up;
      }
      if c < a {
        NoLaterOverflow(r2, i, f0, l);
        return Down;
      }
      LateRound(l, i);
      if f * 10 > MAX_INT32 {
        assert OverflowsAt(r2, i, f0, l);
        return Undefined;
      }
      f := f * 10;
      i := i + 1;
    }
    assert false;
  }

  lemma NoLaterOverflow(r2: bytes, i: nat, f0: nat, l: nat)
    requires AllDigits(r2) && i <= |r2| && !Agrees(r2, i, f0, l)
    ensures forall k :: i <= k <= |r2| ==> !OverflowsAt(r2, k, f0, l)
  {
    hide Agrees, AllDigits;
    forall k | i <= k <= |r2| ensures !OverflowsAt(r2, k, f0, l) {
      if Agrees(r2, k, f0, l) {
        AgreesBefore(r2, i, k, f0, l);
      }
    }
  }

  lemma FirstRound(r2: bytes, f0: nat, l: nat)
    requires AllDigits(r2)
    ensures Remains(r2, 0, f0, l, f0)
  {}

  /** One division: a = f / l, f = f - a * l. */
  method Divide(f: nat, l: nat) returns (a: nat, rest: nat)
    requires 0 < l
    ensures f == a * l + rest && rest < l
  {
    a := f / l;
    rest := f - a * l;
  }

  // ----- Decimals ------------------------------------------------------------------------------

  lemma ScaledBelow(x: nat, r: nat, p: nat, q: nat)
    requires 0 < q && r * r < 2 * (p * p) && x <= r * q
    ensures UnderRoot(x, p * q)
  {
    SquareMonotone(x, r * q);
    Swap(r, q, r, q);
    Swap(p, q, p, q);
    SquareMonotone(1, q);
    Scaled(r * r + 1, 2 * (p * p), q * q);
    Rearrange(2, p * p, q * q);
  }

  lemma ScaledAbove(x: nat, r: nat, p: nat, q: nat)
    requires 0 < q && 2 * (p * p) < (r + 1) * (r + 1) && (r + 1) * q <= x
    ensures OverRoot(x, p * q)
  {
    SquareMonotone((r + 1) * q, x);
    Swap(r + 1, q, r + 1, q);
    Swap(p, q, p, q);
    SquareMonotone(1, q);
    Scaled(2 * (p * p) + 1, (r + 1) * (r + 1), q * q);
    Rearrange(2, p * p, q * q);
  }

  /** 1.s, times 10^|s|. */
  function OnePoint(s: bytes): nat
    requires AllDigits(s)
  {
    Pow10(|s|) + Val(s)
  }

  /** The first digit that differs decides. */
  lemma FirstDifference(r2: bytes, s: bytes, i: nat)
    requires AllDigits(r2) && CutRoot(r2) && AllDigits(s) && i < |r2| && i < |s| && s[..i] == r2[..i] && s[i] != r2[i]
    ensures var x, p := OnePoint(s), Pow10(|s|); if s[i] < r2[i] then UnderRoot(x, p) else OverRoot(x, p)
    ensures !(r2 <= s)
  {
    hide Val, Pow10, CutRoot;
    var k := i + 1;
    var q := Pow10(|s| - k);
    assert r2[..|r2|] == r2;
    RootCut(r2, |r2|, k);
    CutSquares(r2, k);
    PrefixBounds(s, k);
    Pow10Sum(k, |s| - k);
    Pow10Next(|s| - k);
    assert k + (|s| - k) == |s|;
    ValNext(s, i);
    ValNext(r2, i);
    Spread(Pow10(k), Val(s[..k]), q);
    var r, w := Root(r2, k), Pow10(k) + Val(s[..k]);
    if s[i] < r2[i] {
      Scaled(w + 1, r, q);
      ScaledBelow(OnePoint(s), r, Pow10(k), q);
    } else {
      Scaled(r + 1, w, q);
      ScaledAbove(OnePoint(s), r, Pow10(k), q);
    }
  }

  /** The loop on the decimals, after a 1: exact as long as the known decimals are not exhausted.  When
      they all agree and more follow, it meets the NUL after the string, and answers DOWN. */
  method CompareRoot(r2: bytes, ls: bytes) returns (a: Answer)
    requires AllDigits(r2) && CutRoot(r2) && AllDigits(ls)
    ensures a == Up || a == Down
    ensures var x, p := OnePoint(ls), Pow10(|ls|);
      && (a == Up <==> UnderRoot(x, p) && !(r2 < ls))
      && (a == Down <==> OverRoot(x, p) || r2 < ls)
  {
    hide Val, Pow10, CutRoot, OnePoint;
    var i := 0;
    while i < |ls|
      invariant i <= |ls| && i <= |r2| && ls[..i] == r2[..i]
    {
      var c: byte := if i < |r2| then r2[i] else '\0';
      if i < |r2| && ls[i] != r2[i] {
        FirstDifference(r2, ls, i);
      }
      if ls[i] < c {
        return Up;
      }
      if ls[i] > c {
        assert i == |r2| ==> r2[..i] == r2 && ls[..i] == r2;
        return Down;
      }
      i := i + 1;
    }
    assert ls[..i] == ls && r2[..|r2|] == r2;
    RootCut(r2, |r2|, i);
    PrefixCut(r2, ls);
    return Up;
  }

  lemma PrefixCut(r2: bytes, s: bytes)
    requires |s| <= |r2| && s == r2[..|s|] && CutRoot(s)
    ensures UnderRoot(OnePoint(s), Pow10(|s|))
  {}

  /** One more decimal than are known: 1.(r2)0 is below the root, and told DOWN. */
  lemma Exhausted(r2: bytes)
    requires AllDigits(r2) && CutRoot(r2)
    ensures var s := r2 + "0"; AllDigits(s) && r2 < s
    ensures var s := r2 + "0"; UnderRoot(OnePoint(s), Pow10(|s|))
  {
    var s := r2 + "0";
    Pow10Next(|r2|);
    assert s[..|s| - 1] == r2;
    ScaledBelow(OnePoint(s), OnePoint(r2), Pow10(|r2|), 10);
  }

  lemma UnitsDecideRoot(f: nat, l: nat, p: nat)
    requires l < p
    ensures var x := f * p + l;
      && (f == 0 || (f == 1 && l == 0) ==> UnderRoot(x, p)) && (f >= 2 ==> OverRoot(x, p)) && (f == 1 ==> x == p + l)
  {
    var x := f * p + l;
    if f == 0 || (f == 1 && l == 0) {
      SquareMonotone(x, p);
      SquareMonotone(1, p);
    } else if f >= 2 {
      Scaled(2, f, p);
      SquareMonotone(2 * p, x);
      Swap(2, p, 2, p);
      SquareMonotone(1, p);
    }
  }

  /** A ratio on which the loop divides by zero or overflows. */
  predicate Fails(r2: bytes, g: Guess)
    requires Numeric(g) && AllDigits(r2) && FIRST <= |r2|
  {
    g.Ratio? && DivisionFails(r2, ReadInt(g.f), ReadInt(g.l))
  }

  /** A ratio whose numerator is read as the largest int, which is below the root times this denominator. */
  predicate Saturates(g: Guess)
    requires Numeric(g)
  {
    g.Ratio? && Val(g.f) > MAX_INT32 && Val(g.l) > 1518500249
  }

  /** A decimal that starts with 1 and all the known decimals, and goes on. */
  predicate Exhausts(r2: bytes, g: Guess)
    requires Numeric(g)
  {
    g.Decimal? && Val(g.f) == 1 && r2 < g.l
  }

  lemma Sides(g: Guess)
    requires Numeric(g)
    ensures Denominator(g) != 0 ==> UnderRoot(Numerator(g), Denominator(g)) != OverRoot(Numerator(g), Denominator(g))
    ensures !g.Ratio? ==> Denominator(g) != 0
  {
    hide UnderRoot, OverRoot, Pow10, Val;
    if g.Decimal? {
      Pow10Next(|g.l|);
    }
    if Denominator(g) != 0 {
      OneSide(Numerator(g), Denominator(g));
    }
  }

  method JudgeRatio(r2: bytes, fr: bytes, ls: bytes) returns (a: Answer)
    requires AllDigits(r2) && StartsRight(r2) && AllDigits(fr) && AllDigits(ls)
    ensures var n, d := Val(fr), Val(ls);
      a == if DivisionFails(r2, ReadInt(fr), ReadInt(ls)) then Undefined
           else if UnderRoot(n, d) || (n > MAX_INT32 && d > 1518500249) then Up else Down
  {
    hide Val, AllDigits, StartsRight, UnderRoot, OverRoot, OverflowsAt;
    var f, l := ReadInt(fr), ReadInt(ls);
    a := LongDivision(r2, f, l);
    Saturated(Val(fr), Val(ls));
  }

  method JudgeDecimal(r2: bytes, fr: bytes, ls: bytes) returns (a: Answer)
    requires AllDigits(r2) && CutRoot(r2) && AllDigits(fr) && AllDigits(ls)
    ensures a == Up || a == Down
    ensures var n, d := Val(fr) * Pow10(|ls|) + Val(ls), Pow10(|ls|);
      a == Up <==> UnderRoot(n, d) && !(Val(fr) == 1 && r2 < ls)
  {
    hide Val, Pow10, AllDigits, CutRoot, OnePoint, UnderRoot, OverRoot;
    var f := ReadInt(fr);
    ValBound(ls);
    Pow10Next(|ls|);
    OneSide(Val(fr) * Pow10(|ls|) + Val(ls), Pow10(|ls|));
    UnitsDecideRoot(Val(fr), Val(ls), Pow10(|ls|));
    if f > 1 {
      a := Down;
    } else if f < 1 {
      a := Up;
    } else {
      OnePointIs(ls);
      a := CompareRoot(r2, ls);
    }
  }

  /** The whole of .14updown: `known` are the texts that stand for the root itself, with a line feed.  The
      answer is right but for ratios of numbers that no int can hold, which are then told to go up, and
      for decimals that exhaust the known ones, which are told to go down. */
  method Judge14(content: bytes, r2: bytes, known: seq<bytes>) returns (a: Answer)
    requires AllDigits(r2) && StartsRight(r2) && CutRoot(r2)
    ensures content == [] ==> a == Undefined
    ensures var g := Classify(content); content != [] ==>
      (a == Undefined <==> !g.Malformed? && Fails(r2, g))
      && (content + "\n" in known ==> a == Correct || a == Undefined)
      && (content + "\n" !in known ==> a != Correct)
      && (content + "\n" !in known ==> (a == Invalid <==> g.Malformed?))
    ensures var g := Classify(content); var n, d := Numerator(g), Denominator(g);
      content != [] && content + "\n" !in known && !g.Malformed? && !Fails(r2, g) ==>
      && (a == Up <==> (UnderRoot(n, d) || Saturates(g)) && !Exhausts(r2, g))
      && (a == Down <==> (OverRoot(n, d) && !Saturates(g)) || Exhausts(r2, g))
  {
    hide Val, Pow10, AllDigits, StartsRight, CutRoot, OnePoint, UnderRoot, OverRoot;
    ClassifyForms([], []);
    var kind, fr, ls := ClassifyLoop(content);
    ghost var g := Classify(content);
    Sides(g);
    match kind {
      case 1 =>
        if content == [] {
          return Undefined;
        }
        assert g.n == content;
        var i := ReadInt(content);
        UnitsDecideRoot(Val(content), 0, 1);
        a := if i <= 1 then Up else Down;
      case 2 =>
        a := JudgeRatio(r2, fr, ls);
        if a == Undefined {
          return;
        }
      case 3 =>
        a := JudgeDecimal(r2, fr, ls);
      case _ =>
        a := Invalid;
    }
    if content + "\n" in known {
      a := Correct;
    }
  }

  lemma OnePointIs(s: bytes)
    requires AllDigits(s)
    ensures OnePoint(s) == Pow10(|s|) + Val(s)
  {}

  /** What reading numbers as the largest int does to their ratio. */
  lemma Saturated(n: nat, d: nat)
    ensures var f, l := Min(n, MAX_INT32), Min(d, MAX_INT32);
      UnderRoot(f, l) <==> UnderRoot(n, d) || (n > MAX_INT32 && d > 1518500249)
  {
    var f, l := Min(n, MAX_INT32), Min(d, MAX_INT32);
    if n > MAX_INT32 {
      SquareMonotone(f, n);
      if d > 1518500249 {
        SquareMonotone(1518500250, l);
      } else {
        SquareMonotone(d, 1518500249);
      }
    } else if d > MAX_INT32 {
      SquareMonotone(n, MAX_INT32);
      SquareMonotone(MAX_INT32, d);
    }
  }

  /** A ratio far above the root that is told to go up: both its numbers are read as the largest int. */
  lemma SaturatedWrongly(r2: bytes)
    requires AllDigits(r2) && StartsRight(r2)
    ensures var g := Ratio(Show(4294967294), Show(2147483648));
      Numeric(g) && Saturates(g) && !Fails(r2, g) && OverRoot(Numerator(g), Denominator(g))
  {
    hide Show, Val;
    ValShow(4294967294);
    ValShow(2147483648);
    NoVal(r2);
    FirstDigit(r2);
    forall i | 0 <= i <= FIRST ensures !OverflowsAt(r2, i, MAX_INT32, MAX_INT32) {
      if 0 < i && Agrees(r2, i, MAX_INT32, MAX_INT32) {
        AgreesBefore(r2, 1, i, MAX_INT32, MAX_INT32);
      }
    }
  }

  /** A ratio on which the loop overflows in its first round. */
  lemma Overflowing(r2: bytes)
    requires AllDigits(r2) && StartsRight(r2)
    ensures var g := Ratio(Show(1300000000), Show(1000000000)); Numeric(g) && Fails(r2, g)
  {
    hide Show, Val;
    ValShow(1300000000);
    ValShow(1000000000);
    NoVal(r2);
    assert OverflowsAt(r2, 0, 1300000000, 1000000000);
  }

  /** The root is 1.4 to its first decimal. */
  lemma FirstDigit(r2: bytes)
    requires AllDigits(r2) && StartsRight(r2)
    ensures Root(r2, 1) == 14 && Pow10(1) == 10
  {
    hide Show, Val;
    FirstDecimalsCut(r2);
    RootCut(r2, FIRST, 1);
    Pow10Next(0);
    var x := Root(r2, 1);
    if x < 14 {
      SquareMonotone(x + 1, 14);
    } else if x > 14 {
      SquareMonotone(15, x);
    }
  }
}
