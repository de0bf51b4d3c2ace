/** strverscmp: names in an order that compares runs of digits as numbers, and runs that start with a
    zero as fractions. */
module VersionOrder {
  import opened Bytes
  import opened Numbers
  import opened Decimals

  /** A C string with its terminator. */
  predicate CString(s: bytes) {
    s != [] && s[|s| - 1] == '\0' && forall i :: 0 <= i < |s| - 1 ==> s[i] != '\0'
  }

  /** The run of digits that ends just before a position. */
  datatype Mode = NoRun | Zeros | Fraction | Number

  function ModeAt(s: bytes, i: nat): Mode
    requires i <= |s|
  {
    if i == 0 || !IsDigit(s[i - 1]) then NoRun
    else
      match ModeAt(s, i - 1)
      case NoRun => if s[i - 1] == '0' then Zeros else Number
      case Zeros => if s[i - 1] == '0' then Zeros else Fraction
      case Fraction => Fraction
      case Number => Number
  }

  /** How many digits follow. */
  function Run(s: bytes, i: nat): nat
    requires i <= |s|
    decreases |s| - i
  {
    if i < |s| && IsDigit(s[i]) then 1 + Run(s, i + 1) else 0
  }

  /** What decides between two strings that agree up to position `i`: a smaller rank comes first. */
  datatype Rank = Rank(major: int, minor: int)

  function RankAt(s: bytes, i: nat): Rank
    requires i < |s|
  {
    var c := s[i] as int;
    match ModeAt(s, i)
    case Zeros => Rank(if IsDigit(s[i]) then 0 else 1, c)
    case Fraction => Rank(0, c)
    case Number => Rank(Run(s, i), c)
    case NoRun =>
      if s[i] == '0' then Rank(-1, 0)
      else if IsDigit(s[i]) then Rank('1' as int, Run(s, i) * 256 + c)
      else Rank(c, 0)
  }

  predicate RankLess(a: Rank, b: Rank) {
    a.major < b.major || (a.major == b.major && a.minor < b.minor)
  }

  /** The first position from `i` on where the strings differ, or else that of their terminators. */
  function Difference(a: bytes, b: bytes, i: nat): (d: nat)
    requires CString(a) && CString(b) && i < |a| && i < |b| && a[..i] == b[..i]
    ensures i <= d < |a| && d < |b| && a[..d] == b[..d]
    ensures a[d] != b[d] || (a[d] == '\0' && a == b)
    decreases |a| - i
  {
    if a[i] != b[i] then i
    else if a[i] == '\0' then
      assert |a| == i + 1 && |b| == i + 1 && a == a[..i] + [a[i]] && b == b[..i] + [b[i]];
      i
    else
      assert a[..i + 1] == a[..i] + [a[i]] && b[..i + 1] == b[..i] + [b[i]];
      Difference(a, b, i + 1)
  }

  /** The order strverscmp computes. */
  predicate Before(a: bytes, b: bytes)
    requires CString(a) && CString(b)
  {
    var i := Difference(a, b, 0);
    a != b && RankLess(RankAt(a, i), RankAt(b, i))
  }

  lemma DifferenceIs(a: bytes, b: bytes, i: nat)
    requires CString(a) && CString(b) && i < |a| && i < |b| && a[..i] == b[..i] && a[i] != b[i]
    ensures Difference(a, b, 0) == i
  {
    SameBefore(a, b, i);
    SameBefore(a, b, Difference(a, b, 0));
  }

  lemma {:induction false} ModeOfPrefix(a: bytes, b: bytes, i: nat)
    requires i <= |a| && i <= |b| && a[..i] == b[..i]
    ensures ModeAt(a, i) == ModeAt(b, i)
  {
    if i > 0 {
      assert a[i - 1] == a[..i][i - 1] == b[..i][i - 1] == b[i - 1];
      assert a[..i - 1] == a[..i][..i - 1] == b[..i][..i - 1] == b[..i - 1];
      ModeOfPrefix(a, b, i - 1);
    }
  }

  lemma {:induction false} ModeOfSymmetry(a: bytes, b: bytes)
    requires CString(a) && CString(b)
    ensures Difference(a, b, 0) == Difference(b, a, 0)
  {
    var d := Difference(a, b, 0);
    if a[d] != b[d] {
      DifferenceIs(b, a, d);
    }
  }

  /** Exactly one of: first, equal, last. */
  lemma Trichotomy(a: bytes, b: bytes)
    requires CString(a) && CString(b)
    ensures Before(a, b) ==> a != b && !Before(b, a)
    ensures a == b || Before(a, b) || Before(b, a)
  {
    ModeOfSymmetry(a, b);
    var i := Difference(a, b, 0);
    ModeOfPrefix(a, b, i);
    hide ModeAt, Difference;
  }

  lemma {:induction false} SameRun(a: bytes, b: bytes, k: nat, i: nat)
    requires k <= i < |a| && i < |b| && a[..i] == b[..i]
    ensures Run(a, k) == Run(b, k)
         || (Run(a, k) == i - k + Run(a, i) && Run(b, k) == i - k + Run(b, i) && AllDigits(a[k..i]))
    decreases i - k
  {
    SameBefore(a, b, i);
    if k < i && IsDigit(a[k]) {
      SameRun(a, b, k + 1, i);
      assert a[k..i] == [a[k]] + a[k + 1..i];
    }
  }

  /** Digits that follow a number belong to it. */
  lemma {:induction false} StillNumber(s: bytes, k: nat, i: nat)
    requires k < i <= |s| && AllDigits(s[k..i])
    requires ModeAt(s, k) == Number || (ModeAt(s, k) == NoRun && s[k] != '0')
    ensures ModeAt(s, i) == Number
    decreases i
  {
    assert s[i - 1] == s[k..i][i - 1 - k];
    if k < i - 1 {
      assert s[k..i - 1] == s[k..i][..i - 1 - k];
      StillNumber(s, k, i - 1);
    }
  }

  /** A later difference cannot reverse the ranks at an earlier position. */
  lemma Monotone(a: bytes, b: bytes, k: nat)
    requires CString(a) && CString(b) && Before(a, b) && k < Difference(a, b, 0)
    ensures !RankLess(RankAt(b, k), RankAt(a, k))
  {
    hide ModeAt, Difference, Run, CString;
    var i := Difference(a, b, 0);
    SameBefore(a, b, i);
    ModeOfPrefix(a, b, k);
    ModeOfPrefix(a, b, i);
    SameRun(a, b, k, i);
    if Run(a, k) != Run(b, k) && (ModeAt(a, k) == Number || (ModeAt(a, k) == NoRun && a[k] != '0')) {
      StillNumber(a, k, i);
    }
  }

  /** The order is transitive, although what decides can be a digit run in one comparison and a byte in
      the next. */
  lemma Transitive(a: bytes, b: bytes, c: bytes)
    requires CString(a) && CString(b) && CString(c) && Before(a, b) && Before(b, c)
    ensures Before(a, c)
  {
    hide RankAt, ModeAt, Run;
    var i, k := Difference(a, b, 0), Difference(b, c, 0);
    SameBefore(a, b, i);
    SameBefore(b, c, k);
    if i < k {
      DifferenceIs(a, c, i);
      Monotone(b, c, i);
    } else if k < i {
      DifferenceIs(a, c, k);
      Monotone(a, b, k);
    } else if a[i] != c[i] {
      DifferenceIs(a, c, i);
    } else {
      Trichotomy(a, c);
      if Before(c, a) {
        LaterDifference(c, a, i);
        Monotone(c, a, i);
      }
    }
  }

  lemma LaterDifference(a: bytes, b: bytes, i: nat)
    requires CString(a) && CString(b) && i < |a| && i < |b| && a[..i] == b[..i] && a[i] == b[i] && a != b
    ensures Difference(a, b, 0) > i
  {
    SameBefore(a, b, i);
    var d := Difference(a, b, 0);
    assert a[d] != b[d];
  }

  /** The mode at `i`, from where its run of digits starts. */
  lemma {:induction false} ModeFromRun(s: bytes, j: nat, i: nat)
    requires j <= i <= |s| && (j == 0 || !IsDigit(s[j - 1]))
    requires forall k :: j <= k < i ==> IsDigit(s[k])
    ensures j == i ==> ModeAt(s, i) == NoRun
    ensures j < i && s[j] != '0' ==> ModeAt(s, i) == Number
    ensures j < i && s[j] == '0' ==>
      ModeAt(s, i) == if forall k :: j <= k < i ==> s[k] == '0' then Zeros else Fraction
    decreases i
  {
    if j < i {
      ModeFromRun(s, j, i - 1);
    }
  }

  lemma {:induction false} RunFrom(s: bytes, j: nat, i: nat)
    requires j <= i <= |s| && forall k :: j <= k < i ==> IsDigit(s[k])
    ensures Run(s, j) == i - j + Run(s, i)
    decreases i - j
  {
    if j < i {
      RunFrom(s, j + 1, i);
    }
  }

  // ----- What the order means ------------------------------------------------------------------

  /** Two strings with the same beginning `p`, which ends in no digit, then runs of digits, `x` and `y`, and
      then what is left; they differ in the runs or right after them. */
  datatype Split = Split(p: bytes, x: bytes, u: bytes, y: bytes, v: bytes)

  predicate Splits(s: Split, a: bytes, b: bytes) {
    && a == s.p + s.x + s.u && b == s.p + s.y + s.v
    && (s.p == [] || !IsDigit(s.p[|s.p| - 1]))
    && AllDigits(s.x) && s.u != [] && !IsDigit(s.u[0])
    && AllDigits(s.y) && s.v != [] && !IsDigit(s.v[0])
    && (s.x != s.y || s.u[0] != s.v[0])
  }

  predicate LeadingZero(x: bytes) { x != [] && x[0] == '0' }

  predicate AllZeros(x: bytes) { forall i :: 0 <= i < |x| ==> x[i] == '0' }

  /** The first of the two: the smaller number; or, where a run starts with a zero, the longer one of two runs
      that begin with the same zeros and nothing else for one of them; or else the smaller byte. */
  predicate First(s: Split)
    requires AllDigits(s.x) && AllDigits(s.y)
  {
    if s.x != s.y && s.x != [] && s.y != [] && !LeadingZero(s.x) && !LeadingZero(s.y) then Val(s.x) < Val(s.y)
    else if (LeadingZero(s.x) || LeadingZero(s.y)) && s.x < s.y && AllZeros(s.x) then false
    else if (LeadingZero(s.x) || LeadingZero(s.y)) && s.y < s.x && AllZeros(s.y) then true
    else LowerByte(s.x + s.u, s.y + s.v)
  }

  /** Different strings split, where their digits around the first difference begin. */
  lemma SplitExists(a: bytes, b: bytes) returns (s: Split)
    requires CString(a) && CString(b) && a != b
    ensures Splits(s, a, b)
  {
    hide Run, Difference, CString;
    AtDifference(a, b);
    var d := Difference(a, b, 0);
    var j: nat := d;
    while j > 0 && IsDigit(a[j - 1])
      invariant j <= d < |a| && d < |b| && forall k :: j <= k < d ==> IsDigit(a[k])
    {
      j := j - 1;
    }
    SameBefore(a, b, d);
    var m := DigitsEnd(a, d);
    var n := DigitsEnd(b, d);
    s := Split(a[..j], a[j..m], a[m..], b[j..n], b[n..]);
    RunParts(a, j, m);
    RunParts(b, j, n);
    SplitAt(a, b, j, d, m, n);
  }

  /** The runs differ, or end at the difference. */
  lemma SplitAt(a: bytes, b: bytes, j: nat, d: nat, m: nat, n: nat)
    requires j <= d <= m < |a| && d <= n < |b| && a[d] != b[d]
    ensures a[j..m] == b[j..n] ==> m == d == n
  {
    assert m > d ==> a[j..m][d - j] == a[d];
    assert n > d ==> b[j..n][d - j] == b[d];
    assert a[j..m] == b[j..n] ==> m == n;
  }

  lemma RunParts(s: bytes, j: nat, m: nat)
    requires j <= m < |s| && forall k :: j <= k < m ==> IsDigit(s[k])
    ensures s == s[..j] + s[j..m] + s[m..] && AllDigits(s[j..m]) && s[m..] != [] && s[m..][0] == s[m]
    ensures j > 0 ==> s[..j][j - 1] == s[j - 1]
  {}

  lemma DigitsEnd(s: bytes, i: nat) returns (k: nat)
    requires CString(s) && i < |s|
    ensures i <= k < |s| && !IsDigit(s[k]) && forall m :: i <= m < k ==> IsDigit(s[m])
  {
    k := i;
    while IsDigit(s[k])
      invariant i <= k < |s| && forall m :: i <= m < k ==> IsDigit(s[m])
      decreases |s| - k
    {
      k := k + 1;
    }
  }

  /** Where the two sides of a split first differ. */
  lemma SplitDifference(s: Split, a: bytes, b: bytes) returns (e: nat)
    requires Splits(s, a, b)
    ensures e <= |s.x| && e <= |s.y| && s.x[..e] == s.y[..e]
    ensures (s.x + s.u)[e] != (s.y + s.v)[e]
    ensures (s.x + s.u)[..e] == s.x[..e] && (s.y + s.v)[..e] == s.y[..e]
    ensures (s.x + s.u)[e] == (if e < |s.x| then s.x[e] else s.u[0])
    ensures (s.y + s.v)[e] == (if e < |s.y| then s.y[e] else s.v[0])
  {
    e := 0;
    while e < |s.x| && e < |s.y| && s.x[e] == s.y[e]
      invariant e <= |s.x| && e <= |s.y| && s.x[..e] == s.y[..e]
    {
      e := e + 1;
    }
    assert s.x[..|s.x|] == s.x && s.y[..|s.y|] == s.y;
  }

  lemma {:induction false} RunIs(s: bytes, i: nat, k: nat)
    requires i <= k < |s| && !IsDigit(s[k]) && forall m :: i <= m < k ==> IsDigit(s[m])
    ensures Run(s, i) == k - i
    decreases k - i
  {
    if i < k {
      RunIs(s, i + 1, k);
    }
  }

  lemma SideBytes(s: bytes, p: bytes, x: bytes, u: bytes, e: nat)
    requires s == p + x + u && u != [] && e <= |x|
    ensures |p| + |x| < |s| && s[|p| + |x|] == u[0] && s[..|p| + e] == p + x[..e] && s[|p| + e] == (x + u)[e]
    ensures (x + u)[e] == (if e < |x| then x[e] else u[0])
    ensures forall k :: 0 <= k < |x| ==> s[|p| + k] == x[k]
    ensures |p| > 0 ==> s[|p| - 1] == p[|p| - 1]
  {}

  lemma ZerosBetween(s: bytes, p: nat, x: bytes, e: nat)
    requires p + |x| <= |s| && e <= |x| && forall k :: 0 <= k < |x| ==> s[p + k] == x[k]
    ensures AllZeros(x[..e]) <==> forall k :: p <= k < p + e ==> s[k] == '0'
  {
    if AllZeros(x[..e]) {
      forall k | p <= k < p + e ensures s[k] == '0' {
        assert s[p + (k - p)] == x[..e][k - p];
      }
    } else {
      var k :| 0 <= k < e && x[..e][k] != '0';
      assert s[p + k] != '0';
    }
  }

  /** The rank of one side at the first difference, at the e-th byte of its run `x` or right after it. */
  function SideRank(x: bytes, u: bytes, e: nat): Rank
    requires e <= |x| && u != []
  {
    var c := (if e < |x| then x[e] else u[0]) as int;
    if e > 0 && x[0] != '0' then Rank(|x| - e, c)
    else if e > 0 && AllZeros(x[..e]) then Rank(if e < |x| then 0 else 1, c)
    else if e > 0 then Rank(0, c)
    else if x == [] then Rank(c, 0)
    else if x[0] == '0' then Rank(-1, 0)
    else Rank('1' as int, |x| * 256 + c)
  }

  lemma SideAt(s: bytes, j: nat, x: bytes, u: bytes, e: nat)
    requires AllDigits(x) && u != [] && !IsDigit(u[0]) && e <= |x| && j + |x| < |s| && s[j + |x|] == u[0]
    requires (j == 0 || !IsDigit(s[j - 1])) && forall k :: 0 <= k < |x| ==> s[j + k] == x[k]
    ensures RankAt(s, j + e) == SideRank(x, u, e)
  {
    hide ModeAt, Run, AllZeros;
    forall k | j <= k < j + |x| ensures IsDigit(s[k]) {
      assert s[j + (k - j)] == x[k - j];
    }
    RunIs(s, j + e, j + |x|);
    ModeFromRun(s, j, j + e);
    ZerosBetween(s, j, x, e);
  }

  /** Numbers without leading zeros: the one with fewer digits, or with the smaller digit where they first
      differ. */
  lemma NumberOrder(x: bytes, y: bytes, e: nat)
    requires AllDigits(x) && AllDigits(y) && x != [] && y != [] && x[0] != '0' && y[0] != '0'
    requires e <= |x| && e <= |y| && x[..e] == y[..e]
    ensures |x| < |y| ==> Val(x) < Val(y)
    ensures |x| == |y| && e < |x| && x[e] < y[e] ==> Val(x) < Val(y)
  {
    hide Val, Pow10;
    if |x| < |y| {
      ShorterNumber(x, y);
    } else if |x| == |y| && e < |x| && x[e] < y[e] {
      var q := Pow10(|x| - (e + 1));
      PrefixBounds(x, e + 1);
      PrefixBounds(y, e + 1);
      ValNext(x, e);
      ValNext(y, e);
      Scaled(Val(x[..e + 1]) + 1, Val(y[..e + 1]), q);
    }
  }

  lemma ShorterNumber(x: bytes, y: bytes)
    requires AllDigits(x) && AllDigits(y) && y != [] && y[0] != '0' && |x| < |y|
    ensures Val(x) < Val(y)
  {
    hide Val, Pow10;
    ValBound(x);
    PrefixBounds(y, 1);
    ValNext(y, 0);
    PowerGrows(|x|, |y| - 1);
    Scaled(1, Val(y[..1]), Pow10(|y| - 1));
  }

  /** What stands at the first difference, and which run is a prefix of the other. */
  predicate Parted(s: Split, e: nat) {
    && AllDigits(s.x) && AllDigits(s.y) && s.u != [] && s.v != [] && !IsDigit(s.u[0]) && !IsDigit(s.v[0])
    && e <= |s.x| && e <= |s.y| && s.x[..e] == s.y[..e]
    && (if e < |s.x| then s.x[e] else s.u[0]) != (if e < |s.y| then s.y[e] else s.v[0])
    && (s.x + s.u)[e] == (if e < |s.x| then s.x[e] else s.u[0])
    && (s.y + s.v)[e] == (if e < |s.y| then s.y[e] else s.v[0])
    && (LowerByte(s.x + s.u, s.y + s.v) <==> (s.x + s.u)[e] < (s.y + s.v)[e])
  }

  lemma PrefixIff(x: bytes, y: bytes, e: nat)
    requires e <= |x| && e <= |y| && x[..e] == y[..e] && (e < |x| && e < |y| ==> x[e] != y[e])
    ensures x < y <==> e == |x| < |y|
    ensures x == y <==> e == |x| == |y|
    ensures e > 0 ==> x[0] == y[0]
  {
    assert x[..|x|] == x && y[..|y|] == y;
    if x < y {
      SameBefore(x, y, |x|);
    }
    if e > 0 {
      SameBefore(x, y, e);
    }
  }

  lemma NumbersDecide(s: Split, e: nat)
    requires Parted(s, e) && s.x != [] && s.y != [] && s.x[0] != '0' && s.y[0] != '0' && e > 0
    ensures RankLess(SideRank(s.x, s.u, e), SideRank(s.y, s.v, e)) <==> First(s)
  {
    hide Val, LowerByte;
    PrefixIff(s.x, s.y, e);
    NumberOrder(s.x, s.y, e);
    NumberOrder(s.y, s.x, e);
  }

  lemma ZerosDecide(s: Split, e: nat)
    requires Parted(s, e) && e > 0 && s.x[0] == '0'
    ensures RankLess(SideRank(s.x, s.u, e), SideRank(s.y, s.v, e)) <==> First(s)
  {
    hide Val, LowerByte, AllZeros;
    PrefixIff(s.x, s.y, e);
    PrefixIff(s.y, s.x, e);
    assert s.x[..|s.x|] == s.x && s.y[..|s.y|] == s.y;
  }

  lemma StartsDecide(s: Split)
    requires Parted(s, 0)
    ensures RankLess(SideRank(s.x, s.u, 0), SideRank(s.y, s.v, 0)) <==> First(s)
  {
    hide Val, LowerByte;
    PrefixIff(s.x, s.y, 0);
    PrefixIff(s.y, s.x, 0);
    assert AllZeros([]);
    if s.x != [] && s.y != [] && s.x[0] != '0' && s.y[0] != '0' {
      NumberOrder(s.x, s.y, 0);
      NumberOrder(s.y, s.x, 0);
    }
  }

  lemma RanksDecide(s: Split, e: nat)
    requires Parted(s, e)
    ensures RankLess(SideRank(s.x, s.u, e), SideRank(s.y, s.v, e)) <==> First(s)
  {
    hide SideRank, First, LowerByte;
    PrefixIff(s.x, s.y, e);
    if e == 0 {
      StartsDecide(s);
    } else if s.x[0] == '0' {
      ZerosDecide(s, e);
    } else {
      NumbersDecide(s, e);
    }
  }

  lemma SideOf(s: bytes, p: bytes, x: bytes, u: bytes, e: nat)
    requires s == p + x + u && AllDigits(x) && u != [] && !IsDigit(u[0]) && e <= |x|
    requires p == [] || !IsDigit(p[|p| - 1])
    ensures |p| + e < |s| && s[..|p| + e] == p + x[..e] && s[|p| + e] == (if e < |x| then x[e] else u[0])
    ensures RankAt(s, |p| + e) == SideRank(x, u, e)
  {
    hide RankAt, SideRank;
    SideBytes(s, p, x, u, e);
    SideAt(s, |p|, x, u, e);
  }

  lemma SplitParted(s: Split, a: bytes, b: bytes) returns (e: nat)
    requires Splits(s, a, b)
    ensures Parted(s, e)
  {
    hide LowerByte;
    e := SplitDifference(s, a, b);
    LowerAt(s.x + s.u, s.y + s.v, e);
  }

  /** What Before means for strings split at their runs of digits. */
  lemma SplitDecides(s: Split, a: bytes, b: bytes)
    requires CString(a) && CString(b) && Splits(s, a, b)
    ensures Before(a, b) <==> First(s)
  {
    hide ModeAt, Run, RankAt, SideRank, First, LowerByte, Difference, Val, CString;
    var e := SplitParted(s, a, b);
    SideOf(a, s.p, s.x, s.u, e);
    SideOf(b, s.p, s.y, s.v, e);
    DifferenceIs(a, b, |s.p| + e);
    RanksDecide(s, e);
  }

  method CountDigits(s: bytes, j: nat) returns (k: nat)
    requires CString(s) && j < |s|
    ensures k == j + Run(s, j)
  {
    k := j;
    while IsDigit(s[k])
      invariant j <= k < |s| && k + Run(s, k) == j + Run(s, j)
      decreases |s| - k
    {
      k := k + 1;
    }
  }

  /** strverscmp: no index passes a terminator, and the sign of the result is the order. */
  method Strverscmp(a: bytes, b: bytes) returns (r: int)
    requires CString(a) && CString(b)
    ensures r == 0 <==> a == b
    ensures r < 0 <==> Before(a, b)
    ensures r > 0 <==> Before(b, a)
    ensures forall s: Split :: Splits(s, a, b) ==> (r < 0 <==> First(s))
  {
    forall s: Split | Splits(s, a, b) ensures Before(a, b) <==> First(s) {
      SplitDecides(s, a, b);
    }
    hide Splits, First;
    hide ModeAt, Run, Difference, CString;
    Trichotomy(a, b);
    ModeOfSymmetry(a, b);
    ghost var d := Difference(a, b, 0);
    SameBefore(a, b, d);
    AtDifference(a, b);
    var i := 0;
    while a[i] == b[i]
      invariant i <= d
      decreases d - i
    {
      if a[i] == '\0' {
        EarlyEnd(a, b, i);
        return 0;
      }
      i := i + 1;
    }
    assert i == d;
    var j := i;
    while j > 0 && IsDigit(a[j - 1])
      invariant j <= i && forall k :: j <= k < i ==> IsDigit(a[k])
    {
      j := j - 1;
    }
    ghost var start := j;
    ModeFromRun(a, start, i);
    ModeOfPrefix(a, b, i);
    if a[j] == '0' || b[j] == '0' {
      while a[j] == '0' && a[j] == b[j]
        invariant start <= j <= i && forall k :: start <= k < j ==> a[k] == '0'
        decreases i - j
      {
        j := j + 1;
      }
      if IsDigit(a[j]) {
        if !IsDigit(b[j]) {
          return -1;
        }
      } else if IsDigit(b[j]) {
        return 1;
      }
    } else if IsDigit(a[j]) && IsDigit(b[j]) {
      var k1 := CountDigits(a, j);
      var k2 := CountDigits(b, j);
      RunFrom(a, j, i);
      RunFrom(b, j, i);
      if k1 < k2 {
        return -1;
      } else if k1 > k2 {
        return 1;
      }
    }
    return a[i] as int - b[i] as int;
  }

  lemma AtDifference(a: bytes, b: bytes)
    requires CString(a) && CString(b)
    ensures var d := Difference(a, b, 0); a[d] == b[d] ==> a[d] == '\0' && a == b
  {}

  lemma EarlyEnd(a: bytes, b: bytes, i: nat)
    requires CString(a) && CString(b) && i < |a| && i < |b| && a[i] == '\0' && i <= Difference(a, b, 0) && a[i] == b[i]
    ensures a == b
  {
    assert Difference(a, b, 0) <= |a| - 1;
  }
}
