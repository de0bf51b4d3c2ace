/** Integers as text: uintToString and valueToString, the decodeNumber functions, and that the two
    directions are inverse. */
module Numbers {
  import opened Bytes
  import opened JsonValues

  newtype uint64 = x: int | 0 <= x <= 0xFFFF_FFFF_FFFF_FFFF
  newtype int64 = x: int | -0x8000_0000_0000_0000 <= x <= 0x7FFF_FFFF_FFFF_FFFF

  const MAX_INT32: int := 0x7FFF_FFFF

  /** sizeof(UIntToStringBuffer). */
  const BUFFER_SIZE := 25

  // ----- Decimal notation ----------------------------------------------------------------------

  function Digit(c: byte): (d: nat)
    requires IsDigit(c)
    ensures d <= 9
  {
    c as int - '0' as int
  }

  function DigitChar(d: nat): (c: byte)
    requires d <= 9
    ensures IsDigit(c) && Digit(c) == d
  {
    (d + '0' as int) as char
  }

  /** The number a digit string denotes. */
  function Val(s: bytes): nat
    requires AllDigits(s)
  {
    if s == [] then 0 else Val(s[..|s| - 1]) * 10 + Digit(s[|s| - 1])
  }

  /** The shortest digit string of a number. */
  function Show(n: nat): (s: bytes)
    ensures s != [] && AllDigits(s)
    ensures |s| > 1 ==> s[0] != '0'
  {
    if n < 10 then [DigitChar(n)] else Show(n / 10) + [DigitChar(n % 10)]
  }

  function ShowInt(i: int): bytes {
    if i < 0 then "-" + Show(-i) else Show(i)
  }

  lemma {:induction false} ValShow(n: nat)
    ensures Val(Show(n)) == n
  {
    if n >= 10 {
      ValShow(n / 10);
      assert Show(n)[..|Show(n)| - 1] == Show(n / 10);
    }
  }

  function Pow10(k: nat): nat {
    if k == 0 then 1 else 10 * Pow10(k - 1)
  }

  lemma {:induction false} ShowLength(n: nat, k: nat)
    requires k > 0 && n < Pow10(k)
    ensures |Show(n)| <= k
  {
    if n >= 10 {
      ShowLength(n / 10, k - 1);
    }
  }

  // ----- Integers to text ----------------------------------------------------------------------

  /** *--current = c. */
  method Prepend(buffer: array<byte>, current: nat, c: byte) returns (cur: nat)
    requires 0 < current <= buffer.Length
    modifies buffer
    ensures cur == current - 1
    ensures buffer[cur..] == [c] + old(buffer[current..]) && buffer[..cur] == old(buffer[..cur])
  {
    cur := current - 1;
    buffer[cur] := c;
    assert buffer[cur..] == [buffer[cur]] + buffer[current..];
  }

  /** uintToString: writes a NUL and, before it, the digits; nothing else in the buffer changes. */
  method UintToString(value: uint64, buffer: array<byte>, current: nat) returns (cur: nat)
    requires |Show(value as int)| + 1 <= current <= buffer.Length
    modifies buffer
    ensures cur + |Show(value as int)| + 1 == current
    ensures buffer[cur..] == Show(value as int) + ['\0'] + old(buffer[current..])
    ensures buffer[..cur] == old(buffer[..cur])
  {
    hide Show;
    ghost var goal := Show(value as int) + ['\0'] + buffer[current..];
    cur := Prepend(buffer, current, '\0');
    var v := value;
    DigitsToGo(v as int, buffer[cur..]);
    assert goal == Show(value as int) + (['\0'] + old(buffer[current..]));
    cur := Prepend(buffer, cur, DigitChar((v % 10) as int));
    while v >= 10
      invariant |Higher(v as int)| <= cur <= buffer.Length
      invariant Higher(v as int) + buffer[cur..] == goal
      invariant buffer[..cur] == old(buffer[..cur])
      decreases v
    {
      DigitsToGo((v / 10) as int, buffer[cur..]);
      ghost var prefix := buffer[..cur];
      v := v / 10;
      cur := Prepend(buffer, cur, DigitChar((v % 10) as int));
      assert buffer[..cur] == prefix[..cur];
    }
    assert |goal| == |Show(value as int)| + 1 + (buffer.Length - current);
  }

  /** The last digit of a number, put before the digits already written. */
  lemma DigitsToGo(n: nat, written: bytes)
    ensures Show(n) + written == Higher(n) + ([DigitChar(n % 10)] + written)
    ensures |Show(n)| == |Higher(n)| + 1
  {
    hide Show;
    ShowParts(n);
    assert Higher(n) + [DigitChar(n % 10)] + written == Higher(n) + ([DigitChar(n % 10)] + written);
  }

  /** The digits above the last. */
  function Higher(n: nat): bytes {
    if n < 10 then [] else Show(n / 10)
  }

  lemma ShowParts(n: nat)
    ensures Show(n) == Higher(n) + [DigitChar(n % 10)]
  {}

  lemma FitsBuffer(value: uint64)
    ensures |Show(value as int)| <= 20
  {
    assert Pow10(5) == 100000;
    assert Pow10(10) == 10000000000;
    assert Pow10(15) == 1000000000000000;
    assert Pow10(20) == 100000000000000000000;
    ShowLength(value as int, 20);
  }

  /** valueToString(LargestUInt): the digits always fit the buffer. */
  method UnsignedToString(value: uint64) returns (s: bytes)
    ensures s == Show(value as int)
  {
    FitsBuffer(value);
    var buffer := new byte[BUFFER_SIZE];
    var current := UintToString(value, buffer, BUFFER_SIZE);
    s := FromBuffer(buffer, current, Show(value as int));
  }

  /** The C string at `current`, whose NUL is the last byte of the buffer. */
  method FromBuffer(buffer: array<byte>, current: nat, ghost digits: bytes) returns (s: bytes)
    requires current < buffer.Length
    requires buffer[current..] == digits + ['\0']
    ensures s == digits
  {
    s := buffer[current..buffer.Length - 1];
    assert buffer[current..][..|digits|] == digits;
  }

  /** The magnitude to print: -value overflows for the smallest integer alone. */
  function Absolute(value: int64): (m: uint64)
    ensures m as int == if value < 0 then -(value as int) else value as int
  {
    if value == -0x8000_0000_0000_0000 then 0x7FFF_FFFF_FFFF_FFFF + 1
    else if value < 0 then (-value) as uint64
    else value as uint64
  }

  /** valueToString(LargestInt). */
  method SignedToString(value: int64) returns (s: bytes)
    ensures s == ShowInt(value as int)
  {
    var buffer := new byte[BUFFER_SIZE];
    var magnitude := Absolute(value);
    FitsBuffer(magnitude);
    var current := UintToString(magnitude, buffer, BUFFER_SIZE);
    assert buffer[current..] == Show(magnitude as int) + ['\0'];
    if value < 0 {
      current := Prepend(buffer, current, '-');
      assert buffer[current..] == ShowInt(value as int) + ['\0'];
    }
    s := FromBuffer(buffer, current, ShowInt(value as int));
  }

  // ----- Text to integers ----------------------------------------------------------------------

  /** The accumulation loop of decodeNumber over text[i..]: None when it gives up for a double. */
  function Accumulate(text: bytes, i: nat, value: nat, threshold: nat, maxLast: nat): Option<nat>
    requires i <= |text|
    decreases |text| - i
  {
    if i == |text| then Some(value)
    else if !IsDigit(text[i]) then None
    else if value >= threshold && (value > threshold || i + 1 != |text| || Digit(text[i]) > maxLast) then None
    else Accumulate(text, i + 1, value * 10 + Digit(text[i]), threshold, maxLast)
  }

  /** The bound on the magnitude of a number with the given sign. */
  function Magnitude(negative: bool): nat {
    if negative then MAX_INT + 1 else MAX_UINT
  }

  function Signed(negative: bool, v: nat): Payload {
    if negative then Int(-(v as int)) else if v <= MAX_INT then Int(v) else UInt(v)
  }

  /** OurReader::decodeNumber on the text of a number token. */
  function DecodeNumber(text: bytes, toDouble: bytes -> Option<Double>): Option<Payload>
    requires text != []
  {
    var negative := text[0] == '-';
    var start := if negative then 1 else 0;
    match Accumulate(text, start, 0, Magnitude(negative) / 10, Magnitude(negative) % 10)
    case Some(v) => Some(Signed(negative, v))
    case None => (match toDouble(text) case Some(d) => Some(Real(d)) case None => None)
  }

  lemma {:induction false} ValGrows(s: bytes, i: nat)
    requires AllDigits(s) && i <= |s|
    ensures Val(s) >= Val(s[..i])
    ensures i < |s| ==> Val(s) >= Val(s[..i]) * 10
    ensures i + 1 < |s| ==> Val(s) >= Val(s[..i]) * 100
    decreases |s|
  {
    if i == |s| {
      assert s[..i] == s;
    } else {
      var t := s[..|s| - 1];
      ValGrows(t, i);
      assert t[..i] == s[..i];
    }
  }

  /** Accumulating digits is exact: it stops for a double just when the bound is passed. */
  lemma {:induction false} AccumulateExact(text: bytes, start: nat, i: nat, threshold: nat, maxLast: nat)
    requires start <= i <= |text| && AllDigits(text[start..])
    requires 1 <= threshold && maxLast <= 9
    ensures var v := Val(text[start..i]); var whole := Val(text[start..]);
      v <= threshold * 10 + maxLast ==>
      Accumulate(text, i, v, threshold, maxLast)
        == if whole <= threshold * 10 + maxLast then Some(whole) else None
    decreases |text| - i
  {
    var s := text[start..];
    var v := Val(text[start..i]);
    assert text[start..i] == s[..i - start];
    if i < |text| {
      assert text[i] == s[i - start];
      assert text[start..i + 1] == s[..i + 1 - start];
      assert s[..i + 1 - start][..i - start] == s[..i - start];
      assert Val(text[start..i + 1]) == v * 10 + Digit(text[i]);
      ValGrows(s, i - start);
      ValGrows(s, i + 1 - start);
      AccumulateExact(text, start, i + 1, threshold, maxLast);
      if i + 1 == |text| {
        assert s[..i + 1 - start] == s;
      }
    } else {
      assert s[..i - start] == s;
    }
  }

  /** A token of an optional minus sign and digits is decoded to an integer exactly when that integer
      lies in [-2^63, 2^64 - 1], and then to that integer; otherwise it is left to the double. */
  lemma IntegerDecodingExact(text: bytes, negative: bool, digits: bytes, toDouble: bytes -> Option<Double>)
    requires (digits != [] || negative) && AllDigits(digits)
    requires text == (if negative then "-" + digits else digits)
    ensures var n: int := if negative then -(Val(digits) as int) else Val(digits);
      DecodeNumber(text, toDouble) ==
        if MIN_INT <= n <= MAX_INT then Some(Int(n))
        else if MAX_INT < n <= MAX_UINT then Some(UInt(n))
        else match toDouble(text) case Some(d) => Some(Real(d)) case None => None
  {
    var start := if negative then 1 else 0;
    assert text[start..] == digits;
    assert negative <==> text[0] == '-';
    assert text[start..start] == [];
    AccumulateExact(text, start, start, Magnitude(negative) / 10, Magnitude(negative) % 10);
  }

  /** Decoding undoes valueToString; an unsigned value up to 2^63 - 1 comes back signed. */
  lemma DecodeShown(n: int, toDouble: bytes -> Option<Double>)
    requires MIN_INT <= n <= MAX_UINT
    ensures DecodeNumber(ShowInt(n), toDouble) == Some(if n <= MAX_INT then Int(n) else UInt(n))
  {
    var digits := Show(if n < 0 then -n else n);
    ValShow(if n < 0 then -n else n);
    IntegerDecodingExact(ShowInt(n), n < 0, digits, toDouble);
  }

  /** OurReader::decodeNumber: 64-bit arithmetic throughout, none of which overflows. */
  method Decode(text: bytes, toDouble: bytes -> Option<Double>) returns (r: Option<Payload>)
    requires text != []
    ensures r == DecodeNumber(text, toDouble)
  {
    var current := 0;
    var isNegative := text[current] == '-';
    if isNegative {
      current := 1;
    }
    var threshold: uint64 := if isNegative then 0x8000_0000_0000_0000 / 10 else 0xFFFF_FFFF_FFFF_FFFF / 10;
    var maxLastDigit: uint64 := if isNegative then 0x8000_0000_0000_0000 % 10 else 0xFFFF_FFFF_FFFF_FFFF % 10;
    var value: uint64 := 0;
    while current < |text|
      invariant current <= |text|
      invariant value as int <= Magnitude(isNegative)
      invariant Accumulate(text, current, value as int, threshold as int, maxLastDigit as int)
             == Accumulate(text, if isNegative then 1 else 0, 0, threshold as int, maxLastDigit as int)
    {
      var c := text[current];
      current := current + 1;
      if !IsDigit(c) {
        r := DoublePayload(toDouble(text));
        return;
      }
      var digit := Digit(c) as uint64;
      if value >= threshold {
        if value > threshold || current != |text| || digit > maxLastDigit {
          r := DoublePayload(toDouble(text));
          return;
        }
      }
      value := value * 10 + digit;
    }
    if isNegative {
      var lastDigit := (value % 10) as int64;
      var tens := (value / 10) as int64;
      r := Some(Int((-tens * 10 - lastDigit) as int));
    } else if value <= 0x7FFF_FFFF_FFFF_FFFF {
      r := Some(Int(value as int));
    } else {
      r := Some(UInt(value as int));
    }
  }

  function DoublePayload(d: Option<Double>): Option<Payload> {
    match d case Some(x) => Some(Real(x)) case None => None
  }

  /** The decodeNumber of the older Reader class: it keeps only 32-bit values signed. */
  method DecodeOld(text: bytes, toDouble: bytes -> Option<Double>) returns (r: Option<Payload>)
    requires text != []
    ensures SameNumber(r, DecodeNumber(text, toDouble))
    ensures r.Some? && r.value.Int? ==> r.value.i <= MAX_INT32
    ensures r.Some? && r.value.UInt? ==> r.value.u > MAX_INT32
  {
    var current := 0;
    var isNegative := text[current] == '-';
    if isNegative {
      current := 1;
    }
    var maxIntegerValue: uint64 := if isNegative then 0x7FFF_FFFF_FFFF_FFFF + 1 else 0xFFFF_FFFF_FFFF_FFFF;
    var threshold := maxIntegerValue / 10;
    var value: uint64 := 0;
    while current < |text|
      invariant current <= |text|
      invariant value <= maxIntegerValue
      invariant Accumulate(text, current, value as int, threshold as int, (maxIntegerValue % 10) as int)
             == Accumulate(text, if isNegative then 1 else 0, 0, threshold as int, (maxIntegerValue % 10) as int)
    {
      var c := text[current];
      current := current + 1;
      if !IsDigit(c) {
        r := DoublePayload(toDouble(text));
        return;
      }
      var digit := Digit(c) as uint64;
      if value >= threshold {
        if value > threshold || current != |text| || digit > maxIntegerValue % 10 {
          r := DoublePayload(toDouble(text));
          return;
        }
      }
      value := value * 10 + digit;
    }
    if isNegative && value == maxIntegerValue {
      r := Some(Int(-0x8000_0000_0000_0000));
    } else if isNegative {
      r := Some(Int(-(value as int64) as int));
    } else if value as int <= MAX_INT32 {
      r := Some(Int(value as int));
    } else {
      r := Some(UInt(value as int));
    }
  }

  /** The same number, whichever of the two integer types holds it. */
  predicate SameNumber(a: Option<Payload>, b: Option<Payload>) {
    match (a, b)
    case (Some(Int(i)), Some(Int(j))) => i == j
    case (Some(UInt(i)), Some(UInt(j))) => i == j
    case (Some(Int(i)), Some(UInt(j))) => i == j
    case (Some(UInt(i)), Some(Int(j))) => i == j
    case _ => a == b
  }
}
