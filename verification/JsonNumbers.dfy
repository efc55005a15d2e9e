/** Integers as text: `uintToString`, `valueToString` and the two copies of `decodeNumber`. */
module JsonNumbers {
  import opened Bytes
  import opened JsonValue

  const MINUS: Byte := 0x2d
  const MAX_INT: int := 0x7fff_ffff
  const MAX_LARGEST_INT: int := 0x7fff_ffff_ffff_ffff
  const MIN_LARGEST_INT: int := -0x8000_0000_0000_0000
  const MAX_LARGEST_UINT: int := 0xffff_ffff_ffff_ffff

  predicate IsDigit(c: Byte) { 0x30 <= c <= 0x39 }

  predicate IsDigits(s: ByteString) { forall i | 0 <= i < |s| :: IsDigit(s[i]) }

  /** The number a string of digits denotes. */
  function DigitsValue(s: ByteString): nat
    requires IsDigits(s)
  {
    if s == [] then 0 else assert IsDigit(s[|s| - 1]); 10 * DigitsValue(s[..|s| - 1]) + (s[|s| - 1] - 0x30)
  }

  /** The decimal digits of a number. */
  function Decimal(n: nat): (s: ByteString)
    ensures IsDigits(s) && |s| > 0
  {
    if n < 10 then [0x30 + n] else Decimal(n / 10) + [0x30 + n % 10]
  }

  function IntegerText(v: int): ByteString {
    if v < 0 then [MINUS] + Decimal(-v) else Decimal(v)
  }

  /** The integer a token denotes when it is an optional sign and digits, and 64 bits can hold it. */
  function IntegerOf(token: ByteString): Option<int> {
    var negative := |token| > 0 && token[0] == MINUS;
    var digits := if negative then token[1..] else token;
    if !IsDigits(digits) then None
    else
      var v: int := if negative then 0 - DigitsValue(digits) else DigitsValue(digits);
      if MIN_LARGEST_INT <= v <= MAX_LARGEST_UINT then Some(v) else None
  }

  // ---- the decimal form ----

  lemma {:induction false} DecimalValue(n: nat)
    ensures DigitsValue(Decimal(n)) == n
  {
    var s := Decimal(n);
    if n < 10 {
      assert s[..0] == [];
    } else {
      DecimalValue(n / 10);
      assert s[..|s| - 1] == Decimal(n / 10);
    }
  }

  lemma {:induction false} DecimalHasNoLeadingZero(n: nat)
    ensures Decimal(n)[0] == 0x30 <==> n == 0
  {
    if n >= 10 {
      DecimalHasNoLeadingZero(n / 10);
    }
  }

  /** No other string of digits for the same number is shorter. */
  lemma {:induction false} DecimalIsShortest(n: nat, s: ByteString)
    requires IsDigits(s) && s != [] && DigitsValue(s) == n
    ensures |Decimal(n)| <= |s|
    decreases |s|
  {
    if n >= 10 {
      var t := s[..|s| - 1];
      assert DigitsValue([]) == 0;
      assert DigitsValue(t) == n / 10;
      DecimalIsShortest(n / 10, t);
    }
  }

  /** Every 64-bit integer is read back from its decimal form. */
  lemma IntegerTextRoundTrip(v: int)
    requires MIN_LARGEST_INT <= v <= MAX_LARGEST_UINT
    ensures IntegerOf(IntegerText(v)) == Some(v)
  {
    var s := IntegerText(v);
    if v < 0 {
      DecimalValue(-v);
      assert s[1..] == Decimal(-v);
    } else {
      DecimalValue(v);
      assert IsDigit(s[0]);
    }
  }

  function Pow10(n: nat): nat { if n == 0 then 1 else 10 * Pow10(n - 1) }

  lemma Pow10Of20()
    ensures Pow10(20) == 100_000_000_000_000_000_000
  {
    assert Pow10(5) == 100_000;
    assert Pow10(10) == 10_000_000_000;
    assert Pow10(15) == 1_000_000_000_000_000;
  }

  /** One step of the loop of `uintToString`: the last digit of `v` moves to the front of the digits written. */
  lemma DigitMoves(value: nat, v: nat, tail: ByteString)
    requires Decimal(value) == Decimal(v) + tail
    ensures Decimal(value) == if v < 10 then [0x30 + v % 10] + tail else Decimal(v / 10) + ([0x30 + v % 10] + tail)
  {
  }

  lemma PowStep(budget: nat, v: nat)
    requires 0 < budget && v < Pow10(budget)
    ensures v / 10 < Pow10(budget - 1) && (budget == 1 ==> v / 10 == 0)
  {
    assert budget == 1 ==> Pow10(budget) == 10;
  }

  /** `uintToString`: the digits and a NUL, written backwards from `current`; 20 digits are enough. */
  method UintToString(value: UInt64, buffer: array<Byte>, current: nat) returns (start: nat)
    requires 21 <= current <= buffer.Length
    modifies buffer
    ensures current - 21 <= start < current
    ensures buffer[current - 1] == 0 && buffer[start..current - 1] == Decimal(value)
    ensures forall i | current <= i < buffer.Length :: buffer[i] == old(buffer[i])
  {
    start := current - 1;
    buffer[start] := 0;
    var v: UInt64 := value;
    ghost var budget := 20;
    Pow10Of20();
    hide Decimal, Pow10;
    while true
      invariant 0 < budget <= 20 && start == current - 1 - (20 - budget) && v < Pow10(budget)
      invariant buffer[current - 1] == 0
      invariant Decimal(value) == Decimal(v) + buffer[start..current - 1]
      invariant forall i | current <= i < buffer.Length :: buffer[i] == old(buffer[i])
      decreases budget
    {
      DigitMoves(value, v, buffer[start..current - 1]);
      ghost var tail := buffer[start..current - 1];
      start := start - 1;
      buffer[start] := 0x30 + v % 10;
      assert buffer[start..current - 1] == [0x30 + v % 10] + tail;
      PowStep(budget, v);
      v := v / 10;
      if v == 0 {
        break;
      }
      budget := budget - 1;
    }
  }

  /** `valueToString(LargestInt)`, with its 25-byte buffer and the separate case of the minimum. */
  method IntToString(value: Int64) returns (text: ByteString)
    ensures text == IntegerText(value)
  {
    var buffer := new Byte[25](_ => 0);
    var current: nat;
    if value == MIN_LARGEST_INT {
      current := UintToString(MAX_LARGEST_INT + 1, buffer, 25);
      current := current - 1;
      buffer[current] := MINUS;
      assert buffer[current..24] == [MINUS] + buffer[current + 1..24];
    } else if value < 0 {
      current := UintToString(-value, buffer, 25);
      current := current - 1;
      buffer[current] := MINUS;
      assert buffer[current..24] == [MINUS] + buffer[current + 1..24];
    } else {
      current := UintToString(value, buffer, 25);
    }
    text := buffer[current..24]; // up to the NUL
  }

  /** `valueToString(LargestUInt)`. */
  method UIntToText(value: UInt64) returns (text: ByteString)
    ensures text == IntegerText(value)
  {
    var buffer := new Byte[25](_ => 0);
    var current := UintToString(value, buffer, 25);
    text := buffer[current..24];
  }

  // ---- decodeNumber ----

  /** How `OurReader` types an integer. */
  function OurPayload(v: int): Payload
    requires MIN_LARGEST_INT <= v <= MAX_LARGEST_UINT
  {
    if v <= MAX_LARGEST_INT then Int(v) else UInt(v)
  }

  /** How `Reader` types an integer: its bound is that of the 32-bit `Int`. */
  function OldPayload(v: int): Payload
    requires MIN_LARGEST_INT <= v <= MAX_LARGEST_UINT
  {
    if v <= MAX_INT then Int(v) else UInt(v)
  }

  function PayloadNumber(p: Payload): int
    requires p.Int? || p.UInt?
  {
    match p
    case Int(i) => i
    case UInt(u) => u
  }

  /** The two readers agree on the number, and differ on its type exactly from 2^31 to 2^63-1. */
  lemma ReadersAgree(v: int)
    requires MIN_LARGEST_INT <= v <= MAX_LARGEST_UINT
    ensures PayloadNumber(OurPayload(v)) == PayloadNumber(OldPayload(v)) == v
    ensures OurPayload(v) == OldPayload(v) <==> !(MAX_INT < v <= MAX_LARGEST_INT)
  {
  }

  lemma {:induction false} PrefixBound(s: ByteString, k: nat)
    requires IsDigits(s) && k < |s|
    ensures DigitsValue(s) >= 10 * DigitsValue(s[..k])
    ensures k + 1 < |s| ==> DigitsValue(s) >= 100 * DigitsValue(s[..k])
    decreases |s|
  {
    var t := s[..|s| - 1];
    if k + 1 < |s| {
      PrefixBound(t, k);
      assert t[..k] == s[..k];
    }
  }

  /** A number whose digits pass the bound is not one that fits. */
  lemma OutOfRange(token: ByteString, negative: bool, digits: ByteString, k: nat)
    requires |token| > 0 && negative == (token[0] == MINUS) && digits == if negative then token[1..] else token
    requires k < |digits| && IsDigits(digits[..k + 1])
    requires var limit := if negative then -MIN_LARGEST_INT else MAX_LARGEST_UINT;
             var value := DigitsValue(digits[..k]);
             value > limit / 10 || (value == limit / 10 && (k + 1 < |digits| || digits[k] - 0x30 > limit % 10))
    ensures IntegerOf(token) == None
  {
    if IsDigits(digits) {
      PrefixBound(digits, k);
      if k + 1 == |digits| {
        assert digits[..k] == digits[..|digits| - 1];
      }
    }
  }

  /**
   `OurReader::decodeNumber`: an integer exactly when the token denotes one that fits; otherwise the token is
   left to `decodeDouble`. Every intermediate value has an unsigned 64-bit type, so none of them wraps.
   */
  method DecodeNumber(token: ByteString) returns (decoded: Option<Payload>)
    requires |token| > 0
    ensures decoded == match IntegerOf(token) case None => None case Some(v) => Some(OurPayload(v))
  {
    var isNegative := token[0] == MINUS;
    ghost var digits := if isNegative then token[1..] else token;
    var current := if isNegative then 1 else 0;
    var threshold: UInt64 := if isNegative then 922337203685477580 else MAX_LARGEST_UINT / 10;
    var maxLastDigit := if isNegative then 8 else MAX_LARGEST_UINT % 10;
    var value: UInt64 := 0;
    ghost var k := 0;
    while current < |token|
      invariant k == (if isNegative then current - 1 else current) && 0 <= k <= |digits|
      invariant IsDigits(digits[..k]) && value == DigitsValue(digits[..k])
      invariant value <= (if isNegative then -MIN_LARGEST_INT else MAX_LARGEST_UINT)
    {
      var c := token[current];
      assert c == digits[k];
      current := current + 1;
      if c < 0x30 || c > 0x39 {
        return None;
      }
      assert digits[..k + 1][..k] == digits[..k];
      var digit := c - 0x30;
      if value >= threshold {
        if value > threshold || current != |token| || digit > maxLastDigit {
          OutOfRange(token, isNegative, digits, k);
          return None;
        }
      }
      value := value * 10 + digit;
      k := k + 1;
    }
    assert digits[..k] == digits;
    if isNegative {
      var lastDigit := value % 10;
      var tens: Int64 := -(value / 10) * 10;
      decoded := Some(Int(tens - lastDigit));
    } else if value <= MAX_LARGEST_INT {
      decoded := Some(Int(value));
    } else {
      decoded := Some(UInt(value));
    }
  }

  /** `Reader::decodeNumber`, the older copy. */
  method OldDecodeNumber(token: ByteString) returns (decoded: Option<Payload>)
    requires |token| > 0
    ensures decoded == match IntegerOf(token) case None => None case Some(v) => Some(OldPayload(v))
  {
    var isNegative := token[0] == MINUS;
    ghost var digits := if isNegative then token[1..] else token;
    var current := if isNegative then 1 else 0;
    var maxIntegerValue: UInt64 := if isNegative then MAX_LARGEST_INT + 1 else MAX_LARGEST_UINT;
    var threshold := maxIntegerValue / 10;
    var value: UInt64 := 0;
    ghost var k := 0;
    while current < |token|
      invariant k == (if isNegative then current - 1 else current) && 0 <= k <= |digits|
      invariant IsDigits(digits[..k]) && value == DigitsValue(digits[..k])
      invariant value <= maxIntegerValue
    {
      var c := token[current];
      assert c == digits[k];
      current := current + 1;
      if c < 0x30 || c > 0x39 {
        return None;
      }
      assert digits[..k + 1][..k] == digits[..k];
      var digit := c - 0x30;
      if value >= threshold {
        if value > threshold || current != |token| || digit > maxIntegerValue % 10 {
          OutOfRange(token, isNegative, digits, k);
          return None;
        }
      }
      value := value * 10 + digit;
      k := k + 1;
    }
    assert digits[..k] == digits;
    if isNegative && value == maxIntegerValue {
      decoded := Some(Int(MIN_LARGEST_INT));
    } else if isNegative {
      var magnitude: Int64 := value;
      decoded := Some(Int(-magnitude));
    } else if value <= MAX_INT {
      decoded := Some(Int(value));
    } else {
      decoded := Some(UInt(value));
    }
  }

  /** A lone minus sign is read as the integer zero. */
  lemma LoneMinusIsZero()
    ensures IntegerOf([MINUS]) == Some(0)
  {
    assert [MINUS][1..] == [];
  }
}
