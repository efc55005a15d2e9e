/** String literals: the writer's `valueToQuotedStringN`, the lexer's `readString` and the reader's `decodeString`. */
module JsonStrings {
  import opened Bytes
  import opened JsonUnicode

  const QUOTE: Byte := 0x22
  const BACKSLASH: Byte := 0x5c

  // ---- escaping ----

  function HexDigit(n: nat): Byte
    requires n < 16
  {
    if n < 10 then 0x30 + n else 0x61 + n - 10
  }

  /** `toHex16Bit`; entry k of the table `hex2` is a digit of k / 2. */
  function ToHex16Bit(x: nat): (s: ByteString)
    ensures |s| == 4
  {
    var hi, lo := x / 0x100 % 0x100, x % 0x100;
    [HexDigit(hi / 16), HexDigit(hi % 16), HexDigit(lo / 16), HexDigit(lo % 16)]
  }

  function UnicodeEscape(x: nat): (s: ByteString)
    ensures |s| == 6
  {
    [BACKSLASH, 0x75] + ToHex16Bit(x)
  }

  /** A code point as one escape, or as a surrogate pair. */
  function CodePointText(cp: nat): (s: ByteString)
    ensures |s| == 6 || |s| == 12
  {
    if cp < 0x1_0000 then UnicodeEscape(cp)
    else UnicodeEscape((cp - 0x1_0000) / 0x400 + 0xD800) + UnicodeEscape((cp - 0x1_0000) % 0x400 + 0xDC00)
  }

  /** The letter of a two-character escape, for the seven bytes that have one. */
  function ShortEscape(c: Byte): Byte {
    match c
    case 0x22 => 0x22
    case 0x5c => 0x5c
    case 0x08 => 0x62
    case 0x0c => 0x66
    case 0x0a => 0x6e
    case 0x0d => 0x72
    case 0x09 => 0x74
    case _ => 0
  }

  /** What one turn of the loop of `valueToQuotedStringN` appends, and how far it moves. */
  datatype Unit = Unit(text: ByteString, used: nat)

  function EscapeUnit(s: ByteString, emitUTF8: bool): (u: Unit)
    requires |s| > 0
    ensures 1 <= u.used <= |s| && |u.text| > 0
  {
    if ShortEscape(s[0]) != 0 then Unit([BACKSLASH, ShortEscape(s[0])], 1)
    else if emitUTF8 then Unit(s[..1], 1)
    else
      var c := Utf8ToCodePoint(s);
      if 0x20 <= c.value <= 0x7F then Unit([c.value], c.used) else Unit(CodePointText(c.value), c.used)
  }

  function Escaped(s: ByteString, emitUTF8: bool): ByteString {
    if s == [] then []
    else
      var u := EscapeUnit(s, emitUTF8);
      u.text + Escaped(s[u.used..], emitUTF8)
  }

  function Quoted(s: ByteString, emitUTF8: bool): ByteString {
    [QUOTE] + Escaped(s, emitUTF8) + [QUOTE]
  }

  predicate RequiresQuoting(c: Byte) { c == BACKSLASH || c == QUOTE || c < 0x20 || c >= 0x80 }

  /** `isAnyCharRequiredQuoting`. */
  method IsAnyCharRequiredQuoting(s: ByteString) returns (any: bool)
    ensures any <==> exists i | 0 <= i < |s| :: RequiresQuoting(s[i])
  {
    for cur := 0 to |s|
      invariant forall i | 0 <= i < cur :: !RequiresQuoting(s[i])
    {
      if RequiresQuoting(s[cur]) {
        return true;
      }
    }
    return false;
  }

  lemma {:induction false} PlainIsUnchanged(s: ByteString, emitUTF8: bool)
    requires forall i | 0 <= i < |s| :: !RequiresQuoting(s[i])
    ensures Escaped(s, emitUTF8) == s
  {
    if s != [] {
      PlainIsUnchanged(s[1..], emitUTF8);
    }
  }

  /** `valueToQuotedStringN`; its shortcut for text that needs no escapes does not change the result. */
  method ValueToQuotedStringN(value: ByteString, emitUTF8: bool) returns (result: ByteString)
    ensures result == Quoted(value, emitUTF8)
  {
    hide EscapeUnit;
    var any := IsAnyCharRequiredQuoting(value);
    if !any {
      PlainIsUnchanged(value, emitUTF8);
      return [QUOTE] + value + [QUOTE];
    }
    result := [QUOTE];
    var c := 0;
    while c != |value|
      invariant 0 <= c <= |value|
      invariant result + Escaped(value[c..], emitUTF8) == [QUOTE] + Escaped(value, emitUTF8)
      decreases |value| - c
    {
      var u := EscapeUnit(value[c..], emitUTF8);
      assert value[c..][u.used..] == value[c + u.used..];
      result := result + u.text;
      c := c + u.used;
    }
    result := result + [QUOTE];
  }

  // ---- lexing ----

  datatype Scan = Scan(ok: bool, end: nat)

  /** `readString` from just after the opening quote: where it stops, and whether at a closing quote. */
  function ReadString(doc: ByteString, pos: nat, quote: Byte): (r: Scan)
    requires pos <= |doc|
    ensures pos <= r.end <= |doc|
    ensures r.ok ==> pos < r.end && doc[r.end - 1] == quote
    decreases |doc| - pos
  {
    if pos == |doc| then Scan(false, pos)
    else if doc[pos] == BACKSLASH then
      if pos + 1 == |doc| then Scan(false, pos + 1) else ReadString(doc, pos + 2, quote)
    else if doc[pos] == quote then Scan(true, pos + 1)
    else ReadString(doc, pos + 1, quote)
  }

  // ---- decoding ----

  /** The messages the reader gives to `addError`. */
  datatype Message =
    | ValueExpected
    | ExtraAfterValue
    | RootMustBeContainer
    | MissingBraceOrName
    | MissingColon
    | MissingCommaInObject
    | MissingCommaInArray
    | DuplicateKey(name: ByteString)
    | NotANumber(token: ByteString)
    | EmptyEscape
    | BadEscape
    | FourDigitsExpected
    | HexDigitExpected
    | SixCharactersExpected
    | SecondHalfExpected

  /** The outcome of decoding, with the place in the token that was reached. */
  datatype Decoding<T> = Decoded(value: T, at: nat) | Malformed(message: Message, at: nat)

  predicate IsHexDigit(c: Byte) { 0x30 <= c <= 0x39 || 0x61 <= c <= 0x66 || 0x41 <= c <= 0x46 }

  function HexValue(c: Byte): (v: nat)
    requires IsHexDigit(c)
    ensures v < 16
  {
    if c <= 0x39 then c - 0x30 else if c >= 0x61 then c - 0x61 + 10 else c - 0x41 + 10
  }

  /** The largest number of `n` hexadecimal digits. */
  function HexBound(n: nat): nat
    requires n <= 4
  {
    if n == 0 then 0 else if n == 1 then 0xF else if n == 2 then 0xFF else if n == 3 then 0xFFF else 0xFFFF
  }

  /** The loop of `decodeUnicodeEscapeSequence`, with `index` digits read. */
  function HexLoop(t: ByteString, i: nat, index: nat, unicode: nat): (r: Decoding<nat>)
    requires index <= 4 && i + 4 <= |t|
    requires unicode <= HexBound(index)
    ensures r.at <= i + 4
    ensures r.Decoded? ==> r.at == i + 4 && r.value < 0x1_0000
    ensures r.Malformed? ==> r.message == HexDigitExpected
    decreases 4 - index
  {
    if index == 4 then Decoded(unicode, i + 4)
    else if !IsHexDigit(t[i + index]) then Malformed(HexDigitExpected, i + index + 1)
    else HexLoop(t, i, index + 1, unicode * 16 + HexValue(t[i + index]))
  }

  lemma HexDigitsRead(t: ByteString, i: nat, index: nat, unicode: nat)
    requires index <= 4 && i + 4 <= |t|
    requires unicode <= HexBound(index)
    requires HexLoop(t, i, index, unicode).Decoded?
    ensures forall k | i + index <= k < i + 4 :: IsHexDigit(t[k])
    decreases 4 - index
  {
    if index < 4 {
      HexDigitsRead(t, i, index + 1, unicode * 16 + HexValue(t[i + index]));
    }
  }

  /** `decodeUnicodeEscapeSequence`. */
  function DecodeHex(t: ByteString, i: nat, end: nat): (r: Decoding<nat>)
    requires i <= end <= |t|
    ensures r.at <= end
    ensures r.Decoded? ==> r.at == i + 4 && r.value < 0x1_0000
    ensures r.Malformed? ==> r.message != EmptyEscape
  {
    if end - i < 4 then Malformed(FourDigitsExpected, i) else HexLoop(t, i, 0, 0)
  }

  /** `decodeUnicodeCodePoint`. */
  function DecodeCodePoint(t: ByteString, i: nat, end: nat): (r: Decoding<nat>)
    requires i <= end <= |t|
    ensures r.at <= end
    ensures r.Decoded? ==> r.at >= i + 4 && r.value <= 0x10FFFF
    ensures r.Malformed? ==> r.message != EmptyEscape
  {
    var first := DecodeHex(t, i, end);
    if first.Malformed? || !(0xD800 <= first.value <= 0xDBFF) then first
    else
      var j := first.at;
      if end - j < 6 then Malformed(SixCharactersExpected, j)
      else if t[j] != BACKSLASH then Malformed(SecondHalfExpected, j + 1)
      else if t[j + 1] != 0x75 then Malformed(SecondHalfExpected, j + 2)
      else
        var second := DecodeHex(t, j + 2, end);
        if second.Malformed? then second
        else Decoded(0x1_0000 + first.value % 0x400 * 0x400 + second.value % 0x400, second.at)
  }

  /** The byte a two-character escape stands for; `None` is said with 0. */
  function Unescape(c: Byte): Byte {
    match c
    case 0x22 => 0x22
    case 0x2f => 0x2f
    case 0x5c => 0x5c
    case 0x62 => 0x08
    case 0x66 => 0x0c
    case 0x6e => 0x0a
    case 0x72 => 0x0d
    case 0x74 => 0x09
    case _ => 0
  }

  /** The loop of `decodeString` at place `i` of the token `t`; `t` includes both quotes. */
  function DecodeFrom(t: ByteString, i: nat, decoded: ByteString): (r: Decoding<ByteString>)
    requires 1 <= i < |t|
    ensures r.at < |t|
    decreases |t| - i
  {
    var end := |t| - 1;
    if i == end then Decoded(decoded, i)
    else if t[i] == QUOTE then Decoded(decoded, i + 1)
    else if t[i] != BACKSLASH then DecodeFrom(t, i + 1, decoded + [t[i]])
    else if i + 1 == end then Malformed(EmptyEscape, i + 1)
    else if t[i + 1] == 0x75 then
      match DecodeCodePoint(t, i + 2, end)
      case Malformed(message, at) => Malformed(message, at)
      case Decoded(cp, at) => DecodeFrom(t, at, decoded + CodePointToUtf8(cp))
    else if Unescape(t[i + 1]) != 0 then DecodeFrom(t, i + 2, decoded + [Unescape(t[i + 1])])
    else Malformed(BadEscape, i + 2)
  }

  method DecodeUnicodeEscapeSequence(t: ByteString, current: nat, end: nat) returns (r: Decoding<nat>)
    requires current <= end <= |t|
    ensures r == DecodeHex(t, current, end)
  {
    if end - current < 4 {
      return Malformed(FourDigitsExpected, current);
    }
    var unicode: nat := 0;
    for index := 0 to 4
      invariant unicode <= HexBound(index)
      invariant HexLoop(t, current, index, unicode) == HexLoop(t, current, 0, 0)
    {
      var c := t[current + index];
      unicode := unicode * 16;
      if !IsHexDigit(c) {
        return Malformed(HexDigitExpected, current + index + 1);
      }
      unicode := unicode + HexValue(c);
    }
    return Decoded(unicode, current + 4);
  }

  method DecodeUnicodeCodePoint(t: ByteString, current: nat, end: nat) returns (r: Decoding<nat>)
    requires current <= end <= |t|
    ensures r == DecodeCodePoint(t, current, end)
  {
    r := DecodeUnicodeEscapeSequence(t, current, end);
    if r.Decoded? && 0xD800 <= r.value <= 0xDBFF {
      var j := r.at;
      if end - j < 6 {
        return Malformed(SixCharactersExpected, j);
      }
      j := j + 1;
      if t[j - 1] == BACKSLASH {
        j := j + 1;
        if t[j - 1] == 0x75 {
          var second := DecodeUnicodeEscapeSequence(t, j, end);
          if second.Malformed? {
            return second;
          }
          return Decoded(0x1_0000 + r.value % 0x400 * 0x400 + second.value % 0x400, second.at);
        }
      }
      return Malformed(SecondHalfExpected, j);
    }
  }

  /** `decodeString` on a token. */
  method DecodeString(t: ByteString) returns (r: Decoding<ByteString>)
    requires |t| >= 2
    ensures r == DecodeFrom(t, 1, [])
  {
    hide CodePointToUtf8, DecodeCodePoint, Unescape;
    var decoded: ByteString := [];
    var current, end := 1, |t| - 1;
    while current != end
      invariant 1 <= current <= end
      invariant DecodeFrom(t, current, decoded) == DecodeFrom(t, 1, [])
      decreases end - current
    {
      var c := t[current];
      current := current + 1;
      if c == QUOTE {
        break;
      }
      if c == BACKSLASH {
        if current == end {
          return Malformed(EmptyEscape, current);
        }
        var escape := t[current];
        current := current + 1;
        if escape == 0x75 {
          var cp := DecodeUnicodeCodePoint(t, current, end);
          if cp.Malformed? {
            return Malformed(cp.message, cp.at);
          }
          current := cp.at;
          decoded := decoded + CodePointToUtf8(cp.value);
        } else if Unescape(escape) != 0 {
          decoded := decoded + [Unescape(escape)];
        } else {
          return Malformed(BadEscape, current);
        }
      } else {
        decoded := decoded + [c];
      }
    }
    return Decoded(decoded, current);
  }

  // ---- lexer and decoder stay in step ----

  /** From place `i`, the token is exactly what `readString` accepts. */
  predicate Accepted(t: ByteString, i: nat)
    requires i <= |t|
  {
    ReadString(t, i, QUOTE) == Scan(true, |t|)
  }

  lemma PlainSteps(t: ByteString, i: nat, n: nat)
    requires i + n <= |t|
    requires forall k | i <= k < i + n :: t[k] != QUOTE && t[k] != BACKSLASH
    ensures ReadString(t, i, QUOTE) == ReadString(t, i + n, QUOTE)
    decreases n
  {
    if n > 0 {
      PlainSteps(t, i + 1, n - 1);
    }
  }

  /** Whatever escapes an accepted token holds, the decoder stays on the lexer's path. */
  lemma CodePointInStep(t: ByteString, i: nat)
    requires i < |t| && Accepted(t, i)
    ensures DecodeCodePoint(t, i, |t| - 1).Decoded? ==> Accepted(t, DecodeCodePoint(t, i, |t| - 1).at)
  {
    var first := DecodeHex(t, i, |t| - 1);
    if first.Decoded? {
      HexDigitsRead(t, i, 0, 0);
      PlainSteps(t, i, 4);
      var c := DecodeCodePoint(t, i, |t| - 1);
      if c.Decoded? && c.at != i + 4 {
        HexDigitsRead(t, i + 6, 0, 0);
        PlainSteps(t, i + 6, 4);
      }
    }
  }

  /**
   On a token that `readString` accepted, `decodeString` never takes its early exit at a quote, never reports an
   empty escape and never moves past the closing quote.
   */
  lemma {:induction false} DecoderInStep(t: ByteString, i: nat, decoded: ByteString)
    requires 1 <= i < |t| && Accepted(t, i)
    ensures match DecodeFrom(t, i, decoded)
            case Decoded(_, at) => at == |t| - 1
            case Malformed(message, at) => message != EmptyEscape && at <= |t| - 1
    decreases |t| - i
  {
    if i < |t| - 1 {
      if t[i] != BACKSLASH {
        DecoderInStep(t, i + 1, decoded + [t[i]]);
      } else {
        assert Accepted(t, i + 2);
        if t[i + 1] == 0x75 {
          CodePointInStep(t, i + 2);
          var c := DecodeCodePoint(t, i + 2, |t| - 1);
          if c.Decoded? {
            DecoderInStep(t, c.at, decoded + CodePointToUtf8(c.value));
          }
        } else if Unescape(t[i + 1]) != 0 {
          DecoderInStep(t, i + 2, decoded + [Unescape(t[i + 1])]);
        }
      }
    }
  }

  // ---- escaping and decoding ----

  /** The bytes an escaped unit decodes to. */
  function UnitMeaning(s: ByteString, emitUTF8: bool): ByteString
    requires |s| > 0
  {
    if ShortEscape(s[0]) != 0 || emitUTF8 then s[..1] else Meaning(Utf8ToCodePoint(s).value)
  }

  /** What a whole escaped text decodes to. */
  function Reencoded(s: ByteString, emitUTF8: bool): ByteString {
    if s == [] then []
    else UnitMeaning(s, emitUTF8) + Reencoded(s[EscapeUnit(s, emitUTF8).used..], emitUTF8)
  }

  lemma HexDigitRoundTrip(n: nat)
    requires n < 16
    ensures IsHexDigit(HexDigit(n)) && HexValue(HexDigit(n)) == n
  {
  }

  lemma HexStep(t: ByteString, i: nat, index: nat, unicode: nat, n: nat)
    requires index < 4 && i + 4 <= |t| && unicode <= HexBound(index) && n < 16 && t[i + index] == HexDigit(n)
    ensures unicode * 16 + n <= HexBound(index + 1)
    ensures HexLoop(t, i, index, unicode) == HexLoop(t, i, index + 1, unicode * 16 + n)
  {
    HexDigitRoundTrip(n);
  }

  lemma HexRoundTrip(x: nat, t: ByteString, i: nat, end: nat)
    requires x < 0x1_0000 && i + 4 <= end <= |t| && t[i..i + 4] == ToHex16Bit(x)
    ensures DecodeHex(t, i, end) == Decoded(x, i + 4)
  {
    var h := ToHex16Bit(x);
    var d3, d2, d1, d0 := HexDigits(x);
    assert t[i] == h[0] && t[i + 1] == h[1] && t[i + 2] == h[2] && t[i + 3] == h[3];
    hide HexDigit, ToHex16Bit;
    HexStep(t, i, 0, 0, d3);
    HexStep(t, i, 1, d3, d2);
    HexStep(t, i, 2, d3 * 16 + d2, d1);
    HexStep(t, i, 3, (d3 * 16 + d2) * 16 + d1, d0);
  }

  lemma TwoDigits(n: nat)
    requires n < 0x100
    ensures n / 16 < 16 && n == n / 16 * 16 + n % 16
  {
  }

  lemma HexDigits(x: nat) returns (d3: nat, d2: nat, d1: nat, d0: nat)
    requires x < 0x1_0000
    ensures d3 < 16 && d2 < 16 && d1 < 16 && d0 < 16 && x == ((d3 * 16 + d2) * 16 + d1) * 16 + d0
    ensures ToHex16Bit(x) == [HexDigit(d3), HexDigit(d2), HexDigit(d1), HexDigit(d0)]
  {
    hide HexDigit;
    var hi, lo := x / 0x100 % 0x100, x % 0x100;
    assert x == hi * 0x100 + lo;
    d3, d2, d1, d0 := hi / 16, hi % 16, lo / 16, lo % 16;
    TwoDigits(hi);
    TwoDigits(lo);
  }

  /** A `\\u` escape that is not the first half of a pair is one code point. */
  lemma EscapeDecodes(x: nat, t: ByteString, i: nat, decoded: ByteString)
    requires x < 0x1_0000 && !(0xD800 <= x <= 0xDBFF)
    requires 1 <= i && i + 6 < |t| && t[i..i + 6] == UnicodeEscape(x)
    ensures ReadString(t, i, QUOTE) == ReadString(t, i + 6, QUOTE)
    ensures DecodeFrom(t, i, decoded) == DecodeFrom(t, i + 6, decoded + CodePointToUtf8(x))
  {
    hide CodePointToUtf8, ToHex16Bit;
    assert t[i + 2..i + 6] == UnicodeEscape(x)[2..];
    HexRoundTrip(x, t, i + 2, |t| - 1);
    HexDigitsRead(t, i + 2, 0, 0);
    assert t[i] == BACKSLASH && t[i + 1] == 0x75;
    PlainSteps(t, i + 2, 4);
  }

  /** A surrogate pair is one code point. */
  lemma PairDecodes(cp: nat, t: ByteString, i: nat, decoded: ByteString)
    requires 0x1_0000 <= cp <= 0x10FFFF
    requires 1 <= i && i + 12 < |t|
    requires t[i..i + 6] == UnicodeEscape((cp - 0x1_0000) / 0x400 + 0xD800)
    requires t[i + 6..i + 12] == UnicodeEscape((cp - 0x1_0000) % 0x400 + 0xDC00)
    ensures ReadString(t, i, QUOTE) == ReadString(t, i + 12, QUOTE)
    ensures DecodeFrom(t, i, decoded) == DecodeFrom(t, i + 12, decoded + CodePointToUtf8(cp))
  {
    hide CodePointToUtf8, ToHex16Bit, HexLoop;
    var hi, lo := (cp - 0x1_0000) / 0x400 + 0xD800, (cp - 0x1_0000) % 0x400 + 0xDC00;
    assert t[i + 2..i + 6] == UnicodeEscape(hi)[2..];
    assert t[i + 8..i + 12] == UnicodeEscape(lo)[2..];
    HexRoundTrip(hi, t, i + 2, |t| - 1);
    HexRoundTrip(lo, t, i + 8, |t| - 1);
    HexDigitsRead(t, i + 2, 0, 0);
    HexDigitsRead(t, i + 8, 0, 0);
    assert t[i] == BACKSLASH && t[i + 1] == 0x75;
    assert t[i + 6] == UnicodeEscape(lo)[0] && t[i + 7] == UnicodeEscape(lo)[1];
    PlainSteps(t, i + 2, 4);
    PlainSteps(t, i + 8, 4);
    assert DecodeCodePoint(t, i + 2, |t| - 1) == Decoded(cp, i + 12);
  }

  lemma ShortEscapeRoundTrip(c: Byte)
    requires ShortEscape(c) != 0
    ensures Unescape(ShortEscape(c)) == c != 0 && ShortEscape(c) != 0x75
  {
  }

  lemma CodePointsAreNotSurrogates(s: ByteString)
    requires |s| > 0
    ensures !(0xD800 <= Utf8ToCodePoint(s).value <= 0xDFFF)
    ensures Utf8ToCodePoint(s).value <= 0x7F ==> Utf8ToCodePoint(s) == CodePoint(s[0], 1)
  {
    if |s| >= 2 {
      Pack2Bound(s[0], s[1]);
    }
    if |s| >= 4 {
      Pack4Bound(s[0], s[1], s[2], s[3]);
    }
    hide Pack2, Pack3, Pack4;
  }

  lemma CodePointDecodes(cp: nat, t: ByteString, i: nat, decoded: ByteString)
    requires 0x80 <= cp < 0x20_0000 || cp < 0x20
    requires !(0xD800 <= cp <= 0xDFFF)
    requires var u := CodePointText(cp); 1 <= i && i + |u| < |t| && t[i..i + |u|] == u
    ensures var n := |CodePointText(cp)|;
            && ReadString(t, i, QUOTE) == ReadString(t, i + n, QUOTE)
            && DecodeFrom(t, i, decoded) == DecodeFrom(t, i + n, decoded + Meaning(cp))
  {
    hide UnicodeEscape, CodePointToUtf8;
    var u := CodePointText(cp);
    if cp < 0x1_0000 {
      EscapeDecodes(cp, t, i, decoded);
    } else {
      var hi, lo := (cp - 0x1_0000) / 0x400 + 0xD800, (cp - 0x1_0000) % 0x400 + 0xDC00;
      assert t[i..i + 6] == u[..6] == UnicodeEscape(hi);
      assert t[i + 6..i + 12] == u[6..] == UnicodeEscape(lo);
      if cp <= 0x10FFFF {
        PairDecodes(cp, t, i, decoded);
      } else {
        EscapeDecodes(hi, t, i, decoded);
        EscapeDecodes(lo, t, i + 6, decoded + CodePointToUtf8(hi));
        assert decoded + CodePointToUtf8(hi) + CodePointToUtf8(lo) == decoded + Meaning(cp);
      }
    }
  }

  /** One unit, wherever it stands inside a token: the lexer passes over it and the decoder reads its meaning. */
  lemma UnitDecodes(s: ByteString, emitUTF8: bool, t: ByteString, i: nat, decoded: ByteString)
    requires |s| > 0
    requires var u := EscapeUnit(s, emitUTF8).text; 1 <= i && i + |u| < |t| && t[i..i + |u|] == u
    ensures var n := |EscapeUnit(s, emitUTF8).text|;
            && ReadString(t, i, QUOTE) == ReadString(t, i + n, QUOTE)
            && DecodeFrom(t, i, decoded) == DecodeFrom(t, i + n, decoded + UnitMeaning(s, emitUTF8))
  {
    hide CodePointText, CodePointToUtf8;
    var u := EscapeUnit(s, emitUTF8).text;
    assert t[i] == u[0];
    if ShortEscape(s[0]) != 0 {
      ShortEscapeRoundTrip(s[0]);
      assert t[i + 1] == u[1];
      assert UnitMeaning(s, emitUTF8) == [s[0]];
    } else if emitUTF8 {
      assert UnitMeaning(s, emitUTF8) == [s[0]];
    } else {
      var cp := Utf8ToCodePoint(s).value;
      CodePointsAreNotSurrogates(s);
      if 0x20 <= cp <= 0x7F {
        FixedEncodings(cp, 0);
      } else {
        CodePointDecodes(cp, t, i, decoded);
      }
    }
  }

  lemma ClosingQuote(t: ByteString, i: nat, decoded: ByteString)
    requires 1 <= i <= |t| && t[i..] == [QUOTE]
    ensures Accepted(t, i)
    ensures i < |t| && DecodeFrom(t, i, decoded) == Decoded(decoded, |t| - 1)
  {
    assert t[i] == t[i..][0];
  }

  lemma SuffixSplits(t: ByteString, i: nat, u: ByteString, rest: ByteString)
    requires i <= |t| && t[i..] == u + rest
    ensures i + |u| <= |t| && t[i..i + |u|] == u && t[i + |u|..] == rest
  {
    assert t[i..i + |u|] == t[i..][..|u|];
    assert t[i + |u|..] == t[i..][|u|..];
  }

  /** An escaped text up to its closing quote is one token, and the decoder reads its re-encoded form. */
  lemma {:induction false} EscapedDecodes(s: ByteString, emitUTF8: bool, t: ByteString, i: nat, decoded: ByteString)
    requires 1 <= i <= |t| && t[i..] == Escaped(s, emitUTF8) + [QUOTE]
    ensures Accepted(t, i)
    ensures i < |t| && DecodeFrom(t, i, decoded) == Decoded(decoded + Reencoded(s, emitUTF8), |t| - 1)
    decreases |s|
  {
    hide EscapeUnit, UnitMeaning, DecodeFrom, ReadString;
    if s == [] {
      ClosingQuote(t, i, decoded);
      assert decoded + Reencoded(s, emitUTF8) == decoded;
    } else {
      var u, m := EscapeUnit(s, emitUTF8), UnitMeaning(s, emitUTF8);
      var rest := s[u.used..];
      assert Escaped(s, emitUTF8) + [QUOTE] == u.text + (Escaped(rest, emitUTF8) + [QUOTE]);
      SuffixSplits(t, i, u.text, Escaped(rest, emitUTF8) + [QUOTE]);
      UnitDecodes(s, emitUTF8, t, i, decoded);
      EscapedDecodes(rest, emitUTF8, t, i + |u.text|, decoded + m);
      assert decoded + m + Reencoded(rest, emitUTF8) == decoded + Reencoded(s, emitUTF8);
    }
  }

  /** Whatever the bytes, what `valueToQuotedStringN` writes is one string token that decodes without error. */
  lemma QuotedDecodes(s: ByteString, emitUTF8: bool)
    ensures var t := Quoted(s, emitUTF8);
            Accepted(t, 1) && DecodeFrom(t, 1, []) == Decoded(Reencoded(s, emitUTF8), |t| - 1)
  {
    hide DecodeFrom, ReadString, Reencoded, Escaped;
    var t := Quoted(s, emitUTF8);
    assert t[1..] == Escaped(s, emitUTF8) + [QUOTE];
    EscapedDecodes(s, emitUTF8, t, 1, []);
    assert [] + Reencoded(s, emitUTF8) == Reencoded(s, emitUTF8);
  }

  /** With `emitUTF8` every byte string comes back unchanged. */
  lemma {:induction false} EmittedIsIdentity(s: ByteString)
    ensures Reencoded(s, true) == s
  {
    if s != [] {
      EmittedIsIdentity(s[1..]);
    }
  }

  /** Without it, exactly the well-formed UTF-8 does. */
  lemma {:induction false} AsciiRoundTripIff(s: ByteString)
    ensures Reencoded(s, false) == s <==> WellFormed(s)
    decreases |s|
  {
    hide CharLength, Utf8ToCodePoint, Meaning;
    if s != [] {
      var n := CharLength(s);
      var m, used := UnitMeaning(s, false), EscapeUnit(s, false).used;
      UnitOnWellFormed(s);
      AsciiRoundTripIff(s[used..]);
      if n > 0 {
        assert s == s[..n] + s[n..];
      }
      if Reencoded(s, false) == s {
        assert m <= s;
        assert s[|m|..] == Reencoded(s[used..], false);
      }
    }
  }

  lemma UnitOnWellFormed(s: ByteString)
    requires |s| > 0
    ensures CharLength(s) > 0 ==>
      EscapeUnit(s, false).used == CharLength(s) && UnitMeaning(s, false) == s[..CharLength(s)]
    ensures UnitMeaning(s, false) <= s ==>
      0 < CharLength(s) == EscapeUnit(s, false).used == |UnitMeaning(s, false)|
  {
    hide Meaning;
    if ShortEscape(s[0]) == 0 {
      if CharLength(s) > 0 {
        hide CharLength, Utf8ToCodePoint;
        WellFormedChar(s);
        assert Meaning(Utf8ToCodePoint(s).value) == CodePointToUtf8(Utf8ToCodePoint(s).value) by {
          MeaningOfScalar(Utf8ToCodePoint(s).value);
        }
      }
      if UnitMeaning(s, false) <= s {
        UnchangedChar(s);
      }
    }
  }

  lemma MeaningOfScalar(cp: nat)
    requires cp <= 0x10FFFF
    ensures Meaning(cp) == CodePointToUtf8(cp)
  {
  }

  predicate Printable(s: ByteString) { forall i | 0 <= i < |s| :: 0x20 <= s[i] <= 0x7F }

  /** Without `emitUTF8` the output is printable ASCII (and DEL), whatever the input. */
  lemma {:induction false} AsciiOutput(s: ByteString)
    ensures Printable(Escaped(s, false))
    decreases |s|
  {
    hide Utf8ToCodePoint;
    if s != [] {
      AsciiOutput(s[EscapeUnit(s, false).used..]);
    }
  }

  predicate Control(c: Byte) { c < 0x20 }

  /**
   With `emitUTF8`, control characters are written raw unless they have a two-character escape, although
   section 7 of RFC 8259 wants all of them escaped.
   */
  lemma {:induction false} EmittedControlIff(s: ByteString)
    ensures (exists c :: c in Escaped(s, true) && Control(c))
       <==> (exists c :: c in s && Control(c) && ShortEscape(c) == 0)
    decreases |s|
  {
    if s != [] {
      EmittedControlIff(s[1..]);
      assert s == [s[0]] + s[1..];
      assert Escaped(s, true) == EscapeUnit(s, true).text + Escaped(s[1..], true);
      UnitControlIff(s);
    }
  }

  lemma UnitControlIff(s: ByteString)
    requires s != []
    ensures (exists c :: c in EscapeUnit(s, true).text && Control(c)) <==> Control(s[0]) && ShortEscape(s[0]) == 0
  {
    if Control(s[0]) && ShortEscape(s[0]) == 0 {
      assert s[0] in EscapeUnit(s, true).text;
    }
  }
}
