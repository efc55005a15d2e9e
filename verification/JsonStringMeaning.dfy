/**
 What a string literal denotes, after section 7 of RFC 8259 and section 3 of RFC 3629, said apart from the code, and
 the proof that the reader's decoder answers exactly that. It goes beyond the RFCs in two points: the second escape
 of a surrogate pair may be any, of which ten bits count, and a low surrogate may stand alone.
 */
module JsonStringMeaning {
  import opened Bytes
  import opened JsonUnicode
  import opened JsonStrings

  const LOWER := "0123456789abcdef"
  const UPPER := "0123456789ABCDEF"

  /** The character is the hexadecimal digit of that value, in either case. */
  predicate Hex(c: Byte, d: nat) { d < 16 && (c == LOWER[d] as int || c == UPPER[d] as int) }

  /** Four hexadecimal digits, the highest first. */
  ghost predicate FourHex(u: ByteString, x: nat) {
    |u| == 4 && exists d3: nat, d2: nat, d1: nat, d0: nat ::
      Hex(u[0], d3) && Hex(u[1], d2) && Hex(u[2], d1) && Hex(u[3], d0) && x == d3 * 4096 + d2 * 256 + d1 * 16 + d0
  }

  ghost predicate UnicodeEscaped(u: ByteString, x: nat) {
    |u| == 6 && u[0] == 0x5c && u[1] == 0x75 && FourHex(u[2..], x)
  }

  /** What a byte holds beside the marking bits of its place. */
  function Held(c: int, mark: int): int { c - mark }

  /** The table of section 3 of RFC 3629, read from right to left; surrogates are let through. */
  predicate IsUtf8(m: ByteString, cp: nat) {
    if cp <= 0x7F then m == [cp]
    else if cp <= 0x7FF then
      |m| == 2 && 0xC0 <= m[0] <= 0xDF && IsTail(m[1]) && cp == Held(m[0], 0xC0) * 0x40 + Held(m[1], 0x80)
    else if cp <= 0xFFFF then
      && |m| == 3 && 0xE0 <= m[0] <= 0xEF && IsTail(m[1]) && IsTail(m[2])
      && cp == Held(m[0], 0xE0) * 0x1000 + Held(m[1], 0x80) * 0x40 + Held(m[2], 0x80)
    else
      && |m| == 4 && 0xF0 <= m[0] <= 0xF4 && IsTail(m[1]) && IsTail(m[2]) && IsTail(m[3]) && cp <= 0x10FFFF
      && cp == Held(m[0], 0xF0) * 0x4_0000 + Held(m[1], 0x80) * 0x1000 + Held(m[2], 0x80) * 0x40 + Held(m[3], 0x80)
  }

  predicate High(x: nat) { 0xD800 <= x <= 0xDBFF }

  /** A pair of escapes counts on from U+10000: ten bits of the first half, then ten of the second. */
  function PairCodePoint(hi: nat, lo: nat): (cp: nat)
    requires High(hi)
    ensures cp <= 0x10FFFF
  {
    0x1_0000 + (hi - 0xD800) * 0x400 + lo % 0x400
  }

  /** The two-character escapes: quotation mark, reverse solidus, solidus, b, f, n, r and t. */
  predicate TwoCharacters(u: ByteString, m: ByteString) {
    || (u == [0x5c, 0x22] && m == [0x22])
    || (u == [0x5c, 0x5c] && m == [0x5c])
    || (u == [0x5c, 0x2f] && m == [0x2f])
    || (u == [0x5c, 0x62] && m == [0x08])
    || (u == [0x5c, 0x66] && m == [0x0c])
    || (u == [0x5c, 0x6e] && m == [0x0a])
    || (u == [0x5c, 0x72] && m == [0x0d])
    || (u == [0x5c, 0x74] && m == [0x09])
  }

  ghost predicate OneEscape(u: ByteString, m: ByteString) {
    exists x: nat :: UnicodeEscaped(u, x) && !High(x) && IsUtf8(m, x)
  }

  ghost predicate SurrogatePair(u: ByteString, m: ByteString) {
    |u| == 12 && exists hi: nat, lo: nat ::
      && UnicodeEscaped(u[..6], hi) && High(hi) && UnicodeEscaped(u[6..], lo)
      && IsUtf8(m, PairCodePoint(hi, lo))
  }

  /** One character of the literal, and the bytes it stands for. */
  ghost predicate UnitDenotes(u: ByteString, m: ByteString) {
    || (|u| == 1 && u[0] != 0x22 && u[0] != 0x5c && m == u)
    || TwoCharacters(u, m)
    || OneEscape(u, m)
    || SurrogatePair(u, m)
  }

  /** What stands between the quotes denotes these bytes. */
  ghost predicate Denotes(body: ByteString, s: ByteString)
    decreases |body|
  {
    || (body == [] && s == [])
    || exists n: nat, k: nat | 0 < n <= |body| && k <= |s| ::
         UnitDenotes(body[..n], s[..k]) && Denotes(body[n..], s[k..])
  }

  // ---- the pieces ----

  lemma HexIsDigit(c: Byte)
    ensures IsHexDigit(c) ==> Hex(c, HexValue(c))
    ensures forall d: nat :: Hex(c, d) ==> IsHexDigit(c) && d == HexValue(c)
  {
  }

  predicate AllHex(u: ByteString)
    requires |u| == 4
  {
    IsHexDigit(u[0]) && IsHexDigit(u[1]) && IsHexDigit(u[2]) && IsHexDigit(u[3])
  }

  function HexNumber(u: ByteString): nat
    requires |u| == 4 && AllHex(u)
  {
    HexValue(u[0]) * 4096 + HexValue(u[1]) * 256 + HexValue(u[2]) * 16 + HexValue(u[3])
  }

  lemma FourHexValue(u: ByteString, x: nat)
    requires |u| == 4
    ensures FourHex(u, x) <==> AllHex(u) && x == HexNumber(u)
  {
    HexIsDigit(u[0]);
    HexIsDigit(u[1]);
    HexIsDigit(u[2]);
    HexIsDigit(u[3]);
    hide Hex, HexValue, IsHexDigit;
  }

  lemma HexLoopValue(t: ByteString, i: nat)
    requires i + 4 <= |t|
    ensures var u := t[i..i + 4];
            if AllHex(u) then HexLoop(t, i, 0, 0) == Decoded(HexNumber(u), i + 4) else HexLoop(t, i, 0, 0).Malformed?
  {
    var u := t[i..i + 4];
    assert u[0] == t[i] && u[1] == t[i + 1] && u[2] == t[i + 2] && u[3] == t[i + 3];
    if AllHex(u) {
      hide HexValue, IsHexDigit;
      var a, b, c, d := HexValue(t[i]), HexValue(t[i + 1]), HexValue(t[i + 2]), HexValue(t[i + 3]);
      assert HexLoop(t, i, 0, 0) == HexLoop(t, i, 1, a);
      assert HexLoop(t, i, 1, a) == HexLoop(t, i, 2, a * 16 + b);
      assert HexLoop(t, i, 2, a * 16 + b) == HexLoop(t, i, 3, (a * 16 + b) * 16 + c);
      assert HexLoop(t, i, 3, (a * 16 + b) * 16 + c) == HexLoop(t, i, 4, ((a * 16 + b) * 16 + c) * 16 + d);
    } else if HexLoop(t, i, 0, 0).Decoded? {
      HexDigitsRead(t, i, 0, 0);
    }
  }

  /** The positional value of the digits is what the decoding loop adds up. */
  lemma HexAt(t: ByteString, i: nat, end: nat, x: nat)
    requires i <= end <= |t|
    ensures DecodeHex(t, i, end) == Decoded(x, i + 4) <==> i + 4 <= end && FourHex(t[i..i + 4], x)
  {
    if i + 4 <= end {
      FourHexValue(t[i..i + 4], x);
      HexLoopValue(t, i);
      hide FourHex, HexLoop, AllHex, HexNumber;
    }
  }

  /** The bytes that `codePointToUTF8` makes are the ones of the table. */
  lemma Utf8OfCodePoint(cp: nat, m: ByteString)
    requires cp <= 0x10FFFF
    ensures IsUtf8(m, cp) <==> m == CodePointToUtf8(cp)
  {
    var d3, d2, d1, d0 := Digits(cp);
    if cp <= 0x7FF {
      TwoByteForm(cp, m, d1, d0);
    } else {
      Encoding(cp, d3, d2, d1, d0);
      hide CodePointToUtf8;
      if cp <= 0xFFFF {
        ThreeByteForm(cp, m, d2, d1, d0);
      } else {
        FourByteForm(cp, m, d3, d2, d1, d0);
      }
    }
  }

  lemma TwoByteForm(cp: nat, m: ByteString, d1: nat, d0: nat)
    requires cp <= 0x7FF && cp / 0x40 % 0x40 == d1 < 0x40 && cp % 0x40 == d0 < 0x40 && cp == d1 * 0x40 + d0
    ensures IsUtf8(m, cp) <==> m == CodePointToUtf8(cp)
  {
  }

  lemma ThreeByteForm(cp: nat, m: ByteString, d2: nat, d1: nat, d0: nat)
    requires 0x7FF < cp <= 0xFFFF && d2 < 0x10 && d1 < 0x40 && d0 < 0x40 && cp == d2 * 0x1000 + d1 * 0x40 + d0
    ensures IsUtf8(m, cp) <==> m == [0xE0 + d2, 0x80 + d1, 0x80 + d0]
  {
    if IsUtf8(m, cp) {
      UniqueDigits(0, d2, d1, d0, 0, Held(m[0], 0xE0), Held(m[1], 0x80), Held(m[2], 0x80));
    }
  }

  lemma FourByteForm(cp: nat, m: ByteString, d3: nat, d2: nat, d1: nat, d0: nat)
    requires 0xFFFF < cp <= 0x10FFFF && d3 < 8 && d2 < 0x40 && d1 < 0x40 && d0 < 0x40
    requires cp == d3 * 0x4_0000 + d2 * 0x1000 + d1 * 0x40 + d0
    ensures IsUtf8(m, cp) <==> m == [0xF0 + d3, 0x80 + d2, 0x80 + d1, 0x80 + d0]
  {
    if IsUtf8(m, cp) {
      UniqueDigits(d3, d2, d1, d0, Held(m[0], 0xF0), Held(m[1], 0x80), Held(m[2], 0x80), Held(m[3], 0x80));
    }
  }

  lemma UniqueDigits(a3: nat, a2: nat, a1: nat, a0: nat, b3: nat, b2: nat, b1: nat, b0: nat)
    requires a3 < 8 && a2 < 0x40 && a1 < 0x40 && a0 < 0x40 && b3 < 8 && b2 < 0x40 && b1 < 0x40 && b0 < 0x40
    requires a3 * 0x4_0000 + a2 * 0x1000 + a1 * 0x40 + a0 == b3 * 0x4_0000 + b2 * 0x1000 + b1 * 0x40 + b0
    ensures a3 == b3 && a2 == b2 && a1 == b1 && a0 == b0
  {
  }

  // ---- one turn of the decoder ----

  /** What one turn of the decoding loop appends, and where it stops, when it stands at no quote. */
  function Turn(t: ByteString, i: nat): (r: Decoding<ByteString>)
    requires i < |t| - 1
    ensures r.Decoded? ==> i < r.at <= |t| - 1
  {
    var end := |t| - 1;
    if t[i] != BACKSLASH then Decoded([t[i]], i + 1)
    else if i + 1 == end then Malformed(EmptyEscape, i + 1)
    else if t[i + 1] == 0x75 then
      match DecodeCodePoint(t, i + 2, end)
      case Malformed(message, at) => Malformed(message, at)
      case Decoded(cp, at) => Decoded(CodePointToUtf8(cp), at)
    else if Unescape(t[i + 1]) != 0 then Decoded([Unescape(t[i + 1])], i + 2)
    else Malformed(BadEscape, i + 2)
  }

  lemma OneTurn(t: ByteString, i: nat, decoded: ByteString)
    requires 1 <= i < |t| - 1 && t[i] != QUOTE
    ensures var r := Turn(t, i);
            if r.Malformed? then DecodeFrom(t, i, decoded).Malformed?
            else DecodeFrom(t, i, decoded) == DecodeFrom(t, r.at, decoded + r.value)
  {
    hide DecodeCodePoint, CodePointToUtf8, Unescape;
  }

  lemma UnescapeIsTable(t: ByteString, i: nat, m: ByteString)
    requires i + 2 <= |t|
    ensures TwoCharacters(t[i..i + 2], m) <==> t[i] == BACKSLASH && Unescape(t[i + 1]) != 0 && m == [Unescape(t[i + 1])]
  {
    assert t[i..i + 2] == [t[i], t[i + 1]];
  }

  lemma HexOnly(t: ByteString, i: nat, end: nat)
    requires i <= end <= |t|
    ensures DecodeHex(t, i, end).Decoded? ==> FourHex(t[i..i + 4], DecodeHex(t, i, end).value)
    ensures i + 4 <= end ==>
            var u := t[i..i + 4];
            forall x: nat :: FourHex(u, x) ==> DecodeHex(t, i, end) == Decoded(x, i + 4)
  {
    hide FourHex, DecodeHex;
    if DecodeHex(t, i, end).Decoded? {
      HexAt(t, i, end, DecodeHex(t, i, end).value);
    }
    if i + 4 <= end {
      var u := t[i..i + 4];
      forall x: nat
        ensures FourHex(u, x) ==> DecodeHex(t, i, end) == Decoded(x, i + 4)
      {
        HexAt(t, i, end, x);
      }
    }
  }

  lemma EscapedAt(t: ByteString, i: nat, x: nat)
    requires i + 6 <= |t|
    ensures UnicodeEscaped(t[i..i + 6], x) <==> t[i] == 0x5c && t[i + 1] == 0x75 && FourHex(t[i + 2..i + 6], x)
  {
    assert t[i..i + 6][2..] == t[i + 2..i + 6];
  }

  lemma OneEscapeIff(t: ByteString, i: nat, m: ByteString)
    requires i + 1 < |t| - 1 && t[i] == BACKSLASH && t[i + 1] == 0x75 && i + 6 <= |t| - 1
    ensures OneEscape(t[i..i + 6], m) <==>
            var first := DecodeHex(t, i + 2, |t| - 1);
            first.Decoded? && !High(first.value) && m == CodePointToUtf8(first.value)
  {
    var u, first := t[i..i + 6], DecodeHex(t, i + 2, |t| - 1);
    HexOnly(t, i + 2, |t| - 1);
    hide CodePointToUtf8, DecodeHex, FourHex, IsUtf8, UnicodeEscaped;
    if first.Decoded? {
      Utf8OfCodePoint(first.value, m);
      EscapedAt(t, i, first.value);
    }
    if OneEscape(u, m) {
      var x: nat :| UnicodeEscaped(u, x) && !High(x) && IsUtf8(m, x);
      EscapedAt(t, i, x);
    }
  }

  lemma PairValue(hi: nat, lo: nat)
    requires High(hi)
    ensures 0x1_0000 + hi % 0x400 * 0x400 + lo % 0x400 == PairCodePoint(hi, lo)
  {
    assert hi % 0x400 == hi - 0xD800;
  }

  /** The two halves of a pair as the code reads them, and the bytes it makes of them. */
  predicate PairRead(t: ByteString, i: nat, m: ByteString)
    requires i + 12 <= |t| - 1
  {
    var first, second := DecodeHex(t, i + 2, |t| - 1), DecodeHex(t, i + 8, |t| - 1);
    && first.Decoded? && High(first.value) && t[i + 6] == BACKSLASH && t[i + 7] == 0x75 && second.Decoded?
    && m == CodePointToUtf8(PairCodePoint(first.value, second.value))
  }

  lemma PairIsRead(t: ByteString, i: nat, m: ByteString)
    requires i + 1 < |t| - 1 && t[i] == BACKSLASH && t[i + 1] == 0x75 && i + 12 <= |t| - 1
    requires SurrogatePair(t[i..i + 12], m)
    ensures PairRead(t, i, m)
  {
    var u := t[i..i + 12];
    assert u[..6] == t[i..i + 6] && u[6..] == t[i + 6..i + 12];
    HexOnly(t, i + 2, |t| - 1);
    HexOnly(t, i + 8, |t| - 1);
    hide CodePointToUtf8, DecodeHex, FourHex, IsUtf8, UnicodeEscaped, PairCodePoint;
    var hi: nat, lo: nat :| UnicodeEscaped(u[..6], hi) && High(hi) && UnicodeEscaped(u[6..], lo)
                            && IsUtf8(m, PairCodePoint(hi, lo));
    EscapedAt(t, i, hi);
    EscapedAt(t, i + 6, lo);
    Utf8OfCodePoint(PairCodePoint(hi, lo), m);
  }

  lemma ReadIsPair(t: ByteString, i: nat, m: ByteString)
    requires i + 1 < |t| - 1 && t[i] == BACKSLASH && t[i + 1] == 0x75 && i + 12 <= |t| - 1
    requires PairRead(t, i, m)
    ensures SurrogatePair(t[i..i + 12], m)
  {
    var u, hi, lo := t[i..i + 12], DecodeHex(t, i + 2, |t| - 1).value, DecodeHex(t, i + 8, |t| - 1).value;
    assert u[..6] == t[i..i + 6] && u[6..] == t[i + 6..i + 12];
    HexOnly(t, i + 2, |t| - 1);
    HexOnly(t, i + 8, |t| - 1);
    hide CodePointToUtf8, DecodeHex, FourHex, IsUtf8, UnicodeEscaped, PairCodePoint;
    EscapedAt(t, i, hi);
    EscapedAt(t, i + 6, lo);
    Utf8OfCodePoint(PairCodePoint(hi, lo), m);
    assert UnicodeEscaped(u[..6], hi) && High(hi) && UnicodeEscaped(u[6..], lo);
  }

  lemma CodePointTurn(t: ByteString, i: nat, n: nat, m: ByteString)
    requires i + 1 < |t| - 1 && t[i] == BACKSLASH && t[i + 1] == 0x75 && i + n <= |t| - 1
    ensures Turn(t, i) == Decoded(m, i + n) <==>
            var first := DecodeHex(t, i + 2, |t| - 1);
            || (n == 6 && first.Decoded? && !High(first.value) && m == CodePointToUtf8(first.value))
            || (n == 12 && PairRead(t, i, m))
  {
    hide CodePointToUtf8, DecodeHex, Unescape, PairCodePoint;
    if i + 12 <= |t| - 1 {
      var first, second := DecodeHex(t, i + 2, |t| - 1), DecodeHex(t, i + 8, |t| - 1);
      if first.Decoded? && High(first.value) && second.Decoded? {
        PairValue(first.value, second.value);
      }
    }
  }

  lemma CodePointIff(t: ByteString, i: nat, n: nat, m: ByteString)
    requires i + 1 < |t| - 1 && t[i] == BACKSLASH && t[i + 1] == 0x75 && i + n <= |t| - 1
    ensures Turn(t, i) == Decoded(m, i + n) <==> OneEscape(t[i..i + n], m) || SurrogatePair(t[i..i + n], m)
  {
    CodePointTurn(t, i, n, m);
    var u := t[i..i + n];
    assert OneEscape(u, m) ==> |u| == 6;
    assert SurrogatePair(u, m) ==> |u| == 12;
    hide Turn, CodePointToUtf8, DecodeHex, OneEscape, SurrogatePair, PairRead;
    if n == 6 {
      OneEscapeIff(t, i, m);
    } else if n == 12 {
      if PairRead(t, i, m) {
        ReadIsPair(t, i, m);
      }
      if SurrogatePair(u, m) {
        PairIsRead(t, i, m);
      }
    }
  }

  /** A turn of the loop reads one character of the literal, and there is no other it could read. */
  lemma TurnIff(t: ByteString, i: nat, n: nat, m: ByteString)
    requires i < |t| - 1 && t[i] != QUOTE && 0 < n && i + n <= |t| - 1
    ensures Turn(t, i) == Decoded(m, i + n) <==> UnitDenotes(t[i..i + n], m)
  {
    var u := t[i..i + n];
    assert u[0] == t[i] && (n >= 2 ==> u[1] == t[i + 1]);
    if t[i] != BACKSLASH {
      PlainUnit(u, m);
      assert n == 1 ==> u == [t[i]];
    } else if n == 1 {
      assert !UnitDenotes(u, m) by { LongUnit(u, m); }
    } else if t[i + 1] == 0x75 {
      LongUnit(u, m);
      CodePointIff(t, i, n, m);
      hide Turn, OneEscape, SurrogatePair;
    } else {
      LongUnit(u, m);
      if n == 2 {
        UnescapeIsTable(t, i, m);
      }
      hide Unescape, OneEscape, SurrogatePair;
    }
  }

  lemma PairStart(u: ByteString, m: ByteString)
    requires SurrogatePair(u, m)
    ensures u[0] == 0x5c && u[1] == 0x75
  {
    hide FourHex, IsUtf8;
    assert u[..6][0] == u[0] && u[..6][1] == u[1];
  }

  lemma PlainUnit(u: ByteString, m: ByteString)
    requires |u| > 0 && u[0] != BACKSLASH
    ensures UnitDenotes(u, m) <==> |u| == 1 && u[0] != QUOTE && m == u
  {
    hide FourHex, IsUtf8;
    if SurrogatePair(u, m) {
      PairStart(u, m);
    }
  }

  lemma LongUnit(u: ByteString, m: ByteString)
    requires |u| > 0 && u[0] == BACKSLASH
    ensures UnitDenotes(u, m) ==> |u| >= 2
    ensures |u| >= 2 && u[1] == 0x75 ==> (UnitDenotes(u, m) <==> OneEscape(u, m) || SurrogatePair(u, m))
    ensures |u| >= 2 && u[1] != 0x75 ==> (UnitDenotes(u, m) <==> TwoCharacters(u, m))
  {
    hide FourHex, IsUtf8;
    if SurrogatePair(u, m) {
      PairStart(u, m);
    }
  }

  lemma NoUnitAtQuote(u: ByteString, m: ByteString)
    requires |u| > 0 && u[0] == QUOTE
    ensures !UnitDenotes(u, m)
  {
    PlainUnit(u, m);
  }

  /** What the text up to `e` denotes is what the first turn reads and what the rest denotes. */
  lemma DenotesTurn(t: ByteString, i: nat, e: nat, s: ByteString)
    requires i < e <= |t| - 1 && t[i] != QUOTE
    ensures Denotes(t[i..e], s) <==>
            var r := Turn(t, i);
            r.Decoded? && r.at <= e && r.value <= s && Denotes(t[r.at..e], s[|r.value|..])
  {
    hide Turn, UnitDenotes;
    var b, r := t[i..e], Turn(t, i);
    if Denotes(b, s) {
      var n: nat, k: nat :| 0 < n <= |b| && k <= |s| && UnitDenotes(b[..n], s[..k]) && Denotes(b[n..], s[k..]);
      assert b[..n] == t[i..i + n] && b[n..] == t[i + n..e];
      TurnIff(t, i, n, s[..k]);
    }
    if r.Decoded? && r.at <= e && r.value <= s && Denotes(t[r.at..e], s[|r.value|..]) {
      var n, k := r.at - i, |r.value|;
      assert b[..n] == t[i..i + n] && b[n..] == t[i + n..e] && s[..k] == r.value;
      TurnIff(t, i, n, r.value);
      assert UnitDenotes(b[..n], s[..k]) && Denotes(b[n..], s[k..]);
    }
  }

  lemma DenotesNothingAtQuote(t: ByteString, i: nat, e: nat, s: ByteString)
    requires i < e <= |t| && t[i] == QUOTE
    ensures !Denotes(t[i..e], s)
  {
    hide UnitDenotes;
    var b := t[i..e];
    if Denotes(b, s) {
      var n: nat, k: nat :| 0 < n <= |b| && k <= |s| && UnitDenotes(b[..n], s[..k]) && Denotes(b[n..], s[k..]);
      NoUnitAtQuote(b[..n], s[..k]);
    }
  }

  lemma DenotesEmpty(s: ByteString)
    ensures Denotes([], s) <==> s == []
  {
  }

  lemma {:induction false} DecodeGrows(t: ByteString, i: nat, decoded: ByteString)
    requires 1 <= i < |t|
    ensures DecodeFrom(t, i, decoded).Decoded? ==> decoded <= DecodeFrom(t, i, decoded).value
    decreases |t| - i
  {
    hide Turn;
    if i < |t| - 1 && t[i] != QUOTE {
      OneTurn(t, i, decoded);
      var r := Turn(t, i);
      if r.Decoded? {
        hide DecodeFrom;
        DecodeGrows(t, r.at, decoded + r.value);
      }
    }
  }

  /** The literal from place `i` denotes these bytes, up to its end or up to the first quotation mark in it. */
  ghost predicate Stands(t: ByteString, i: nat, s: ByteString, at: nat)
    requires i < |t|
  {
    || (at == |t| - 1 && Denotes(t[i..at], s))
    || (i < at < |t| && t[at - 1] == QUOTE && Denotes(t[i..at - 1], s))
  }

  /** The decoder answers with bytes exactly when the literal denotes them, whatever the token. */
  lemma {:induction false} DecodesIff(t: ByteString, i: nat, decoded: ByteString, s: ByteString, at: nat)
    requires 1 <= i < |t|
    ensures DecodeFrom(t, i, decoded) == Decoded(decoded + s, at) <==> Stands(t, i, s, at)
    decreases |t| - i
  {
    hide Turn, Denotes;
    DenotesEmpty(s);
    if i == |t| - 1 {
      assert t[i..i] == [] && (decoded + s == decoded <==> s == []);
    } else if t[i] == QUOTE {
      QuoteEnds(t, i, decoded, s, at);
    } else {
      OneTurn(t, i, decoded);
      var r := Turn(t, i);
      hide DecodeFrom;
      StandsTurn(t, i, s, at);
      if r.Decoded? {
        DecodeGrows(t, r.at, decoded + r.value);
        if decoded + r.value <= decoded + s {
          PrefixCancels(decoded, r.value, s);
        }
        if r.value <= s {
          assert decoded + s == decoded + r.value + s[|r.value|..];
          DecodesIff(t, r.at, decoded + r.value, s[|r.value|..], at);
        }
      }
    }
  }

  lemma PrefixCancels(d: ByteString, a: ByteString, s: ByteString)
    requires d + a <= d + s
    ensures a <= s
  {
    assert a == (d + a)[|d|..] && s[..|a|] == (d + s)[|d|..|d| + |a|];
  }

  lemma QuoteEnds(t: ByteString, i: nat, decoded: ByteString, s: ByteString, at: nat)
    requires 1 <= i < |t| - 1 && t[i] == QUOTE
    ensures DecodeFrom(t, i, decoded) == Decoded(decoded + s, at) <==> Stands(t, i, s, at)
  {
    hide Denotes;
    DenotesEmpty(s);
    DenotesNothingAtQuote(t, i, |t| - 1, s);
    assert t[i..i] == [] && (decoded + s == decoded <==> s == []);
    if i + 1 < at < |t| {
      DenotesNothingAtQuote(t, i, at - 1, s);
    }
  }

  lemma StandsTurn(t: ByteString, i: nat, s: ByteString, at: nat)
    requires i < |t| - 1 && t[i] != QUOTE
    ensures Stands(t, i, s, at) <==>
            var r := Turn(t, i);
            r.Decoded? && r.value <= s && Stands(t, r.at, s[|r.value|..], at)
  {
    hide Turn, Denotes;
    DenotesTurn(t, i, |t| - 1, s);
    if i + 1 < at < |t| {
      DenotesTurn(t, i, at - 1, s);
    }
  }

  // ---- whole tokens ----

  /** The lexer passes over every character the decoder reads. */
  lemma TurnIsPassed(t: ByteString, i: nat)
    requires i < |t| - 1 && t[i] != QUOTE && Turn(t, i).Decoded?
    ensures ReadString(t, i, QUOTE) == ReadString(t, Turn(t, i).at, QUOTE)
  {
    hide CodePointToUtf8, HexLoop, Unescape;
    if t[i] == BACKSLASH && t[i + 1] == 0x75 {
      HexDigitsRead(t, i + 2, 0, 0);
      PlainSteps(t, i + 2, 4);
      if Turn(t, i).at != i + 6 {
        HexDigitsRead(t, i + 8, 0, 0);
        PlainSteps(t, i + 8, 4);
      }
    }
  }

  lemma {:induction false} DenotedIsPassed(t: ByteString, i: nat, e: nat, s: ByteString)
    requires i <= e <= |t| - 1 && Denotes(t[i..e], s)
    ensures ReadString(t, i, QUOTE) == ReadString(t, e, QUOTE)
    decreases e - i
  {
    hide Turn, Denotes, ReadString;
    if i < e {
      if t[i] == QUOTE {
        DenotesNothingAtQuote(t, i, e, s);
      } else {
        DenotesTurn(t, i, e, s);
        TurnIsPassed(t, i);
        var r := Turn(t, i);
        DenotedIsPassed(t, r.at, e, s[|r.value|..]);
      }
    }
  }

  /** What `decodeString` makes of a token of the lexer is what the text between the quotes denotes. */
  lemma DecodedIff(t: ByteString, s: ByteString)
    requires |t| >= 2 && Accepted(t, 1)
    ensures DecodeFrom(t, 1, []) == Decoded(s, |t| - 1) <==> Denotes(t[1..|t| - 1], s)
  {
    hide Denotes, DecodeFrom;
    var e := |t| - 2;
    DecodesIff(t, 1, [], s, |t| - 1);
    assert [] + s == s;
    if 1 <= e && t[e] == QUOTE && Denotes(t[1..e], s) {
      DenotedIsPassed(t, 1, e, s);
    }
  }

  /** It reports an error exactly when that text denotes nothing. */
  lemma MalformedIff(t: ByteString)
    requires |t| >= 2 && Accepted(t, 1)
    ensures var body := t[1..|t| - 1];
            DecodeFrom(t, 1, []).Malformed? <==> !exists s :: Denotes(body, s)
  {
    hide Denotes, DecodeFrom;
    DecoderInStep(t, 1, []);
    var r, body := DecodeFrom(t, 1, []), t[1..|t| - 1];
    if r.Decoded? {
      DecodedIff(t, r.value);
    } else if s :| Denotes(body, s) {
      DecodedIff(t, s);
    }
  }

  /** Text that denotes anything makes a token between two quotation marks, and it denotes one thing only. */
  lemma DenotedIsToken(body: ByteString, s: ByteString)
    requires Denotes(body, s)
    ensures var t := [QUOTE] + body + [QUOTE];
            Accepted(t, 1) && DecodeFrom(t, 1, []) == Decoded(s, |t| - 1)
    ensures forall other :: Denotes(body, other) ==> other == s
  {
    hide Denotes, DecodeFrom;
    var t := [QUOTE] + body + [QUOTE];
    assert t[1..|t| - 1] == body;
    DenotedIsPassed(t, 1, |t| - 1, s);
    forall other
      ensures DecodeFrom(t, 1, []) == Decoded(other, |t| - 1) <==> Denotes(body, other)
    {
      DecodedIff(t, other);
    }
  }

  lemma {:induction false} DenotesBehind(t: ByteString, i: nat, j: nat, p: ByteString, s: ByteString)
    requires i <= j <= |t| - 1 && Denotes(t[i..j], p)
    ensures Denotes(t[i..|t| - 1], s) <==> p <= s && Denotes(t[j..|t| - 1], s[|p|..])
    decreases j - i
  {
    hide Turn, Denotes;
    if i == j {
      assert t[i..j] == [];
      DenotesEmpty(p);
      assert s[|p|..] == s;
    } else if t[i] == QUOTE {
      DenotesNothingAtQuote(t, i, j, p);
    } else {
      DenotesTurn(t, i, j, p);
      DenotesTurn(t, i, |t| - 1, s);
      var r := Turn(t, i);
      if r.value <= s {
        DenotesBehind(t, r.at, j, p[|r.value|..], s[|r.value|..]);
        assert p <= s <==> p[|r.value|..] <= s[|r.value|..];
        assert p <= s ==> s[|r.value|..][|p[|r.value|..]|..] == s[|p|..];
      }
    }
  }

  /** Behind text that denotes `p`, what is denoted is what the rest denotes. */
  lemma DenotesConcat(a: ByteString, p: ByteString, b: ByteString, s: ByteString)
    requires Denotes(a, p)
    ensures Denotes(a + b, s) <==> p <= s && Denotes(b, s[|p|..])
  {
    var t := a + b + [QUOTE];
    assert t[0..|a|] == a && t[0..|t| - 1] == a + b && t[|a|..|t| - 1] == b;
    DenotesBehind(t, 0, |a|, p, s);
  }

  lemma UnitAlone(u: ByteString, m: ByteString)
    requires UnitDenotes(u, m)
    ensures Denotes(u, m)
  {
    hide FourHex, IsUtf8;
    assert u[..|u|] == u && m[..|m|] == m && u[|u|..] == [] && m[|m|..] == [];
  }

  /** Two spellings of one character may stand for each other anywhere in a literal. */
  lemma SpellingsInterchange(a: ByteString, p: ByteString, u: ByteString, v: ByteString, m: ByteString, b: ByteString,
                             s: ByteString)
    requires Denotes(a, p) && UnitDenotes(u, m) && UnitDenotes(v, m)
    ensures Denotes(a + u + b, s) <==> Denotes(a + v + b, s)
  {
    hide Denotes, UnitDenotes;
    UnitAlone(u, m);
    UnitAlone(v, m);
    assert a + u + b == a + (u + b) && a + v + b == a + (v + b);
    DenotesConcat(a, p, u + b, s);
    DenotesConcat(a, p, v + b, s);
    if p <= s {
      DenotesConcat(u, m, b, s[|p|..]);
      DenotesConcat(v, m, b, s[|p|..]);
    }
  }

  /** In particular a reverse solidus may be put before a solidus without changing what is decoded. */
  lemma SolidusMayBeEscaped(t: ByteString, n: nat, p: ByteString, s: ByteString)
    requires 1 <= n < |t| - 1 && Accepted(t, 1) && t[n] == 0x2f && Denotes(t[1..n], p)
    ensures var u := t[..n] + [0x5c] + t[n..];
            && Accepted(u, 1)
            && (DecodeFrom(t, 1, []) == Decoded(s, |t| - 1) <==> DecodeFrom(u, 1, []) == Decoded(s, |u| - 1))
  {
    var u := t[..n] + [0x5c] + t[n..];
    hide Denotes, DecodeFrom, ReadString, UnitDenotes;
    EscapedIsAccepted(t, n, p);
    DecodedIff(t, s);
    DecodedIff(u, s);
    SolidusSpellings();
    SpellingsInterchange(t[1..n], p, [0x2f], [0x5c, 0x2f], [0x2f], t[n + 1..|t| - 1], s);
    BodyAround(t, n);
    BodyEscaped(t, n);
  }

  lemma BodyAround(t: ByteString, n: nat)
    requires 1 <= n < |t| - 1 && t[n] == 0x2f
    ensures t[1..|t| - 1] == t[1..n] + [0x2f] + t[n + 1..|t| - 1]
  {
  }

  lemma BodyEscaped(t: ByteString, n: nat)
    requires 1 <= n < |t| - 1 && t[n] == 0x2f
    ensures var u := t[..n] + [0x5c] + t[n..];
            u[1..|u| - 1] == t[1..n] + [0x5c, 0x2f] + t[n + 1..|t| - 1]
  {
  }

  lemma SolidusSpellings()
    ensures UnitDenotes([0x5c, 0x2f], [0x2f]) && UnitDenotes([0x2f], [0x2f])
  {
  }

  lemma EscapedIsAccepted(t: ByteString, n: nat, p: ByteString)
    requires 1 <= n < |t| - 1 && Accepted(t, 1) && t[n] == 0x2f && Denotes(t[1..n], p)
    ensures Accepted(t[..n] + [0x5c] + t[n..], 1)
  {
    hide Denotes;
    var u := t[..n] + [0x5c] + t[n..];
    assert t[1..n] == u[1..n] && t[n + 1..] == u[n + 2..];
    DenotedIsPassed(t, 1, n, p);
    DenotedIsPassed(u, 1, n, p);
    SuffixRead(t, n + 1, u, n + 2);
    assert ReadString(t, n, QUOTE) == ReadString(t, n + 1, QUOTE);
    assert u[n] == BACKSLASH && ReadString(u, n, QUOTE) == ReadString(u, n + 2, QUOTE);
  }

  /** The lexer looks at nothing before its place. */
  lemma {:induction false} SuffixRead(t: ByteString, i: nat, u: ByteString, j: nat)
    requires i <= |t| && j <= |u| && t[i..] == u[j..]
    ensures ReadString(t, i, QUOTE).ok == ReadString(u, j, QUOTE).ok
    ensures |t| - ReadString(t, i, QUOTE).end == |u| - ReadString(u, j, QUOTE).end
    decreases |t| - i
  {
    if i < |t| {
      assert t[i] == t[i..][0] == u[j..][0] == u[j];
      if t[i] == BACKSLASH {
        if i + 1 < |t| {
          assert t[i + 2..] == t[i..][2..] == u[j..][2..] == u[j + 2..];
          SuffixRead(t, i + 2, u, j + 2);
        }
      } else if t[i] != QUOTE {
        assert t[i + 1..] == t[i..][1..] == u[j..][1..] == u[j + 1..];
        SuffixRead(t, i + 1, u, j + 1);
      }
    }
  }

  // ---- what the writer chooses ----

  /** The digit of that value, with small letters. */
  predicate SmallHex(c: Byte, d: nat) { d < 16 && c == LOWER[d] as int }

  ghost predicate SmallEscape(u: ByteString, x: nat) {
    && |u| == 6 && u[0] == 0x5c && u[1] == 0x75
    && exists d3: nat, d2: nat, d1: nat, d0: nat ::
         && SmallHex(u[2], d3) && SmallHex(u[3], d2) && SmallHex(u[4], d1) && SmallHex(u[5], d0)
         && x == d3 * 4096 + d2 * 256 + d1 * 16 + d0
  }

  /** The bytes written with two characters: the seven that RFC 8259 names beside the solidus. */
  predicate HasShortForm(c: ByteString) {
    c in {[0x22], [0x5c], [0x08], [0x0c], [0x0a], [0x0d], [0x09]}
  }

  /** How one character is written: its short escape, as it is, or by number when only ASCII may be used. */
  ghost predicate CharWritten(u: ByteString, c: ByteString, emitUTF8: bool) {
    if HasShortForm(c) then TwoCharacters(u, c)
    else if emitUTF8 then |c| == 1 && u == c
    else if |c| == 1 && 0x20 <= c[0] <= 0x7F then u == c
    else exists cp: nat :: IsUtf8(c, cp) && NumberWritten(u, cp)
  }

  ghost predicate NumberWritten(u: ByteString, cp: nat) {
    if cp < 0x1_0000 then SmallEscape(u, cp)
    else
      && |u| == 12 && SmallEscape(u[..6], 0xD800 + (cp - 0x1_0000) / 0x400)
      && SmallEscape(u[6..], 0xDC00 + (cp - 0x1_0000) % 0x400)
  }

  ghost predicate Written(text: ByteString, s: ByteString, emitUTF8: bool)
    decreases |s|
  {
    || (text == [] && s == [])
    || exists n: nat, k: nat | n <= |text| && 0 < k <= |s| ::
         CharWritten(text[..n], s[..k], emitUTF8) && Written(text[n..], s[k..], emitUTF8)
  }

  lemma ShortEscapeIsTable(c: Byte)
    ensures ShortEscape(c) != 0 <==> HasShortForm([c])
    ensures ShortEscape(c) != 0 ==> TwoCharacters([BACKSLASH, ShortEscape(c)], [c])
  {
  }

  lemma HexDigitIsSmall(n: nat)
    requires n < 16
    ensures SmallHex(HexDigit(n), n)
  {
  }

  lemma SmallEscapeWritten(x: nat)
    requires x < 0x1_0000
    ensures SmallEscape(UnicodeEscape(x), x)
  {
    var d3, d2, d1, d0 := HexDigits(x);
    HexDigitIsSmall(d3);
    HexDigitIsSmall(d2);
    HexDigitIsSmall(d1);
    HexDigitIsSmall(d0);
    hide SmallHex, HexDigit, ToHex16Bit;
    var u := UnicodeEscape(x);
    assert u == [BACKSLASH, 0x75, HexDigit(d3), HexDigit(d2), HexDigit(d1), HexDigit(d0)];
    assert SmallHex(u[2], d3) && SmallHex(u[3], d2) && SmallHex(u[4], d1) && SmallHex(u[5], d0);
  }

  lemma PairIsWritten(cp: nat, hi: nat, lo: nat, u: ByteString, v: ByteString)
    requires 0x1_0000 <= cp && hi == 0xD800 + (cp - 0x1_0000) / 0x400 && lo == 0xDC00 + (cp - 0x1_0000) % 0x400
    requires SmallEscape(u, hi) && SmallEscape(v, lo)
    ensures NumberWritten(u + v, cp)
  {
    hide SmallHex;
    var t := u + v;
    assert |u| == 6 && |v| == 6;
    assert t[..6] == u && t[6..] == v;
    assert |t| == 12;
    assert SmallEscape(t[..6], 0xD800 + (cp - 0x1_0000) / 0x400);
    assert SmallEscape(t[6..], 0xDC00 + (cp - 0x1_0000) % 0x400);
  }

  lemma NumberIsWritten(cp: nat)
    requires cp <= 0x10FFFF
    ensures NumberWritten(CodePointText(cp), cp)
  {
    hide SmallEscape, UnicodeEscape;
    if cp < 0x1_0000 {
      SmallEscapeWritten(cp);
      assert NumberWritten(CodePointText(cp), cp);
    } else {
      var hi, lo := (cp - 0x1_0000) / 0x400 + 0xD800, (cp - 0x1_0000) % 0x400 + 0xDC00;
      SmallEscapeWritten(hi);
      SmallEscapeWritten(lo);
      PairIsWritten(cp, hi, lo, UnicodeEscape(hi), UnicodeEscape(lo));
      assert CodePointText(cp) == UnicodeEscape(hi) + UnicodeEscape(lo);
      assert NumberWritten(CodePointText(cp), cp);
    }
  }

  /** One turn of the writer's loop on well-formed text writes its first character. */
  lemma UnitIsWritten(s: ByteString, emitUTF8: bool)
    requires |s| > 0 && (emitUTF8 || CharLength(s) > 0)
    ensures var u := EscapeUnit(s, emitUTF8); CharWritten(u.text, s[..u.used], emitUTF8)
  {
    ShortEscapeIsTable(s[0]);
    assert s[..1] == [s[0]];
    if ShortEscape(s[0]) == 0 && !emitUTF8 {
      WellFormedChar(s);
      var c := Utf8ToCodePoint(s);
      CodePointsAreNotSurrogates(s);
      Utf8OfCodePoint(c.value, s[..c.used]);
      NumberIsWritten(c.value);
      CharOfUtf8(s[..c.used], c.value);
      hide Utf8ToCodePoint, CodePointToUtf8, IsUtf8, NumberWritten, CodePointText, CharLength, ShortEscape;
    }
    hide TwoCharacters, ShortEscape;
  }

  lemma CharOfUtf8(c: ByteString, cp: nat)
    requires IsUtf8(c, cp)
    ensures |c| == 1 <==> cp <= 0x7F
    ensures |c| == 1 ==> c == [cp]
    ensures |c| > 1 ==> !HasShortForm(c)
  {
  }

  /**
   `valueToQuotedStringN`, between the quotes: with `emitUTF8` any bytes, and without it any well-formed text, are
   written character by character as `CharWritten` has it.
   */
  lemma {:induction false} EscapedIsWritten(s: ByteString, emitUTF8: bool)
    requires emitUTF8 || WellFormed(s)
    ensures Written(Escaped(s, emitUTF8), s, emitUTF8)
    decreases |s|
  {
    hide CharWritten, CharLength, EscapeUnit;
    if s != [] {
      UnitIsWritten(s, emitUTF8);
      var u, text := EscapeUnit(s, emitUTF8), Escaped(s, emitUTF8);
      if !emitUTF8 {
        UnitOnWellFormed(s);
      }
      EscapedIsWritten(s[u.used..], emitUTF8);
      assert text[..|u.text|] == u.text && text[|u.text|..] == Escaped(s[u.used..], emitUTF8);
    }
  }
}

