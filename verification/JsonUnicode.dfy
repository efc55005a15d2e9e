/**
 UTF-8 and UTF-16: RFC 3629, and the conversions of json_tool.h and json_writer.cc. Bit masks are written as
 remainders.
 */
module JsonUnicode {
  import opened Bytes

  // ---- RFC 3629 ----

  predicate IsTail(c: Byte) { 0x80 <= c <= 0xBF }

  /** The length of the character `s` starts with, by the grammar of RFC 3629, section 4; 0 if there is none. */
  function CharLength(s: ByteString): (n: nat)
    ensures n <= |s| && n <= 4
  {
    if |s| >= 1 && s[0] <= 0x7F then 1
    else if |s| >= 2 && 0xC2 <= s[0] <= 0xDF && IsTail(s[1]) then 2
    else if |s| >= 3 && IsTail(s[2])
      && ( || (s[0] == 0xE0 && 0xA0 <= s[1] <= 0xBF)
           || (0xE1 <= s[0] <= 0xEC && IsTail(s[1]))
           || (s[0] == 0xED && 0x80 <= s[1] <= 0x9F)
           || (0xEE <= s[0] <= 0xEF && IsTail(s[1]))) then 3
    else if |s| >= 4 && IsTail(s[2]) && IsTail(s[3])
      && ( || (s[0] == 0xF0 && 0x90 <= s[1] <= 0xBF)
           || (0xF1 <= s[0] <= 0xF3 && IsTail(s[1]))
           || (s[0] == 0xF4 && 0x80 <= s[1] <= 0x8F)) then 4
    else 0
  }

  predicate WellFormed(s: ByteString) {
    s == [] || (CharLength(s) > 0 && WellFormed(s[CharLength(s)..]))
  }

  // ---- the code ----

  /** `codePointToUTF8`. */
  function CodePointToUtf8(cp: nat): (s: ByteString)
    ensures cp <= 0x10FFFF ==> 1 <= |s| <= 4
  {
    if cp <= 0x7F then [cp]
    else if cp <= 0x7FF then [0xC0 + cp / 0x40 % 0x20, 0x80 + cp % 0x40]
    else if cp <= 0xFFFF then [0xE0 + cp / 0x1000 % 0x10, 0x80 + cp / 0x40 % 0x40, 0x80 + cp % 0x40]
    else if cp <= 0x10FFFF then
      [0xF0 + cp / 0x4_0000 % 8, 0x80 + cp / 0x1000 % 0x40, 0x80 + cp / 0x40 % 0x40, 0x80 + cp % 0x40]
    else []
  }

  const REPLACEMENT_CHARACTER: nat := 0xFFFD

  datatype CodePoint = CodePoint(value: nat, used: nat)

  function Pack2(b0: int, b1: int): int { b0 % 0x20 * 0x40 + b1 % 0x40 }

  function Pack3(b0: int, b1: int, b2: int): int { (b0 % 0x10 * 0x40 + b1 % 0x40) * 0x40 + b2 % 0x40 }

  function Pack4(b0: int, b1: int, b2: int, b3: int): int {
    ((b0 % 8 * 0x40 + b1 % 0x40) * 0x40 + b2 % 0x40) * 0x40 + b3 % 0x40
  }

  /** `utf8ToCodepoint`, and how many bytes the caller's loop has then moved over. */
  function Utf8ToCodePoint(s: ByteString): (c: CodePoint)
    requires |s| > 0
    ensures 1 <= c.used <= |s| && c.value < 0x20_0000
  {
    if s[0] < 0x80 then CodePoint(s[0], 1)
    else if s[0] < 0xE0 then
      if |s| < 2 then CodePoint(REPLACEMENT_CHARACTER, 1)
      else
        var calculated := Pack2(s[0], s[1]);
        CodePoint(if calculated < 0x80 then REPLACEMENT_CHARACTER else calculated, 2)
    else if s[0] < 0xF0 then
      if |s| < 3 then CodePoint(REPLACEMENT_CHARACTER, 1)
      else
        var calculated := Pack3(s[0], s[1], s[2]);
        if 0xD800 <= calculated <= 0xDFFF then CodePoint(REPLACEMENT_CHARACTER, 3)
        else CodePoint(if calculated < 0x800 then REPLACEMENT_CHARACTER else calculated, 3)
    else if s[0] < 0xF8 then
      if |s| < 4 then CodePoint(REPLACEMENT_CHARACTER, 1)
      else
        var calculated := Pack4(s[0], s[1], s[2], s[3]);
        CodePoint(if calculated < 0x1_0000 then REPLACEMENT_CHARACTER else calculated, 4)
    else CodePoint(REPLACEMENT_CHARACTER, 1)
  }

  /** What the escaped form of a code point decodes to; beyond U+10FFFF the pair falls apart into its halves. */
  function Meaning(cp: nat): ByteString {
    if cp <= 0x10FFFF then CodePointToUtf8(cp)
    else CodePointToUtf8((cp - 0x1_0000) / 0x400 + 0xD800) + CodePointToUtf8((cp - 0x1_0000) % 0x400 + 0xDC00)
  }

  lemma Digits64(x: int, y: int)
    requires 0 <= x && 0 <= y < 0x40
    ensures (x * 0x40 + y) / 0x40 == x && (x * 0x40 + y) % 0x40 == y
  {
  }

  lemma Unpack3(b0: int, b1: int, b2: int)
    requires 0 <= b0
    ensures var p := Pack3(b0, b1, b2);
            p / 0x1000 == b0 % 0x10 && p / 0x40 % 0x40 == b1 % 0x40 && p % 0x40 == b2 % 0x40
  {
    var q := b0 % 0x10 * 0x40 + b1 % 0x40;
    Digits64(b0 % 0x10, b1 % 0x40);
    Digits64(q, b2 % 0x40);
    assert (q * 0x40 + b2 % 0x40) / 0x1000 == (q * 0x40 + b2 % 0x40) / 0x40 / 0x40;
  }

  lemma Unpack4(b0: int, b1: int, b2: int, b3: int)
    requires 0 <= b0
    ensures var p := Pack4(b0, b1, b2, b3);
            && p / 0x4_0000 == b0 % 8 && p / 0x1000 % 0x40 == b1 % 0x40
            && p / 0x40 % 0x40 == b2 % 0x40 && p % 0x40 == b3 % 0x40
  {
    var q := (b0 % 8 * 0x40 + b1 % 0x40) * 0x40 + b2 % 0x40;
    Digits64(b0 % 8, b1 % 0x40);
    Digits64(b0 % 8 * 0x40 + b1 % 0x40, b2 % 0x40);
    Digits64(q, b3 % 0x40);
    assert (q * 0x40 + b3 % 0x40) / 0x1000 == (q * 0x40 + b3 % 0x40) / 0x40 / 0x40;
    assert (q * 0x40 + b3 % 0x40) / 0x4_0000 == (q * 0x40 + b3 % 0x40) / 0x1000 / 0x40;
  }

  lemma Encoded2(b0: Byte, b1: Byte)
    requires Pack2(b0, b1) >= 0x80
    ensures CodePointToUtf8(Pack2(b0, b1)) == [0xC0 + b0 % 0x20, 0x80 + b1 % 0x40]
  {
    Digits64(b0 % 0x20, b1 % 0x40);
  }

  lemma Encoded3(b0: Byte, b1: Byte, b2: Byte)
    requires Pack3(b0, b1, b2) >= 0x800
    ensures CodePointToUtf8(Pack3(b0, b1, b2)) == [0xE0 + b0 % 0x10, 0x80 + b1 % 0x40, 0x80 + b2 % 0x40]
  {
    hide Pack3;
    Unpack3(b0, b1, b2);
    Pack3Bound(b0, b1, b2);
  }

  lemma Encoded4(b0: Byte, b1: Byte, b2: Byte, b3: Byte)
    requires 0x1_0000 <= Pack4(b0, b1, b2, b3) <= 0x10FFFF
    ensures CodePointToUtf8(Pack4(b0, b1, b2, b3))
         == [0xF0 + b0 % 8, 0x80 + b1 % 0x40, 0x80 + b2 % 0x40, 0x80 + b3 % 0x40]
  {
    hide Pack4;
    Unpack4(b0, b1, b2, b3);
  }

  lemma Pack2Bound(b0: int, b1: int)
    ensures var p := Pack2(b0, b1); b0 % 0x20 * 0x40 <= p < b0 % 0x20 * 0x40 + 0x40
  {
  }

  lemma Pack3Bound(b0: int, b1: int, b2: int)
    ensures var p := Pack3(b0, b1, b2);
            b0 % 0x10 * 0x1000 + b1 % 0x40 * 0x40 <= p < b0 % 0x10 * 0x1000 + b1 % 0x40 * 0x40 + 0x40
  {
  }

  lemma Pack4Bound(b0: int, b1: int, b2: int, b3: int)
    ensures var p := Pack4(b0, b1, b2, b3);
            b0 % 8 * 0x4_0000 + b1 % 0x40 * 0x1000 <= p < b0 % 8 * 0x4_0000 + b1 % 0x40 * 0x1000 + 0x1000
  {
  }

  lemma FixedEncodings(b: Byte, surrogate: nat)
    ensures b <= 0x7F ==> CodePointToUtf8(b) == [b]
    ensures CodePointToUtf8(REPLACEMENT_CHARACTER) == [0xEF, 0xBF, 0xBD]
    ensures 0xD800 <= surrogate <= 0xDFFF ==>
      |CodePointToUtf8(surrogate)| == 3 && CodePointToUtf8(surrogate)[0] == 0xED
  {
  }

  /** On a well-formed character the two conversions are inverse, and no surrogate is produced. */
  lemma WellFormedChar(s: ByteString)
    requires CharLength(s) > 0
    ensures Utf8ToCodePoint(s).used == CharLength(s)
    ensures Utf8ToCodePoint(s).value <= 0x10FFFF && !(0xD800 <= Utf8ToCodePoint(s).value <= 0xDFFF)
    ensures CodePointToUtf8(Utf8ToCodePoint(s).value) == s[..CharLength(s)]
  {
    hide Pack2, Pack3, Pack4, CodePointToUtf8;
    if CharLength(s) == 1 {
      FixedEncodings(s[0], 0);
    } else if CharLength(s) == 2 {
      Pack2Bound(s[0], s[1]);
      Encoded2(s[0], s[1]);
    } else if CharLength(s) == 3 {
      Pack3Bound(s[0], s[1], s[2]);
      Encoded3(s[0], s[1], s[2]);
    } else {
      Pack4Bound(s[0], s[1], s[2], s[3]);
      Encoded4(s[0], s[1], s[2], s[3]);
    }
  }

  /** Conversely, text whose first code point comes back unchanged starts with a well-formed character. */
  lemma UnchangedChar(s: ByteString)
    requires |s| > 0 && Meaning(Utf8ToCodePoint(s).value) <= s
    ensures CharLength(s) == Utf8ToCodePoint(s).used == |Meaning(Utf8ToCodePoint(s).value)|
  {
    hide Pack2, Pack3, Pack4, CodePointToUtf8;
    var c := Utf8ToCodePoint(s);
    FixedEncodings(s[0], (c.value - 0x1_0000) / 0x400 + 0xD800);
    if 0x80 <= s[0] < 0xE0 && |s| >= 2 {
      Pack2Bound(s[0], s[1]);
      if c.value != REPLACEMENT_CHARACTER {
        Encoded2(s[0], s[1]);
      }
    } else if 0xE0 <= s[0] < 0xF0 && |s| >= 3 {
      Pack3Bound(s[0], s[1], s[2]);
      if c.value == Pack3(s[0], s[1], s[2]) {
        Encoded3(s[0], s[1], s[2]);
      }
    } else if 0xF0 <= s[0] < 0xF8 && |s| >= 4 {
      Pack4Bound(s[0], s[1], s[2], s[3]);
      if c.value == Pack4(s[0], s[1], s[2], s[3]) <= 0x10FFFF {
        Encoded4(s[0], s[1], s[2], s[3]);
      }
    }
  }

  lemma Repacked2(cp: nat)
    requires cp <= 0x7FF
    ensures Pack2(0xC0 + cp / 0x40 % 0x20, 0x80 + cp % 0x40) == cp
  {
  }

  lemma Digits(cp: nat) returns (d3: nat, d2: nat, d1: nat, d0: nat)
    requires cp < 0x20_0000
    ensures d3 < 8 && d2 < 0x40 && d1 < 0x40 && d0 < 0x40 && cp == d3 * 0x4_0000 + d2 * 0x1000 + d1 * 0x40 + d0
    ensures cp / 0x4_0000 == d3 && cp / 0x1000 == d3 * 0x40 + d2 && cp / 0x40 == d3 * 0x1000 + d2 * 0x40 + d1
    ensures cp / 0x1000 % 0x40 == d2 && cp / 0x40 % 0x40 == d1 && cp % 0x40 == d0
  {
    var q1 := cp / 0x40;
    var q2 := q1 / 0x40;
    d3, d2, d1, d0 := q2 / 0x40, q2 % 0x40, q1 % 0x40, cp % 0x40;
  }

  lemma Masked(x: nat)
    ensures x < 0x40 ==> (0x80 + x) % 0x40 == x
    ensures x < 0x10 ==> (0xE0 + x) % 0x10 == x
    ensures x < 8 ==> (0xF0 + x) % 8 == x
  {
  }

  lemma Packed3(d2: nat, d1: nat, d0: nat)
    requires d2 < 0x10 && d1 < 0x40 && d0 < 0x40
    ensures Pack3(0xE0 + d2, 0x80 + d1, 0x80 + d0) == d2 * 0x1000 + d1 * 0x40 + d0
  {
    Masked(d2);
    Masked(d1);
    Masked(d0);
  }

  lemma Packed4(d3: nat, d2: nat, d1: nat, d0: nat)
    requires d3 < 8 && d2 < 0x40 && d1 < 0x40 && d0 < 0x40
    ensures Pack4(0xF0 + d3, 0x80 + d2, 0x80 + d1, 0x80 + d0) == d3 * 0x4_0000 + d2 * 0x1000 + d1 * 0x40 + d0
  {
    Masked(d3);
    Masked(d2);
    Masked(d1);
    Masked(d0);
  }

  lemma ThreeBytes(d2: nat, d1: nat, d0: nat, s: ByteString)
    requires d2 < 0x10 && d1 < 0x40 && d0 < 0x40 && |s| >= 3
    requires s[0] == 0xE0 + d2 && s[1] == 0x80 + d1 && s[2] == 0x80 + d0
    requires 0x7FF < d2 * 0x1000 + d1 * 0x40 + d0 && !(0xD800 <= d2 * 0x1000 + d1 * 0x40 + d0 <= 0xDFFF)
    ensures CharLength(s) == 3 && Utf8ToCodePoint(s) == CodePoint(d2 * 0x1000 + d1 * 0x40 + d0, 3)
  {
    hide Pack2, Pack3, Pack4;
    Packed3(d2, d1, d0);
  }

  lemma FourBytes(d3: nat, d2: nat, d1: nat, d0: nat, s: ByteString)
    requires d3 < 8 && d2 < 0x40 && d1 < 0x40 && d0 < 0x40 && |s| >= 4
    requires s[0] == 0xF0 + d3 && s[1] == 0x80 + d2 && s[2] == 0x80 + d1 && s[3] == 0x80 + d0
    requires 0xFFFF < d3 * 0x4_0000 + d2 * 0x1000 + d1 * 0x40 + d0 <= 0x10FFFF
    ensures CharLength(s) == 4 && Utf8ToCodePoint(s) == CodePoint(d3 * 0x4_0000 + d2 * 0x1000 + d1 * 0x40 + d0, 4)
  {
    hide Pack2, Pack3, Pack4;
    Packed4(d3, d2, d1, d0);
  }

  lemma TwoBytes(cp: nat, s: ByteString)
    requires cp <= 0x7FF && |s| >= |CodePointToUtf8(cp)| && s[..|CodePointToUtf8(cp)|] == CodePointToUtf8(cp)
    ensures CharLength(s) == |CodePointToUtf8(cp)| && Utf8ToCodePoint(s) == CodePoint(cp, CharLength(s))
  {
    hide Pack2, Pack3, Pack4;
    Repacked2(cp);
    var u := s[..|CodePointToUtf8(cp)|];
    assert s[0] == u[0] && (cp > 0x7F ==> s[1] == u[1]);
  }

  /** The bytes of the longer encodings, by the digits of the code point. */
  lemma Encoding(cp: nat, d3: nat, d2: nat, d1: nat, d0: nat)
    requires 0x7FF < cp <= 0x10FFFF && d3 < 8 && d2 < 0x40
    requires cp / 0x4_0000 == d3 && cp / 0x1000 == d3 * 0x40 + d2
    requires cp / 0x1000 % 0x40 == d2 && cp / 0x40 % 0x40 == d1 && cp % 0x40 == d0
    ensures cp <= 0xFFFF ==> d3 == 0 && d2 < 0x10 && CodePointToUtf8(cp) == [0xE0 + d2, 0x80 + d1, 0x80 + d0]
    ensures cp > 0xFFFF ==> CodePointToUtf8(cp) == [0xF0 + d3, 0x80 + d2, 0x80 + d1, 0x80 + d0]
  {
  }

  /** Every Unicode scalar value has a well-formed encoding, which reads back as that value whatever follows. */
  lemma ScalarRoundTrip(cp: nat, rest: ByteString)
    requires cp <= 0x10FFFF && !(0xD800 <= cp <= 0xDFFF)
    ensures var s := CodePointToUtf8(cp) + rest;
            CharLength(s) == |CodePointToUtf8(cp)| && Utf8ToCodePoint(s) == CodePoint(cp, CharLength(s))
  {
    hide CharLength, Utf8ToCodePoint, CodePointToUtf8;
    var u := CodePointToUtf8(cp);
    var s := u + rest;
    if cp <= 0x7FF {
      assert s[..|u|] == u;
      TwoBytes(cp, s);
    } else {
      var d3, d2, d1, d0 := Digits(cp);
      Encoding(cp, d3, d2, d1, d0);
      if cp <= 0xFFFF {
        ThreeBytes(d2, d1, d0, s);
      } else {
        FourBytes(d3, d2, d1, d0, s);
      }
    }
  }
}
