/**
 What the tokens that are values by themselves mean: the numbers of section 6 of RFC 8259 are read whole, and the
 grammar's atoms and names are said without the functions that read them.
 */
module JsonAtoms {
  import opened Bytes
  import opened JsonValue
  import opened JsonNumbers
  import opened JsonStrings
  import opened JsonStringMeaning
  import opened JsonLexer
  import opened JsonLexemes
  import opened JsonParser
  import opened JsonGrammar

  // ---- the numbers of RFC 8259 ----

  /** number = [ minus ] int [ frac ] [ exp ], in its parts. */
  datatype NumberText = NumberText(minus: bool, whole: ByteString, fraction: ByteString, exponent: ByteString)
  {
    /** int has a digit and no leading zero; what is there of frac and exp has a digit. */
    predicate Valid() {
      && IsDigits(whole) && whole != [] && (whole[0] == 0x30 ==> |whole| == 1)
      && (fraction == [] || (|fraction| >= 2 && fraction[0] == 0x2e && IsDigits(fraction[1..])))
      && (exponent == [] || (exponent[0] in {0x65, 0x45} && ExponentDigits() != [] && IsDigits(ExponentDigits())))
    }

    function ExponentDigits(): ByteString
      requires exponent != []
    {
      if |exponent| >= 2 && IsSign(exponent[1]) then exponent[2..] else exponent[1..]
    }

    function Text(): ByteString {
      (if minus then [MINUS] else []) + whole + fraction + exponent
    }

    /** Another byte would go on with the number: a digit, or what begins a part that is not there yet. */
    predicate GoesOn(c: Byte) {
      || IsDigit(c)
      || (c == 0x2e && fraction == [] && exponent == [])
      || (c in {0x65, 0x45} && exponent == [])
    }
  }

  /** The number's parts in the document: digits from `pos` to `i`, then the others up to `j` and `q`. */
  predicate Placed(doc: ByteString, n: NumberText, pos: nat, i: nat, j: nat, q: nat)
    requires pos <= i <= j <= q <= |doc|
  {
    IsDigits(doc[pos..i]) && doc[i..j] == n.fraction && doc[j..q] == n.exponent
  }

  lemma Regions(s: ByteString, a: ByteString, b: ByteString, c: ByteString, d: ByteString)
    requires s == a + b + c + d
    ensures s[..|a|] == a && s[|a|..|a| + |b|] == b
    ensures s[|a| + |b|..|a| + |b| + |c|] == c && s[|a| + |b| + |c|..] == d
  {
  }

  lemma SlicePlaces(doc: ByteString, p: nat, q: nat, i: nat, j: nat)
    requires p <= q <= |doc| && i <= j <= q - p
    ensures doc[p..q][i..j] == doc[p + i..p + j]
  {
    var s := doc[p..q];
    assert forall k | i <= k < j :: s[k] == doc[p + k];
    assert s[i..j] == doc[p + i..p + j];
  }

  lemma NumberPlaces(doc: ByteString, p: nat, q: nat, n: NumberText) returns (i: nat, j: nat)
    requires p <= q <= |doc| && n.Valid() && doc[p..q] == n.Text()
    ensures p < i <= j <= q && Placed(doc, n, p + 1, i, j, q)
    ensures IsDigit(doc[p]) || (doc[p] == MINUS && p + 1 < |doc| && IsDigit(doc[p + 1]))
  {
    var sign := if n.minus then [MINUS] else [];
    var m, w := |sign|, n.whole;
    assert IsDigits(w) && w != [] && n.Text() == sign + w + n.fraction + n.exponent;
    hide NumberText.Valid, NumberText.Text, IsDigits, IsDigit;
    PartsPlaced(doc, p, q, sign, w, n.fraction, n.exponent);
    WholePlaced(doc, p, m, w);
    i := p + m + |w|;
    j := i + |n.fraction|;
    assert m == 1 ==> doc[p] == sign[0];
  }

  lemma PartsPlaced(doc: ByteString, p: nat, q: nat, a: ByteString, b: ByteString, c: ByteString, d: ByteString)
    requires p <= q <= |doc| && doc[p..q] == a + b + c + d
    ensures q == p + |a| + |b| + |c| + |d|
    ensures var i := p + |a| + |b|; var j := i + |c|;
            doc[p..p + |a|] == a && doc[p + |a|..i] == b && doc[i..j] == c && doc[j..q] == d
    ensures a != [] ==> doc[p] == a[0]
  {
    var s, i := doc[p..q], |a| + |b|;
    Regions(s, a, b, c, d);
    SlicePlaces(doc, p, q, 0, |a|);
    SlicePlaces(doc, p, q, |a|, i);
    SlicePlaces(doc, p, q, i, i + |c|);
    SlicePlaces(doc, p, q, i + |c|, q - p);
    assert a != [] ==> s[..|a|][0] == doc[p];
  }

  lemma WholePlaced(doc: ByteString, p: nat, m: nat, whole: ByteString)
    requires m <= 1 && p + m + |whole| <= |doc| && doc[p + m..p + m + |whole|] == whole
    requires IsDigits(whole) && whole != []
    ensures IsDigits(doc[p + 1..p + m + |whole|]) && IsDigit(doc[p + m])
  {
    var w := doc[p + m..p + m + |whole|];
    assert w[0] == doc[p + m];
    assert doc[p + 1..p + m + |whole|] == w[1 - m..];
  }

  lemma RunGoesOn(doc: ByteString, pos: nat, q: nat)
    requires pos <= q <= |doc| && IsDigits(doc[pos..q])
    ensures SkipDigits(doc, pos) >= q
    ensures SkipDigits(doc, pos) == q <==> q == |doc| || !IsDigit(doc[q])
  {
    SomeDigits(doc, pos, q);
    if q < |doc| {
      SomeDigits(doc, pos, q + 1);
      assert doc[pos..q + 1] == doc[pos..q] + [doc[q]];
      assert doc[pos..q + 1][q - pos] == doc[q];
    }
  }

  lemma ExponentGoesOn(doc: ByteString, n: NumberText, j: nat, q: nat)
    requires j <= q <= |doc| && n.Valid() && doc[j..q] == n.exponent
    ensures SkipExponent(doc, j) == q <==>
            q == |doc| || !(if j == q then doc[q] in {0x65, 0x45} else IsDigit(doc[q]))
  {
    if j < q {
      var s := doc[j..q];
      assert s[0] == doc[j] && (|s| >= 2 ==> s[1] == doc[j + 1]);
      assert s[1..] == doc[j + 1..q];
      if |s| >= 2 && IsSign(s[1]) {
        assert s[2..] == doc[j + 2..q];
        RunGoesOn(doc, j + 2, q);
      } else {
        assert IsDigit(s[1..][0]) && s[1..][0] == doc[j + 1];
        RunGoesOn(doc, j + 1, q);
      }
    }
  }

  lemma FractionGoesOn(doc: ByteString, n: NumberText, i: nat, j: nat)
    requires i <= j <= |doc| && n.Valid() && doc[i..j] == n.fraction
    ensures SkipFraction(doc, i) == j <==> j == |doc| || !(if i == j then doc[j] == 0x2e else IsDigit(doc[j]))
    ensures SkipFraction(doc, i) >= j
  {
    if i < j {
      assert doc[i..j][1..] == doc[i + 1..j];
      assert doc[i] == doc[i..j][0];
      RunGoesOn(doc, i + 1, j);
    }
  }

  /** A number of RFC 8259 is one token, exactly unless the byte behind it would go on with it. */
  lemma RfcNumberIsRead(cfg: Settings, doc: ByteString, p: nat, q: nat, n: NumberText)
    requires p < q <= |doc| && n.Valid() && doc[p..q] == n.Text()
    ensures TokenAt(cfg, doc, p) == Token(NumberToken, p, q) <==> q == |doc| || !n.GoesOn(doc[q])
  {
    var i, j := NumberPlaces(doc, p, q, n);
    LexemeIff(cfg, doc, p, q, NumberToken);
    NumberAt(doc, p, q);
    PlacedEnd(doc, n, p + 1, i, j, q);
    hide TokenAt, NumberLexeme, JsonLexer.ReadNumber, NumberText.Valid, NumberText.Text;
  }

  lemma PlacedEnd(doc: ByteString, n: NumberText, pos: nat, i: nat, j: nat, q: nat)
    requires pos <= i <= j <= q <= |doc| && n.Valid() && Placed(doc, n, pos, i, j, q)
    ensures JsonLexer.ReadNumber(doc, pos, false).end == q <==> q == |doc| || !n.GoesOn(doc[q])
  {
    RunGoesOn(doc, pos, i);
    FractionGoesOn(doc, n, i, j);
    ExponentGoesOn(doc, n, j, q);
    assert j < q ==> doc[j] in {0x65, 0x45} by { assert j < q ==> doc[j] == doc[j..q][0]; }
    assert i < j ==> doc[i] == 0x2e by { assert i < j ==> doc[i] == doc[i..j][0]; }
    hide NumberText.Valid, SkipDigits;
    if i == j && j < q {
      assert SkipDigits(doc, pos) == i && SkipFraction(doc, i) == i;
    } else if i < j && j < q {
      assert SkipDigits(doc, pos) == i && SkipFraction(doc, i) == j;
    } else if i < j && j == q {
      assert SkipDigits(doc, pos) == i;
    }
  }

  // ---- atoms and names ----

  /** An integer that 64 bits hold is one, unsigned only if it must be; the C++ library has to scan the others. */
  predicate NumberMeans(cfg: Settings, text: ByteString, p: Payload) {
    match IntegerOf(text)
    case Some(v) => p == if v < 0x8000_0000_0000_0000 then Int(v) else UInt(v)
    case None => cfg.scanDouble(text).Some? && p == Real(cfg.scanDouble(text).value)
  }

  /** The literal denotes these bytes; one in single quotes ends early if it holds a bare quotation mark. */
  ghost predicate LiteralMeans(text: ByteString, s: ByteString)
    requires |text| >= 2
  {
    exists at :: Stands(text, 1, s, at)
  }

  /** What a token is worth as a value. */
  ghost predicate AtomMeans(cfg: Settings, kind: TokenType, text: ByteString, p: Payload)
    requires kind == StringToken ==> |text| >= 2
  {
    match kind
    case StringToken => p.String? && |p.text| <= 0x7fff_fffa && LiteralMeans(text, p.text)
    case NumberToken => NumberMeans(cfg, text, p)
    case TrueToken => p == Bool(true)
    case FalseToken => p == Bool(false)
    case NullToken => p == Null
    case NaNToken => p == Real(Double(0x7ff8_0000_0000_0000))
    case PosInfToken => p == Real(Double(0x7ff0_0000_0000_0000))
    case NegInfToken => p == Real(Double(0xfff0_0000_0000_0000))
    case ArraySeparator => cfg.allowDroppedNullPlaceholders && p == Null
    case ObjectEnd => cfg.allowDroppedNullPlaceholders && p == Null
    case ArrayEnd => cfg.allowDroppedNullPlaceholders && p == Null
    case _ => false
  }

  predicate NumberWrittenAs(cfg: Settings, p: Payload, name: ByteString) {
    || (p.Int? && name == IntegerText(p.i))
    || (p.UInt? && name == IntegerText(p.u))
    || (p.Real? && name == cfg.showDouble(p.d))
  }

  ghost predicate NameMeans(cfg: Settings, kind: TokenType, text: ByteString, name: ByteString)
    requires kind == StringToken ==> |text| >= 2
  {
    match kind
    case StringToken => LiteralMeans(text, name)
    case NumberToken =>
      cfg.allowNumericKeys && exists p :: NumberMeans(cfg, text, p) && NumberWrittenAs(cfg, p, name)
    case _ => false
  }

  lemma LiteralIff(text: ByteString, s: ByteString)
    requires |text| >= 2
    ensures LiteralMeans(text, s) <==> DecodeFrom(text, 1, []).Decoded? && DecodeFrom(text, 1, []).value == s
  {
    hide DecodeFrom, Stands;
    var r := DecodeFrom(text, 1, []);
    assert [] + s == s;
    forall at: nat
      ensures r == Decoded(s, at) <==> Stands(text, 1, s, at)
    {
      DecodesIff(text, 1, [], s, at);
    }
  }

  lemma NumberIff(cfg: Settings, text: ByteString, p: Payload)
    ensures NumberMeans(cfg, text, p) <==> DecodeNumberToken(cfg, text) == Some(p)
    ensures NumberMeans(cfg, text, p) ==> p.Int? || p.UInt? || p.Real?
  {
    hide IntegerOf;
  }

  /** The atoms of the grammar, without the functions that read them. */
  lemma AtomIff(cfg: Settings, doc: ByteString, t: Token, p: Payload)
    requires InDocument(doc, t)
    ensures IsAtom(cfg, doc, t, p) <==> AtomMeans(cfg, t.kind, Text(doc, t), p)
  {
    hide DecodeFrom, LiteralMeans, NumberMeans, DecodeNumberToken;
    var text := Text(doc, t);
    if t.kind == StringToken {
      if p.String? {
        LiteralIff(text, p.text);
      }
    } else if t.kind == NumberToken {
      NumberIff(cfg, text, p);
    }
  }

  /** The names of members likewise. */
  lemma NameIff(cfg: Settings, doc: ByteString, t: Token, name: ByteString)
    requires InDocument(doc, t)
    ensures IsName(cfg, doc, t, name) <==> |name| < 0x4000_0000 && NameMeans(cfg, t.kind, Text(doc, t), name)
  {
    hide DecodeFrom, LiteralMeans, NumberMeans, DecodeNumberToken;
    var text := Text(doc, t);
    if t.kind == StringToken {
      LiteralIff(text, name);
    } else if t.kind == NumberToken {
      forall p
        ensures NumberMeans(cfg, text, p) <==> DecodeNumberToken(cfg, text) == Some(p)
        ensures NumberMeans(cfg, text, p) ==> p.Int? || p.UInt? || p.Real?
      {
        NumberIff(cfg, text, p);
      }
    }
  }

  // ---- documents of one token ----

  /** What parsing a document that is one atom gives. */
  function AtomDocument(cfg: Settings, doc: ByteString, p: Payload): ParseResult {
    if cfg.strictRoot then
      Parsed(false, Value(p, 0, |doc|), [Error(Token(ErrorToken, 0, |doc|), RootMustBeContainer, None)])
    else Parsed(true, Value(p, 0, |doc|), [])
  }

  lemma OneToken(cfg: Settings, doc: ByteString, kind: TokenType, root: Value, p: Payload)
    requires doc != [] && cfg.stackLimit >= 1 && kind in {NumberToken, StringToken}
    requires TokenAt(cfg, doc, 0) == Token(kind, 0, |doc|) && !IsSpace(doc[0])
    requires IsAtom(cfg, doc, Token(kind, 0, |doc|), p)
    ensures Parse(cfg, doc, root) == AtomDocument(cfg, doc, p)
  {
    hide TokenAt, DecodeFrom, DecodeNumberToken;
    var t := Token(kind, 0, |doc|);
    assert SkipCommentTokens(cfg, doc, 0) == t;
    assert SkipCommentTokens(cfg, doc, |doc|) == Token(EndOfStream, |doc|, |doc|);
    assert ReadScalar(cfg, doc, t, [], root) == Done(true, |doc|, [], Value(p, 0, |doc|));
    NumberPayload(cfg, Text(doc, t));
    assert !p.Array? && !p.Object?;
    hide ReadScalar, IsAtom, JsonLexer.SkipCommentTokens;
    assert ReadValue(cfg, doc, 0, [], 1, root) == Done(true, |doc|, [], Value(p, 0, |doc|));
  }

  /**
   A document that is a number of RFC 8259 is read as that number whatever the settings: as an integer if it is
   one that fits, and otherwise as what the C++ library makes of the whole text.
   */
  lemma NumberDocument(cfg: Settings, n: NumberText, root: Value, p: Payload)
    requires n.Valid() && cfg.stackLimit >= 1 && NumberMeans(cfg, n.Text(), p)
    ensures Parse(cfg, n.Text(), root) == AtomDocument(cfg, n.Text(), p)
  {
    hide Parse, IsAtom, NumberMeans, NumberText.Valid, NumberText.Text, TokenAt;
    var doc := n.Text();
    var t := Token(NumberToken, 0, |doc|);
    assert doc[0..|doc|] == doc;
    var i, j := NumberPlaces(doc, 0, |doc|, n);
    RfcNumberIsRead(cfg, doc, 0, |doc|, n);
    AtomIff(cfg, doc, t, p);
    OneToken(cfg, doc, NumberToken, root, p);
  }

  /** Only a number without fraction and exponent can be read as an integer. */
  lemma IntegerNumberIff(n: NumberText)
    requires n.Valid()
    ensures IntegerOf(n.Text()).Some? <==>
            && n.fraction == [] && n.exponent == []
            && var v: int := if n.minus then 0 - DigitsValue(n.whole) else DigitsValue(n.whole);
            MIN_LARGEST_INT <= v <= MAX_LARGEST_UINT
    ensures IntegerOf(n.Text()).Some? ==>
            IntegerOf(n.Text()).value == if n.minus then 0 - DigitsValue(n.whole) else DigitsValue(n.whole)
  {
    var s := n.Text();
    var digits := n.whole + n.fraction + n.exponent;
    assert n.minus ==> s[1..] == digits;
    assert !n.minus ==> s == digits;
    assert s[0] == MINUS <==> n.minus by { assert digits[0] == n.whole[0]; }
    if n.fraction != [] {
      assert digits[|n.whole|] == 0x2e;
    } else if n.exponent != [] {
      assert digits[|n.whole|] == n.exponent[0];
    } else {
      assert digits == n.whole;
    }
  }

  /** A document that is a literal between quotation marks is read as the string it denotes. */
  lemma StringDocument(cfg: Settings, body: ByteString, s: ByteString, root: Value)
    requires Denotes(body, s) && |s| <= 0x7fff_fffa && cfg.stackLimit >= 1
    ensures var doc := [QUOTE] + body + [QUOTE]; Parse(cfg, doc, root) == AtomDocument(cfg, doc, String(s))
  {
    hide Parse, IsAtom, Denotes, DecodeFrom;
    var doc := [QUOTE] + body + [QUOTE];
    var t := Token(StringToken, 0, |doc|);
    DenotedIsToken(body, s);
    assert TokenAt(cfg, doc, 0) == t;
    assert Text(doc, t) == doc;
    LiteralIff(doc, s);
    AtomIff(cfg, doc, t, String(s));
    OneToken(cfg, doc, StringToken, root, String(s));
  }
}
