/**
 What the tokens of a document are, as properties of its text: section 2 of RFC 8259 with what the code adds to it. A
 number is the longest text of its form, a string ends at its first bare quote, a comment at the first place it can.
 Nothing here says how a token is read; the lexer is proved to find exactly these.
 */
module JsonLexemes {
  import opened Bytes
  import opened JsonValue
  import opened JsonNumbers
  import opened JsonStrings
  import opened JsonLexer

  /** A text of the repertoire of ASCII as bytes. */
  function Ascii(s: string): ByteString {
    seq(|s|, i requires 0 <= i < |s| => s[i] as int % 0x80)
  }

  // ---- numbers ----

  predicate IsFraction(s: ByteString) { s == [] || (s[0] == 0x2e && IsDigits(s[1..])) }

  predicate IsSign(c: Byte) { c == 0x2b || c == 0x2d }

  predicate IsExponent(s: ByteString) {
    || s == []
    || (s[0] in {0x65, 0x45} && (IsDigits(s[1..]) || (|s| >= 2 && IsSign(s[1]) && IsDigits(s[2..]))))
  }

  /** What may stand behind the first character of a number: digits, fraction and exponent, with any digits or none. */
  ghost predicate IsNumberRest(s: ByteString) {
    exists i: nat, j: nat | i <= j <= |s| :: IsDigits(s[..i]) && IsFraction(s[i..j]) && IsExponent(s[j..])
  }

  ghost predicate Longest(doc: ByteString, pos: nat, e: nat)
    requires pos <= e <= |doc|
  {
    IsNumberRest(doc[pos..e]) && forall q | e < q <= |doc| :: !IsNumberRest(doc[pos..q])
  }

  /** The digits of a run, and where it ends. */
  lemma {:induction false} DigitRun(doc: ByteString, pos: nat)
    requires pos <= |doc|
    ensures var q := SkipDigits(doc, pos);
            (forall k | pos <= k < q :: IsDigit(doc[k])) && (q < |doc| ==> !IsDigit(doc[q]))
    decreases |doc| - pos
  {
    if pos < |doc| && IsDigit(doc[pos]) {
      DigitRun(doc, pos + 1);
    }
  }

  lemma SomeDigits(doc: ByteString, pos: nat, q: nat)
    requires pos <= q <= |doc|
    ensures IsDigits(doc[pos..q]) <==> q <= SkipDigits(doc, pos)
  {
    DigitRun(doc, pos);
    var e := SkipDigits(doc, pos);
    if e < q {
      assert doc[pos..q][e - pos] == doc[e];
    }
  }

  /** The parts of a number, by their places in the document. */
  ghost predicate Parts(doc: ByteString, pos: nat, i: nat, j: nat, q: nat)
    requires pos <= i <= j <= q <= |doc|
  {
    IsDigits(doc[pos..i]) && IsFraction(doc[i..j]) && IsExponent(doc[j..q])
  }

  lemma RestByPlaces(doc: ByteString, pos: nat, q: nat)
    requires pos <= q <= |doc|
    ensures IsNumberRest(doc[pos..q]) <==> exists i: nat, j: nat | pos <= i <= j <= q :: Parts(doc, pos, i, j, q)
  {
    hide IsDigits, IsFraction, IsExponent;
    var s := doc[pos..q];
    if IsNumberRest(s) {
      var i: nat, j: nat :| i <= j <= |s| && IsDigits(s[..i]) && IsFraction(s[i..j]) && IsExponent(s[j..]);
      SamePlaces(doc, pos, q, i, j);
      assert Parts(doc, pos, pos + i, pos + j, q);
    }
    if i: nat, j: nat :| pos <= i <= j <= q && Parts(doc, pos, i, j, q) {
      SamePlaces(doc, pos, q, i - pos, j - pos);
      assert IsDigits(s[..i - pos]) && IsFraction(s[i - pos..j - pos]) && IsExponent(s[j - pos..]);
    }
  }

  lemma SamePlaces(doc: ByteString, pos: nat, q: nat, i: nat, j: nat)
    requires pos <= pos + i <= pos + j <= q <= |doc|
    ensures var s := doc[pos..q];
            s[..i] == doc[pos..pos + i] && s[i..j] == doc[pos + i..pos + j] && s[j..] == doc[pos + j..q]
  {
  }

  lemma FractionEnd(doc: ByteString, i: nat, j: nat)
    requires i <= j <= |doc|
    ensures IsFraction(doc[i..j]) <==> i == j || (doc[i] == 0x2e && j <= SkipFraction(doc, i))
  {
    if i < j {
      assert doc[i..j][1..] == doc[i + 1..j];
      SomeDigits(doc, i + 1, j);
    }
  }

  lemma ExponentEnd(doc: ByteString, j: nat, q: nat)
    requires j <= q <= |doc|
    ensures IsExponent(doc[j..q]) <==> j == q || (doc[j] in {0x65, 0x45} && q <= SkipExponent(doc, j))
  {
    if j < q {
      var s := doc[j..q];
      assert s[1..] == doc[j + 1..q];
      SomeDigits(doc, j + 1, q);
      if j + 2 <= q {
        assert s[2..] == doc[j + 2..q] && s[1] == doc[j + 1];
        SomeDigits(doc, j + 2, q);
        hide SkipDigits;
      }
    }
  }

  /** What the three loops of `readNumber` pass over is of that form, and nothing longer is. */
  lemma NumberIsLongest(doc: ByteString, pos: nat)
    requires pos <= |doc|
    ensures Longest(doc, pos, JsonLexer.ReadNumber(doc, pos, false).end)
  {
    var i := SkipDigits(doc, pos);
    var j := SkipFraction(doc, i);
    var e := SkipExponent(doc, j);
    SomeDigits(doc, pos, i);
    FractionEnd(doc, i, j);
    ExponentEnd(doc, j, e);
    assert Parts(doc, pos, i, j, e);
    RestByPlaces(doc, pos, e);
    forall q | e < q <= |doc| ensures !IsNumberRest(doc[pos..q]) {
      NothingLonger(doc, pos, q);
    }
  }

  lemma NothingLonger(doc: ByteString, pos: nat, q: nat)
    requires pos <= |doc| && SkipExponent(doc, SkipFraction(doc, SkipDigits(doc, pos))) < q <= |doc|
    ensures !IsNumberRest(doc[pos..q])
  {
    RestByPlaces(doc, pos, q);
    if IsNumberRest(doc[pos..q]) {
      hide Parts, SkipDigits, SkipFraction, SkipExponent;
      var i: nat, j: nat :| pos <= i <= j <= q && Parts(doc, pos, i, j, q);
      PartsBound(doc, pos, i, j, q);
    }
  }

  lemma PartsBound(doc: ByteString, pos: nat, i: nat, j: nat, q: nat)
    requires pos <= i <= j <= q <= |doc| && Parts(doc, pos, i, j, q)
    ensures q <= SkipExponent(doc, SkipFraction(doc, SkipDigits(doc, pos)))
  {
    SomeDigits(doc, pos, i);
    DigitRun(doc, pos);
    FractionEnd(doc, i, j);
    ExponentEnd(doc, j, q);
    FractionRun(doc, i);
    hide SkipDigits, SkipFraction, SkipExponent, IsDigits, IsFraction, IsExponent;
    var a := SkipDigits(doc, pos);
    if i < a {
      assert IsDigit(doc[i]) && j == i && q == j;
    } else {
      assert i == a;
      var b := SkipFraction(doc, a);
      if j < b {
        if i < j {
          assert IsDigit(doc[j]);
        } else {
          assert doc[i] == 0x2e;
        }
        assert q == j;
      } else {
        assert j == b;
      }
    }
  }

  lemma FractionRun(doc: ByteString, i: nat)
    requires i <= |doc|
    ensures var e := SkipFraction(doc, i);
            && (forall k | i < k < e :: IsDigit(doc[k]))
            && (i < |doc| ==> (i < e <==> doc[i] == 0x2e))
  {
    if i < |doc| {
      DigitRun(doc, i + 1);
    }
  }

  // ---- strings ----

  /** How many reverse solidi stand directly before place `k`, counted back to `pos` at most. */
  function Backslashes(doc: ByteString, pos: nat, k: nat): nat
    requires pos <= k <= |doc|
    decreases k
  {
    if pos < k && doc[k - 1] == 0x5c then 1 + Backslashes(doc, pos, k - 1) else 0
  }

  /** A quote that no reverse solidus escapes. */
  predicate BareQuote(doc: ByteString, pos: nat, k: nat, quote: Byte)
    requires pos <= k < |doc|
  {
    doc[k] == quote && Backslashes(doc, pos, k) % 2 == 0
  }

  ghost predicate FirstBareQuote(doc: ByteString, pos: nat, k: nat, quote: Byte)
    requires pos <= k < |doc|
  {
    BareQuote(doc, pos, k, quote) && forall i | pos <= i < k :: !BareQuote(doc, pos, i, quote)
  }

  lemma {:induction false} BackslashesLater(doc: ByteString, pos: nat, from: nat, k: nat)
    requires pos < from <= k <= |doc|
    requires from == if doc[pos] == 0x5c then pos + 2 else pos + 1
    ensures Backslashes(doc, pos, k) % 2 == Backslashes(doc, from, k) % 2
    decreases k
  {
    if from < k {
      BackslashesLater(doc, pos, from, k - 1);
    } else {
      assert Backslashes(doc, from, k) == 0;
      assert Backslashes(doc, pos, pos) == 0;
      assert Backslashes(doc, pos, pos + 1) == if doc[pos] == 0x5c then 1 else 0;
      assert from == pos + 2 ==> Backslashes(doc, pos, k) == if doc[pos + 1] == 0x5c then 2 else 0;
    }
  }

  /** A string is read up to its first bare quote. */
  lemma {:induction false} StringEnds(doc: ByteString, pos: nat, quote: Byte, k: nat)
    requires pos <= k < |doc| && quote != BACKSLASH
    ensures JsonStrings.ReadString(doc, pos, quote) == Scan(true, k + 1) <==> FirstBareQuote(doc, pos, k, quote)
    decreases |doc| - pos
  {
    var from := if doc[pos] == 0x5c then pos + 2 else pos + 1;
    if doc[pos] == BACKSLASH {
      EscapedPlaces(doc, pos, quote);
    }
    if doc[pos] == quote {
      assert BareQuote(doc, pos, pos, quote);
    } else if from <= k {
      StringEnds(doc, from, quote, k);
      FirstLater(doc, pos, from, quote, k);
    }
  }

  lemma FirstLater(doc: ByteString, pos: nat, from: nat, quote: Byte, k: nat)
    requires pos < from <= k < |doc| && quote != BACKSLASH && doc[pos] != quote
    requires from == if doc[pos] == 0x5c then pos + 2 else pos + 1
    ensures FirstBareQuote(doc, pos, k, quote) <==> FirstBareQuote(doc, from, k, quote)
  {
    if doc[pos] == BACKSLASH {
      EscapedPlaces(doc, pos, quote);
    }
    assert forall i | pos <= i < from :: !BareQuote(doc, pos, i, quote);
    forall i | from <= i <= k
      ensures BareQuote(doc, pos, i, quote) == BareQuote(doc, from, i, quote)
    {
      BackslashesLater(doc, pos, from, i);
    }
    hide BareQuote;
  }

  lemma EscapedPlaces(doc: ByteString, pos: nat, quote: Byte)
    requires pos < |doc| && doc[pos] == BACKSLASH != quote
    ensures !BareQuote(doc, pos, pos, quote)
    ensures pos + 1 < |doc| ==> !BareQuote(doc, pos, pos + 1, quote)
  {
    if pos + 1 < |doc| {
      assert Backslashes(doc, pos, pos + 1) == 1 + Backslashes(doc, pos, pos) == 1;
    }
  }

  // ---- comments ----

  predicate Closes(doc: ByteString, k: nat)
    requires k + 1 < |doc|
  {
    doc[k] == 0x2a && doc[k + 1] == 0x2f
  }

  /**
   A C comment ends at the first closing pair; without one the document itself has to end in a slash, which then
   counts.
   */
  ghost predicate CCommentEnd(doc: ByteString, pos: nat, e: nat)
    requires pos < e <= |doc|
  {
    if exists k :: pos <= k < |doc| - 1 && Closes(doc, k)
    then pos + 2 <= e && Closes(doc, e - 2) && forall k | pos <= k < e - 2 :: !Closes(doc, k)
    else e == |doc| && doc[e - 1] == 0x2f
  }

  predicate LineEnd(c: Byte) { c == 0x0a || c == 0x0d }

  /** A C++ comment ends with its line: behind a line feed, a carriage return or both, or with the document. */
  ghost predicate CppCommentEnd(doc: ByteString, pos: nat, e: nat)
    requires pos <= e <= |doc|
  {
    exists k | pos <= k <= |doc| :: LineOver(doc, pos, k) && e == Behind(doc, k)
  }

  /** The line goes on to place `k` and no further. */
  ghost predicate LineOver(doc: ByteString, pos: nat, k: nat)
    requires pos <= k <= |doc|
  {
    (forall i | pos <= i < k :: !LineEnd(doc[i])) && (k < |doc| ==> LineEnd(doc[k]))
  }

  function Behind(doc: ByteString, k: nat): nat
    requires k <= |doc|
  {
    if k == |doc| then k else if doc[k] == 0x0d && k + 1 < |doc| && doc[k + 1] == 0x0a then k + 2 else k + 1
  }

  lemma {:induction false} CStyleFound(doc: ByteString, pos: nat, k: nat)
    requires pos <= k < |doc| - 1 && Closes(doc, k)
    ensures var stop := CStyleStop(doc, pos);
            && pos < stop < |doc| && Closes(doc, stop - 1) && forall i | pos <= i < stop - 1 :: !Closes(doc, i)
    decreases |doc| - pos
  {
    if !Closes(doc, pos) {
      CStyleFound(doc, pos + 1, k);
    }
  }

  lemma {:induction false} CStyleNotFound(doc: ByteString, pos: nat)
    requires pos < |doc| && forall k | pos <= k < |doc| - 1 :: !Closes(doc, k)
    ensures CStyleStop(doc, pos) == |doc| - 1
    decreases |doc| - pos
  {
    if pos + 1 < |doc| {
      assert !Closes(doc, pos);
      CStyleNotFound(doc, pos + 1);
    }
  }

  lemma CCommentIff(doc: ByteString, pos: nat, e: nat)
    requires pos < |doc| && doc[pos] == 0x2a && e <= |doc|
    ensures ReadComment(doc, pos) == Scan(true, e) <==> pos + 1 < e && CCommentEnd(doc, pos + 1, e)
  {
    hide CStyleStop;
    if k :| pos + 1 <= k < |doc| - 1 && Closes(doc, k) {
      CStyleFound(doc, pos + 1, k);
      var stop := CStyleStop(doc, pos + 1);
      if pos + 3 <= e && Closes(doc, e - 2) && forall i | pos + 1 <= i < e - 2 :: !Closes(doc, i) {
        assert e - 2 == stop - 1;
      }
    } else if pos + 1 < |doc| {
      CStyleNotFound(doc, pos + 1);
    }
  }

  lemma {:induction false} LineEnds(doc: ByteString, pos: nat) returns (k: nat)
    requires pos <= |doc|
    ensures pos <= k <= |doc| && LineOver(doc, pos, k) && CppStyleEnd(doc, pos) == Behind(doc, k)
    decreases |doc| - pos
  {
    if pos == |doc| || LineEnd(doc[pos]) {
      k := pos;
    } else {
      k := LineEnds(doc, pos + 1);
    }
  }

  lemma CppCommentIff(doc: ByteString, pos: nat, e: nat)
    requires pos < |doc| && doc[pos] == 0x2f && e <= |doc|
    ensures ReadComment(doc, pos) == Scan(true, e) <==> pos + 1 <= e && CppCommentEnd(doc, pos + 1, e)
  {
    hide CppStyleEnd;
    var k := LineEnds(doc, pos + 1);
  }

  // ---- all tokens ----

  /** The text from `p` to `e` is the word. */
  predicate Spelled(doc: ByteString, p: nat, e: nat, word: string)
    requires p <= e <= |doc|
  {
    doc[p..e] == Ascii(word)
  }

  /** A digit or a sign and the longest number text behind it; a sign before an `I` begins no number. */
  ghost predicate NumberLexeme(doc: ByteString, p: nat, e: nat)
    requires p < e <= |doc|
  {
    && (IsDigit(doc[p]) || (IsSign(doc[p]) && !(p + 1 < |doc| && doc[p + 1] == 0x49)))
    && Longest(doc, p + 1, e)
  }

  ghost predicate StringLexeme(doc: ByteString, p: nat, e: nat, quote: Byte)
    requires p < e <= |doc|
  {
    doc[p] == quote && p + 2 <= e && FirstBareQuote(doc, p + 1, e - 1, quote)
  }

  /** The first character of a comment is not looked at again. */
  ghost predicate CommentLexeme(doc: ByteString, p: nat, e: nat)
    requires p < e <= |doc|
  {
    || (p + 2 < e && doc[p + 1] == 0x2a && CCommentEnd(doc, p + 2, e))
    || (p + 2 <= e && doc[p + 1] == 0x2f && CppCommentEnd(doc, p + 2, e))
  }

  /** The text from `p` to `e` is a token of that kind. */
  ghost predicate Lexeme(cfg: Settings, doc: ByteString, p: nat, e: nat, kind: TokenType) {
    && p < e <= |doc|
    && match kind
       case EndOfStream => doc[p..e] == [0]
       case ObjectBegin => Spelled(doc, p, e, "{")
       case ObjectEnd => Spelled(doc, p, e, "}")
       case ArrayBegin => Spelled(doc, p, e, "[")
       case ArrayEnd => Spelled(doc, p, e, "]")
       case ArraySeparator => Spelled(doc, p, e, ",")
       case MemberSeparator => Spelled(doc, p, e, ":")
       case TrueToken => Spelled(doc, p, e, "true")
       case FalseToken => Spelled(doc, p, e, "false")
       case NullToken => Spelled(doc, p, e, "null")
       case NaNToken => cfg.allowSpecialFloats && Spelled(doc, p, e, "NaN")
       case PosInfToken =>
         cfg.allowSpecialFloats && (Spelled(doc, p, e, "Infinity") || Spelled(doc, p, e, "+Infinity"))
       case NegInfToken => cfg.allowSpecialFloats && Spelled(doc, p, e, "-Infinity")
       case NumberToken => NumberLexeme(doc, p, e)
       case StringToken =>
         || StringLexeme(doc, p, e, 0x22)
         || (cfg.allowSingleQuotes && StringLexeme(doc, p, e, 0x27))
       case CommentToken =>
         (doc[p] == 0x2f || (doc[p] == 0x27 && !cfg.allowSingleQuotes)) && CommentLexeme(doc, p, e)
       case ErrorToken => false
  }

  lemma Words()
    ensures Ascii("true") == [0x74] + RUE && Ascii("false") == [0x66] + ALSE && Ascii("null") == [0x6e] + ULL
    ensures Ascii("NaN") == [0x4e] + AN && Ascii("Infinity") == [0x49] + NFINITY
    ensures Ascii("+Infinity") == [0x2b, 0x49] + NFINITY && Ascii("-Infinity") == [0x2d, 0x49] + NFINITY
  {
  }

  lemma Marks()
    ensures Ascii("{") == [0x7b] && Ascii("}") == [0x7d] && Ascii("[") == [0x5b] && Ascii("]") == [0x5d]
    ensures Ascii(",") == [0x2c] && Ascii(":") == [0x3a]
  {
  }

  /** A mark of one character. */
  lemma MarkAt(doc: ByteString, p: nat, e: nat, c: Byte)
    requires p < e <= |doc|
    ensures doc[p..e] == [c] <==> e == p + 1 && doc[p] == c
  {
    assert doc[p..e][0] == doc[p];
  }

  /** A word is its first characters and the rest that `match` compares. */
  lemma WordAt(doc: ByteString, p: nat, e: nat, start: ByteString, word: ByteString)
    requires p < e <= |doc| && start != []
    ensures doc[p..e] == start + word <==>
            && p + |start| <= |doc| && doc[p..p + |start|] == start
            && Match(doc, p + |start|, word) && e == p + |start| + |word|
  {
    if doc[p..e] == start + word {
      assert doc[p..e][..|start|] == doc[p..p + |start|];
      assert doc[p..e][|start|..] == doc[p + |start|..e];
    }
    if p + |start| <= |doc| && doc[p..p + |start|] == start && Match(doc, p + |start|, word)
      && e == p + |start| + |word| {
      assert doc[p..e] == doc[p..p + |start|] + doc[p + |start|..e];
    }
  }

  lemma NumberAt(doc: ByteString, p: nat, e: nat)
    requires p < e <= |doc|
    ensures NumberLexeme(doc, p, e) <==>
            && (IsDigit(doc[p]) || (IsSign(doc[p]) && !(p + 1 < |doc| && doc[p + 1] == 0x49)))
            && JsonLexer.ReadNumber(doc, p + 1, false).end == e
  {
    hide IsNumberRest, JsonLexer.ReadNumber;
    NumberIsLongest(doc, p + 1);
    var q := JsonLexer.ReadNumber(doc, p + 1, false).end;
    assert q < e ==> !IsNumberRest(doc[p + 1..e]);
  }

  lemma StringAt(doc: ByteString, p: nat, e: nat, quote: Byte)
    requires p < e <= |doc| && quote != BACKSLASH
    ensures StringLexeme(doc, p, e, quote)
       <==> doc[p] == quote && JsonStrings.ReadString(doc, p + 1, quote) == Scan(true, e)
  {
    if p + 2 <= e {
      StringEnds(doc, p + 1, quote, e - 1);
    }
  }

  lemma CommentAt(doc: ByteString, p: nat, e: nat)
    requires p < e <= |doc|
    ensures CommentLexeme(doc, p, e) <==> ReadComment(doc, p + 1) == Scan(true, e)
  {
    hide CStyleStop, CppStyleEnd;
    if p + 1 < |doc| && doc[p + 1] == 0x2a {
      CCommentIff(doc, p + 1, e);
    } else if p + 1 < |doc| && doc[p + 1] == 0x2f {
      CppCommentIff(doc, p + 1, e);
    }
  }

  /** The first bytes of the words. */
  lemma FirstBytes(doc: ByteString, p: nat, e: nat)
    requires p < e <= |doc|
    ensures Spelled(doc, p, e, "true") ==> doc[p] == 0x74
    ensures Spelled(doc, p, e, "false") ==> doc[p] == 0x66
    ensures Spelled(doc, p, e, "null") ==> doc[p] == 0x6e
    ensures Spelled(doc, p, e, "NaN") ==> doc[p] == 0x4e
    ensures Spelled(doc, p, e, "Infinity") ==> doc[p] == 0x49
    ensures Spelled(doc, p, e, "+Infinity") ==> doc[p] == 0x2b
    ensures Spelled(doc, p, e, "-Infinity") ==> doc[p] == 0x2d
  {
    Words();
    hide Ascii;
    assert doc[p..e][0] == doc[p];
  }

  lemma MarkBytes(doc: ByteString, p: nat, e: nat)
    requires p < e <= |doc|
    ensures Spelled(doc, p, e, "{") <==> e == p + 1 && doc[p] == 0x7b
    ensures Spelled(doc, p, e, "}") <==> e == p + 1 && doc[p] == 0x7d
    ensures Spelled(doc, p, e, "[") <==> e == p + 1 && doc[p] == 0x5b
    ensures Spelled(doc, p, e, "]") <==> e == p + 1 && doc[p] == 0x5d
    ensures Spelled(doc, p, e, ",") <==> e == p + 1 && doc[p] == 0x2c
    ensures Spelled(doc, p, e, ":") <==> e == p + 1 && doc[p] == 0x3a
    ensures doc[p..e] == [0] <==> e == p + 1 && doc[p] == 0
  {
    Marks();
    hide Ascii;
    MarkAt(doc, p, e, doc[p]);
    assert doc[p..e][0] == doc[p];
  }

  lemma MarkLexeme(cfg: Settings, doc: ByteString, p: nat, e: nat, kind: TokenType)
    requires p < e <= |doc| && kind != ErrorToken
    requires doc[p] in {0x7b, 0x7d, 0x5b, 0x5d, 0x2c, 0x3a, 0}
    ensures TokenAt(cfg, doc, p) == Token(kind, p, e) <==> Lexeme(cfg, doc, p, e, kind)
  {
    FirstBytes(doc, p, e);
    MarkBytes(doc, p, e);
    hide Spelled, IsNumberRest, FirstBareQuote, Longest, CCommentEnd, CppCommentEnd;
  }

  lemma SpelledIff(doc: ByteString, p: nat, e: nat, start: ByteString, rest: ByteString, word: string)
    requires p < e <= |doc| && start != [] && Ascii(word) == start + rest
    requires p + |start| <= |doc| && doc[p..p + |start|] == start
    ensures Spelled(doc, p, e, word) <==> Match(doc, p + |start|, rest) && e == p + |start| + |rest|
  {
    WordAt(doc, p, e, start, rest);
  }

  lemma LiteralLexeme(cfg: Settings, doc: ByteString, p: nat, e: nat, kind: TokenType)
    requires p < e <= |doc| && kind != ErrorToken && doc[p] in {0x74, 0x66, 0x6e}
    ensures TokenAt(cfg, doc, p) == Token(kind, p, e) <==> Lexeme(cfg, doc, p, e, kind)
  {
    FirstBytes(doc, p, e);
    MarkBytes(doc, p, e);
    Words();
    assert doc[p..p + 1] == [doc[p]];
    hide Spelled, Ascii, Match, NumberLexeme, IsNumberRest, FirstBareQuote, Longest, CCommentEnd, CppCommentEnd;
    assert !NumberLexeme(doc, p, e) by { NumberAt(doc, p, e); }
    match doc[p]
    case 0x74 => SpelledIff(doc, p, e, [0x74], RUE, "true");
    case 0x66 => SpelledIff(doc, p, e, [0x66], ALSE, "false");
    case _ => SpelledIff(doc, p, e, [0x6e], ULL, "null");
  }

  lemma SpecialLexeme(cfg: Settings, doc: ByteString, p: nat, e: nat, kind: TokenType)
    requires p < e <= |doc| && kind != ErrorToken && doc[p] in {0x4e, 0x49}
    ensures TokenAt(cfg, doc, p) == Token(kind, p, e) <==> Lexeme(cfg, doc, p, e, kind)
  {
    FirstBytes(doc, p, e);
    MarkBytes(doc, p, e);
    Words();
    assert doc[p..p + 1] == [doc[p]];
    hide Spelled, Ascii, Match, NumberLexeme, IsNumberRest, FirstBareQuote, Longest, CCommentEnd, CppCommentEnd;
    assert !NumberLexeme(doc, p, e) by { NumberAt(doc, p, e); }
    if doc[p] == 0x4e {
      SpelledIff(doc, p, e, [0x4e], AN, "NaN");
    } else {
      SpelledIff(doc, p, e, [0x49], NFINITY, "Infinity");
    }
  }

  lemma QuoteOrSlashLexeme(cfg: Settings, doc: ByteString, p: nat, e: nat, kind: TokenType)
    requires p < e <= |doc| && kind != ErrorToken && doc[p] in {0x22, 0x27, 0x2f}
    ensures TokenAt(cfg, doc, p) == Token(kind, p, e) <==> Lexeme(cfg, doc, p, e, kind)
  {
    FirstBytes(doc, p, e);
    MarkBytes(doc, p, e);
    StringAt(doc, p, e, 0x22);
    StringAt(doc, p, e, 0x27);
    CommentAt(doc, p, e);
    assert !NumberLexeme(doc, p, e);
    hide Spelled, NumberLexeme, StringLexeme, CommentLexeme, ReadComment, JsonStrings.ReadString;
  }

  lemma NumberOrInfinityLexeme(cfg: Settings, doc: ByteString, p: nat, e: nat, kind: TokenType)
    requires p < e <= |doc| && kind != ErrorToken && (IsDigit(doc[p]) || IsSign(doc[p]))
    ensures TokenAt(cfg, doc, p) == Token(kind, p, e) <==> Lexeme(cfg, doc, p, e, kind)
  {
    FirstBytes(doc, p, e);
    MarkBytes(doc, p, e);
    NumberAt(doc, p, e);
    Words();
    assert !StringLexeme(doc, p, e, 0x22) && !StringLexeme(doc, p, e, 0x27);
    hide Spelled, Ascii, Match, NumberLexeme, StringLexeme, CommentLexeme;
    if IsSign(doc[p]) {
      SignedLexeme(doc, p, e);
    }
    hide SkipDigits, SkipFraction, SkipExponent;
  }

  lemma SignedLexeme(doc: ByteString, p: nat, e: nat)
    requires p < e <= |doc| && IsSign(doc[p])
    ensures Spelled(doc, p, e, if doc[p] == 0x2b then "+Infinity" else "-Infinity")
       <==> p + 1 < |doc| && doc[p + 1] == 0x49 && Match(doc, p + 2, NFINITY) && e == p + 9
  {
    Words();
    hide Ascii, Match;
    var word := if doc[p] == 0x2b then "+Infinity" else "-Infinity";
    if p + 1 < |doc| && doc[p + 1] == 0x49 {
      SpelledIff(doc, p, e, [doc[p], 0x49], NFINITY, word);
    } else if Spelled(doc, p, e, word) {
      SecondByte(doc, p, e, word);
    }
  }

  lemma SecondByte(doc: ByteString, p: nat, e: nat, word: string)
    requires p < e <= |doc| && Spelled(doc, p, e, word) && |word| >= 2
    ensures p + 2 <= e && doc[p + 1] == Ascii(word)[1]
  {
    assert doc[p..e][1] == doc[p + 1];
  }

  /**
   `readToken` at a character that is no space: a token that is not an error is exactly a lexeme, so that of all
   texts that start there at most one is a token.
   */
  lemma LexemeIff(cfg: Settings, doc: ByteString, p: nat, e: nat, kind: TokenType)
    requires p < |doc| && kind != ErrorToken
    ensures TokenAt(cfg, doc, p) == Token(kind, p, e) <==> Lexeme(cfg, doc, p, e, kind)
  {
    if p < e <= |doc| {
      if doc[p] in {0x7b, 0x7d, 0x5b, 0x5d, 0x2c, 0x3a, 0} {
        MarkLexeme(cfg, doc, p, e, kind);
      } else if doc[p] in {0x74, 0x66, 0x6e} {
        LiteralLexeme(cfg, doc, p, e, kind);
      } else if doc[p] in {0x4e, 0x49} {
        SpecialLexeme(cfg, doc, p, e, kind);
      } else if doc[p] in {0x22, 0x27, 0x2f} {
        QuoteOrSlashLexeme(cfg, doc, p, e, kind);
      } else if IsDigit(doc[p]) || IsSign(doc[p]) {
        NumberOrInfinityLexeme(cfg, doc, p, e, kind);
      } else {
        NoLexeme(cfg, doc, p, e, kind);
      }
    }
  }

  lemma NoLexeme(cfg: Settings, doc: ByteString, p: nat, e: nat, kind: TokenType)
    requires p < e <= |doc| && kind != ErrorToken && !IsDigit(doc[p]) && !IsSign(doc[p])
    requires doc[p] !in {0x7b, 0x7d, 0x5b, 0x5d, 0x2c, 0x3a, 0, 0x74, 0x66, 0x6e, 0x4e, 0x49, 0x22, 0x27, 0x2f}
    ensures TokenAt(cfg, doc, p) == Token(ErrorToken, p, p + 1) && !Lexeme(cfg, doc, p, e, kind)
  {
    FirstBytes(doc, p, e);
    MarkBytes(doc, p, e);
    hide Spelled, IsNumberRest, FirstBareQuote, Longest, CCommentEnd, CppCommentEnd;
  }

  // ---- spaces ----

  predicate Blank(doc: ByteString, pos: nat, p: nat)
    requires pos <= p <= |doc|
  {
    forall i | pos <= i < p :: doc[i] in {0x20, 0x09, 0x0a, 0x0d}
  }

  lemma {:induction false} SpacesAreBlank(doc: ByteString, pos: nat)
    requires pos <= |doc|
    ensures Blank(doc, pos, JsonLexer.SkipSpaces(doc, pos))
    decreases |doc| - pos
  {
    if pos < |doc| && IsSpace(doc[pos]) {
      SpacesAreBlank(doc, pos + 1);
    }
  }

  /** `readToken`: past the blanks, the end of the document or a lexeme. */
  lemma TokenIff(cfg: Settings, doc: ByteString, pos: nat, kind: TokenType, p: nat, e: nat)
    requires pos <= |doc| && kind != ErrorToken
    ensures ReadToken(cfg, doc, pos) == Token(kind, p, e) <==>
            && pos <= p <= |doc| && Blank(doc, pos, p)
            && ((kind == EndOfStream && p == e == |doc|) || Lexeme(cfg, doc, p, e, kind))
  {
    var start := JsonLexer.SkipSpaces(doc, pos);
    SpacesAreBlank(doc, pos);
    if start < |doc| {
      LexemeIff(cfg, doc, start, e, kind);
    }
    if Lexeme(cfg, doc, p, e, kind) {
      NotBlank(cfg, doc, p, e, kind);
    }
    hide Lexeme, TokenAt, JsonLexer.SkipSpaces;
  }

  lemma NotBlank(cfg: Settings, doc: ByteString, p: nat, e: nat, kind: TokenType)
    requires Lexeme(cfg, doc, p, e, kind)
    ensures !IsSpace(doc[p])
  {
    FirstBytes(doc, p, e);
    MarkBytes(doc, p, e);
    hide Spelled, IsNumberRest, FirstBareQuote, Longest, CCommentEnd, CppCommentEnd;
  }
}