/**
 The lexer looks no further than the token it returns: in a piece of a document that holds the token, the same token
 is read at the same place.
 */
module JsonLocality {
  import opened Bytes
  import opened JsonValue
  import opened JsonNumbers
  import opened JsonStrings
  import opened JsonLexer

  /** `part` is the piece of the document that starts at `lo`. */
  predicate Part(doc: ByteString, part: ByteString, lo: nat) {
    lo + |part| <= |doc| && part == doc[lo..lo + |part|]
  }

  function Shifted(t: Token, lo: nat): Token
    requires lo <= t.start <= t.end
  {
    Token(t.kind, t.start - lo, t.end - lo)
  }

  lemma PartAt(doc: ByteString, part: ByteString, lo: nat, q: nat)
    requires Part(doc, part, lo) && q < |part|
    ensures part[q] == doc[lo + q]
  {
  }

  lemma SliceLocal(doc: ByteString, part: ByteString, lo: nat, a: nat, b: nat)
    requires Part(doc, part, lo) && a <= b <= |part|
    ensures part[a..b] == doc[lo + a..lo + b]
  {
    forall k | 0 <= k < b - a ensures part[a..b][k] == doc[lo + a..lo + b][k] {
      PartAt(doc, part, lo, a + k);
    }
  }

  lemma {:induction false} SpacesLocal(doc: ByteString, part: ByteString, lo: nat, q: nat)
    requires Part(doc, part, lo) && q <= |part| && SkipSpaces(doc, lo + q) <= lo + |part|
    ensures SkipSpaces(part, q) == SkipSpaces(doc, lo + q) - lo
    decreases |part| - q
  {
    if q < |part| {
      PartAt(doc, part, lo, q);
      if IsSpace(part[q]) {
        SpacesLocal(doc, part, lo, q + 1);
      }
    }
  }

  lemma {:induction false} DigitsLocal(doc: ByteString, part: ByteString, lo: nat, q: nat)
    requires Part(doc, part, lo) && q <= |part| && SkipDigits(doc, lo + q) <= lo + |part|
    ensures SkipDigits(part, q) == SkipDigits(doc, lo + q) - lo
    decreases |part| - q
  {
    if q < |part| {
      PartAt(doc, part, lo, q);
      if IsDigit(part[q]) {
        DigitsLocal(doc, part, lo, q + 1);
      }
    }
  }

  lemma FractionLocal(doc: ByteString, part: ByteString, lo: nat, q: nat)
    requires Part(doc, part, lo) && q <= |part| && SkipFraction(doc, lo + q) <= lo + |part|
    ensures SkipFraction(part, q) == SkipFraction(doc, lo + q) - lo
  {
    if q < |part| && part[q] == 0x2e {
      DigitsLocal(doc, part, lo, q + 1);
    }
  }

  lemma ExponentLocal(doc: ByteString, part: ByteString, lo: nat, q: nat)
    requires Part(doc, part, lo) && q <= |part| && SkipExponent(doc, lo + q) <= lo + |part|
    ensures SkipExponent(part, q) == SkipExponent(doc, lo + q) - lo
  {
    if q < |part| && (part[q] == 0x65 || part[q] == 0x45) {
      if q + 1 < |part| && (part[q + 1] == 0x2b || part[q + 1] == 0x2d) {
        DigitsLocal(doc, part, lo, q + 2);
      } else {
        DigitsLocal(doc, part, lo, q + 1);
      }
    }
  }

  lemma NumberLocal(doc: ByteString, part: ByteString, lo: nat, q: nat, checkInf: bool)
    requires Part(doc, part, lo) && q <= |part| && ReadNumber(doc, lo + q, checkInf).end <= lo + |part|
    ensures var r := ReadNumber(doc, lo + q, checkInf); ReadNumber(part, q, checkInf) == r.(end := r.end - lo)
  {
    if q < |part| {
      PartAt(doc, part, lo, q);
    }
    if !(checkInf && q < |part| && part[q] == 0x49) {
      hide SkipFraction, SkipExponent;
      DigitsLocal(doc, part, lo, q);
      FractionLocal(doc, part, lo, SkipDigits(part, q));
      ExponentLocal(doc, part, lo, SkipFraction(part, SkipDigits(part, q)));
    }
  }

  lemma {:induction false} StringLocal(doc: ByteString, part: ByteString, lo: nat, q: nat, quote: Byte)
    requires Part(doc, part, lo) && q <= |part| && ReadString(doc, lo + q, quote).end <= lo + |part|
    ensures var r := ReadString(doc, lo + q, quote); ReadString(part, q, quote) == r.(end := r.end - lo)
    decreases |part| - q
  {
    if q < |part| {
      PartAt(doc, part, lo, q);
      if part[q] == BACKSLASH {
        if lo + q + 1 < |doc| {
          StringLocal(doc, part, lo, q + 2, quote);
        }
      } else if part[q] != quote {
        StringLocal(doc, part, lo, q + 1, quote);
      }
    }
  }

  lemma {:induction false} CStyleLocal(doc: ByteString, part: ByteString, lo: nat, q: nat)
    requires Part(doc, part, lo) && q <= |part| && CStyleStop(doc, lo + q) <= lo + |part|
    requires CStyleStop(doc, lo + q) < |doc| ==> CStyleStop(doc, lo + q) < lo + |part|
    ensures CStyleStop(part, q) == CStyleStop(doc, lo + q) - lo
    decreases |part| - q
  {
    if q + 1 < |part| {
      PartAt(doc, part, lo, q);
      PartAt(doc, part, lo, q + 1);
      if !(part[q] == 0x2a && part[q + 1] == 0x2f) {
        CStyleLocal(doc, part, lo, q + 1);
      }
    }
  }

  lemma {:induction false} CppStyleLocal(doc: ByteString, part: ByteString, lo: nat, q: nat)
    requires Part(doc, part, lo) && q <= |part| && CppStyleEnd(doc, lo + q) <= lo + |part|
    ensures CppStyleEnd(part, q) == CppStyleEnd(doc, lo + q) - lo
    decreases |part| - q
  {
    if q < |part| {
      PartAt(doc, part, lo, q);
      if part[q] != 0x0a && part[q] != 0x0d {
        CppStyleLocal(doc, part, lo, q + 1);
      }
    }
  }

  lemma CommentLocal(doc: ByteString, part: ByteString, lo: nat, q: nat)
    requires Part(doc, part, lo) && q <= |part| && ReadComment(doc, lo + q).end <= lo + |part|
    ensures ReadComment(part, q) == ReadComment(doc, lo + q).(end := ReadComment(doc, lo + q).end - lo)
  {
    if q < |part| {
      PartAt(doc, part, lo, q);
      if part[q] == 0x2a {
        CStyleLocal(doc, part, lo, q + 1);
      } else if part[q] == 0x2f {
        CppStyleLocal(doc, part, lo, q + 1);
      }
    }
  }

  lemma WordLocal(doc: ByteString, part: ByteString, lo: nat, start: nat, q: nat, kind: TokenType, word: ByteString,
                  allowed: bool)
    requires Part(doc, part, lo) && start < q <= |part| && kind != EndOfStream && kind != ErrorToken
    requires Word(doc, lo + start, lo + q, kind, word, allowed).end <= lo + |part|
    ensures Word(part, start, q, kind, word, allowed) == Shifted(Word(doc, lo + start, lo + q, kind, word, allowed), lo)
  {
    if q + |word| <= |part| {
      SliceLocal(doc, part, lo, q, q + |word|);
    }
  }

  lemma SignedLocal(cfg: Settings, doc: ByteString, part: ByteString, lo: nat, q: nat, infinity: TokenType)
    requires Part(doc, part, lo) && q < |part| && infinity != EndOfStream && infinity != ErrorToken
    requires SignedToken(cfg, doc, lo + q, infinity).end <= lo + |part|
    ensures SignedToken(cfg, part, q, infinity) == Shifted(SignedToken(cfg, doc, lo + q, infinity), lo)
  {
    hide ReadNumber, Word;
    NumberLocal(doc, part, lo, q + 1, true);
    var r := ReadNumber(part, q + 1, true);
    if !r.ok {
      WordLocal(doc, part, lo, q, r.end, infinity, NFINITY, cfg.allowSpecialFloats);
    }
  }

  lemma TokenLocal(cfg: Settings, doc: ByteString, part: ByteString, lo: nat, q: nat)
    requires Part(doc, part, lo) && q < |part| && TokenAt(cfg, doc, lo + q).end <= lo + |part|
    ensures TokenAt(cfg, part, q) == Shifted(TokenAt(cfg, doc, lo + q), lo)
  {
    hide ReadNumber, ReadString, ReadComment, Word, SignedToken;
    PartAt(doc, part, lo, q);
    var c, p := part[q], q + 1;
    if c == 0x22 {
      StringLocal(doc, part, lo, p, QUOTE);
    } else if c == 0x27 && cfg.allowSingleQuotes {
      StringLocal(doc, part, lo, p, 0x27);
    } else if c == 0x27 || c == 0x2f {
      CommentLocal(doc, part, lo, p);
    } else if c == 0x2d {
      SignedLocal(cfg, doc, part, lo, q, NegInfToken);
    } else if c == 0x2b {
      SignedLocal(cfg, doc, part, lo, q, PosInfToken);
    } else if IsDigit(c) {
      NumberLocal(doc, part, lo, p, false);
    } else {
      WordTokenLocal(cfg, doc, part, lo, q);
    }
  }

  /** The words, and the tokens of one character. */
  lemma WordTokenLocal(cfg: Settings, doc: ByteString, part: ByteString, lo: nat, q: nat)
    requires Part(doc, part, lo) && q < |part| && TokenAt(cfg, doc, lo + q).end <= lo + |part|
    requires var c := part[q]; c !in {0x22, 0x27, 0x2f, 0x2d, 0x2b} && !IsDigit(c)
    ensures TokenAt(cfg, part, q) == Shifted(TokenAt(cfg, doc, lo + q), lo)
  {
    hide ReadNumber, ReadString, ReadComment, Word, SignedToken;
    PartAt(doc, part, lo, q);
    var c, p := part[q], q + 1;
    match c
    case 0x74 => WordLocal(doc, part, lo, q, p, TrueToken, RUE, true);
    case 0x66 => WordLocal(doc, part, lo, q, p, FalseToken, ALSE, true);
    case 0x6e => WordLocal(doc, part, lo, q, p, NullToken, ULL, true);
    case 0x4e => WordLocal(doc, part, lo, q, p, NaNToken, AN, cfg.allowSpecialFloats);
    case 0x49 => WordLocal(doc, part, lo, q, p, PosInfToken, NFINITY, cfg.allowSpecialFloats);
    case _ =>
  }

  /** The same settings, except perhaps for what the root has to be. */
  ghost predicate Alike(cfg: Settings, other: Settings) { other == cfg.(strictRoot := other.strictRoot) }

  lemma TokenAlike(cfg: Settings, other: Settings, doc: ByteString, q: nat)
    requires Alike(cfg, other) && q < |doc|
    ensures TokenAt(other, doc, q) == TokenAt(cfg, doc, q)
  {
  }

  lemma ReadTokenLocal(cfg: Settings, other: Settings, doc: ByteString, part: ByteString, lo: nat, pos: nat)
    requires Part(doc, part, lo) && Alike(cfg, other)
    requires lo <= pos <= lo + |part| && ReadToken(cfg, doc, pos).end <= lo + |part|
    ensures ReadToken(other, part, pos - lo) == Shifted(ReadToken(cfg, doc, pos), lo)
  {
    hide TokenAt;
    SpacesLocal(doc, part, lo, pos - lo);
    var p := SkipSpaces(part, pos - lo);
    if p < |part| {
      TokenLocal(cfg, doc, part, lo, p);
      TokenAlike(cfg, other, part, p);
    }
  }

  lemma {:induction false} NextTokenLocal(cfg: Settings, other: Settings, doc: ByteString, part: ByteString, lo: nat,
                                          pos: nat)
    requires Part(doc, part, lo) && Alike(cfg, other)
    requires lo <= pos <= lo + |part| && NextToken(cfg, doc, pos).end <= lo + |part|
    ensures NextToken(other, part, pos - lo) == Shifted(NextToken(cfg, doc, pos), lo)
    decreases |doc| - pos
  {
    hide ReadToken;
    ReadTokenLocal(cfg, other, doc, part, lo, pos);
    if ReadToken(cfg, doc, pos).kind == CommentToken {
      NextTokenLocal(cfg, other, doc, part, lo, ReadToken(cfg, doc, pos).end);
    }
  }

  lemma SkipCommentsLocal(cfg: Settings, other: Settings, doc: ByteString, part: ByteString, lo: nat, pos: nat)
    requires Part(doc, part, lo) && Alike(cfg, other)
    requires lo <= pos <= lo + |part| && SkipCommentTokens(cfg, doc, pos).end <= lo + |part|
    ensures SkipCommentTokens(other, part, pos - lo) == Shifted(SkipCommentTokens(cfg, doc, pos), lo)
  {
    hide ReadToken, NextToken;
    if cfg.allowComments {
      NextTokenLocal(cfg, other, doc, part, lo, pos);
    } else {
      ReadTokenLocal(cfg, other, doc, part, lo, pos);
    }
  }

  lemma TextLocal(doc: ByteString, part: ByteString, lo: nat, t: Token)
    requires Part(doc, part, lo) && lo <= t.start <= t.end <= lo + |part|
    ensures Text(part, Shifted(t, lo)) == Text(doc, t)
  {
    SliceLocal(doc, part, lo, t.start - lo, t.end - lo);
  }

  /** The token that is read is read again from where it starts. */
  lemma {:induction false} TokenAgain(cfg: Settings, doc: ByteString, pos: nat)
    requires pos <= |doc|
    ensures ReadToken(cfg, doc, ReadToken(cfg, doc, pos).start) == ReadToken(cfg, doc, pos)
    ensures NextToken(cfg, doc, NextToken(cfg, doc, pos).start) == NextToken(cfg, doc, pos)
    ensures SkipCommentTokens(cfg, doc, SkipCommentTokens(cfg, doc, pos).start) == SkipCommentTokens(cfg, doc, pos)
    decreases |doc| - pos
  {
    hide TokenAt;
    var t := ReadToken(cfg, doc, pos);
    assert SkipSpaces(doc, t.start) == t.start;
    if t.kind == CommentToken {
      TokenAgain(cfg, doc, t.end);
    }
  }
}
