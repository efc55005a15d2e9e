/** The reader reads every spelling of a value, and gives back the value. */
module JsonRoundTrip {
  import opened Bytes
  import opened JsonValue
  import opened JsonNumbers
  import opened JsonUnicode
  import opened JsonStrings
  import opened JsonLexer
  import opened JsonParser
  import opened JsonText

  // ---- single tokens ----

  predicate IsIntegerText(tok: ByteString) {
    |tok| > 0 && (tok[0] == MINUS ==> |tok| > 1) && IsDigits(if tok[0] == MINUS then tok[1..] else tok)
  }

  /** The kinds of token a writer prints. */
  predicate Lexes(tok: ByteString, kind: TokenType) {
    match kind
    case ObjectBegin => tok == LBRACE
    case ObjectEnd => tok == RBRACE
    case ArrayBegin => tok == LBRACKET
    case ArrayEnd => tok == RBRACKET
    case ArraySeparator => tok == COMMA
    case MemberSeparator => tok == COLON
    case NullToken => tok == NULL_TEXT
    case TrueToken => tok == TRUE_TEXT
    case FalseToken => tok == FALSE_TEXT
    case StringToken => |tok| >= 2 && tok[0] == QUOTE && Accepted(tok, 1)
    case NumberToken => IsIntegerText(tok)
    case _ => false
  }

  /** No more of a number. */
  predicate NotInNumber(c: Byte) { !IsDigit(c) && c != 0x2e && c != 0x65 && c != 0x45 }

  /** What may follow a value: nothing, or a token that does not go on with a number. */
  predicate Follows(rest: seq<ByteString>) {
    rest == [] || (rest[0] != [] && NotInNumber(rest[0][0]))
  }

  predicate EndsNumber(doc: ByteString, at: nat) { at < |doc| ==> NotInNumber(doc[at]) }

  lemma {:induction false} StringInDocument(doc: ByteString, p: nat, tok: ByteString, i: nat, quote: Byte)
    requires p + |tok| <= |doc| && doc[p..p + |tok|] == tok
    requires i <= |tok| && ReadString(tok, i, quote) == Scan(true, |tok|)
    ensures ReadString(doc, p + i, quote) == Scan(true, p + |tok|)
    decreases |tok| - i
  {
    assert doc[p + i] == tok[i];
    if tok[i] == BACKSLASH {
      StringInDocument(doc, p, tok, i + 2, quote);
    } else if tok[i] != quote {
      StringInDocument(doc, p, tok, i + 1, quote);
    }
  }

  lemma {:induction false} DigitsInDocument(doc: ByteString, pos: nat, end: nat)
    requires pos <= end <= |doc| && IsDigits(doc[pos..end]) && EndsNumber(doc, end)
    ensures SkipDigits(doc, pos) == end
    decreases end - pos
  {
    if pos < end {
      assert doc[pos] == doc[pos..end][0];
      assert doc[pos + 1..end] == doc[pos..end][1..];
      DigitsInDocument(doc, pos + 1, end);
    }
  }

  lemma WordInDocument(doc: ByteString, p: nat, tok: ByteString)
    requires p + |tok| <= |doc| && doc[p..p + |tok|] == tok && |tok| > 0
    ensures doc[p] == tok[0] && Match(doc, p + 1, tok[1..])
  {
    assert doc[p + 1..p + |tok|] == doc[p..p + |tok|][1..];
  }

  /** A printed token is lexed whole, wherever it stands. */
  lemma TokenIsLexed(cfg: Settings, doc: ByteString, p: nat, tok: ByteString, kind: TokenType)
    requires |tok| > 0 && p + |tok| <= |doc| && doc[p..p + |tok|] == tok
    requires Lexes(tok, kind)
    requires kind == NumberToken ==> EndsNumber(doc, p + |tok|)
    ensures TokenAt(cfg, doc, p) == Token(kind, p, p + |tok|)
    ensures !IsSpace(tok[0])
  {
    WordInDocument(doc, p, tok);
    if kind == StringToken {
      StringInDocument(doc, p, tok, 1, QUOTE);
    } else if kind == NumberToken {
      NumberIsLexed(cfg, doc, p, tok);
    } else {
      assert NULL_TEXT[1..] == ULL && TRUE_TEXT[1..] == RUE && FALSE_TEXT[1..] == ALSE;
    }
  }

  lemma NumberIsLexed(cfg: Settings, doc: ByteString, p: nat, tok: ByteString)
    requires p + |tok| <= |doc| && doc[p..p + |tok|] == tok && IsIntegerText(tok) && EndsNumber(doc, p + |tok|)
    ensures TokenAt(cfg, doc, p) == Token(NumberToken, p, p + |tok|)
    ensures !IsSpace(tok[0])
  {
    var q := p + |tok|;
    assert tok[0] == MINUS || IsDigit(tok[0]);
    assert doc[p] == tok[0] && doc[p + 1..q] == tok[1..];
    hide Match, ReadComment, ReadString;
    DigitsInDocument(doc, p + 1, q);
    if tok[0] == MINUS {
      assert IsDigit(tok[1..][0]) && doc[p + 1] == tok[1];
    }
    assert ReadNumber(doc, p + 1, tok[0] == MINUS) == Scan(true, q);
  }

  /** At the start of a spelling, the first token is read and the rest is spelled after it. */
  lemma FirstTokenRead(cfg: Settings, doc: ByteString, pos: nat, tok: ByteString, kind: TokenType,
                       rest: seq<ByteString>)
    requires pos <= |doc| && |tok| > 0 && Spells(doc, pos, [tok] + rest)
    requires Lexes(tok, kind) && (kind == NumberToken ==> Follows(rest))
    ensures var p := SkipSpaces(doc, pos);
            && p + |tok| <= |doc| && doc[p..p + |tok|] == tok && Spells(doc, p + |tok|, rest)
            && ReadToken(cfg, doc, pos) == Token(kind, p, p + |tok|)
            && NextToken(cfg, doc, pos) == Token(kind, p, p + |tok|)
            && SkipCommentTokens(cfg, doc, pos) == Token(kind, p, p + |tok|)
  {
    hide TokenAt, Lexes;
    var p := SkipSpaces(doc, pos);
    assert ([tok] + rest)[0] == tok && ([tok] + rest)[1..] == rest;
    if kind == NumberToken {
      NumberEnds(doc, p + |tok|, rest);
    }
    TokenIsLexed(cfg, doc, p, tok, kind);
    assert kind != CommentToken by {
      NotAComment(tok, kind);
    }
  }

  lemma NotAComment(tok: ByteString, kind: TokenType)
    requires Lexes(tok, kind)
    ensures kind != CommentToken && kind != EndOfStream && kind != ErrorToken
  {
  }

  lemma NumberEnds(doc: ByteString, at: nat, rest: seq<ByteString>)
    requires at <= |doc| && Spells(doc, at, rest) && Follows(rest)
    ensures EndsNumber(doc, at)
  {
    var p := SkipSpaces(doc, at);
    if rest != [] && p == at {
      assert doc[p] == doc[p..p + |rest[0]|][0];
    }
  }

  // ---- values ----

  /** The reader succeeded, added no error, read `canon` and left `rest` to be read. */
  predicate Reads(doc: ByteString, o: Outcome, errors: seq<Error>, canon: Value, rest: seq<ByteString>) {
    && o.Done? && o.ok && o.errors == errors && o.pos <= |doc|
    && Plain(o.value) == canon
    && Spells(doc, o.pos, rest)
  }

  lemma IntegerTextIsNumber(v: int)
    ensures IsIntegerText(IntegerText(v))
  {
    var s := IntegerText(v);
    if v < 0 {
      assert s[1..] == Decimal(-v);
    } else {
      assert IsDigit(s[0]);
    }
  }

  lemma TextInDocument(doc: ByteString, p: nat, tok: ByteString, kind: TokenType)
    requires p + |tok| <= |doc| && doc[p..p + |tok|] == tok
    ensures Text(doc, Token(kind, p, p + |tok|)) == tok
  {
  }

  /** A value that is one token. */
  lemma ReadsScalar(cfg: Settings, doc: ByteString, pos: nat, errors: seq<Error>, depth: nat, prior: Value, v: Value,
                    emitUTF8: bool, rest: seq<ByteString>)
    requires !v.payload.Array? && !v.payload.Object? && Writable(v, emitUTF8)
    requires pos <= |doc| && Spells(doc, pos, Tokens(v, emitUTF8) + rest) && Follows(rest)
    requires depth <= cfg.stackLimit
    ensures Reads(doc, ReadValue(cfg, doc, pos, errors, depth, prior), errors, Canon(v), rest)
  {
    hide Spells, ReadValue, Reads, Quoted, IntegerText;
    var tok := Tokens(v, emitUTF8)[0];
    assert Tokens(v, emitUTF8) == [tok];
    match v.payload {
      case Int(i) => ReadsInteger(cfg, doc, pos, errors, depth, prior, v, i, rest);
      case UInt(u) => ReadsInteger(cfg, doc, pos, errors, depth, prior, v, u, rest);
      case String(s) => ReadsString(cfg, doc, pos, errors, depth, prior, v, s, emitUTF8, rest);
      case _ => ReadsWord(cfg, doc, pos, errors, depth, prior, v, emitUTF8, rest);
    }
  }

  lemma ReadsInteger(cfg: Settings, doc: ByteString, pos: nat, errors: seq<Error>, depth: nat, prior: Value, v: Value,
                     i: int, rest: seq<ByteString>)
    requires (v.payload.Int? && v.payload.i == i) || (v.payload.UInt? && v.payload.u == i)
    requires pos <= |doc| && Spells(doc, pos, [IntegerText(i)] + rest) && Follows(rest) && depth <= cfg.stackLimit
    ensures Reads(doc, ReadValue(cfg, doc, pos, errors, depth, prior), errors, Canon(v), rest)
  {
    hide Spells, ReadToken, NextToken, SkipCommentTokens, DecodeFrom, IntegerText, IntegerOf, IsIntegerText;
    var tok := IntegerText(i);
    IntegerTextIsNumber(i);
    IntegerTextRoundTrip(i);
    IntegerTextNotEmpty(i);
    FirstTokenRead(cfg, doc, pos, tok, NumberToken, rest);
    TextInDocument(doc, SkipSpaces(doc, pos), tok, NumberToken);
  }

  lemma ReadsString(cfg: Settings, doc: ByteString, pos: nat, errors: seq<Error>, depth: nat, prior: Value, v: Value,
                    s: ByteString, emitUTF8: bool, rest: seq<ByteString>)
    requires v.payload == String(s) && Preserved(s, emitUTF8) && |s| <= MAX_STRING_LENGTH
    requires pos <= |doc| && Spells(doc, pos, [Quoted(s, emitUTF8)] + rest) && depth <= cfg.stackLimit
    ensures Reads(doc, ReadValue(cfg, doc, pos, errors, depth, prior), errors, Canon(v), rest)
  {
    hide Spells, ReadToken, NextToken, SkipCommentTokens, DecodeFrom, Reencoded, Quoted, Accepted, Preserved;
    QuotedIsRead(s, emitUTF8);
    FirstTokenRead(cfg, doc, pos, Quoted(s, emitUTF8), StringToken, rest);
    TextInDocument(doc, SkipSpaces(doc, pos), Quoted(s, emitUTF8), StringToken);
  }

  lemma ReadsWord(cfg: Settings, doc: ByteString, pos: nat, errors: seq<Error>, depth: nat, prior: Value, v: Value,
                  emitUTF8: bool, rest: seq<ByteString>)
    requires v.payload.Null? || v.payload.Bool?
    requires pos <= |doc| && Spells(doc, pos, Tokens(v, emitUTF8) + rest) && depth <= cfg.stackLimit
    ensures Reads(doc, ReadValue(cfg, doc, pos, errors, depth, prior), errors, Canon(v), rest)
  {
    hide Spells, ReadToken, NextToken, SkipCommentTokens, DecodeFrom;
    match v.payload
    case Null => FirstTokenRead(cfg, doc, pos, NULL_TEXT, NullToken, rest);
    case Bool(b) =>
      FirstTokenRead(cfg, doc, pos, if b then TRUE_TEXT else FALSE_TEXT, if b then TrueToken else FalseToken, rest);
  }

  lemma IntegerTextNotEmpty(v: int)
    ensures |IntegerText(v)| > 0
  {
  }

  /** A preserved text, quoted, is a string token that decodes to the text. */
  lemma QuotedIsRead(s: ByteString, emitUTF8: bool)
    requires Preserved(s, emitUTF8)
    ensures Lexes(Quoted(s, emitUTF8), StringToken)
    ensures DecodeFrom(Quoted(s, emitUTF8), 1, []).Decoded? && DecodeFrom(Quoted(s, emitUTF8), 1, []).value == s
  {
    QuotedDecodes(s, emitUTF8);
    if emitUTF8 {
      EmittedIsIdentity(s);
    } else {
      AsciiRoundTripIff(s);
    }
  }

  // ---- containers ----

  /** The loop of a container succeeded and added the entries `more` to those it had. */
  predicate Extends(doc: ByteString, o: Outcome, errors: seq<Error>, acc: Value, more: ObjectValues,
                    rest: seq<ByteString>)
    requires acc.payload.Object? || acc.payload.Array?
  {
    && o.Done? && o.ok && o.errors == errors && o.pos <= |doc|
    && (if acc.payload.Object? then o.value.payload.Object? else o.value.payload.Array?)
    && PlainMap(o.value.payload.values) == Append(PlainMap(acc.payload.values), more)
    && Spells(doc, o.pos, rest)
  }

  lemma {:induction false} PlainAppend(m: ObjectValues, n: ObjectValues)
    ensures PlainMap(Append(m, n)) == Append(PlainMap(m), PlainMap(n))
  {
    if m.Entry? {
      PlainAppend(m.rest, n);
    }
  }

  /** An entry above all others is appended; it was not there before. */
  lemma NewEntry(acc: Value, key: CZString, child: Value, canon: Value, more: ObjectValues)
    requires (acc.payload.Object? || acc.payload.Array?) && AllBelow(acc.payload.values, key)
    requires Plain(child) == canon
    ensures Lookup(acc.payload.values, key) == None && Get(acc.payload.values, key) == NULL_SINGLETON
    ensures var w := WithEntry(acc, key, child);
            && w.payload.values == Append(acc.payload.values, Entry(key, child, Empty))
            && Append(PlainMap(w.payload.values), more) == Append(PlainMap(acc.payload.values), Entry(key, canon, more))
  {
    PutLast(acc.payload.values, key, child);
    PlainAppend(acc.payload.values, Entry(key, child, Empty));
    AppendAssociative(PlainMap(acc.payload.values), Entry(key, canon, Empty), more);
  }

  /** The first token of a value is neither a separator nor a closing bracket. */
  lemma FirstOfValue(v: Value, emitUTF8: bool)
    requires Writable(v, emitUTF8)
    ensures |Tokens(v, emitUTF8)| > 0 && |Tokens(v, emitUTF8)[0]| > 0
    ensures Tokens(v, emitUTF8)[0][0] != 0x5d
  {
    if v.payload.Int? {
      IntegerTextIsNumber(v.payload.i);
    } else if v.payload.UInt? {
      IntegerTextIsNumber(v.payload.u);
    }
  }

  lemma NotAtBracket(doc: ByteString, pos: nat, toks: seq<ByteString>)
    requires pos <= |doc| && Spells(doc, pos, toks) && |toks| > 0 && |toks[0]| > 0 && toks[0][0] != 0x5d
    ensures var p := SkipSpaces(doc, pos); p < |doc| && doc[p] != 0x5d
  {
    var p := SkipSpaces(doc, pos);
    assert doc[p] == doc[p..p + |toks[0]|][0];
  }

  lemma SpacesSkipped(doc: ByteString, pos: nat, toks: seq<ByteString>)
    requires pos <= |doc|
    ensures Spells(doc, SkipSpaces(doc, pos), toks) == Spells(doc, pos, toks)
  {
  }

  lemma {:induction false} ReadsValue(cfg: Settings, doc: ByteString, pos: nat, errors: seq<Error>, depth: nat,
                                      prior: Value, v: Value, emitUTF8: bool, rest: seq<ByteString>)
    requires Writable(v, emitUTF8)
    requires pos <= |doc| && Spells(doc, pos, Tokens(v, emitUTF8) + rest) && Follows(rest)
    requires depth + Depth(v) <= cfg.stackLimit + 1
    ensures Reads(doc, ReadValue(cfg, doc, pos, errors, depth, prior), errors, Canon(v), rest)
    decreases Weight(v), 1
  {
    hide Spells, ReadValue, Reads, Canon, Tokens;
    if v.payload.Array? {
      ReadsArray(cfg, doc, pos, errors, depth, prior, v, emitUTF8, rest);
    } else if v.payload.Object? {
      ReadsObject(cfg, doc, pos, errors, depth, prior, v, emitUTF8, rest);
    } else {
      ReadsScalar(cfg, doc, pos, errors, depth, prior, v, emitUTF8, rest);
    }
  }

  /** The tokens of a container with what follows it, first token apart. */
  lemma ContainerTokens(v: Value, emitUTF8: bool, rest: seq<ByteString>)
    ensures v.payload.Array? ==>
              var size := ArraySize(v.payload.values);
              Tokens(v, emitUTF8) + rest
              == [LBRACKET] + ((if size == 0 then [] else ElementTokens(v.payload.values, 0, size, emitUTF8))
                               + ([RBRACKET] + rest))
    ensures v.payload.Object? ==>
              Tokens(v, emitUTF8) + rest == [LBRACE] + (MemberTokens(v.payload.values, emitUTF8) + ([RBRACE] + rest))
  {
    if v.payload.Array? {
      var size := ArraySize(v.payload.values);
      var inner := if size == 0 then [] else ElementTokens(v.payload.values, 0, size, emitUTF8);
      assert [LBRACKET] + inner + [RBRACKET] + rest == [LBRACKET] + (inner + ([RBRACKET] + rest));
    } else if v.payload.Object? {
      var inner := MemberTokens(v.payload.values, emitUTF8);
      assert [LBRACE] + inner + [RBRACE] + rest == [LBRACE] + (inner + ([RBRACE] + rest));
    }
  }

  lemma NoMembers(emitUTF8: bool)
    ensures MemberTokens(Empty, emitUTF8) == []
  {
  }

  lemma Regroup(s: seq<ByteString>, t: seq<ByteString>, u: seq<ByteString>)
    ensures s + t + u == s + (t + u) && [] + u == u
  {
  }

  /** The opening bracket is read; what happens next is up to the entries, spelled from after it. */
  lemma ArrayHead(cfg: Settings, doc: ByteString, pos: nat, errors: seq<Error>, depth: nat, prior: Value, v: Value,
                  emitUTF8: bool, rest: seq<ByteString>)
    requires v.payload.Array? && depth <= cfg.stackLimit
    requires pos <= |doc| && Spells(doc, pos, Tokens(v, emitUTF8) + rest)
    ensures var m, p := v.payload.values, SkipSpaces(doc, pos);
            && p + 1 <= |doc|
            && Spells(doc, p + 1, (if ArraySize(m) == 0 then [] else ElementTokens(m, 0, ArraySize(m), emitUTF8))
                      + ([RBRACKET] + rest))
            && ReadValue(cfg, doc, pos, errors, depth, prior)
            == WithLimit(ReadElements(cfg, doc, p + 1, errors, depth, Value(Array(Empty), p, prior.limit), 0))
  {
    hide Spells, ReadToken, NextToken, SkipCommentTokens, SkipSpaces, ReadElements, Tokens, ElementTokens;
    hide ArraySize, WithLimit;
    var m := v.payload.values;
    ContainerTokens(v, emitUTF8, rest);
    FirstTokenRead(cfg, doc, pos, LBRACKET, ArrayBegin,
                   (if ArraySize(m) == 0 then [] else ElementTokens(m, 0, ArraySize(m), emitUTF8))
                     + ([RBRACKET] + rest));
  }

  lemma ObjectHead(cfg: Settings, doc: ByteString, pos: nat, errors: seq<Error>, depth: nat, prior: Value, v: Value,
                   emitUTF8: bool, rest: seq<ByteString>)
    requires v.payload.Object? && depth <= cfg.stackLimit
    requires pos <= |doc| && Spells(doc, pos, Tokens(v, emitUTF8) + rest)
    ensures var m, p := v.payload.values, SkipSpaces(doc, pos);
            && p + 1 <= |doc| && Spells(doc, p + 1, MemberTokens(m, emitUTF8) + ([RBRACE] + rest))
            && ReadValue(cfg, doc, pos, errors, depth, prior)
            == WithLimit(ReadMembers(cfg, doc, p + 1, errors, depth, Value(Object(Empty), p, prior.limit), []))
  {
    hide Spells, ReadToken, NextToken, SkipCommentTokens, SkipSpaces, ReadMembers, Tokens, MemberTokens, WithLimit;
    ContainerTokens(v, emitUTF8, rest);
    FirstTokenRead(cfg, doc, pos, LBRACE, ObjectBegin, MemberTokens(v.payload.values, emitUTF8) + ([RBRACE] + rest));
  }

  lemma ReadsArray(cfg: Settings, doc: ByteString, pos: nat, errors: seq<Error>, depth: nat, prior: Value, v: Value,
                   emitUTF8: bool, rest: seq<ByteString>)
    requires v.payload.Array? && Writable(v, emitUTF8)
    requires pos <= |doc| && Spells(doc, pos, Tokens(v, emitUTF8) + rest)
    requires depth + Depth(v) <= cfg.stackLimit + 1
    ensures Reads(doc, ReadValue(cfg, doc, pos, errors, depth, prior), errors, Canon(v), rest)
    decreases Weight(v), 0
  {
    hide Spells, ReadValue, SkipSpaces, ReadElements, Tokens, ElementTokens, ArraySize, Sorted;
    var m, p := v.payload.values, SkipSpaces(doc, pos);
    ArrayHead(cfg, doc, pos, errors, depth, prior, v, emitUTF8, rest);
    var acc := Value(Array(Empty), p, prior.limit);
    EmptyArraySize(m, emitUTF8);
    if m.Empty? {
      Regroup([], [], [RBRACKET] + rest);
      ReadsEmptyArray(cfg, doc, p + 1, errors, depth, acc, rest);
    } else {
      ReadsElements(cfg, doc, p + 1, errors, depth, acc, m, 0, ArraySize(m), emitUTF8, rest);
    }
  }

  lemma ReadsObject(cfg: Settings, doc: ByteString, pos: nat, errors: seq<Error>, depth: nat, prior: Value, v: Value,
                    emitUTF8: bool, rest: seq<ByteString>)
    requires v.payload.Object? && Writable(v, emitUTF8)
    requires pos <= |doc| && Spells(doc, pos, Tokens(v, emitUTF8) + rest)
    requires depth + Depth(v) <= cfg.stackLimit + 1
    ensures Reads(doc, ReadValue(cfg, doc, pos, errors, depth, prior), errors, Canon(v), rest)
    decreases Weight(v), 0
  {
    hide Spells, ReadValue, SkipSpaces, ReadMembers, Tokens, MemberTokens, Sorted;
    var m, p := v.payload.values, SkipSpaces(doc, pos);
    ObjectHead(cfg, doc, pos, errors, depth, prior, v, emitUTF8, rest);
    var acc := Value(Object(Empty), p, prior.limit);
    if m.Empty? {
      assert MemberTokens(m, emitUTF8) == [] by { NoMembers(emitUTF8); }
      Regroup([], [], [RBRACE] + rest);
      ReadsEmptyObject(cfg, doc, p + 1, errors, depth, acc, rest);
    } else {
      ReadsMembers(cfg, doc, p + 1, errors, depth, acc, [], m, emitUTF8, rest);
    }
  }

  lemma ReadsEmptyArray(cfg: Settings, doc: ByteString, pos: nat, errors: seq<Error>, depth: nat, acc: Value,
                        rest: seq<ByteString>)
    requires pos <= |doc| && Spells(doc, pos, [RBRACKET] + rest) && acc.payload.Array?
    ensures Extends(doc, ReadElements(cfg, doc, pos, errors, depth, acc, 0), errors, acc, Empty, rest)
  {
    hide Spells, ReadToken, NextToken, SkipCommentTokens, ReadValue;
    FirstTokenRead(cfg, doc, pos, RBRACKET, ArrayEnd, rest);
    var p := SkipSpaces(doc, pos);
    assert doc[p] == doc[p..p + 1][0];
    AppendEmpty(PlainMap(acc.payload.values));
  }

  lemma ReadsEmptyObject(cfg: Settings, doc: ByteString, pos: nat, errors: seq<Error>, depth: nat, acc: Value,
                         rest: seq<ByteString>)
    requires pos <= |doc| && Spells(doc, pos, [RBRACE] + rest) && acc.payload.Object?
    ensures Extends(doc, ReadMembers(cfg, doc, pos, errors, depth, acc, []), errors, acc, Empty, rest)
  {
    hide Spells, ReadToken, NextToken, SkipCommentTokens, ReadMember;
    FirstTokenRead(cfg, doc, pos, RBRACE, ObjectEnd, rest);
    AppendEmpty(PlainMap(acc.payload.values));
  }

  /** One turn of the loop of `readArray` whose element is read without error. */
  lemma ElementTurn(cfg: Settings, doc: ByteString, pos: nat, errors: seq<Error>, depth: nat, acc: Value, index: nat)
    requires pos <= |doc| && acc.payload.Array? && index <= MAX_INT
    requires var p := SkipSpaces(doc, pos); p < |doc| && doc[p] != 0x5d
    requires var o := ReadValue(cfg, doc, SkipSpaces(doc, pos), errors, depth + 1,
                                Get(acc.payload.values, Index(index)));
             o.Done? && o.ok
    ensures var o := ReadValue(cfg, doc, SkipSpaces(doc, pos), errors, depth + 1,
                               Get(acc.payload.values, Index(index)));
            ReadElements(cfg, doc, pos, errors, depth, acc, index)
            == AfterElement(cfg, doc, o.pos, o.errors, depth, WithEntry(acc, Index(index), o.value), index)
  {
    hide SkipSpaces, ReadValue, WithEntry, AfterElement, Recover;
  }

  lemma {:induction false} ReadsElements(cfg: Settings, doc: ByteString, pos: nat, errors: seq<Error>, depth: nat,
                                         acc: Value, m: ObjectValues, i: nat, size: nat, emitUTF8: bool,
                                         rest: seq<ByteString>)
    requires m.Entry? && WritableElements(m, emitUTF8) && i < size <= MAX_INT + 1
    requires acc.payload.Array? && AllBelow(acc.payload.values, Index(i))
    requires pos <= |doc| && Spells(doc, pos, ElementTokens(m, i, size, emitUTF8) + ([RBRACKET] + rest))
    requires depth + 1 + MapDepth(m) <= cfg.stackLimit + 1
    ensures Extends(doc, ReadElements(cfg, doc, pos, errors, depth, acc, i), errors, acc, CanonElements(m, i, size),
                    rest)
    decreases MapWeight(m) + 2, size - i, 1
  {
    hide Spells, ReadToken, NextToken, ReadValue, ReadElements, Tokens, Canon, Put, Plain, SkipSpaces;
    hide Extends, CanonElements, WithEntry;
    var elem := Get(m, Index(i));
    var after := if i + 1 == size then [] else [COMMA] + ElementTokens(m, i + 1, size, emitUTF8);
    var tail := after + ([RBRACKET] + rest);
    assert ElementTokens(m, i, size, emitUTF8) + ([RBRACKET] + rest) == Tokens(elem, emitUTF8) + tail;
    ElementProperties(m, i, emitUTF8);
    FirstOfValue(elem, emitUTF8);
    NotAtBracket(doc, pos, Tokens(elem, emitUTF8) + tail);
    var p := SkipSpaces(doc, pos);
    SpacesSkipped(doc, pos, Tokens(elem, emitUTF8) + tail);
    NewEntry(acc, Index(i), NULL_SINGLETON, Plain(NULL_SINGLETON), Empty);
    ReadsValue(cfg, doc, p, errors, depth + 1, NULL_SINGLETON, elem, emitUTF8, tail);
    ElementTurn(cfg, doc, pos, errors, depth, acc, i);
    var child := ReadValue(cfg, doc, p, errors, depth + 1, NULL_SINGLETON);
    ReadsAfterElement(cfg, doc, child.pos, errors, depth, acc, child.value, m, i, size, emitUTF8, rest);
  }

  /** After an element comes the closing bracket, or a comma and the other elements. */
  lemma ReadsAfterElement(cfg: Settings, doc: ByteString, pos: nat, errors: seq<Error>, depth: nat, acc: Value,
                          child: Value, m: ObjectValues, i: nat, size: nat, emitUTF8: bool, rest: seq<ByteString>)
    requires m.Entry? && WritableElements(m, emitUTF8) && i < size <= MAX_INT + 1
    requires acc.payload.Array? && AllBelow(acc.payload.values, Index(i))
    requires Plain(child) == Canon(Get(m, Index(i)))
    requires pos <= |doc|
    requires var after := if i + 1 == size then [] else [COMMA] + ElementTokens(m, i + 1, size, emitUTF8);
             Spells(doc, pos, after + ([RBRACKET] + rest))
    requires depth + 1 + MapDepth(m) <= cfg.stackLimit + 1
    ensures Extends(doc, AfterElement(cfg, doc, pos, errors, depth, WithEntry(acc, Index(i), child), i), errors, acc,
                    CanonElements(m, i, size), rest)
    decreases MapWeight(m) + 2, size - i, 0
  {
    hide Spells, ReadToken, NextToken, AfterElement, ReadElements, Tokens, ElementTokens, Canon, Put, Plain, SkipSpaces;
    hide Lookup, Writable, Depth, MapDepth, Append, WritableElements, WithEntry, CanonElements;
    NewEntry(acc, Index(i), child, Canon(Get(m, Index(i))), CanonElements(m, i + 1, size));
    BelowAfterPut(acc.payload.values, Index(i), child, Index(i + 1));
    ElementsCanon(m, i, size);
    var w := WithEntry(acc, Index(i), child);
    if i + 1 == size {
      LastElement(cfg, doc, pos, errors, depth, w, i, rest);
    } else {
      var body := ElementTokens(m, i + 1, size, emitUTF8) + ([RBRACKET] + rest);
      Regroup([COMMA], ElementTokens(m, i + 1, size, emitUTF8), [RBRACKET] + rest);
      CommaRead(cfg, doc, pos, errors, depth, w, i, body);
      var t := NextToken(cfg, doc, pos);
      ReadsElements(cfg, doc, t.end, errors, depth, w, m, i + 1, size, emitUTF8, rest);
    }
  }

  lemma ElementsCanon(m: ObjectValues, i: nat, size: nat)
    requires i < size
    ensures CanonElements(m, i, size) == Entry(Index(i), Canon(Get(m, Index(i))), CanonElements(m, i + 1, size))
    ensures CanonElements(m, size, size) == Empty
  {
    hide Canon, Get;
  }

  lemma LastElement(cfg: Settings, doc: ByteString, pos: nat, errors: seq<Error>, depth: nat, w: Value, i: nat,
                    rest: seq<ByteString>)
    requires w.payload.Array? && pos <= |doc| && Spells(doc, pos, [] + ([RBRACKET] + rest))
    ensures Extends(doc, AfterElement(cfg, doc, pos, errors, depth, w, i), errors, w, Empty, rest)
  {
    hide Spells, ReadToken, NextToken, SkipSpaces, Fail, ReadElements;
    Regroup([], [], [RBRACKET] + rest);
    FirstTokenRead(cfg, doc, pos, RBRACKET, ArrayEnd, rest);
    AppendEmpty(PlainMap(w.payload.values));
  }

  lemma CommaRead(cfg: Settings, doc: ByteString, pos: nat, errors: seq<Error>, depth: nat, w: Value, i: nat,
                  rest: seq<ByteString>)
    requires w.payload.Array? && pos <= |doc| && Spells(doc, pos, [COMMA] + rest)
    ensures var t := NextToken(cfg, doc, pos);
            && t.end <= |doc| && Spells(doc, t.end, rest)
            && AfterElement(cfg, doc, pos, errors, depth, w, i)
               == ReadElements(cfg, doc, t.end, errors, depth, w, i + 1)
  {
    hide Spells, ReadToken, NextToken, SkipSpaces, Fail, ReadElements;
    FirstTokenRead(cfg, doc, pos, COMMA, ArraySeparator, rest);
  }

  /** What is read at the start of a member: its name and the colon. The value is spelled from the result on. */
  function ValueStart(cfg: Settings, doc: ByteString, pos: nat): (q: nat)
    requires pos <= |doc|
    ensures pos < |doc| ==> pos <= q <= |doc|
  {
    ReadToken(cfg, doc, NextToken(cfg, doc, pos).end).end
  }

  /** The name and the colon of a member are read; what happens next is up to its value. */
  lemma MemberHead(cfg: Settings, doc: ByteString, pos: nat, errors: seq<Error>, depth: nat, acc: Value,
                   name: ByteString, key: ByteString, emitUTF8: bool, fromValue: seq<ByteString>)
    requires Preserved(key, emitUTF8) && |key| < MAX_KEY_LENGTH
    requires acc.payload.Object? && Lookup(acc.payload.values, Name(key)) == None
    requires pos <= |doc| && Spells(doc, pos, [Quoted(key, emitUTF8)] + ([COLON] + fromValue))
    ensures var q := ValueStart(cfg, doc, pos);
            && pos <= q <= |doc| && Spells(doc, q, fromValue)
            && var o := ReadValue(cfg, doc, q, errors, depth + 1, NULL_SINGLETON);
            && (o.Thrown? ==> ReadMembers(cfg, doc, pos, errors, depth, acc, name) == o)
            && (o.Done? && o.ok ==>
                  ReadMembers(cfg, doc, pos, errors, depth, acc, name)
                  == AfterMember(cfg, doc, o.pos, o.errors, depth, WithEntry(acc, Name(key), o.value), key))
  {
    hide Spells, ReadToken, NextToken, ReadValue, DecodeFrom, Quoted, Preserved, AfterMember, SkipSpaces;
    hide Fail, Lookup, WithEntry;
    QuotedIsRead(key, emitUTF8);
    FirstTokenRead(cfg, doc, pos, Quoted(key, emitUTF8), StringToken, [COLON] + fromValue);
    var t := NextToken(cfg, doc, pos);
    TextInDocument(doc, t.start, Quoted(key, emitUTF8), StringToken);
    FirstTokenRead(cfg, doc, t.end, COLON, MemberSeparator, fromValue);
  }

  lemma MembersSplit(m: ObjectValues, emitUTF8: bool, rest: seq<ByteString>)
    requires m.Entry? && m.key.Name?
    ensures var after := if m.rest.Empty? then [] else [COMMA] + MemberTokens(m.rest, emitUTF8);
            MemberTokens(m, emitUTF8) + rest
            == [Quoted(m.key.text, emitUTF8)] + ([COLON] + (Tokens(m.value, emitUTF8) + (after + rest)))
  {
    var after := if m.rest.Empty? then [] else [COMMA] + MemberTokens(m.rest, emitUTF8);
    hide Tokens, Quoted;
    PairApart(Quoted(m.key.text, emitUTF8), COLON, Tokens(m.value, emitUTF8), after, rest);
  }

  lemma PairApart(s: ByteString, t: ByteString, u: seq<ByteString>, v: seq<ByteString>, w: seq<ByteString>)
    ensures [s, t] + u + v + w == [s] + ([t] + (u + (v + w)))
  {
  }

  lemma {:induction false} ReadsMembers(cfg: Settings, doc: ByteString, pos: nat, errors: seq<Error>, depth: nat,
                                        acc: Value, name: ByteString, m: ObjectValues, emitUTF8: bool,
                                        rest: seq<ByteString>)
    requires m.Entry? && WritableMembers(m, emitUTF8) && Sorted(m)
    requires acc.payload.Object? && AllBelow(acc.payload.values, m.key)
    requires pos <= |doc| && Spells(doc, pos, MemberTokens(m, emitUTF8) + ([RBRACE] + rest))
    requires depth + 1 + MapDepth(m) <= cfg.stackLimit + 1
    ensures Extends(doc, ReadMembers(cfg, doc, pos, errors, depth, acc, name), errors, acc, CanonMembers(m), rest)
    decreases MapWeight(m) + 2, 0
  {
    hide Spells, ValueStart, ReadValue, ReadMembers, MemberTokens, Tokens, Canon, Plain, PlainMap;
    hide CanonMembers, Quoted, Preserved, AfterMember, Append, Lookup, Sorted, AllBelow, Writable, Extends;
    var key := m.key.text;
    var after := if m.rest.Empty? then [] else [COMMA] + MemberTokens(m.rest, emitUTF8);
    var tail := after + ([RBRACE] + rest);
    MembersSplit(m, emitUTF8, [RBRACE] + rest);
    NewEntry(acc, m.key, NULL_SINGLETON, Plain(NULL_SINGLETON), Empty);
    MemberHead(cfg, doc, pos, errors, depth, acc, name, key, emitUTF8, Tokens(m.value, emitUTF8) + tail);
    var q := ValueStart(cfg, doc, pos);
    ReadsValue(cfg, doc, q, errors, depth + 1, NULL_SINGLETON, m.value, emitUTF8, tail);
    var child := ReadValue(cfg, doc, q, errors, depth + 1, NULL_SINGLETON);
    var w := WithEntry(acc, m.key, child.value);
    NewEntry(acc, m.key, child.value, Canon(m.value), CanonMembers(m.rest));
    MembersCanon(m);
    ReadsAfterMember(cfg, doc, child.pos, errors, depth, acc, child.value, w, m, emitUTF8, rest);
  }

  lemma MembersCanon(m: ObjectValues)
    requires m.Entry?
    ensures CanonMembers(m) == Entry(m.key, Canon(m.value), CanonMembers(m.rest))
  {
  }

  lemma ReadsAfterMember(cfg: Settings, doc: ByteString, pos: nat, errors: seq<Error>, depth: nat, acc: Value,
                         child: Value, w: Value, m: ObjectValues, emitUTF8: bool, rest: seq<ByteString>)
    requires m.Entry? && WritableMembers(m, emitUTF8) && Sorted(m)
    requires acc.payload.Object? && AllBelow(acc.payload.values, m.key)
    requires w.payload.Object? && w.payload.values == Append(acc.payload.values, Entry(m.key, child, Empty))
    requires Append(PlainMap(w.payload.values), CanonMembers(m.rest))
             == Append(PlainMap(acc.payload.values), CanonMembers(m))
    requires pos <= |doc|
    requires var after := if m.rest.Empty? then [] else [COMMA] + MemberTokens(m.rest, emitUTF8);
             Spells(doc, pos, after + ([RBRACE] + rest))
    requires depth + 1 + MapDepth(m) <= cfg.stackLimit + 1
    ensures Extends(doc, AfterMember(cfg, doc, pos, errors, depth, w, m.key.text), errors, acc, CanonMembers(m), rest)
    decreases MapWeight(m) + 1, 0
  {
    hide Spells, ReadToken, NextToken, ReadMembers, Tokens, Canon, Plain;
    if m.rest.Empty? {
      Regroup([], [], [RBRACE] + rest);
      FirstTokenRead(cfg, doc, pos, RBRACE, ObjectEnd, rest);
      AppendEmpty(PlainMap(w.payload.values));
    } else {
      var body := MemberTokens(m.rest, emitUTF8) + ([RBRACE] + rest);
      Regroup([COMMA], MemberTokens(m.rest, emitUTF8), [RBRACE] + rest);
      FirstTokenRead(cfg, doc, pos, COMMA, ArraySeparator, body);
      var comma := ReadToken(cfg, doc, pos);
      BelowAfterPut(acc.payload.values, m.key, child, m.rest.key);
      ReadsMembers(cfg, doc, comma.end, errors, depth, w, m.key.text, m.rest, emitUTF8, rest);
    }
  }

  // ---- pieces of spellings ----

  lemma IntegerTextStarts(v: int)
    ensures IntegerText(v) != [] && !IsSpace(IntegerText(v)[0])
  {
    IntegerTextIsNumber(v);
    IntegerTextNotEmpty(v);
    assert IntegerText(v)[0] == MINUS || IsDigit(IntegerText(v)[0]);
  }

  lemma QuotedStarts(s: ByteString, emitUTF8: bool)
    ensures Quoted(s, emitUTF8) != [] && !IsSpace(Quoted(s, emitUTF8)[0])
  {
  }

  lemma Bracketed(open: ByteString, inner: ByteString, toks: seq<ByteString>, close: ByteString)
    requires Spells(inner, 0, toks) && open != [] && !IsSpace(open[0]) && close != [] && !IsSpace(close[0])
    ensures Spells(open + inner + close, 0, [open] + toks + [close])
  {
    hide Spells;
    TokenSpells(open);
    TokenSpells(close);
    SpellsConcat(open, 0, [open], inner, toks);
    SpellsConcat(open + inner, 0, [open] + toks, close, [close]);
  }

  /** A separator, a name, a colon with blanks around it and a value. */
  lemma MemberSpells(lead: ByteString, toks: seq<ByteString>, name: ByteString, colon: ByteString, text: ByteString,
                     value: seq<ByteString>, emitUTF8: bool)
    requires Spells(lead, 0, toks) && Spells(colon, 0, [COLON]) && Spells(text, 0, value)
    ensures Spells(lead + Quoted(name, emitUTF8) + colon + text, 0, toks + ([Quoted(name, emitUTF8), COLON] + value))
  {
    hide Spells, Quoted;
    var quoted := Quoted(name, emitUTF8);
    QuotedStarts(name, emitUTF8);
    TokenSpells(quoted);
    SpellsConcat(lead, 0, toks, quoted, [quoted]);
    SpellsConcat(lead + quoted, 0, toks + [quoted], colon, [COLON]);
    SpellsConcat(lead + quoted + colon, 0, toks + [quoted] + [COLON], text, value);
    assert toks + [quoted] + [COLON] + value == toks + ([quoted, COLON] + value);
  }

  // ---- too deep ----

  /** The deepest entry of a map is found under its key, which for an array is one of its indices. */
  lemma {:induction false} DeepEntry(m: ObjectValues, emitUTF8: bool) returns (key: CZString)
    requires m.Entry? && Sorted(m)
    ensures Lookup(m, key).Some? && Depth(Get(m, key)) == MapDepth(m)
    ensures WritableElements(m, emitUTF8) ==> key.Index? && key.index < ArraySize(m)
  {
    if m.rest.Entry? && Depth(m.value) < MapDepth(m.rest) {
      key := DeepEntry(m.rest, emitUTF8);
      assert key != m.key by {
        AboveNotFound(m.rest, m.key);
      }
    } else {
      key := m.key;
      if key.Index? {
        FirstIsBelowSize(m, emitUTF8);
      }
    }
  }

  lemma {:induction false} FirstIsBelowSize(m: ObjectValues, emitUTF8: bool)
    requires m.Entry? && Sorted(m) && m.key.Index?
    ensures WritableElements(m, emitUTF8) ==> m.key.index < ArraySize(m)
  {
    if m.rest.Entry? && WritableElements(m, emitUTF8) {
      assert WritableElements(m.rest, emitUTF8);
      FirstIsBelowSize(m.rest, emitUTF8);
    }
  }

  /** A value nested deeper than the stack allows makes the reader throw, wherever the deep part is. */
  lemma {:induction false} ThrowsValue(cfg: Settings, doc: ByteString, pos: nat, errors: seq<Error>, depth: nat,
                                       prior: Value, v: Value, emitUTF8: bool, rest: seq<ByteString>)
    requires Writable(v, emitUTF8)
    requires pos <= |doc| && Spells(doc, pos, Tokens(v, emitUTF8) + rest)
    requires depth + Depth(v) > cfg.stackLimit + 1
    ensures ReadValue(cfg, doc, pos, errors, depth, prior) == Thrown(StackLimitExceeded)
    decreases Weight(v), 1
  {
    hide Spells, ReadValue, SkipSpaces, ReadMembers, ReadElements, Tokens, ElementTokens, MemberTokens, Lookup;
    if depth > cfg.stackLimit {
      DepthThrows(cfg, doc, pos, errors, depth, prior);
    } else {
      var m, p := v.payload.values, SkipSpaces(doc, pos);
      if v.payload.Array? {
        var key := DeepEntry(m, emitUTF8);
        ArrayHead(cfg, doc, pos, errors, depth, prior, v, emitUTF8, rest);
        ThrowsElements(cfg, doc, p + 1, errors, depth, Value(Array(Empty), p, prior.limit), m, 0, key.index,
                       ArraySize(m), emitUTF8, rest);
      } else {
        ObjectHead(cfg, doc, pos, errors, depth, prior, v, emitUTF8, rest);
        ThrowsMembers(cfg, doc, p + 1, errors, depth, Value(Object(Empty), p, prior.limit), [], m, emitUTF8, rest);
      }
    }
  }

  lemma DepthThrows(cfg: Settings, doc: ByteString, pos: nat, errors: seq<Error>, depth: nat, prior: Value)
    requires pos <= |doc| && depth > cfg.stackLimit
    ensures ReadValue(cfg, doc, pos, errors, depth, prior) == Thrown(StackLimitExceeded)
  {
  }

  lemma {:induction false} ThrowsElements(cfg: Settings, doc: ByteString, pos: nat, errors: seq<Error>, depth: nat,
                                          acc: Value, m: ObjectValues, i: nat, deep: nat, size: nat, emitUTF8: bool,
                                          rest: seq<ByteString>)
    requires m.Entry? && WritableElements(m, emitUTF8) && i <= deep < size <= MAX_INT + 1
    requires acc.payload.Array? && AllBelow(acc.payload.values, Index(i))
    requires pos <= |doc| && Spells(doc, pos, ElementTokens(m, i, size, emitUTF8) + ([RBRACKET] + rest))
    requires depth + 1 + Depth(Get(m, Index(deep))) > cfg.stackLimit + 1
    ensures ReadElements(cfg, doc, pos, errors, depth, acc, i) == Thrown(StackLimitExceeded)
    decreases MapWeight(m) + 2, size - i, 1
  {
    hide Spells, ReadToken, NextToken, ReadValue, ReadElements, Tokens, Canon, Put, Plain, SkipSpaces;
    hide CanonElements, WithEntry, Depth, Writable, WritableElements, AllBelow, Lookup, Append, PlainMap;
    var elem := Get(m, Index(i));
    var after := if i + 1 == size then [] else [COMMA] + ElementTokens(m, i + 1, size, emitUTF8);
    var tail := after + ([RBRACKET] + rest);
    assert ElementTokens(m, i, size, emitUTF8) + ([RBRACKET] + rest) == Tokens(elem, emitUTF8) + tail;
    ElementProperties(m, i, emitUTF8);
    FirstOfValue(elem, emitUTF8);
    NotAtBracket(doc, pos, Tokens(elem, emitUTF8) + tail);
    var p := SkipSpaces(doc, pos);
    SpacesSkipped(doc, pos, Tokens(elem, emitUTF8) + tail);
    NewEntry(acc, Index(i), NULL_SINGLETON, Plain(NULL_SINGLETON), Empty);
    if depth + 1 + Depth(elem) > cfg.stackLimit + 1 {
      ThrowsValue(cfg, doc, p, errors, depth + 1, NULL_SINGLETON, elem, emitUTF8, tail);
      ElementThrows(cfg, doc, pos, errors, depth, acc, i);
    } else {
      ReadsValue(cfg, doc, p, errors, depth + 1, NULL_SINGLETON, elem, emitUTF8, tail);
      ElementTurn(cfg, doc, pos, errors, depth, acc, i);
      var child := ReadValue(cfg, doc, p, errors, depth + 1, NULL_SINGLETON);
      ThrowsAfterElement(cfg, doc, child.pos, errors, depth, acc, child.value, m, i, deep, size, emitUTF8, rest);
    }
  }

  lemma ElementThrows(cfg: Settings, doc: ByteString, pos: nat, errors: seq<Error>, depth: nat, acc: Value, index: nat)
    requires pos <= |doc| && acc.payload.Array? && index <= MAX_INT
    requires var p := SkipSpaces(doc, pos); p < |doc| && doc[p] != 0x5d
    requires ReadValue(cfg, doc, SkipSpaces(doc, pos), errors, depth + 1, Get(acc.payload.values, Index(index))).Thrown?
    ensures ReadElements(cfg, doc, pos, errors, depth, acc, index)
         == ReadValue(cfg, doc, SkipSpaces(doc, pos), errors, depth + 1, Get(acc.payload.values, Index(index)))
  {
    hide SkipSpaces, ReadValue;
  }

  lemma ThrowsAfterElement(cfg: Settings, doc: ByteString, pos: nat, errors: seq<Error>, depth: nat, acc: Value,
                           child: Value, m: ObjectValues, i: nat, deep: nat, size: nat, emitUTF8: bool,
                           rest: seq<ByteString>)
    requires m.Entry? && WritableElements(m, emitUTF8) && i < deep < size <= MAX_INT + 1
    requires acc.payload.Array? && AllBelow(acc.payload.values, Index(i))
    requires Plain(child) == Canon(Get(m, Index(i)))
    requires pos <= |doc| && Spells(doc, pos, [COMMA] + ElementTokens(m, i + 1, size, emitUTF8) + ([RBRACKET] + rest))
    requires depth + 1 + Depth(Get(m, Index(deep))) > cfg.stackLimit + 1
    ensures AfterElement(cfg, doc, pos, errors, depth, WithEntry(acc, Index(i), child), i) == Thrown(StackLimitExceeded)
    decreases MapWeight(m) + 2, size - i, 0
  {
    hide Spells, ReadToken, NextToken, AfterElement, ReadElements, ElementTokens, Canon, Put, Plain, SkipSpaces, Lookup;
    hide Depth, Append, WritableElements, WithEntry;
    NewEntry(acc, Index(i), child, Canon(Get(m, Index(i))), Empty);
    BelowAfterPut(acc.payload.values, Index(i), child, Index(i + 1));
    var w := WithEntry(acc, Index(i), child);
    Regroup([COMMA], ElementTokens(m, i + 1, size, emitUTF8), [RBRACKET] + rest);
    CommaRead(cfg, doc, pos, errors, depth, w, i, ElementTokens(m, i + 1, size, emitUTF8) + ([RBRACKET] + rest));
    ThrowsElements(cfg, doc, NextToken(cfg, doc, pos).end, errors, depth, w, m, i + 1, deep, size, emitUTF8, rest);
  }

  lemma {:induction false} ThrowsMembers(cfg: Settings, doc: ByteString, pos: nat, errors: seq<Error>, depth: nat,
                                         acc: Value, name: ByteString, m: ObjectValues, emitUTF8: bool,
                                         rest: seq<ByteString>)
    requires m.Entry? && WritableMembers(m, emitUTF8) && Sorted(m)
    requires acc.payload.Object? && AllBelow(acc.payload.values, m.key)
    requires pos <= |doc| && Spells(doc, pos, MemberTokens(m, emitUTF8) + ([RBRACE] + rest))
    requires depth + 1 + MapDepth(m) > cfg.stackLimit + 1
    ensures ReadMembers(cfg, doc, pos, errors, depth, acc, name) == Thrown(StackLimitExceeded)
    decreases MapWeight(m) + 2, 1
  {
    hide Spells, ValueStart, ReadValue, ReadMembers, MemberTokens, Tokens, Canon, Plain, Quoted, Preserved;
    hide AfterMember, Append, Lookup, Sorted, AllBelow, Writable;
    var key := m.key.text;
    var after := if m.rest.Empty? then [] else [COMMA] + MemberTokens(m.rest, emitUTF8);
    var tail := after + ([RBRACE] + rest);
    MembersSplit(m, emitUTF8, [RBRACE] + rest);
    NewEntry(acc, m.key, NULL_SINGLETON, Plain(NULL_SINGLETON), Empty);
    MemberHead(cfg, doc, pos, errors, depth, acc, name, key, emitUTF8, Tokens(m.value, emitUTF8) + tail);
    var q := ValueStart(cfg, doc, pos);
    if depth + 1 + Depth(m.value) > cfg.stackLimit + 1 {
      ThrowsValue(cfg, doc, q, errors, depth + 1, NULL_SINGLETON, m.value, emitUTF8, tail);
    } else {
      ReadsValue(cfg, doc, q, errors, depth + 1, NULL_SINGLETON, m.value, emitUTF8, tail);
      var child := ReadValue(cfg, doc, q, errors, depth + 1, NULL_SINGLETON);
      ThrowsAfterMember(cfg, doc, child.pos, errors, depth, acc, child.value, m, emitUTF8, rest);
    }
  }

  lemma ThrowsAfterMember(cfg: Settings, doc: ByteString, pos: nat, errors: seq<Error>, depth: nat, acc: Value,
                          child: Value, m: ObjectValues, emitUTF8: bool, rest: seq<ByteString>)
    requires m.Entry? && m.rest.Entry? && WritableMembers(m, emitUTF8) && Sorted(m)
    requires acc.payload.Object? && AllBelow(acc.payload.values, m.key)
    requires pos <= |doc| && Spells(doc, pos, [COMMA] + MemberTokens(m.rest, emitUTF8) + ([RBRACE] + rest))
    requires depth + 1 + MapDepth(m.rest) > cfg.stackLimit + 1
    ensures AfterMember(cfg, doc, pos, errors, depth, WithEntry(acc, m.key, child), m.key.text)
            == Thrown(StackLimitExceeded)
    decreases MapWeight(m) + 2, 0
  {
    hide Spells, ReadToken, NextToken, ReadMembers, MemberTokens, Put, Depth;
    var w := WithEntry(acc, m.key, child);
    PutLast(acc.payload.values, m.key, child);
    BelowAfterPut(acc.payload.values, m.key, child, m.rest.key);
    var body := MemberTokens(m.rest, emitUTF8) + ([RBRACE] + rest);
    Regroup([COMMA], MemberTokens(m.rest, emitUTF8), [RBRACE] + rest);
    FirstTokenRead(cfg, doc, pos, COMMA, ArraySeparator, body);
    ThrowsMembers(cfg, doc, ReadToken(cfg, doc, pos).end, errors, depth, w, m.key.text, m.rest, emitUTF8, rest);
  }

  // ---- whole documents ----

  /** The end of a spelling is the end of the stream. */
  lemma NothingLeft(cfg: Settings, doc: ByteString, pos: nat)
    requires pos <= |doc| && Spells(doc, pos, [])
    ensures SkipCommentTokens(cfg, doc, pos).kind == EndOfStream
  {
  }

  /**
   Whatever the settings and the layout, a document that spells a value is parsed to that value, in canonical form,
   exactly when the value is not nested deeper than the stack limit; otherwise the reader throws. A strict root
   only asks for a container, and is the one other way to fail.
   */
  lemma RoundTrip(cfg: Settings, doc: ByteString, v: Value, emitUTF8: bool, root: Value)
    requires Writable(v, emitUTF8) && Spells(doc, 0, Tokens(v, emitUTF8))
    ensures Depth(v) > cfg.stackLimit ==> Parse(cfg, doc, root) == ParseThrown(StackLimitExceeded)
    ensures Depth(v) <= cfg.stackLimit ==>
              var r := Parse(cfg, doc, root);
              && r.Parsed? && Plain(r.root) == Canon(v)
              && (r.ok <==> cfg.strictRoot ==> v.payload.Array? || v.payload.Object?)
              && (r.ok ==> r.errors == [])
  {
    assert Tokens(v, emitUTF8) + [] == Tokens(v, emitUTF8);
    if Depth(v) > cfg.stackLimit {
      ThrowsValue(cfg, doc, 0, [], 1, root, v, emitUTF8, []);
    } else {
      ReadsValue(cfg, doc, 0, [], 1, root, v, emitUTF8, []);
      NothingLeft(cfg, doc, ReadValue(cfg, doc, 0, [], 1, root).pos);
    }
  }
}
