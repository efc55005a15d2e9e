/**
 What the reader's errors say: every error is about a token of the document that deserves its message, and an error in
 a string points at the place in the string that is wrong.
 */
module JsonDiagnoses {
  import opened Bytes
  import opened JsonValue
  import opened JsonUnicode
  import opened JsonStrings
  import opened JsonStringMeaning
  import opened JsonLexer
  import opened JsonParser
  import opened JsonGrammar
  import opened JsonAtoms

  // ---- errors in strings ----

  ghost predicate Escapes(u: ByteString) { exists m :: TwoCharacters(u, m) }

  ghost predicate HexDigitByte(c: Byte) { exists d: nat :: Hex(c, d) }

  /** What is wrong at the place `at` of the token `t`, which includes both quotes. */
  ghost predicate Misspelt(t: ByteString, message: Message, at: nat) {
    && 1 <= at < |t|
    && match message
       case EmptyEscape => t[at - 1] == 0x5c && at == |t| - 1
       case BadEscape => at >= 2 && t[at - 2] == 0x5c && t[at - 1] != 0x75 && !Escapes(t[at - 2..at])
       case FourDigitsExpected => t[at - 1] == 0x75 && |t| - 1 < at + 4
       case HexDigitExpected => !HexDigitByte(t[at - 1])
       case SixCharactersExpected => |t| - 1 < at + 6
       case SecondHalfExpected => t[at - 1] != 0x5c || (t[at - 1] != 0x75 && at >= 2 && t[at - 2] == 0x5c)
       case _ => false
  }

  lemma HexLoopStops(t: ByteString, i: nat, index: nat, unicode: nat)
    requires index <= 4 && i + 4 <= |t| && unicode <= HexBound(index)
    ensures var r := HexLoop(t, i, index, unicode);
            r.Malformed? ==> i + index < r.at && !HexDigitByte(t[r.at - 1])
    decreases 4 - index
  {
    hide Hex;
    if index < 4 {
      HexIsDigit(t[i + index]);
      if IsHexDigit(t[i + index]) {
        HexLoopStops(t, i, index + 1, unicode * 16 + HexValue(t[i + index]));
      }
    }
  }

  lemma HexStops(t: ByteString, i: nat, end: nat)
    requires 1 <= i <= end < |t| && t[i - 1] == 0x75 && end == |t| - 1
    ensures var r := DecodeHex(t, i, end); r.Malformed? ==> Misspelt(t, r.message, r.at)
  {
    hide Hex;
    if i + 4 <= end {
      HexLoopStops(t, i, 0, 0);
    }
  }

  lemma CodePointStops(t: ByteString, i: nat)
    requires 1 <= i <= |t| - 1 && t[i - 1] == 0x75
    ensures var r := DecodeCodePoint(t, i, |t| - 1); r.Malformed? ==> Misspelt(t, r.message, r.at)
  {
    hide HexLoop, Hex, TwoCharacters;
    HexStops(t, i, |t| - 1);
    var first := DecodeHex(t, i, |t| - 1);
    if first.Decoded? && i + 10 <= |t| - 1 && t[i + 5] == 0x75 {
      HexStops(t, i + 6, |t| - 1);
    }
    hide DecodeHex;
  }

  lemma NoSuchEscape(t: ByteString, i: nat)
    requires i + 2 <= |t| && t[i] == BACKSLASH && Unescape(t[i + 1]) == 0
    ensures !Escapes(t[i..i + 2])
  {
    var u := t[i..i + 2];
    if m :| TwoCharacters(u, m) {
      UnescapeIsTable(t, i, m);
    }
  }

  /** An error in a string points at the place that is wrong. */
  lemma {:induction false} MalformedAtFault(t: ByteString, i: nat, decoded: ByteString)
    requires 1 <= i < |t|
    ensures var r := DecodeFrom(t, i, decoded); r.Malformed? ==> Misspelt(t, r.message, r.at)
    decreases |t| - i
  {
    hide Misspelt, CodePointToUtf8, Unescape, DecodeCodePoint;
    if i < |t| - 1 && t[i] != QUOTE {
      if t[i] != BACKSLASH {
        MalformedAtFault(t, i + 1, decoded + [t[i]]);
      } else if i + 1 == |t| - 1 {
        assert Misspelt(t, EmptyEscape, i + 1) by { EmptyIsMisspelt(t, i); }
      } else if t[i + 1] == 0x75 {
        CodePointStops(t, i + 2);
        var c := DecodeCodePoint(t, i + 2, |t| - 1);
        if c.Decoded? {
          MalformedAtFault(t, c.at, decoded + CodePointToUtf8(c.value));
        }
      } else if Unescape(t[i + 1]) != 0 {
        MalformedAtFault(t, i + 2, decoded + [Unescape(t[i + 1])]);
      } else {
        NoSuchEscape(t, i);
        assert Misspelt(t, BadEscape, i + 2) by { BadIsMisspelt(t, i); }
      }
    }
  }

  lemma EmptyIsMisspelt(t: ByteString, i: nat)
    requires i + 2 == |t| && t[i] == BACKSLASH
    ensures Misspelt(t, EmptyEscape, i + 1)
  {
  }

  lemma BadIsMisspelt(t: ByteString, i: nat)
    requires i + 2 < |t| && t[i] == BACKSLASH && t[i + 1] != 0x75 && !Escapes(t[i..i + 2])
    ensures Misspelt(t, BadEscape, i + 2)
  {
  }

  // ---- errors about tokens ----

  /** One of the tokens of the document, or the end. */
  ghost predicate IsTokenOf(cfg: Settings, doc: ByteString, t: Token) {
    exists pos: nat :: pos <= |doc| && ReadToken(cfg, doc, pos) == t
  }

  predicate StartsValue(kind: TokenType) {
    kind in {StringToken, NumberToken, TrueToken, FalseToken, NullToken, NaNToken, PosInfToken, NegInfToken,
             ObjectBegin, ArrayBegin}
  }

  /** The token deserves the message. */
  ghost predicate Deserves(cfg: Settings, doc: ByteString, t: Token, message: Message, extra: Option<nat>)
    requires t.start <= t.end <= |doc| && (t.kind == StringToken ==> t.start + 2 <= t.end)
  {
    var text := Text(doc, t);
    match message
    case ValueExpected => extra == None && !StartsValue(t.kind)
    case MissingBraceOrName =>
      extra == None && t.kind != StringToken && !(t.kind == NumberToken && cfg.allowNumericKeys)
    case MissingColon => extra == None && t.kind != MemberSeparator
    case MissingCommaInObject => extra == None && t.kind !in {ObjectEnd, ArraySeparator, CommentToken}
    case MissingCommaInArray => extra == None && t.kind !in {ArrayEnd, ArraySeparator}
    case ExtraAfterValue => extra == None && cfg.failIfExtra && t.kind != EndOfStream
    case DuplicateKey(name) => extra == None && cfg.rejectDupKeys && NameMeans(cfg, t.kind, text, name)
    case NotANumber(token) =>
      extra == None && t.kind == NumberToken && token == text && forall p :: !NumberMeans(cfg, text, p)
    case RootMustBeContainer => false
    case _ =>
      t.kind == StringToken && extra.Some? && t.start < extra.value && Misspelt(text, message, extra.value - t.start)
  }

  ghost predicate Justified(cfg: Settings, doc: ByteString, e: Error) {
    IsTokenOf(cfg, doc, e.token) && Deserves(cfg, doc, e.token, e.message, e.extra)
  }

  ghost predicate AllJustified(cfg: Settings, doc: ByteString, errors: seq<Error>) {
    forall i | 0 <= i < |errors| :: Justified(cfg, doc, errors[i])
  }

  /** If what was there before is justified, so is everything that is there now. */
  ghost predicate KeepsJustified(cfg: Settings, doc: ByteString, o: Outcome, errors: seq<Error>) {
    AllJustified(cfg, doc, errors) && o.Done? ==> AllJustified(cfg, doc, o.errors)
  }

  lemma OneMore(cfg: Settings, doc: ByteString, errors: seq<Error>, e: Error)
    requires Justified(cfg, doc, e)
    ensures AllJustified(cfg, doc, errors) ==> AllJustified(cfg, doc, errors + [e])
  {
    hide Justified;
  }

  lemma {:induction false} NextIsToken(cfg: Settings, doc: ByteString, pos: nat)
    requires pos <= |doc|
    ensures IsTokenOf(cfg, doc, ReadToken(cfg, doc, pos)) && IsTokenOf(cfg, doc, NextToken(cfg, doc, pos))
    ensures IsTokenOf(cfg, doc, SkipCommentTokens(cfg, doc, pos))
    decreases |doc| - pos
  {
    hide ReadToken;
    var t := ReadToken(cfg, doc, pos);
    if t.kind == CommentToken {
      NextIsToken(cfg, doc, t.end);
    }
  }

  lemma Fault(cfg: Settings, doc: ByteString, t: Token, message: Message, at: nat)
    requires IsTokenOf(cfg, doc, t) && t.kind == StringToken
    requires DecodeFrom(Text(doc, t), 1, []) == Malformed(message, at)
    ensures Justified(cfg, doc, Error(t, message, Some(t.start + at)))
  {
    hide DecodeFrom, Misspelt, ReadToken;
    MalformedAtFault(Text(doc, t), 1, []);
    MisspeltMessages(Text(doc, t), message, at);
    assert t.start + at - t.start == at;
    hide Text;
  }

  lemma MisspeltMessages(t: ByteString, message: Message, at: nat)
    requires Misspelt(t, message, at)
    ensures 1 <= at
    ensures message in {EmptyEscape, BadEscape, FourDigitsExpected, HexDigitExpected, SixCharactersExpected,
                        SecondHalfExpected}
  {
  }

  lemma NotNumber(cfg: Settings, doc: ByteString, t: Token)
    requires IsTokenOf(cfg, doc, t) && t.kind == NumberToken && DecodeNumberToken(cfg, Text(doc, t)).None?
    ensures Justified(cfg, doc, Error(t, NotANumber(Text(doc, t)), None))
  {
    hide DecodeNumberToken, NumberMeans, ReadToken;
    forall p ensures !NumberMeans(cfg, Text(doc, t), p) {
      NumberIff(cfg, Text(doc, t), p);
    }
  }

  lemma ScalarJustified(cfg: Settings, doc: ByteString, t: Token, errors: seq<Error>, v: Value)
    requires IsTokenOf(cfg, doc, t) && t.kind != ObjectBegin && t.kind != ArrayBegin
    ensures KeepsJustified(cfg, doc, ReadScalar(cfg, doc, t, errors, v), errors)
  {
    hide DecodeFrom, DecodeNumberToken, AllJustified, ReadToken, Text, Misspelt, NumberMeans, NameMeans;
    match t.kind
    case StringToken =>
      var r := DecodeFrom(Text(doc, t), 1, []);
      if r.Malformed? {
        Fault(cfg, doc, t, r.message, r.at);
        OneMore(cfg, doc, errors, Error(t, r.message, Some(t.start + r.at)));
      }
    case NumberToken =>
      if DecodeNumberToken(cfg, Text(doc, t)).None? {
        NotNumber(cfg, doc, t);
        OneMore(cfg, doc, errors, Error(t, NotANumber(Text(doc, t)), None));
      }
    case _ =>
      if !StartsValue(t.kind) {
        OneMore(cfg, doc, errors, Error(t, ValueExpected, None));
      }
  }

  lemma {:induction false} ValueJustified(cfg: Settings, doc: ByteString, pos: nat, errors: seq<Error>, depth: nat,
                                          v: Value)
    requires pos <= |doc|
    ensures KeepsJustified(cfg, doc, ReadValue(cfg, doc, pos, errors, depth, v), errors)
    decreases |doc| - pos, 0
  {
    hide SkipCommentTokens, ReadMembers, ReadElements, ReadScalar, AllJustified, IsTokenOf;
    if depth <= cfg.stackLimit {
      var t := SkipCommentTokens(cfg, doc, pos);
      if t.kind == ObjectBegin {
        MembersJustified(cfg, doc, t.end, errors, depth, Value(Object(Empty), t.start, v.limit), []);
      } else if t.kind == ArrayBegin {
        ElementsJustified(cfg, doc, t.end, errors, depth, Value(Array(Empty), t.start, v.limit), 0);
      } else {
        NextIsToken(cfg, doc, pos);
        ScalarJustified(cfg, doc, t, errors, v);
      }
    }
  }

  lemma {:induction false} MembersJustified(cfg: Settings, doc: ByteString, pos: nat, errors: seq<Error>, depth: nat,
                                            v: Value, name: ByteString)
    requires pos <= |doc| && v.payload.Object?
    ensures KeepsJustified(cfg, doc, ReadMembers(cfg, doc, pos, errors, depth, v, name), errors)
    decreases |doc| - pos, 1
  {
    hide NextToken, ReadName, ReadMember, Recover, AllJustified, IsTokenOf, Justified;
    var t := NextToken(cfg, doc, pos);
    NextIsToken(cfg, doc, pos);
    if t.kind != ObjectEnd || !(name == [] || cfg.allowTrailingCommas) {
      var next := ReadName(cfg, doc, t);
      if next.Named? {
        assert t.kind != EndOfStream by { NamedIsToken(cfg, doc, t); }
        MemberJustified(cfg, doc, t, errors, depth, v, next.name);
      } else {
        NameJustified(cfg, doc, t);
        OneMore(cfg, doc, errors, next.error);
      }
    }
  }

  lemma NameJustified(cfg: Settings, doc: ByteString, t: Token)
    requires IsTokenOf(cfg, doc, t) && ReadName(cfg, doc, t).NotNamed?
    ensures Justified(cfg, doc, ReadName(cfg, doc, t).error)
  {
    hide DecodeFrom, DecodeNumberToken, ReadToken, Text, Misspelt, NumberMeans, NameMeans;
    if t.kind == StringToken {
      var r := DecodeFrom(Text(doc, t), 1, []);
      Fault(cfg, doc, t, r.message, r.at);
    } else if t.kind == NumberToken && cfg.allowNumericKeys {
      NotNumber(cfg, doc, t);
    }
  }

  lemma NameRead(cfg: Settings, doc: ByteString, t: Token, name: ByteString)
    requires IsTokenOf(cfg, doc, t) && ReadName(cfg, doc, t) == Named(name)
    ensures NameMeans(cfg, t.kind, Text(doc, t), name)
  {
    hide DecodeFrom, DecodeNumberToken, ReadToken, Text, NumberMeans, LiteralMeans;
    if t.kind == StringToken {
      LiteralIff(Text(doc, t), name);
    } else {
      var p := DecodeNumberToken(cfg, Text(doc, t)).value;
      NumberIff(cfg, Text(doc, t), p);
    }
  }

  lemma {:induction false} MemberJustified(cfg: Settings, doc: ByteString, t: Token, errors: seq<Error>, depth: nat,
                                           v: Value, name: ByteString)
    requires t.end <= |doc| && v.payload.Object? && IsTokenOf(cfg, doc, t) && ReadName(cfg, doc, t) == Named(name)
    ensures KeepsJustified(cfg, doc, ReadMember(cfg, doc, t, errors, depth, v, name), errors)
    decreases |doc| - t.end, 2
  {
    hide ReadToken, ReadValue, AfterMember, WithEntry, Recover, Lookup, AllJustified, IsTokenOf, NameMeans, ReadName;
    NameRead(cfg, doc, t, name);
    var colon := ReadToken(cfg, doc, t.end);
    NextIsToken(cfg, doc, t.end);
    if cfg.rejectDupKeys {
      OneMore(cfg, doc, errors, Error(t, DuplicateKey(name), None));
    }
    if colon.kind != MemberSeparator {
      OneMore(cfg, doc, errors, Error(colon, MissingColon, None));
    } else {
      hide Justified;
      var prior := Get(v.payload.values, Name(name));
      ValueJustified(cfg, doc, colon.end, errors, depth + 1, prior);
      var o := ReadValue(cfg, doc, colon.end, errors, depth + 1, prior);
      if o.Done? && o.ok {
        AfterMemberJustified(cfg, doc, o.pos, o.errors, depth, WithEntry(v, Name(name), o.value), name);
      }
    }
  }

  lemma {:induction false} AfterMemberJustified(cfg: Settings, doc: ByteString, pos: nat, errors: seq<Error>,
                                                depth: nat, w: Value, name: ByteString)
    requires pos <= |doc| && w.payload.Object?
    ensures KeepsJustified(cfg, doc, AfterMember(cfg, doc, pos, errors, depth, w, name), errors)
    decreases |doc| - pos, 2
  {
    hide ReadToken, NextToken, ReadMembers, Recover, AllJustified, IsTokenOf;
    var comma := ReadToken(cfg, doc, pos);
    NextIsToken(cfg, doc, pos);
    if comma.kind !in {ObjectEnd, ArraySeparator, CommentToken} {
      OneMore(cfg, doc, errors, Error(comma, MissingCommaInObject, None));
    } else {
      hide Justified;
      var last := if comma.kind == CommentToken then NextToken(cfg, doc, comma.end) else comma;
      if last.kind != ObjectEnd {
        MembersJustified(cfg, doc, last.end, errors, depth, w, name);
      }
    }
  }

  lemma {:induction false} ElementsJustified(cfg: Settings, doc: ByteString, pos: nat, errors: seq<Error>, depth: nat,
                                             v: Value, index: nat)
    requires pos <= |doc| && v.payload.Array?
    ensures KeepsJustified(cfg, doc, ReadElements(cfg, doc, pos, errors, depth, v, index), errors)
    decreases |doc| - pos, 1
  {
    hide SkipSpaces, ReadValue, AfterElement, WithEntry, Recover, Lookup, AllJustified;
    var p := SkipSpaces(doc, pos);
    var prior := Get(v.payload.values, Index(index));
    ValueJustified(cfg, doc, p, errors, depth + 1, prior);
    var o := ReadValue(cfg, doc, p, errors, depth + 1, prior);
    if o.Done? && o.ok {
      AfterElementJustified(cfg, doc, o.pos, o.errors, depth, WithEntry(v, Index(index), o.value), index);
    }
  }

  lemma {:induction false} AfterElementJustified(cfg: Settings, doc: ByteString, pos: nat, errors: seq<Error>,
                                                 depth: nat, w: Value, index: nat)
    requires pos <= |doc| && w.payload.Array?
    ensures KeepsJustified(cfg, doc, AfterElement(cfg, doc, pos, errors, depth, w, index), errors)
    decreases |doc| - pos, 0
  {
    hide NextToken, ReadElements, Recover, AllJustified, IsTokenOf;
    var t := NextToken(cfg, doc, pos);
    NextIsToken(cfg, doc, pos);
    if t.kind == ArraySeparator {
      ElementsJustified(cfg, doc, t.end, errors, depth, w, index + 1);
    } else if t.kind != ArrayEnd {
      OneMore(cfg, doc, errors, Error(t, MissingCommaInArray, None));
    }
  }

  /** The error that the document is no container, as `parse` reports it. */
  ghost predicate RootFault(cfg: Settings, doc: ByteString, r: ParseResult) {
    && r.Parsed? && cfg.strictRoot && !r.root.payload.Array? && !r.root.payload.Object? && r.errors != []
    && var n := |r.errors| - 1;
    && r.errors[n] == Error(Token(ErrorToken, 0, |doc|), RootMustBeContainer, None)
    && AllJustified(cfg, doc, r.errors[..n])
  }

  /** Every error of a parse is about a token of the document that deserves it, or the last is about the whole. */
  lemma ErrorsJustified(cfg: Settings, doc: ByteString, root: Value)
    ensures var r := Parse(cfg, doc, root);
            r.Parsed? ==> AllJustified(cfg, doc, r.errors) || RootFault(cfg, doc, r)
  {
    hide ReadValue, SkipCommentTokens, AllJustified, IsTokenOf;
    var o := ReadValue(cfg, doc, 0, [], 1, root);
    ValueJustified(cfg, doc, 0, [], 1, root);
    NoneJustified(cfg, doc);
    if o.Done? {
      var t := SkipCommentTokens(cfg, doc, o.pos);
      if cfg.failIfExtra && t.kind != EndOfStream {
        NextIsToken(cfg, doc, o.pos);
        assert Justified(cfg, doc, Error(t, ExtraAfterValue, None));
        OneMore(cfg, doc, o.errors, Error(t, ExtraAfterValue, None));
      } else if cfg.strictRoot {
        var whole := Error(Token(ErrorToken, 0, |doc|), RootMustBeContainer, None);
        assert (o.errors + [whole])[..|o.errors|] == o.errors;
      }
    }
  }

  lemma NoneJustified(cfg: Settings, doc: ByteString)
    ensures AllJustified(cfg, doc, [])
  {
  }

  // ---- recovery ----

  predicate Stops(kind: TokenType, until: TokenType) { kind == until || kind == EndOfStream }

  /** `recoverFromError` skips the tokens up to the first of the kind or an end of the stream, and that one too. */
  lemma {:induction false} RecoverStops(cfg: Settings, doc: ByteString, pos: nat, until: TokenType) returns (n: nat)
    requires pos <= |doc|
    ensures var ts := Toks(cfg, doc, pos);
            && n <= |ts| && (forall i | 0 <= i < n :: !Stops(ts[i].kind, until))
            && (n < |ts| ==> Stops(ts[n].kind, until))
            && Recover(cfg, doc, pos, until) == if n < |ts| then ts[n].end else |doc|
    decreases |doc| - pos
  {
    hide ReadToken;
    var t := ReadToken(cfg, doc, pos);
    if t.start == t.end || Stops(t.kind, until) {
      n := 0;
      if t.start == t.end {
        EmptyIsEnd(cfg, doc, pos);
      }
    } else {
      var m := RecoverStops(cfg, doc, t.end, until);
      n := m + 1;
      var ts := Toks(cfg, doc, pos);
      assert ts[1..] == Toks(cfg, doc, t.end);
      forall i | 0 <= i < n ensures !Stops(ts[i].kind, until) {
        assert i > 0 ==> ts[i] == ts[1..][i - 1];
      }
      assert n < |ts| ==> ts[n] == ts[1..][m];
    }
  }

  lemma EmptyIsEnd(cfg: Settings, doc: ByteString, pos: nat)
    requires pos <= |doc| && ReadToken(cfg, doc, pos).start == ReadToken(cfg, doc, pos).end
    ensures ReadToken(cfg, doc, pos) == Token(EndOfStream, |doc|, |doc|)
  {
    hide TokenAt;
  }
}
