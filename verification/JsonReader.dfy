/**
 `OurReader` as it is: an object that moves `current_`, pushes and pops `nodes_` and appends to `errors_`. Every
 method is proved to do what the corresponding function of JsonLexer or JsonParser says. The child a `Value*` on
 the stack points to is kept on the stack itself and written back to its parent when it is popped.
 */
module JsonReader {
  import opened Bytes
  import opened JsonValue
  import opened JsonNumbers
  import opened JsonStrings
  import opened JsonLexer
  import opened JsonLexemes
  import opened JsonParser

  /** What a method of the reader does: return a bool, or throw. */
  datatype Return = Returned(ok: bool) | Raised(reason: Reason)

  lemma ClosingBracket(cfg: Settings, doc: ByteString, pos: nat)
    requires pos < |doc| && doc[pos] == 0x5d
    ensures JsonLexer.ReadToken(cfg, doc, pos) == Token(ArrayEnd, pos, pos + 1)
  {
  }

  class OurReader {
    const features: Settings
    var document: ByteString
    var current: nat
    var nodes: seq<Value>
    var errors: seq<Error>

    constructor (features: Settings)
      ensures this.features == features
    {
      this.features := features;
      document, current, nodes, errors := [], 0, [], [];
    }

    predicate InBounds()
      reads this
    {
      current <= |document|
    }

    // ---- characters and tokens ----

    method GetNextChar() returns (c: Byte)
      requires InBounds()
      modifies this`current
      ensures InBounds()
      ensures old(current) == |document| ==> c == 0 && current == old(current)
      ensures old(current) < |document| ==> c == document[old(current)] && current == old(current) + 1
    {
      if current == |document| {
        return 0;
      }
      c := document[current];
      current := current + 1;
    }

    method SkipSpaces()
      requires InBounds()
      modifies this`current
      ensures InBounds() && current == JsonLexer.SkipSpaces(document, old(current))
    {
      while current != |document|
        invariant InBounds()
        invariant JsonLexer.SkipSpaces(document, current) == JsonLexer.SkipSpaces(document, old(current))
        decreases |document| - current
      {
        var c := document[current];
        if c == 0x20 || c == 0x09 || c == 0x0d || c == 0x0a {
          current := current + 1;
        } else {
          break;
        }
      }
    }

    method Match(pattern: ByteString) returns (matched: bool)
      requires InBounds()
      modifies this`current
      ensures matched == JsonLexer.Match(document, old(current), pattern)
      ensures current == old(current) + if matched then |pattern| else 0
    {
      if |document| - current < |pattern| {
        return false;
      }
      var index := |pattern|;
      while index > 0
        invariant 0 <= index <= |pattern|
        invariant forall k | index <= k < |pattern| :: document[current + k] == pattern[k]
      {
        index := index - 1;
        if document[current + index] != pattern[index] {
          assert document[current..current + |pattern|][index] != pattern[index];
          return false;
        }
      }
      assert document[current..current + |pattern|] == pattern;
      current := current + |pattern|;
      return true;
    }

    /** `readString` and `readStringSingleQuote`, which differ in the quote only. */
    method ReadString(quote: Byte) returns (ok: bool)
      requires InBounds() && quote != BACKSLASH && quote != 0
      modifies this`current
      ensures InBounds() && Scan(ok, current) == JsonStrings.ReadString(document, old(current), quote)
    {
      var c := 0;
      while current != |document|
        invariant InBounds() && c != quote
        invariant JsonStrings.ReadString(document, current, quote)
                  == JsonStrings.ReadString(document, old(current), quote)
        decreases |document| - current
      {
        c := GetNextChar();
        if c == BACKSLASH {
          var _ := GetNextChar();
        } else if c == quote {
          break;
        }
      }
      return c == quote;
    }

    /** `c` and `p` look one character ahead of `current`; `c` is NUL at the end. */
    predicate Ahead(c: Byte, p: nat)
      reads this
    {
      && current <= |document|
      && p == (if current < |document| then current + 1 else current)
      && c == if current < |document| then document[current] else 0
    }

    /** `c = (current_ = p) < end_ ? *p++ : '\0'`. */
    method Advance(p: nat) returns (c: Byte, q: nat)
      requires p <= |document|
      modifies this`current
      ensures current == p && Ahead(c, q)
    {
      current := p;
      if current < |document| {
        return document[p], p + 1;
      }
      return 0, p;
    }

    /** `while (c >= '0' && c <= '9') c = (current_ = p) < end_ ? *p++ : '\0'`. */
    method SkipDigitRun(c0: Byte, p0: nat) returns (c: Byte, p: nat)
      requires Ahead(c0, p0)
      modifies this`current
      ensures Ahead(c, p) && current == SkipDigits(document, old(current))
    {
      c, p := c0, p0;
      while c >= 0x30 && c <= 0x39
        invariant Ahead(c, p)
        invariant SkipDigits(document, current) == SkipDigits(document, old(current))
        decreases |document| - current
      {
        c, p := Advance(p);
      }
    }

    method ReadNumber(checkInf: bool) returns (isNumber: bool)
      requires InBounds()
      modifies this`current
      ensures InBounds() && Scan(isNumber, current) == JsonLexer.ReadNumber(document, old(current), checkInf)
      ensures isNumber ==> Longest(document, old(current), current)
    {
      hide Longest;
      NumberIsLongest(document, current);
      var p := current;
      if checkInf && p != |document| && document[p] == 0x49 {
        p := p + 1;
        current := p;
        return false;
      }
      var c;
      c, p := Advance(p); // the turn the loop takes for the character already consumed
      c, p := SkipDigitRun(c, p);
      c, p := ReadFraction(c, p);
      ReadExponent(c, p);
      return true;
    }

    method ReadFraction(c0: Byte, p0: nat) returns (c: Byte, p: nat)
      requires Ahead(c0, p0)
      modifies this`current
      ensures Ahead(c, p) && current == SkipFraction(document, old(current))
    {
      c, p := c0, p0;
      if c == 0x2e {
        c, p := Advance(p);
        c, p := SkipDigitRun(c, p);
      }
    }

    method ReadExponent(c0: Byte, p0: nat)
      requires Ahead(c0, p0)
      modifies this`current
      ensures InBounds() && current == SkipExponent(document, old(current))
    {
      var c, p := c0, p0;
      if c == 0x65 || c == 0x45 {
        c, p := Advance(p);
        if c == 0x2b || c == 0x2d {
          c, p := Advance(p);
        }
        c, p := SkipDigitRun(c, p);
      }
    }

    method ReadCStyleComment() returns (ok: bool)
      requires InBounds()
      modifies this`current
      ensures InBounds()
      ensures var q := CStyleStop(document, old(current));
              Scan(ok, current) == if q == |document| then Scan(false, q) else Scan(document[q] == 0x2f, q + 1)
    {
      while current + 1 < |document|
        invariant InBounds()
        invariant CStyleStop(document, current) == CStyleStop(document, old(current))
        decreases |document| - current
      {
        var c := GetNextChar();
        if c == 0x2a && document[current] == 0x2f {
          break;
        }
      }
      var last := GetNextChar();
      return last == 0x2f;
    }

    method ReadCppStyleComment()
      requires InBounds()
      modifies this`current
      ensures InBounds() && current == CppStyleEnd(document, old(current))
    {
      while current != |document|
        invariant InBounds()
        invariant CppStyleEnd(document, current) == CppStyleEnd(document, old(current))
        decreases |document| - current
      {
        var c := GetNextChar();
        if c == 0x0a {
          break;
        }
        if c == 0x0d {
          if current != |document| && document[current] == 0x0a {
            var _ := GetNextChar();
          }
          break;
        }
      }
    }

    method ReadComment() returns (ok: bool)
      requires InBounds()
      modifies this`current
      ensures InBounds() && Scan(ok, current) == JsonLexer.ReadComment(document, old(current))
    {
      var c := GetNextChar();
      ok := false;
      if c == 0x2a {
        ok := ReadCStyleComment();
      } else if c == 0x2f {
        ReadCppStyleComment();
        ok := true;
      }
    }

    /** The `-` and `+` cases of `readToken`. */
    method ReadSigned(infinity: TokenType, ghost start: nat) returns (ok: bool, kind: TokenType)
      requires InBounds() && start + 1 == current
      requires infinity != EndOfStream && infinity != ErrorToken
      modifies this`current
      ensures Token(if ok then kind else ErrorToken, start, current) == SignedToken(features, document, start, infinity)
      ensures kind != ErrorToken
    {
      var isNumber := ReadNumber(true);
      if isNumber {
        return true, NumberToken;
      }
      kind := infinity;
      ok := false;
      if features.allowSpecialFloats {
        ok := Match(NFINITY);
      }
    }

    /** The switch of `readToken`, on a character just read. */
    method ReadTokenAt(start: nat, c: Byte) returns (ok: bool, token: Token)
      requires InBounds() && start + 1 == current && c == document[start]
      modifies this`current
      ensures token == TokenAt(features, document, start)
      ensures ok == (token.kind != ErrorToken) && current == token.end
    {
      var kind := ErrorToken;
      ok := true;
      match c {
        case 0x7b => kind := ObjectBegin;
        case 0x7d => kind := ObjectEnd;
        case 0x5b => kind := ArrayBegin;
        case 0x5d => kind := ArrayEnd;
        case 0x22 =>
          kind := StringToken;
          ok := ReadString(QUOTE);
        case 0x27 =>
          if features.allowSingleQuotes {
            kind := StringToken;
            ok := ReadString(0x27);
          } else { // falls through to the slash
            kind := CommentToken;
            ok := ReadComment();
          }
        case 0x2f =>
          kind := CommentToken;
          ok := ReadComment();
        case 0x2d =>
          ok, kind := ReadSigned(NegInfToken, start);
        case 0x2b =>
          ok, kind := ReadSigned(PosInfToken, start);
        case 0x74 =>
          kind := TrueToken;
          ok := Match(RUE);
        case 0x66 =>
          kind := FalseToken;
          ok := Match(ALSE);
        case 0x6e =>
          kind := NullToken;
          ok := Match(ULL);
        case 0x4e =>
          ok := false;
          if features.allowSpecialFloats {
            kind := NaNToken;
            ok := Match(AN);
          }
        case 0x49 =>
          ok := false;
          if features.allowSpecialFloats {
            kind := PosInfToken;
            ok := Match(NFINITY);
          }
        case 0x2c => kind := ArraySeparator;
        case 0x3a => kind := MemberSeparator;
        case 0x00 => kind := EndOfStream;
        case _ =>
          if IsDigit(c) {
            kind := NumberToken;
            var _ := ReadNumber(false);
          } else {
            ok := false;
          }
      }
      token := Token(if ok then kind else ErrorToken, start, current);
    }

    method ReadToken() returns (ok: bool, token: Token)
      requires InBounds()
      modifies this`current
      ensures token == JsonLexer.ReadToken(features, document, old(current))
      ensures ok == (token.kind != ErrorToken) && current == token.end
    {
      SkipSpaces();
      var start := current;
      var c := GetNextChar();
      if start == |document| { // the NUL that stands for the end
        return true, Token(EndOfStream, start, start);
      }
      ok, token := ReadTokenAt(start, c);
    }

    /** Reads tokens until one is not a comment. */
    method ReadPastComments() returns (token: Token)
      requires InBounds()
      modifies this`current
      ensures token == NextToken(features, document, old(current)) && current == token.end
    {
      var ok;
      ok, token := ReadToken();
      while token.kind == CommentToken
        invariant current == token.end <= |document|
        invariant NextToken(features, document, old(current))
               == if token.kind == CommentToken then NextToken(features, document, current) else token
        decreases |document| - current, token.kind == CommentToken
      {
        ok, token := ReadToken();
      }
    }

    method SkipCommentTokens() returns (token: Token)
      requires InBounds()
      modifies this`current
      ensures token == JsonLexer.SkipCommentTokens(features, document, old(current)) && current == token.end
    {
      if features.allowComments {
        token := ReadPastComments();
      } else {
        var ok;
        ok, token := ReadToken();
      }
    }

    /** `recoverFromError`: `readToken` adds no errors, so there are none to discard. */
    method RecoverFromError(skipUntil: TokenType)
      requires InBounds()
      modifies this`current
      ensures InBounds() && current == Recover(features, document, old(current), skipUntil)
    {
      while true
        invariant InBounds()
        invariant Recover(features, document, current, skipUntil)
                  == Recover(features, document, old(current), skipUntil)
        decreases |document| - current
      {
        var ok, skip := ReadToken();
        if skip.kind == skipUntil || skip.kind == EndOfStream {
          break;
        }
      }
    }

    // ---- values ----

    /** The value the top of `nodes_` points to. */
    function CurrentValue(): Value
      reads this
      requires nodes != []
    {
      nodes[|nodes| - 1]
    }

    method SetCurrentValue(v: Value)
      requires nodes != []
      modifies this`nodes
      ensures nodes == old(nodes)[|old(nodes)| - 1 := v]
    {
      nodes := nodes[|nodes| - 1 := v];
    }

    /** What remains to be done, by the specification, was done by this method: the state is the outcome `o`. */
    ghost predicate Reached(o: Outcome, r: Return, below: seq<Value>)
      reads this
    {
      match o
      case Thrown(reason) => r == Raised(reason)
      case Done(ok, pos, errs, value) =>
        r == Returned(ok) && current == pos && errors == errs && nodes == below + [value]
    }

    ghost function Below(): seq<Value>
      reads this
      requires nodes != []
    {
      nodes[..|nodes| - 1]
    }

    /** `addErrorAndRecover`. */
    method AddErrorAndRecover(token: Token, message: Message, extra: Option<nat>, skipUntil: TokenType)
      returns (r: Return)
      requires InBounds() && nodes != []
      modifies this`current, this`errors
      ensures Reached(Fail(features, document, old(current), old(errors), Error(token, message, extra), skipUntil,
                           old(CurrentValue())), r, old(Below()))
    {
      errors := errors + [Error(token, message, extra)];
      RecoverFromError(skipUntil);
      return Returned(false);
    }

    /** `decodeNumber` with its `decodeDouble`. */
    method DecodeNumber(token: Token) returns (decoded: Option<Payload>)
      requires token.start < token.end <= |document|
      ensures decoded == DecodeNumberToken(features, Text(document, token))
    {
      decoded := JsonNumbers.DecodeNumber(Text(document, token));
      if decoded.None? {
        var d := features.scanDouble(Text(document, token));
        if d.Some? {
          decoded := Some(Real(d.value));
        }
      }
    }

    /** The cases of `readValue` for values that are one token, and for what is no value. */
    method ReadScalar(token: Token) returns (r: Return)
      requires nodes != [] && current == token.end && token.start <= token.end <= |document|
      requires token.kind != EndOfStream ==> token.start < token.end
      requires token.kind == StringToken ==> token.start + 2 <= token.end
      modifies this`current, this`nodes, this`errors
      ensures Reached(JsonParser.ReadScalar(features, document, token, old(errors), old(CurrentValue())), r,
                      old(Below()))
    {
      hide DecodeFrom, DecodeNumberToken;
      match token.kind {
        case NumberToken =>
          var decoded := DecodeNumber(token);
          if decoded.None? {
            errors := errors + [Error(token, NotANumber(Text(document, token)), None)];
            return Returned(false);
          }
          SetCurrentValue(Value(decoded.value, token.start, token.end));
        case StringToken =>
          var decoded := DecodeString(Text(document, token));
          if decoded.Malformed? {
            errors := errors + [Error(token, decoded.message, Some(token.start + decoded.at))];
            return Returned(false);
          }
          if |decoded.value| > MAX_STRING_LENGTH {
            return Raised(StringTooLong);
          }
          SetCurrentValue(Value(String(decoded.value), token.start, token.end));
        case TrueToken => SetCurrentValue(Value(Bool(true), token.start, token.end));
        case FalseToken => SetCurrentValue(Value(Bool(false), token.start, token.end));
        case NullToken => SetCurrentValue(Value(Null, token.start, token.end));
        case NaNToken => SetCurrentValue(Value(Real(QUIET_NAN), token.start, token.end));
        case PosInfToken => SetCurrentValue(Value(Real(INFINITY), token.start, token.end));
        case NegInfToken => SetCurrentValue(Value(Real(MINUS_INFINITY), token.start, token.end));
        case _ =>
          r := ReadMissing(token);
          return;
      }
      return Returned(true);
    }

    /** The remaining cases: a dropped null, whose token is un-read, or an error. */
    method ReadMissing(token: Token) returns (r: Return)
      requires nodes != [] && current == token.end <= |document| && token.start <= token.end
      requires token.kind != EndOfStream ==> token.start < token.end
      modifies this`current, this`nodes, this`errors
      ensures if features.allowDroppedNullPlaceholders && EndsDroppedNull(token.kind)
              then Reached(DroppedNull(token, old(errors)), r, old(Below()))
              else Reached(NoValue(token, old(errors), old(CurrentValue())), r, old(Below()))
    {
      if features.allowDroppedNullPlaceholders && EndsDroppedNull(token.kind) {
        current := current - 1;
        SetCurrentValue(Value(Null, current - 1, current));
        return Returned(true);
      }
      SetCurrentValue(CurrentValue().(start := token.start, limit := token.end));
      errors := errors + [Error(token, ValueExpected, None)];
      return Returned(false);
    }

    /**
     Reads the value of the entry `key` of the current container: a reference to it, `(*this)[key]`, is pushed,
     `readValue` fills it, and the reference is popped; here the child is then stored back under its key.
     */
    method ReadChild(key: CZString) returns (r: Return)
      requires InBounds() && nodes != [] && (CurrentValue().payload.Object? || CurrentValue().payload.Array?)
      modifies this`current, this`nodes, this`errors
      ensures match JsonParser.ReadValue(features, document, old(current), old(errors), |old(nodes)| + 1,
                                         Get(old(CurrentValue()).payload.values, key))
              case Thrown(reason) => r == Raised(reason)
              case Done(ok, pos, errs, child) =>
                && r == Returned(ok) && current == pos && errors == errs
                && nodes == old(Below()) + [WithEntry(old(CurrentValue()), key, child)]
      decreases |document| - current, 1
    {
      hide JsonParser.ReadValue;
      ghost var below := Below();
      nodes := nodes + [Get(CurrentValue().payload.values, key)];
      assert Below() == old(nodes);
      r := ReadValue();
      if r.Returned? {
        var child := CurrentValue();
        nodes := nodes[..|nodes| - 1];
        assert nodes == old(nodes);
        SetCurrentValue(WithEntry(CurrentValue(), key, child));
      }
    }

    method ReadValue() returns (r: Return)
      requires InBounds() && nodes != []
      modifies this`current, this`nodes, this`errors
      ensures Reached(JsonParser.ReadValue(features, document, old(current), old(errors), |old(nodes)|,
                                           old(CurrentValue())),
                      r, old(Below()))
      decreases |document| - current, 0
    {
      hide ReadMembers, ReadElements, JsonLexer.SkipCommentTokens, JsonParser.ReadScalar;
      if |nodes| > features.stackLimit {
        return Raised(StackLimitExceeded);
      }
      var token := SkipCommentTokens();
      if token.kind == ObjectBegin {
        r := ReadObject(token);
        if r.Returned? {
          SetCurrentValue(CurrentValue().(limit := current));
        }
      } else if token.kind == ArrayBegin {
        r := ReadArray(token);
        if r.Returned? {
          SetCurrentValue(CurrentValue().(limit := current));
        }
      } else {
        r := ReadScalar(token);
      }
    }

    method ReadObject(token: Token) returns (r: Return)
      requires InBounds() && nodes != []
      modifies this`current, this`nodes, this`errors
      ensures Reached(ReadMembers(features, document, old(current), old(errors), |old(nodes)|,
                                  Value(Object(Empty), token.start, old(CurrentValue()).limit), []), r, old(Below()))
      decreases |document| - current, 3
    {
      hide ReadMember, NextToken, Recover, Fail, JsonParser.ReadName;
      SetCurrentValue(Value(Object(Empty), token.start, CurrentValue().limit));
      var name: ByteString := [];
      while true
        invariant InBounds() && old(current) <= current && |nodes| == |old(nodes)| && Below() == old(Below())
        invariant CurrentValue().payload.Object?
        invariant ReadMembers(features, document, current, errors, |nodes|, CurrentValue(), name)
               == ReadMembers(features, document, old(current), old(errors), |old(nodes)|,
                              Value(Object(Empty), token.start, old(CurrentValue()).limit), [])
        decreases |document| - current
      {
        var tokenName := ReadPastComments();
        if tokenName.kind == ObjectEnd && (name == [] || features.allowTrailingCommas) {
          return Returned(true);
        }
        var next := ReadName(tokenName);
        if next.NotNamed? {
          r := AddErrorAndRecover(next.error.token, next.error.message, next.error.extra, ObjectEnd);
          return;
        }
        name := next.name;
        var finished := ReadMemberTurn(tokenName, name);
        if finished.Some? {
          return finished.value;
        }
      }
    }

    /** The member name of the loop of `readObject`, or the error it reports. */
    method ReadName(tokenName: Token) returns (name: MemberName)
      requires tokenName.start <= tokenName.end <= |document|
      requires tokenName.kind != EndOfStream ==> tokenName.start < tokenName.end
      requires tokenName.kind == StringToken ==> tokenName.start + 2 <= tokenName.end
      ensures name == JsonParser.ReadName(features, document, tokenName)
    {
      if tokenName.kind == StringToken {
        var decoded := DecodeString(Text(document, tokenName));
        if decoded.Malformed? {
          return NotNamed(Error(tokenName, decoded.message, Some(tokenName.start + decoded.at)));
        }
        return Named(decoded.value);
      }
      if tokenName.kind == NumberToken && features.allowNumericKeys {
        var decoded := DecodeNumber(tokenName);
        if decoded.None? {
          return NotNamed(Error(tokenName, NotANumber(Text(document, tokenName)), None));
        }
        return Named(NumberName(features, decoded.value));
      }
      return NotNamed(Error(tokenName, MissingBraceOrName, None));
    }

    /** A turn of the loop of `readObject` once the name is known; `None` means that the loop goes on. */
    method ReadMemberTurn(token: Token, name: ByteString) returns (finished: Option<Return>)
      requires current == token.end <= |document| && nodes != [] && CurrentValue().payload.Object?
      modifies this`current, this`nodes, this`errors
      ensures finished.Some? ==>
        Reached(ReadMember(features, document, token, old(errors), |old(nodes)|, old(CurrentValue()), name),
                finished.value, old(Below()))
      ensures finished.None? ==>
        && InBounds() && current > old(current) && |nodes| == |old(nodes)| && Below() == old(Below())
        && CurrentValue().payload.Object?
        && ReadMembers(features, document, current, errors, |nodes|, CurrentValue(), name)
           == ReadMember(features, document, token, old(errors), |old(nodes)|, old(CurrentValue()), name)
      decreases |document| - current, 2
    {
      hide ReadMembers, AfterMember, JsonParser.ReadValue, JsonLexer.ReadToken, Recover, Fail, Put, Lookup;
      if |name| >= MAX_KEY_LENGTH {
        return Some(Raised(KeyTooLong));
      }
      if features.rejectDupKeys && Lookup(CurrentValue().payload.values, Name(name)).Some? {
        var r := AddErrorAndRecover(token, DuplicateKey(name), None, ObjectEnd);
        return Some(r);
      }
      var ok, colon := ReadToken();
      if !ok || colon.kind != MemberSeparator {
        var r := AddErrorAndRecover(colon, MissingColon, None, ObjectEnd);
        return Some(r);
      }
      var r := ReadChild(Name(name));
      if r.Raised? {
        return Some(r);
      }
      if !r.ok {
        RecoverFromError(ObjectEnd);
        return Some(Returned(false));
      }
      finished := ReadAfterMember(name);
    }

    method ReadAfterMember(ghost name: ByteString) returns (finished: Option<Return>)
      requires InBounds() && nodes != [] && CurrentValue().payload.Object?
      modifies this`current, this`errors
      ensures finished.Some? ==>
        Reached(AfterMember(features, document, old(current), old(errors), |nodes|, CurrentValue(), name),
                finished.value, Below())
      ensures finished.None? ==>
        && InBounds() && current >= old(current)
        && ReadMembers(features, document, current, errors, |nodes|, CurrentValue(), name)
           == AfterMember(features, document, old(current), old(errors), |nodes|, CurrentValue(), name)
    {
      hide ReadMembers, JsonLexer.ReadToken, NextToken, Fail;
      var ok, comma := ReadToken();
      if !ok || (comma.kind != ObjectEnd && comma.kind != ArraySeparator && comma.kind != CommentToken) {
        var r := AddErrorAndRecover(comma, MissingCommaInObject, None, ObjectEnd);
        return Some(r);
      }
      if comma.kind == CommentToken {
        comma := ReadPastComments();
      }
      if comma.kind == ObjectEnd {
        return Some(Returned(true));
      }
      return None;
    }

    method ReadArray(token: Token) returns (r: Return)
      requires InBounds() && nodes != []
      modifies this`current, this`nodes, this`errors
      ensures Reached(ReadElements(features, document, old(current), old(errors), |old(nodes)|,
                                   Value(Array(Empty), token.start, old(CurrentValue()).limit), 0), r, old(Below()))
      decreases |document| - current, 3
    {
      hide ReadElements;
      SetCurrentValue(Value(Array(Empty), token.start, CurrentValue().limit));
      var index := 0;
      while true
        invariant InBounds() && old(current) <= current && |nodes| == |old(nodes)| && Below() == old(Below())
        invariant CurrentValue().payload.Array? && index >= 0
        invariant ReadElements(features, document, current, errors, |nodes|, CurrentValue(), index)
               == ReadElements(features, document, old(current), old(errors), |old(nodes)|,
                               Value(Array(Empty), token.start, old(CurrentValue()).limit), 0)
        decreases |document| - current
      {
        var finished := ReadElementTurn(index);
        if finished.Some? {
          return finished.value;
        }
        index := index + 1;
      }
    }

    /** A turn of the loop of `readArray`. */
    method ReadElementTurn(index: nat) returns (finished: Option<Return>)
      requires InBounds() && nodes != [] && CurrentValue().payload.Array?
      modifies this`current, this`nodes, this`errors
      ensures finished.Some? ==>
        Reached(ReadElements(features, document, old(current), old(errors), |old(nodes)|, old(CurrentValue()), index),
                finished.value, old(Below()))
      ensures finished.None? ==>
        && InBounds() && current > old(current) && |nodes| == |old(nodes)| && Below() == old(Below())
        && CurrentValue().payload.Array?
        && ReadElements(features, document, current, errors, |nodes|, CurrentValue(), index + 1)
           == ReadElements(features, document, old(current), old(errors), |old(nodes)|, old(CurrentValue()), index)
      decreases |document| - current, 2
    {
      hide AfterElement, JsonParser.ReadValue, JsonLexer.ReadToken, NextToken, Recover, Fail, Put, Lookup;
      SkipSpaces();
      if current != |document| && document[current] == 0x5d
        && (index == 0 || (features.allowTrailingCommas && !features.allowDroppedNullPlaceholders)) {
        ClosingBracket(features, document, current);
        var _, endArray := ReadToken();
        return Some(Returned(true));
      }
      if index > MAX_INT { // the index has wrapped, and operator[](int) throws
        return Some(Raised(IndexTooLarge));
      }
      var r := ReadChild(Index(index));
      if r.Raised? {
        return Some(r);
      }
      if !r.ok {
        RecoverFromError(ArrayEnd);
        return Some(Returned(false));
      }
      finished := ReadAfterElement(index);
    }

    /** The end of a turn: the token after the element. */
    method ReadAfterElement(index: nat) returns (finished: Option<Return>)
      requires InBounds() && nodes != [] && CurrentValue().payload.Array?
      modifies this`current, this`errors
      ensures finished.Some? ==>
        Reached(AfterElement(features, document, old(current), old(errors), |nodes|, CurrentValue(), index),
                finished.value, Below())
      ensures finished.None? ==>
        && InBounds() && current > old(current)
        && ReadElements(features, document, current, errors, |nodes|, CurrentValue(), index + 1)
           == AfterElement(features, document, old(current), old(errors), |nodes|, CurrentValue(), index)
    {
      hide ReadElements, JsonLexer.ReadToken, NextToken, Recover, Fail;
      var r;
      var currentToken := ReadPastComments();
      if currentToken.kind != ArraySeparator && currentToken.kind != ArrayEnd {
        r := AddErrorAndRecover(currentToken, MissingCommaInArray, None, ArrayEnd);
        return Some(r);
      }
      if currentToken.kind == ArrayEnd {
        return Some(Returned(true));
      }
      return None;
    }

    /** `parse`: the root is read in place, and the node stack is empty again unless the reader threw. */
    method Parse(doc: ByteString, root: Value) returns (result: ParseResult)
      modifies this
      ensures result == JsonParser.Parse(features, doc, root)
      ensures result.Parsed? ==> nodes == [] && errors == result.errors && current <= |doc|
    {
      document, current, errors := doc, 0, [];
      nodes := [root];
      var r := ReadValue();
      if r.Raised? {
        return ParseThrown(r.reason);
      }
      var value := CurrentValue();
      nodes := nodes[..|nodes| - 1];
      var token := SkipCommentTokens();
      if features.failIfExtra && token.kind != EndOfStream {
        errors := errors + [Error(token, ExtraAfterValue, None)];
        return Parsed(false, value, errors);
      }
      if features.strictRoot {
        if !value.payload.Array? && !value.payload.Object? {
          errors := errors + [Error(Token(ErrorToken, 0, |doc|), RootMustBeContainer, None)];
          return Parsed(false, value, errors);
        }
      }
      return Parsed(r.ok, value, errors);
    }
  }
}
