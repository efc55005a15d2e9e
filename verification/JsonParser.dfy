/**
 What `OurReader` reads, as functions of the document: every setting, every branch, the error recovery and the
 exceptions. The class in JsonReader.dfy does the same work in place and is proved to agree.
 */
module JsonParser {
  import opened Bytes
  import opened JsonValue
  import opened JsonNumbers
  import opened JsonStrings
  import opened JsonLexer

  /** `ErrorInfo`. */
  datatype Error = Error(token: Token, message: Message, extra: Option<nat>)

  /** Why the reader throws instead of returning. */
  datatype Reason = StackLimitExceeded | KeyTooLong | StringTooLong | IndexTooLarge

  /** The outcome of reading one value into a given place. */
  datatype Outcome =
    | Done(ok: bool, pos: nat, errors: seq<Error>, value: Value)
    | Thrown(reason: Reason)

  predicate Success(o: Outcome) { o.Done? && o.ok }

  const MAX_KEY_LENGTH: nat := 0x4000_0000
  const MAX_STRING_LENGTH: nat := 0x7fff_fffa

  /** `decodeNumber`, with `decodeDouble` for what is not an integer. */
  function DecodeNumberToken(cfg: Settings, text: ByteString): Option<Payload> {
    match IntegerOf(text)
    case Some(v) => Some(OurPayload(v))
    case None =>
      match cfg.scanDouble(text)
      case Some(d) => Some(Real(d))
      case None => None
  }

  /** `asString` of a decoded number, for numeric keys. */
  function NumberName(cfg: Settings, p: Payload): ByteString {
    match p
    case Int(i) => IntegerText(i)
    case UInt(u) => IntegerText(u)
    case Real(d) => cfg.showDouble(d)
    case _ => []
  }

  /** `addErrorAndRecover`. */
  function Fail(cfg: Settings, doc: ByteString, pos: nat, errors: seq<Error>, e: Error, until: TokenType,
                v: Value): (o: Outcome)
    requires pos <= |doc|
    ensures o.Done? && !o.ok && pos <= o.pos <= |doc|
  {
    Done(false, Recover(cfg, doc, pos, until), errors + [e], v)
  }

  function WithLimit(o: Outcome): Outcome {
    match o
    case Done(ok, pos, errors, value) => Done(ok, pos, errors, value.(limit := pos))
    case Thrown(_) => o
  }

  /** The tokens that may follow a missing value when placeholders may be dropped. */
  predicate EndsDroppedNull(kind: TokenType) { kind == ArraySeparator || kind == ObjectEnd || kind == ArrayEnd }

  /** A container with one entry set. */
  function WithEntry(v: Value, key: CZString, child: Value): (w: Value)
    requires v.payload.Object? || v.payload.Array?
    ensures w.payload.Object? == v.payload.Object?
    ensures w.payload.Array? == v.payload.Array?
  {
    var values := Put(v.payload.values, key, child);
    v.(payload := if v.payload.Object? then Object(values) else Array(values))
  }

  /** A missing value is null; the token that showed it was missing is un-read. */
  function DroppedNull(t: Token, errors: seq<Error>): Outcome
    requires t.end > 0
  {
    Done(true, t.end - 1, errors, Value(Null, t.end - 2, t.end - 1))
  }

  function NoValue(t: Token, errors: seq<Error>, v: Value): Outcome {
    Done(false, t.end, errors + [Error(t, ValueExpected, None)], Value(v.payload, t.start, t.end))
  }

  /** A value that is one token, or the error that there is none. */
  function ReadScalar(cfg: Settings, doc: ByteString, t: Token, errors: seq<Error>, v: Value): (o: Outcome)
    requires t.start <= t.end <= |doc|
    requires t.kind != EndOfStream ==> t.start < t.end
    requires t.kind == StringToken ==> t.start + 2 <= t.end
    ensures o.Done? ==> t.end - 1 <= o.pos <= t.end
    ensures o.Done? && o.pos != t.end ==> t.kind != EndOfStream
  {
    match t.kind
    case NumberToken =>
      (match DecodeNumberToken(cfg, Text(doc, t))
       case Some(p) => Done(true, t.end, errors, Value(p, t.start, t.end))
       case None => Done(false, t.end, errors + [Error(t, NotANumber(Text(doc, t)), None)], v))
    case StringToken =>
      (match DecodeFrom(Text(doc, t), 1, [])
       case Decoded(s, _) =>
         if |s| > MAX_STRING_LENGTH then Thrown(StringTooLong)
         else Done(true, t.end, errors, Value(String(s), t.start, t.end))
       case Malformed(message, at) => Done(false, t.end, errors + [Error(t, message, Some(t.start + at))], v))
    case TrueToken => Done(true, t.end, errors, Value(Bool(true), t.start, t.end))
    case FalseToken => Done(true, t.end, errors, Value(Bool(false), t.start, t.end))
    case NullToken => Done(true, t.end, errors, Value(Null, t.start, t.end))
    case NaNToken => Done(true, t.end, errors, Value(Real(QUIET_NAN), t.start, t.end))
    case PosInfToken => Done(true, t.end, errors, Value(Real(INFINITY), t.start, t.end))
    case NegInfToken => Done(true, t.end, errors, Value(Real(MINUS_INFINITY), t.start, t.end))
    case _ =>
      if cfg.allowDroppedNullPlaceholders && EndsDroppedNull(t.kind)
      then DroppedNull(t, errors)
      else NoValue(t, errors, v)
  }

  datatype MemberName = Named(name: ByteString) | NotNamed(error: Error)

  /** The member name a token stands for. */
  function ReadName(cfg: Settings, doc: ByteString, t: Token): MemberName
    requires t.start <= t.end <= |doc|
    requires t.kind == StringToken ==> t.start + 2 <= t.end
  {
    if t.kind == StringToken then
      match DecodeFrom(Text(doc, t), 1, [])
      case Decoded(s, _) => Named(s)
      case Malformed(message, at) => NotNamed(Error(t, message, Some(t.start + at)))
    else if t.kind == NumberToken && cfg.allowNumericKeys then
      match DecodeNumberToken(cfg, Text(doc, t))
      case Some(p) => Named(NumberName(cfg, p))
      case None => NotNamed(Error(t, NotANumber(Text(doc, t)), None))
    else NotNamed(Error(t, MissingBraceOrName, None))
  }

  lemma NamedIsToken(cfg: Settings, doc: ByteString, t: Token)
    requires t.start <= t.end <= |doc| && (t.kind == StringToken ==> t.start + 2 <= t.end)
    requires ReadName(cfg, doc, t).Named?
    ensures t.kind != EndOfStream
  {
  }

  /** `readValue`, with `depth` the size of the `nodes_` stack and `v` the value on its top. */
  function ReadValue(cfg: Settings, doc: ByteString, pos: nat, errors: seq<Error>, depth: nat, v: Value): (o: Outcome)
    requires pos <= |doc|
    ensures o.Done? ==> pos <= o.pos <= |doc|
    decreases |doc| - pos, 0
  {
    if depth > cfg.stackLimit then Thrown(StackLimitExceeded)
    else
      var t := SkipCommentTokens(cfg, doc, pos);
      if t.kind == ObjectBegin then
        WithLimit(ReadMembers(cfg, doc, t.end, errors, depth, Value(Object(Empty), t.start, v.limit), []))
      else if t.kind == ArrayBegin then
        WithLimit(ReadElements(cfg, doc, t.end, errors, depth, Value(Array(Empty), t.start, v.limit), 0))
      else ReadScalar(cfg, doc, t, errors, v)
  }

  /** The loop of `readObject`, with the last member name read; ends with the closing brace. */
  function ReadMembers(cfg: Settings, doc: ByteString, pos: nat, errors: seq<Error>, depth: nat, v: Value,
                       name: ByteString): (o: Outcome)
    requires pos <= |doc| && v.payload.Object?
    ensures o.Done? ==> pos <= o.pos <= |doc|
    decreases |doc| - pos, 1
  {
    var t := NextToken(cfg, doc, pos);
    if t.kind == ObjectEnd && (name == [] || cfg.allowTrailingCommas) then Done(true, t.end, errors, v)
    else
      match ReadName(cfg, doc, t)
      case Named(next) => ReadMember(cfg, doc, t, errors, depth, v, next)
      case NotNamed(e) => Fail(cfg, doc, t.end, errors, e, ObjectEnd, v)
  }

  /** The rest of a turn of that loop: colon, value and what follows the value. */
  function ReadMember(cfg: Settings, doc: ByteString, t: Token, errors: seq<Error>, depth: nat, v: Value,
                      name: ByteString): (o: Outcome)
    requires t.end <= |doc| && v.payload.Object?
    ensures o.Done? ==> t.end <= o.pos <= |doc|
    decreases |doc| - t.end, 2
  {
    if |name| >= MAX_KEY_LENGTH then Thrown(KeyTooLong)
    else if cfg.rejectDupKeys && Lookup(v.payload.values, Name(name)).Some? then
      Fail(cfg, doc, t.end, errors, Error(t, DuplicateKey(name), None), ObjectEnd, v)
    else
      var colon := ReadToken(cfg, doc, t.end);
      if colon.kind != MemberSeparator then
        Fail(cfg, doc, colon.end, errors, Error(colon, MissingColon, None), ObjectEnd, v)
      else
        match ReadValue(cfg, doc, colon.end, errors, depth + 1, Get(v.payload.values, Name(name)))
        case Thrown(reason) => Thrown(reason)
        case Done(ok, pos, errors, child) =>
          var w := WithEntry(v, Name(name), child);
          if !ok then Done(false, Recover(cfg, doc, pos, ObjectEnd), errors, w)
          else AfterMember(cfg, doc, pos, errors, depth, w, name)
  }

  /** What follows the value of a member. */
  function AfterMember(cfg: Settings, doc: ByteString, pos: nat, errors: seq<Error>, depth: nat, w: Value,
                       name: ByteString): (o: Outcome)
    requires pos <= |doc| && w.payload.Object?
    ensures o.Done? ==> pos <= o.pos <= |doc|
    decreases |doc| - pos, 2
  {
    var comma := ReadToken(cfg, doc, pos);
    if comma.kind !in {ObjectEnd, ArraySeparator, CommentToken} then
      Fail(cfg, doc, comma.end, errors, Error(comma, MissingCommaInObject, None), ObjectEnd, w)
    else
      var last := if comma.kind == CommentToken then NextToken(cfg, doc, comma.end) else comma;
      if last.kind == ObjectEnd then Done(true, last.end, errors, w)
      else ReadMembers(cfg, doc, last.end, errors, depth, w, name)
  }

  /** The loop of `readArray`. */
  function ReadElements(cfg: Settings, doc: ByteString, pos: nat, errors: seq<Error>, depth: nat, v: Value,
                        index: nat): (o: Outcome)
    requires pos <= |doc| && v.payload.Array?
    ensures o.Done? ==> pos <= o.pos <= |doc|
    decreases |doc| - pos, 1
  {
    var p := SkipSpaces(doc, pos);
    if p < |doc| && doc[p] == 0x5d
      && (index == 0 || (cfg.allowTrailingCommas && !cfg.allowDroppedNullPlaceholders)) then
      Done(true, p + 1, errors, v)
    else if index > MAX_INT then Thrown(IndexTooLarge)
    else
      match ReadValue(cfg, doc, p, errors, depth + 1, Get(v.payload.values, Index(index)))
      case Thrown(reason) => Thrown(reason)
      case Done(ok, pos, errors, child) =>
        var w := WithEntry(v, Index(index), child);
        if !ok then Done(false, Recover(cfg, doc, pos, ArrayEnd), errors, w)
        else AfterElement(cfg, doc, pos, errors, depth, w, index)
  }

  /** What follows an element. */
  function AfterElement(cfg: Settings, doc: ByteString, pos: nat, errors: seq<Error>, depth: nat, w: Value,
                        index: nat): (o: Outcome)
    requires pos <= |doc| && w.payload.Array?
    ensures o.Done? ==> pos <= o.pos <= |doc|
    decreases |doc| - pos, 0
  {
    var t := NextToken(cfg, doc, pos);
    if t.kind == ArrayEnd then Done(true, t.end, errors, w)
    else if t.kind == ArraySeparator then ReadElements(cfg, doc, t.end, errors, depth, w, index + 1)
    else Fail(cfg, doc, t.end, errors, Error(t, MissingCommaInArray, None), ArrayEnd, w)
  }

  /** What a value is, by its first token. */
  lemma ValueCases(cfg: Settings, doc: ByteString, pos: nat, errors: seq<Error>, depth: nat, v: Value)
    requires pos <= |doc| && Success(ReadValue(cfg, doc, pos, errors, depth, v))
    ensures var t := SkipCommentTokens(cfg, doc, pos);
            ReadValue(cfg, doc, pos, errors, depth, v)
            == if t.kind == ObjectBegin then
                 WithLimit(ReadMembers(cfg, doc, t.end, errors, depth, Value(Object(Empty), t.start, v.limit), []))
               else if t.kind == ArrayBegin then
                 WithLimit(ReadElements(cfg, doc, t.end, errors, depth, Value(Array(Empty), t.start, v.limit), 0))
               else ReadScalar(cfg, doc, t, errors, v)
  {
    hide SkipCommentTokens, ReadMembers, ReadElements, ReadScalar, WithLimit;
  }

  datatype ParseResult = Parsed(ok: bool, root: Value, errors: seq<Error>) | ParseThrown(reason: Reason)

  /** `OurReader::parse`. */
  function Parse(cfg: Settings, doc: ByteString, root: Value): ParseResult {
    match ReadValue(cfg, doc, 0, [], 1, root)
    case Thrown(reason) => ParseThrown(reason)
    case Done(ok, pos, errors, value) =>
      var t := SkipCommentTokens(cfg, doc, pos);
      if cfg.failIfExtra && t.kind != EndOfStream then
        Parsed(false, value, errors + [Error(t, ExtraAfterValue, None)])
      else if cfg.strictRoot && !value.payload.Array? && !value.payload.Object? then
        Parsed(false, value, errors + [Error(Token(ErrorToken, 0, |doc|), RootMustBeContainer, None)])
      else Parsed(ok, value, errors)
  }
}
