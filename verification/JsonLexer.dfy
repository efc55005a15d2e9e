/** The lexer of `OurReader`: tokens as functions of the document and a place in it. */
module JsonLexer {
  import opened Bytes
  import opened JsonValue
  import opened JsonNumbers
  import opened JsonStrings

  /** `OurFeatures`, and the two library conversions of doubles the reader calls. */
  datatype Settings = Settings(
    allowComments: bool,
    allowTrailingCommas: bool,
    strictRoot: bool,
    allowDroppedNullPlaceholders: bool,
    allowNumericKeys: bool,
    allowSingleQuotes: bool,
    failIfExtra: bool,
    rejectDupKeys: bool,
    allowSpecialFloats: bool,
    stackLimit: nat,
    scanDouble: ByteString -> Option<Double>,
    showDouble: Double -> ByteString
  )

  /** `CharReaderBuilder::setDefaults`. */
  function DefaultSettings(scanDouble: ByteString -> Option<Double>, showDouble: Double -> ByteString): Settings {
    Settings(true, true, false, false, false, false, false, false, false, 1000, scanDouble, showDouble)
  }

  /** `CharReaderBuilder::strictMode`. */
  function StrictSettings(scanDouble: ByteString -> Option<Double>, showDouble: Double -> ByteString): Settings {
    Settings(false, false, true, false, false, false, true, true, false, 1000, scanDouble, showDouble)
  }

  datatype TokenType =
    | EndOfStream
    | ObjectBegin
    | ObjectEnd
    | ArrayBegin
    | ArrayEnd
    | StringToken
    | NumberToken
    | TrueToken
    | FalseToken
    | NullToken
    | NaNToken
    | PosInfToken
    | NegInfToken
    | ArraySeparator
    | MemberSeparator
    | CommentToken
    | ErrorToken

  datatype Token = Token(kind: TokenType, start: nat, end: nat)

  predicate IsSpace(c: Byte) { c == 0x20 || c == 0x09 || c == 0x0d || c == 0x0a }

  function SkipSpaces(doc: ByteString, pos: nat): (q: nat)
    requires pos <= |doc|
    ensures pos <= q <= |doc|
    ensures q < |doc| ==> !IsSpace(doc[q])
    decreases |doc| - pos
  {
    if pos < |doc| && IsSpace(doc[pos]) then SkipSpaces(doc, pos + 1) else pos
  }

  function SkipDigits(doc: ByteString, pos: nat): (q: nat)
    requires pos <= |doc|
    ensures pos <= q <= |doc|
    decreases |doc| - pos
  {
    if pos < |doc| && IsDigit(doc[pos]) then SkipDigits(doc, pos + 1) else pos
  }

  function SkipFraction(doc: ByteString, pos: nat): (q: nat)
    requires pos <= |doc|
    ensures pos <= q <= |doc|
  {
    if pos < |doc| && doc[pos] == 0x2e then SkipDigits(doc, pos + 1) else pos
  }

  function SkipExponent(doc: ByteString, pos: nat): (q: nat)
    requires pos <= |doc|
    ensures pos <= q <= |doc|
  {
    if pos < |doc| && (doc[pos] == 0x65 || doc[pos] == 0x45) then
      if pos + 1 < |doc| && (doc[pos + 1] == 0x2b || doc[pos + 1] == 0x2d) then SkipDigits(doc, pos + 2)
      else SkipDigits(doc, pos + 1)
    else pos
  }

  /** `readNumber`, after the first character; false means an `I` was seen instead. */
  function ReadNumber(doc: ByteString, pos: nat, checkInf: bool): (r: Scan)
    requires pos <= |doc|
    ensures pos <= r.end <= |doc|
  {
    if checkInf && pos < |doc| && doc[pos] == 0x49 then Scan(false, pos + 1)
    else Scan(true, SkipExponent(doc, SkipFraction(doc, SkipDigits(doc, pos))))
  }

  /** `match`. */
  predicate Match(doc: ByteString, pos: nat, pattern: ByteString)
    requires pos <= |doc|
  {
    |doc| - pos >= |pattern| && doc[pos..pos + |pattern|] == pattern
  }

  /** The loop of `readCStyleComment`: it stops at the slash of a closing pair, or before the last byte. */
  function CStyleStop(doc: ByteString, pos: nat): (q: nat)
    requires pos <= |doc|
    ensures pos <= q <= |doc|
    decreases |doc| - pos
  {
    if pos + 1 < |doc| then
      if doc[pos] == 0x2a && doc[pos + 1] == 0x2f then pos + 1 else CStyleStop(doc, pos + 1)
    else pos
  }

  function CppStyleEnd(doc: ByteString, pos: nat): (q: nat)
    requires pos <= |doc|
    ensures pos <= q <= |doc|
    decreases |doc| - pos
  {
    if pos == |doc| then pos
    else if doc[pos] == 0x0a then pos + 1
    else if doc[pos] == 0x0d then
      if pos + 1 < |doc| && doc[pos + 1] == 0x0a then pos + 2 else pos + 1
    else CppStyleEnd(doc, pos + 1)
  }

  /** `readComment`, after the first slash. */
  function ReadComment(doc: ByteString, pos: nat): (r: Scan)
    requires pos <= |doc|
    ensures pos <= r.end <= |doc|
  {
    if pos == |doc| then Scan(false, pos)
    else if doc[pos] == 0x2a then
      var q := CStyleStop(doc, pos + 1);
      if q == |doc| then Scan(false, q) else Scan(doc[q] == 0x2f, q + 1)
    else if doc[pos] == 0x2f then Scan(true, CppStyleEnd(doc, pos + 1))
    else Scan(false, pos + 1)
  }

  /** A C comment is accepted if it is closed, but also if it is not and the document just happens to end in a slash. */
  lemma {:induction false} CommentAcceptedIff(doc: ByteString, pos: nat)
    requires pos < |doc| && doc[pos] == 0x2a
    ensures ReadComment(doc, pos).ok <==>
            (exists q :: pos < q < |doc| - 1 && doc[q] == 0x2a && doc[q + 1] == 0x2f)
            || (pos < |doc| - 1 && doc[|doc| - 1] == 0x2f)
  {
    CStyleStopIff(doc, pos + 1);
  }

  lemma {:induction false} CStyleStopIff(doc: ByteString, pos: nat)
    requires pos <= |doc|
    ensures var stop := CStyleStop(doc, pos);
            if exists q :: pos <= q < |doc| - 1 && doc[q] == 0x2a && doc[q + 1] == 0x2f
            then stop < |doc| && doc[stop] == 0x2f
            else stop == if pos < |doc| then |doc| - 1 else |doc|
    decreases |doc| - pos
  {
    if pos + 1 < |doc| && !(doc[pos] == 0x2a && doc[pos + 1] == 0x2f) {
      CStyleStopIff(doc, pos + 1);
    }
  }

  const NFINITY: ByteString := [0x6e, 0x66, 0x69, 0x6e, 0x69, 0x74, 0x79]
  const RUE: ByteString := [0x72, 0x75, 0x65]
  const ALSE: ByteString := [0x61, 0x6c, 0x73, 0x65]
  const ULL: ByteString := [0x75, 0x6c, 0x6c]
  const AN: ByteString := [0x61, 0x4e]

  /** A token whose first character is followed by a fixed word. */
  function Word(doc: ByteString, start: nat, from: nat, kind: TokenType, word: ByteString, allowed: bool): (t: Token)
    requires start < from <= |doc|
    requires kind != EndOfStream && kind != ErrorToken
    ensures t.start == start && from <= t.end <= |doc|
    ensures t.kind == kind || t.kind == ErrorToken
  {
    if allowed && Match(doc, from, word) then Token(kind, start, from + |word|) else Token(ErrorToken, start, from)
  }

  function Scanned(start: nat, kind: TokenType, r: Scan): Token {
    Token(if r.ok then kind else ErrorToken, start, r.end)
  }

  function SignedToken(cfg: Settings, doc: ByteString, start: nat, infinity: TokenType): (t: Token)
    requires start < |doc|
    requires infinity != EndOfStream && infinity != ErrorToken
    ensures t.start == start < t.end <= |doc|
    ensures t.kind != EndOfStream
  {
    var r := ReadNumber(doc, start + 1, true);
    if r.ok then Token(NumberToken, start, r.end)
    else Word(doc, start, r.end, infinity, NFINITY, cfg.allowSpecialFloats)
  }

  /** The token that starts at `start`, by its first character. */
  function TokenAt(cfg: Settings, doc: ByteString, start: nat): (t: Token)
    requires start < |doc|
    ensures t.start == start < t.end <= |doc|
    ensures t.kind == StringToken ==> t.start + 2 <= t.end
  {
    var c, p := doc[start], start + 1;
    match c
    case 0x7b => Token(ObjectBegin, start, p)
    case 0x7d => Token(ObjectEnd, start, p)
    case 0x5b => Token(ArrayBegin, start, p)
    case 0x5d => Token(ArrayEnd, start, p)
    case 0x22 => Scanned(start, StringToken, ReadString(doc, p, QUOTE))
    case 0x27 => if cfg.allowSingleQuotes then Scanned(start, StringToken, ReadString(doc, p, 0x27))
                 else Scanned(start, CommentToken, ReadComment(doc, p)) // the case falls through
    case 0x2f => Scanned(start, CommentToken, ReadComment(doc, p))
    case 0x2d => SignedToken(cfg, doc, start, NegInfToken)
    case 0x2b => SignedToken(cfg, doc, start, PosInfToken)
    case 0x74 => Word(doc, start, p, TrueToken, RUE, true)
    case 0x66 => Word(doc, start, p, FalseToken, ALSE, true)
    case 0x6e => Word(doc, start, p, NullToken, ULL, true)
    case 0x4e => Word(doc, start, p, NaNToken, AN, cfg.allowSpecialFloats)
    case 0x49 => Word(doc, start, p, PosInfToken, NFINITY, cfg.allowSpecialFloats)
    case 0x2c => Token(ArraySeparator, start, p)
    case 0x3a => Token(MemberSeparator, start, p)
    case 0x00 => Token(EndOfStream, start, p)
    case _ => if IsDigit(c) then Scanned(start, NumberToken, ReadNumber(doc, p, false))
              else Token(ErrorToken, start, p)
  }

  /** `readToken`; it returns false exactly when the kind is `ErrorToken`. */
  function ReadToken(cfg: Settings, doc: ByteString, pos: nat): (t: Token)
    requires pos <= |doc|
    ensures pos <= t.start <= t.end <= |doc|
    ensures t.kind != EndOfStream ==> t.start < t.end
    ensures t.kind == StringToken ==> t.start + 2 <= t.end
  {
    var start := SkipSpaces(doc, pos);
    if start == |doc| then Token(EndOfStream, start, start) else TokenAt(cfg, doc, start)
  }

  /** Reads past comments. */
  function NextToken(cfg: Settings, doc: ByteString, pos: nat): (t: Token)
    requires pos <= |doc|
    ensures pos <= t.start <= t.end <= |doc|
    ensures t.kind != EndOfStream ==> t.start < t.end
    ensures t.kind == StringToken ==> t.start + 2 <= t.end
    ensures t.kind != CommentToken
    decreases |doc| - pos
  {
    var t := ReadToken(cfg, doc, pos);
    if t.kind == CommentToken then NextToken(cfg, doc, t.end) else t
  }

  /** `skipCommentTokens`. */
  function SkipCommentTokens(cfg: Settings, doc: ByteString, pos: nat): (t: Token)
    requires pos <= |doc|
    ensures pos <= t.start <= t.end <= |doc|
    ensures t.kind != EndOfStream ==> t.start < t.end
    ensures t.kind == StringToken ==> t.start + 2 <= t.end
  {
    if cfg.allowComments then NextToken(cfg, doc, pos) else ReadToken(cfg, doc, pos)
  }

  /** `recoverFromError`: where reading goes on after everything up to the given kind has been skipped. */
  function Recover(cfg: Settings, doc: ByteString, pos: nat, skipUntil: TokenType): (q: nat)
    requires pos <= |doc|
    ensures pos <= q <= |doc|
    decreases |doc| - pos
  {
    var t := ReadToken(cfg, doc, pos);
    if t.kind == skipUntil || t.kind == EndOfStream then t.end else Recover(cfg, doc, t.end, skipUntil)
  }

  function Text(doc: ByteString, t: Token): (s: ByteString)
    requires t.start <= t.end <= |doc|
    ensures |s| == t.end - t.start
  {
    doc[t.start..t.end]
  }
}
