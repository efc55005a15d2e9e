/** What the reader lets pass whatever its settings say: the guards in question, exactly, and documents that show it. */
module JsonLeniencies {
  import opened Bytes
  import opened JsonValue
  import opened JsonNumbers
  import opened JsonUnicode
  import opened JsonStrings
  import opened JsonLexer
  import opened JsonParser
  import opened JsonText
  import opened JsonRoundTrip

  // ---- tokens ----

  /** The stream ends where the document does, and at every NUL byte. */
  lemma EndOfStreamIff(cfg: Settings, doc: ByteString, pos: nat)
    requires pos <= |doc|
    ensures var p := SkipSpaces(doc, pos);
            ReadToken(cfg, doc, pos).kind == EndOfStream <==> p == |doc| || doc[p] == 0x00
  {
  }

  /** A comment starts at a slash, and at a single quote when those do not start strings. */
  lemma CommentTokenIff(cfg: Settings, doc: ByteString, pos: nat)
    requires pos <= |doc|
    ensures var p := SkipSpaces(doc, pos);
            ReadToken(cfg, doc, pos).kind == CommentToken <==>
            p < |doc| && (doc[p] == 0x2f || (doc[p] == 0x27 && !cfg.allowSingleQuotes)) && ReadComment(doc, p + 1).ok
  {
    hide ReadComment, ReadNumber, ReadString;
  }

  // ---- comments ----

  /** Before a value, a comment is accepted exactly if comments are allowed. */
  lemma CommentBeforeValueIff(cfg: Settings, doc: ByteString, pos: nat, errors: seq<Error>, depth: nat, v: Value)
    requires pos <= |doc| && ReadToken(cfg, doc, pos).kind == CommentToken
    ensures Success(ReadValue(cfg, doc, pos, errors, depth, v)) <==>
            cfg.allowComments && Success(ReadValue(cfg, doc, ReadToken(cfg, doc, pos).end, errors, depth, v))
    ensures cfg.allowComments ==>
              ReadValue(cfg, doc, pos, errors, depth, v)
              == ReadValue(cfg, doc, ReadToken(cfg, doc, pos).end, errors, depth, v)
  {
    hide ReadToken, ReadMembers, ReadElements, DecodeFrom, DecodeNumberToken;
  }

  /** Before a member, or the brace in its place, a comment is passed over whatever the settings. */
  lemma CommentBeforeMember(cfg: Settings, doc: ByteString, pos: nat, errors: seq<Error>, depth: nat, v: Value,
                            name: ByteString)
    requires pos <= |doc| && v.payload.Object? && ReadToken(cfg, doc, pos).kind == CommentToken
    ensures ReadMembers(cfg, doc, pos, errors, depth, v, name)
         == ReadMembers(cfg, doc, ReadToken(cfg, doc, pos).end, errors, depth, v, name)
  {
    hide ReadToken, ReadMember, ReadName, Fail;
  }

  /** After a member, before the comma or the brace, too. */
  lemma CommentAfterMember(cfg: Settings, doc: ByteString, pos: nat, errors: seq<Error>, depth: nat, w: Value,
                           name: ByteString)
    requires pos <= |doc| && w.payload.Object? && ReadToken(cfg, doc, pos).kind == CommentToken
    requires NextToken(cfg, doc, pos).kind == ArraySeparator || NextToken(cfg, doc, pos).kind == ObjectEnd
    ensures AfterMember(cfg, doc, pos, errors, depth, w, name)
         == AfterMember(cfg, doc, ReadToken(cfg, doc, pos).end, errors, depth, w, name)
  {
    hide ReadToken, ReadMembers, Fail;
  }

  /** After an element, before the comma or the bracket, too. */
  lemma CommentAfterElement(cfg: Settings, doc: ByteString, pos: nat, errors: seq<Error>, depth: nat, w: Value,
                            index: nat)
    requires pos <= |doc| && w.payload.Array? && ReadToken(cfg, doc, pos).kind == CommentToken
    ensures AfterElement(cfg, doc, pos, errors, depth, w, index)
         == AfterElement(cfg, doc, ReadToken(cfg, doc, pos).end, errors, depth, w, index)
  {
    hide ReadToken, ReadElements, Fail;
  }

  /** Before a colon a comment is refused whatever the settings. */
  lemma CommentBeforeColon(cfg: Settings, doc: ByteString, t: Token, errors: seq<Error>, depth: nat, v: Value,
                           name: ByteString)
    requires t.end <= |doc| && v.payload.Object? && ReadToken(cfg, doc, t.end).kind == CommentToken
    ensures !Success(ReadMember(cfg, doc, t, errors, depth, v, name))
  {
    hide ReadToken, ReadValue, Recover;
  }

  // ---- separators ----

  /**
   A token that is neither a comma nor a brace is taken for the comma after a member exactly if a comment stands
   between the two.
   */
  lemma AnySeparatorIff(cfg: Settings, doc: ByteString, pos: nat, errors: seq<Error>, depth: nat, w: Value,
                        name: ByteString)
    requires pos <= |doc| && w.payload.Object?
    requires var t := NextToken(cfg, doc, pos); t.kind != ArraySeparator && t.kind != ObjectEnd
    ensures Success(AfterMember(cfg, doc, pos, errors, depth, w, name)) <==>
            && ReadToken(cfg, doc, pos).kind == CommentToken
            && Success(ReadMembers(cfg, doc, NextToken(cfg, doc, pos).end, errors, depth, w, name))
    ensures ReadToken(cfg, doc, pos).kind == CommentToken ==>
              AfterMember(cfg, doc, pos, errors, depth, w, name)
              == ReadMembers(cfg, doc, NextToken(cfg, doc, pos).end, errors, depth, w, name)
  {
    hide ReadToken, ReadMembers, Recover;
  }

  /** A comma before the closing brace is accepted exactly if trailing commas are allowed or the last name is empty. */
  lemma TrailingCommaIff(cfg: Settings, doc: ByteString, pos: nat, errors: seq<Error>, depth: nat, w: Value,
                         name: ByteString)
    requires pos <= |doc| && w.payload.Object? && ReadToken(cfg, doc, pos).kind == ArraySeparator
    requires NextToken(cfg, doc, ReadToken(cfg, doc, pos).end).kind == ObjectEnd
    ensures AfterMember(cfg, doc, pos, errors, depth, w, name).Done?
    ensures Success(AfterMember(cfg, doc, pos, errors, depth, w, name)) <==> name == [] || cfg.allowTrailingCommas
    ensures name == [] || cfg.allowTrailingCommas ==>
              AfterMember(cfg, doc, pos, errors, depth, w, name)
              == Done(true, NextToken(cfg, doc, ReadToken(cfg, doc, pos).end).end, errors, w)
  {
    hide ReadToken, NextToken, Recover;
  }

  // ---- whole documents ----

  const COMMENT: ByteString := [0x2f, 0x2a, 0x2a, 0x2f]
  const SEMICOLON: ByteString := [0x3b]

  /** The text of some tokens with nothing between them. */
  function Joined(toks: seq<ByteString>): ByteString {
    if toks == [] then [] else toks[0] + Joined(toks[1..])
  }

  lemma {:induction false} JoinedSpells(toks: seq<ByteString>)
    requires forall tok | tok in toks :: tok != [] && !IsSpace(tok[0])
    ensures Spells(Joined(toks), 0, toks)
  {
    if toks == [] {
      BlankSpells([]);
    } else {
      assert toks == [toks[0]] + toks[1..] && toks[0] in toks;
      TokenSpells(toks[0]);
      forall tok | tok in toks[1..] ensures tok != [] && !IsSpace(tok[0]) {
        assert tok in toks;
      }
      JoinedSpells(toks[1..]);
      SpellsConcat(toks[0], 0, [toks[0]], Joined(toks[1..]), toks[1..]);
    }
  }

  /** A comment among the tokens of a document is read as one. */
  lemma CommentRead(cfg: Settings, doc: ByteString, pos: nat, rest: seq<ByteString>)
    requires pos <= |doc| && Spells(doc, pos, [COMMENT] + rest)
    ensures var p := SkipSpaces(doc, pos);
            && ReadToken(cfg, doc, pos) == Token(CommentToken, p, p + 4)
            && p + 4 <= |doc| && Spells(doc, p + 4, rest)
  {
    var p := SkipSpaces(doc, pos);
    SpelledFirst(doc, pos, [COMMENT] + rest);
    assert ([COMMENT] + rest)[1..] == rest;
    hide Spells, SkipSpaces;
    assert doc[p] == COMMENT[0] && doc[p + 1] == COMMENT[1] && doc[p + 2] == COMMENT[2] && doc[p + 3] == COMMENT[3] by {
      assert doc[p..p + 4] == COMMENT;
    }
    assert CStyleStop(doc, p + 2) == p + 3;
  }

  /** An array of one value with a comment after it is read under every setting. */
  lemma CommentInArray(cfg: Settings, doc: ByteString, v: Value, emitUTF8: bool, root: Value)
    requires Writable(v, emitUTF8) && 1 + Depth(v) <= cfg.stackLimit
    requires Spells(doc, 0, [LBRACKET] + (Tokens(v, emitUTF8) + ([COMMENT] + [RBRACKET])))
    ensures var r := Parse(cfg, doc, root);
            r.Parsed? && r.ok && Plain(r.root) == Value(Array(Entry(Index(0), Canon(v), Empty)), 0, 0)
  {
    hide Spells, ReadToken, NextToken, SkipCommentTokens, SkipSpaces, ReadElements, Tokens;
    var fromComment := [COMMENT] + [RBRACKET];
    FirstTokenRead(cfg, doc, 0, LBRACKET, ArrayBegin, Tokens(v, emitUTF8) + fromComment);
    var p := SkipSpaces(doc, 0);
    var acc := Value(Array(Empty), p, root.limit);
    ElementThenComment(cfg, doc, p + 1, acc, v, emitUTF8);
    NothingLeft(cfg, doc, ReadElements(cfg, doc, p + 1, [], 1, acc, 0).pos);
  }

  lemma ElementThenComment(cfg: Settings, doc: ByteString, pos: nat, acc: Value, v: Value, emitUTF8: bool)
    requires Writable(v, emitUTF8) && 1 + Depth(v) <= cfg.stackLimit && acc.payload == Array(Empty)
    requires pos <= |doc| && Spells(doc, pos, Tokens(v, emitUTF8) + ([COMMENT] + [RBRACKET]))
    ensures Extends(doc, ReadElements(cfg, doc, pos, [], 1, acc, 0), [], acc, Entry(Index(0), Canon(v), Empty), [])
  {
    hide Spells, ReadToken, NextToken, AfterElement, ReadElements, ReadValue, Tokens, Canon, Plain;
    hide SkipSpaces, Writable;
    var fromComment := [COMMENT] + [RBRACKET];
    FirstOfValue(v, emitUTF8);
    NotAtBracket(doc, pos, Tokens(v, emitUTF8) + fromComment);
    SpacesSkipped(doc, pos, Tokens(v, emitUTF8) + fromComment);
    NewEntry(acc, Index(0), NULL_SINGLETON, Plain(NULL_SINGLETON), Empty);
    var p := SkipSpaces(doc, pos);
    ReadsValue(cfg, doc, p, [], 2, NULL_SINGLETON, v, emitUTF8, fromComment);
    ElementTurn(cfg, doc, pos, [], 1, acc, 0);
    var child := ReadValue(cfg, doc, p, [], 2, NULL_SINGLETON);
    NewEntry(acc, Index(0), child.value, Canon(v), Empty);
    var w := WithEntry(acc, Index(0), child.value);
    CommentRead(cfg, doc, child.pos, [RBRACKET]);
    CommentAfterElement(cfg, doc, child.pos, [], 1, w, 0);
    assert [] + ([RBRACKET] + []) == [RBRACKET];
    LastElement(cfg, doc, ReadToken(cfg, doc, child.pos).end, [], 1, w, 0, []);
    AppendEmpty(PlainMap(w.payload.values));
  }

  /** A member whose name is above the others is read up to what follows its value. */
  lemma MemberRead(cfg: Settings, doc: ByteString, pos: nat, acc: Value, name: ByteString, key: ByteString, v: Value,
                   emitUTF8: bool, rest: seq<ByteString>) returns (q: nat, w: Value)
    requires Preserved(key, emitUTF8) && |key| < MAX_KEY_LENGTH && Writable(v, emitUTF8)
             && 1 + Depth(v) <= cfg.stackLimit
    requires acc.payload.Object? && AllBelow(acc.payload.values, Name(key)) && Follows(rest)
    requires pos <= |doc|
    requires Spells(doc, pos, [Quoted(key, emitUTF8)] + ([COLON] + (Tokens(v, emitUTF8) + rest)))
    ensures q <= |doc| && Spells(doc, q, rest) && w.payload.Object?
    ensures ReadMembers(cfg, doc, pos, [], 1, acc, name) == AfterMember(cfg, doc, q, [], 1, w, key)
    ensures PlainMap(w.payload.values) == Append(PlainMap(acc.payload.values), Entry(Name(key), Canon(v), Empty))
    ensures forall above | KeyLess(Name(key), above) :: AllBelow(w.payload.values, above)
  {
    hide Spells, ValueStart, ReadValue, ReadMembers, AfterMember, Tokens, Canon, Plain, Quoted, Preserved;
    hide Lookup, Writable;
    NewEntry(acc, Name(key), NULL_SINGLETON, Plain(NULL_SINGLETON), Empty);
    MemberHead(cfg, doc, pos, [], 1, acc, name, key, emitUTF8, Tokens(v, emitUTF8) + rest);
    var at := ValueStart(cfg, doc, pos);
    ReadsValue(cfg, doc, at, [], 2, NULL_SINGLETON, v, emitUTF8, rest);
    var child := ReadValue(cfg, doc, at, [], 2, NULL_SINGLETON);
    q, w := child.pos, WithEntry(acc, Name(key), child.value);
    NewEntry(acc, Name(key), child.value, Canon(v), Empty);
    AppendEmpty(PlainMap(w.payload.values));
    forall above | KeyLess(Name(key), above) ensures AllBelow(w.payload.values, above) {
      BelowAfterPut(acc.payload.values, Name(key), child.value, above);
    }
  }

  /** An object that is spelled from its first member on. */
  lemma ObjectOpens(cfg: Settings, doc: ByteString, root: Value, fromName: seq<ByteString>) returns (p: nat, acc: Value)
    requires Spells(doc, 0, [LBRACE] + fromName) && cfg.stackLimit >= 1
    ensures p <= |doc| && Spells(doc, p, fromName) && acc == Value(Object(Empty), p - 1, root.limit)
    ensures ReadValue(cfg, doc, 0, [], 1, root) == WithLimit(ReadMembers(cfg, doc, p, [], 1, acc, []))
  {
    hide Spells, ReadToken, NextToken, SkipCommentTokens, SkipSpaces, ReadMembers, WithLimit;
    FirstTokenRead(cfg, doc, 0, LBRACE, ObjectBegin, fromName);
    p := SkipSpaces(doc, 0) + 1;
    acc := Value(Object(Empty), p - 1, root.limit);
  }

  /** An object of one member with a comma after it. */
  lemma CommaInObjectIff(cfg: Settings, doc: ByteString, key: ByteString, v: Value, emitUTF8: bool, root: Value)
    requires Preserved(key, emitUTF8) && |key| < MAX_KEY_LENGTH && Writable(v, emitUTF8)
             && 1 + Depth(v) <= cfg.stackLimit
    requires Spells(doc, 0, [LBRACE] + ([Quoted(key, emitUTF8)]
                                        + ([COLON] + (Tokens(v, emitUTF8) + ([COMMA] + [RBRACE])))))
    ensures var r := Parse(cfg, doc, root);
            && r.Parsed? && (r.ok <==> key == [] || cfg.allowTrailingCommas)
            && (r.ok ==> Plain(r.root) == Value(Object(Entry(Name(key), Canon(v), Empty)), 0, 0))
  {
    hide Spells, ReadValue, ReadToken, NextToken, SkipCommentTokens, ReadMembers, AfterMember, Tokens, Quoted, Canon;
    var p, acc := ObjectOpens(cfg, doc, root, [Quoted(key, emitUTF8)]
                              + ([COLON] + (Tokens(v, emitUTF8) + ([COMMA] + [RBRACE]))));
    var q, w := MemberRead(cfg, doc, p, acc, [], key, v, emitUTF8, [COMMA] + [RBRACE]);
    CommaAndBrace(cfg, doc, q, w, key);
  }

  lemma CommaAndBrace(cfg: Settings, doc: ByteString, pos: nat, w: Value, name: ByteString)
    requires pos <= |doc| && w.payload.Object? && Spells(doc, pos, [COMMA] + [RBRACE])
    ensures var o := AfterMember(cfg, doc, pos, [], 1, w, name);
            && o.Done? && (o.ok <==> name == [] || cfg.allowTrailingCommas)
            && (o.ok ==> o.errors == [] && o.value == w && Spells(doc, o.pos, [])
                         && SkipCommentTokens(cfg, doc, o.pos).kind == EndOfStream)
  {
    hide Spells, ReadToken, NextToken, SkipCommentTokens, ReadMembers, AfterMember;
    FirstTokenRead(cfg, doc, pos, COMMA, ArraySeparator, [RBRACE]);
    var t := ReadToken(cfg, doc, pos);
    assert [RBRACE] + [] == [RBRACE];
    FirstTokenRead(cfg, doc, t.end, RBRACE, ObjectEnd, []);
    TrailingCommaIff(cfg, doc, pos, [], 1, w, name);
    NothingLeft(cfg, doc, NextToken(cfg, doc, t.end).end);
  }

  /** A semicolon is no token of JSON. */
  lemma SemicolonRead(cfg: Settings, doc: ByteString, pos: nat, rest: seq<ByteString>)
    requires pos <= |doc| && Spells(doc, pos, [COMMENT] + ([SEMICOLON] + rest))
    ensures var t := NextToken(cfg, doc, pos);
            && ReadToken(cfg, doc, pos).kind == CommentToken && t.kind == ErrorToken
            && t.end <= |doc| && Spells(doc, t.end, rest)
  {
    CommentRead(cfg, doc, pos, [SEMICOLON] + rest);
    var q := ReadToken(cfg, doc, pos).end;
    SpelledFirst(doc, q, [SEMICOLON] + rest);
    assert ([SEMICOLON] + rest)[1..] == rest;
    var p := SkipSpaces(doc, q);
    hide Spells, SkipSpaces;
    assert doc[p] == 0x3b by {
      assert doc[p..p + 1] == SEMICOLON;
    }
    assert ReadToken(cfg, doc, q) == Token(ErrorToken, p, p + 1);
  }

  lemma BraceRead(cfg: Settings, doc: ByteString, pos: nat, w: Value, name: ByteString)
    requires pos <= |doc| && w.payload.Object? && Spells(doc, pos, [RBRACE])
    ensures var o := AfterMember(cfg, doc, pos, [], 1, w, name);
            o.Done? && o.ok && o.errors == [] && o.value == w && SkipCommentTokens(cfg, doc, o.pos).kind == EndOfStream
  {
    hide Spells, ReadToken, NextToken, SkipCommentTokens, ReadMembers;
    assert [RBRACE] + [] == [RBRACE];
    FirstTokenRead(cfg, doc, pos, RBRACE, ObjectEnd, []);
    NothingLeft(cfg, doc, ReadToken(cfg, doc, pos).end);
  }

  /** What stands in the tokens of an object of two members, when a comment and a semicolon are between them. */
  function Divided(k: ByteString, v: Value, l: ByteString, u: Value): seq<ByteString> {
    [Quoted(k, false)] + ([COLON] + (Tokens(v, false) + ([COMMENT] + ([SEMICOLON] + LastMember(l, u)))))
  }

  function LastMember(l: ByteString, u: Value): seq<ByteString> {
    [Quoted(l, false)] + ([COLON] + (Tokens(u, false) + [RBRACE]))
  }

  /** After a comment, even a semicolon separates the members of an object, under every setting. */
  lemma CommentAndSemicolon(cfg: Settings, doc: ByteString, k: ByteString, v: Value, l: ByteString, u: Value,
                            root: Value)
    requires WellFormed(k) && |k| < MAX_KEY_LENGTH && WellFormed(l) && |l| < MAX_KEY_LENGTH && KeyLess(Name(k), Name(l))
    requires Writable(v, false) && Writable(u, false) && 1 + Depth(v) <= cfg.stackLimit
             && 1 + Depth(u) <= cfg.stackLimit
    requires Spells(doc, 0, [LBRACE] + Divided(k, v, l, u))
    ensures var r := Parse(cfg, doc, root);
            && r.Parsed? && r.ok
            && Plain(r.root) == Value(Object(Entry(Name(k), Canon(v), Entry(Name(l), Canon(u), Empty))), 0, 0)
  {
    hide Spells, ReadValue, ReadToken, NextToken, SkipCommentTokens, ReadMembers, AfterMember, Tokens, Quoted, Canon;
    hide WellFormed, Writable, Depth;
    var p, acc := ObjectOpens(cfg, doc, root, Divided(k, v, l, u));
    var q, w := MemberRead(cfg, doc, p, acc, [], k, v, false, [COMMENT] + ([SEMICOLON] + LastMember(l, u)));
    SemicolonRead(cfg, doc, q, LastMember(l, u));
    AnySeparatorIff(cfg, doc, q, [], 1, w, k);
    var end, both := MemberRead(cfg, doc, NextToken(cfg, doc, q).end, w, k, l, u, false, [RBRACE]);
    BraceRead(cfg, doc, end, both, l);
  }

  // ---- in strict mode ----

  const TRUE_VALUE := Value(Bool(true), 0, 0)
  const ONE := Value(Int(1), 0, 0)

  /** `{"":1,}` */
  const COMMA_DOCUMENT: ByteString := Joined([LBRACE, [0x22, 0x22], COLON, [0x31], COMMA, RBRACE])

  /** `[true/**/]` */
  const COMMENT_DOCUMENT: ByteString := Joined([LBRACKET, TRUE_TEXT, COMMENT, RBRACKET])

  const A_QUOTED: ByteString := [0x22, 0x61, 0x22]
  const B_QUOTED: ByteString := [0x22, 0x62, 0x22]

  /** `{"a":true/**/;"b":true}` */
  const SEMICOLON_DOCUMENT: ByteString :=
    Joined([LBRACE, A_QUOTED, COLON, TRUE_TEXT, COMMENT, SEMICOLON, B_QUOTED, COLON, TRUE_TEXT, RBRACE])

  lemma StrictModeAcceptsComma(scanDouble: ByteString -> Option<Double>, showDouble: Double -> ByteString, root: Value)
    ensures var r := Parse(StrictSettings(scanDouble, showDouble), COMMA_DOCUMENT, root);
            r.Parsed? && r.ok && Plain(r.root) == Value(Object(Entry(Name([]), ONE, Empty)), 0, 0)
  {
    CommaDocumentSpells();
    hide Parse, Plain, Spells, Joined, Quoted, Tokens;
    CommaInObjectIff(StrictSettings(scanDouble, showDouble), COMMA_DOCUMENT, [], ONE, false, root);
  }

  lemma CommaDocumentSpells()
    ensures Spells(COMMA_DOCUMENT, 0, [LBRACE] + ([Quoted([], false)]
                                                  + ([COLON] + (Tokens(ONE, false) + ([COMMA] + [RBRACE])))))
  {
    var toks := [LBRACE, [0x22, 0x22], COLON, [0x31], COMMA, RBRACE];
    JoinedSpells(toks);
    hide Spells, Joined;
    assert Quoted([], false) == [0x22, 0x22] by { assert Escaped([], false) == []; }
    assert Tokens(ONE, false) == [[0x31]] by { assert IntegerText(1) == [0x31]; }
    assert toks == [LBRACE] + ([Quoted([], false)] + ([COLON] + (Tokens(ONE, false) + ([COMMA] + [RBRACE]))));
  }

  lemma StrictModeAcceptsComment(scanDouble: ByteString -> Option<Double>, showDouble: Double -> ByteString,
                                 root: Value)
    ensures var r := Parse(StrictSettings(scanDouble, showDouble), COMMENT_DOCUMENT, root);
            r.Parsed? && r.ok && Plain(r.root) == Value(Array(Entry(Index(0), TRUE_VALUE, Empty)), 0, 0)
  {
    var toks := [LBRACKET, TRUE_TEXT, COMMENT, RBRACKET];
    JoinedSpells(toks);
    hide Parse, Plain, Spells, Joined;
    assert toks == [LBRACKET] + (Tokens(TRUE_VALUE, false) + ([COMMENT] + [RBRACKET]));
    CommentInArray(StrictSettings(scanDouble, showDouble), COMMENT_DOCUMENT, TRUE_VALUE, false, root);
  }

  lemma StrictModeAcceptsSemicolon(scanDouble: ByteString -> Option<Double>, showDouble: Double -> ByteString,
                                   root: Value)
    ensures var r := Parse(StrictSettings(scanDouble, showDouble), SEMICOLON_DOCUMENT, root);
            && r.Parsed? && r.ok
            && Plain(r.root) == Value(Object(Entry(Name([0x61]), TRUE_VALUE, Entry(Name([0x62]), TRUE_VALUE, Empty))),
                                      0, 0)
  {
    SemicolonDocumentSpells();
    OneLetter(0x61);
    OneLetter(0x62);
    hide Parse, Plain, Spells, Joined, Divided, WellFormed;
    CommentAndSemicolon(StrictSettings(scanDouble, showDouble), SEMICOLON_DOCUMENT, [0x61], TRUE_VALUE, [0x62],
                        TRUE_VALUE, root);
  }

  lemma SemicolonDocumentSpells()
    ensures Spells(SEMICOLON_DOCUMENT, 0, [LBRACE] + Divided([0x61], TRUE_VALUE, [0x62], TRUE_VALUE))
  {
    hide Spells, Joined;
    JoinedSpells([LBRACE, A_QUOTED, COLON, TRUE_TEXT, COMMENT, SEMICOLON, B_QUOTED, COLON, TRUE_TEXT, RBRACE]);
    DividedTokens();
  }

  lemma DividedTokens()
    ensures [LBRACE] + Divided([0x61], TRUE_VALUE, [0x62], TRUE_VALUE)
         == [LBRACE, A_QUOTED, COLON, TRUE_TEXT, COMMENT, SEMICOLON, B_QUOTED, COLON, TRUE_TEXT, RBRACE]
  {
    OneLetter(0x61);
    OneLetter(0x62);
    hide Quoted;
    assert LastMember([0x62], TRUE_VALUE) == [B_QUOTED, COLON, TRUE_TEXT, RBRACE];
    assert Divided([0x61], TRUE_VALUE, [0x62], TRUE_VALUE)
        == [A_QUOTED, COLON, TRUE_TEXT, COMMENT, SEMICOLON] + LastMember([0x62], TRUE_VALUE);
  }

  lemma OneLetter(c: Byte)
    requires 0x61 <= c <= 0x7a
    ensures Quoted([c], false) == [0x22, c, 0x22] && WellFormed([c])
  {
    assert [c][1..] == [];
    assert Utf8ToCodePoint([c]) == CodePoint(c, 1);
    assert EscapeUnit([c], false).text == [c];
    assert Escaped([c], false) == [c] + Escaped([], false);
  }
}
