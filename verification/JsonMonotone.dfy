/** Settings that ask for less accept more: what stricter settings accept means the same under more lenient ones. */
module JsonMonotone {
  import opened Bytes
  import opened JsonValue
  import opened JsonStrings
  import opened JsonLexer
  import opened JsonParser
  import JsonText
  import opened JsonGrammar

  /**
   `d` allows whatever `c` does and demands nothing that `c` does not. Single quotes and special numbers change what
   the tokens are, so they have to be the same.
   */
  ghost predicate NoStricter(d: Settings, c: Settings) {
    && (c.allowComments ==> d.allowComments) && (c.allowTrailingCommas ==> d.allowTrailingCommas)
    && (c.allowNumericKeys ==> d.allowNumericKeys) && c.stackLimit <= d.stackLimit
    && (d.strictRoot ==> c.strictRoot) && (d.failIfExtra ==> c.failIfExtra) && (d.rejectDupKeys ==> c.rejectDupKeys)
    && !c.allowDroppedNullPlaceholders && !d.allowDroppedNullPlaceholders
    && c.allowSingleQuotes == d.allowSingleQuotes && c.allowSpecialFloats == d.allowSpecialFloats
    && c.scanDouble == d.scanDouble && c.showDouble == d.showDouble
  }

  lemma {:induction false} SameTokens(c: Settings, d: Settings, doc: ByteString, pos: nat)
    requires NoStricter(d, c) && pos <= |doc|
    ensures Toks(c, doc, pos) == Toks(d, doc, pos)
    decreases |doc| - pos
  {
    SameToken(c, d, doc, pos);
    hide ReadToken;
    var t := ReadToken(c, doc, pos);
    if t.start < t.end {
      SameTokens(c, d, doc, t.end);
    }
  }

  lemma SameToken(c: Settings, d: Settings, doc: ByteString, pos: nat)
    requires NoStricter(d, c) && pos <= |doc|
    ensures ReadToken(c, doc, pos) == ReadToken(d, doc, pos)
  {
    hide JsonStrings.ReadString, ReadComment, JsonLexer.ReadNumber, Match;
  }

  lemma AtomStays(c: Settings, d: Settings, doc: ByteString, t: Token, p: Payload)
    requires NoStricter(d, c) && IsAtom(c, doc, t, p)
    ensures IsAtom(d, doc, t, p)
    ensures t.kind != CommentToken && t.kind != ArrayEnd
  {
    hide DecodeFrom, Text;
  }

  lemma NameStays(c: Settings, d: Settings, doc: ByteString, t: Token, name: ByteString)
    requires NoStricter(d, c) && IsName(c, doc, t, name)
    ensures IsName(d, doc, t, name)
    ensures t.kind != ObjectEnd
  {
    hide DecodeFrom, Text;
  }

  /** Without leave for comments a value does not begin with one, and it never begins with a closing bracket. */
  lemma FirstOfStrict(c: Settings, d: Settings, doc: ByteString, ts: seq<Token>, v: Value, depth: nat)
    requires NoStricter(d, c) && IsValue(c, doc, ts, v, depth)
    ensures ts != [] && ts[0].kind != ArrayEnd
    ensures (if c.allowComments then Trim(ts) else ts) == (if d.allowComments then Trim(ts) else ts)
  {
    hide IsAtom, IsElements, IsMembers;
    var b := if c.allowComments then Trim(ts) else ts;
    if b[0].kind != ArrayBegin && b[0].kind != ObjectBegin {
      AtomStays(c, d, doc, b[0], v.payload);
    }
  }

  lemma {:induction false} ValueStays(c: Settings, d: Settings, doc: ByteString, ts: seq<Token>, v: Value, depth: nat)
    requires NoStricter(d, c) && IsValue(c, doc, ts, v, depth)
    ensures IsValue(d, doc, ts, v, depth)
    decreases |ts|
  {
    FirstOfStrict(c, d, doc, ts, v, depth);
    hide NoStricter, IsElements, IsMembers, IsAtom, Trim;
    var b := if c.allowComments then Trim(ts) else ts;
    LimitStays(c, d);
    match b[0].kind
    case ArrayBegin => ElementsStay(c, d, doc, b[1..], Empty, 0, v.payload.values, depth);
    case ObjectBegin => MembersStay(c, d, doc, b[1..], Empty, [], v.payload.values, depth);
    case _ => AtomStays(c, d, doc, b[0], v.payload);
  }

  lemma LimitStays(c: Settings, d: Settings)
    requires NoStricter(d, c)
    ensures c.stackLimit <= d.stackLimit
  {
  }

  lemma {:induction false} ElementsStay(c: Settings, d: Settings, doc: ByteString, ts: seq<Token>, acc: ObjectValues,
                                        i: nat, m: ObjectValues, depth: nat)
    requires NoStricter(d, c) && IsElements(c, doc, ts, acc, i, m, depth)
    ensures IsElements(d, doc, ts, acc, i, m, depth)
    decreases |ts|
  {
    hide ElementAt;
    if !(ts != [] && ts[0].kind == ArrayEnd && (i == 0 || c.allowTrailingCommas)) {
      var k: nat, v :| ElementAt(c, doc, ts, acc, i, m, depth, k, v);
      ElementStays(c, d, doc, ts, acc, i, m, depth, k, v);
    }
  }

  lemma {:induction false} ElementStays(c: Settings, d: Settings, doc: ByteString, ts: seq<Token>, acc: ObjectValues,
                                        i: nat, m: ObjectValues, depth: nat, k: nat, v: Value)
    requires NoStricter(d, c) && ElementAt(c, doc, ts, acc, i, m, depth, k, v)
    ensures ElementAt(d, doc, ts, acc, i, m, depth, k, v) && ts[0].kind != ArrayEnd
    decreases |ts|, 0
  {
    hide IsValue, IsElements, NoStricter, Trim;
    ValueStays(c, d, doc, ts[..k], v, depth + 1);
    FirstOfStrict(c, d, doc, ts[..k], v, depth + 1);
    var r := Trim(ts[k..]);
    if r[0].kind == ArraySeparator {
      ElementsStay(c, d, doc, r[1..], Put(acc, Index(i), v), i + 1, m, depth);
    }
  }

  lemma {:induction false} MembersStay(c: Settings, d: Settings, doc: ByteString, ts: seq<Token>, acc: ObjectValues,
                                       name: ByteString, m: ObjectValues, depth: nat)
    requires NoStricter(d, c) && IsMembers(c, doc, ts, acc, name, m, depth)
    ensures IsMembers(d, doc, ts, acc, name, m, depth)
    decreases |ts|
  {
    hide MemberAt;
    var r := Trim(ts);
    if !(r[0].kind == ObjectEnd && (name == [] || c.allowTrailingCommas)) {
      var k: nat, n, v :| MemberAt(c, doc, r, acc, m, depth, k, n, v);
      MemberStays(c, d, doc, r, acc, m, depth, k, n, v);
    }
  }

  lemma {:induction false} MemberStays(c: Settings, d: Settings, doc: ByteString, r: seq<Token>, acc: ObjectValues,
                                       m: ObjectValues, depth: nat, k: nat, n: ByteString, v: Value)
    requires NoStricter(d, c) && MemberAt(c, doc, r, acc, m, depth, k, n, v)
    ensures MemberAt(d, doc, r, acc, m, depth, k, n, v) && r[0].kind != ObjectEnd
    decreases |r|, 0
  {
    assert d.rejectDupKeys ==> c.rejectDupKeys;
    hide IsValue, IsMembers, IsName, NoStricter, Trim;
    NameStays(c, d, doc, r[0], n);
    ValueStays(c, d, doc, r[2..2 + k], v, depth + 1);
    var q := r[2 + k..];
    var last := Trim(q);
    if last[0].kind != ObjectEnd {
      MembersStay(c, d, doc, last[1..], Put(acc, Name(n), v), n, m, depth);
    }
  }

  /** What stricter settings accept, more lenient ones accept with the same value. */
  lemma LenientAcceptsMore(c: Settings, d: Settings, doc: ByteString, root: Value)
    requires NoStricter(d, c)
    ensures var r, s := Parse(c, doc, root), Parse(d, doc, root);
            r.Parsed? && r.ok ==> s.Parsed? && s.ok && JsonText.Plain(s.root) == JsonText.Plain(r.root)
  {
    hide Parse, Toks, JsonText.Plain, IsDocument;
    var r, ts := Parse(c, doc, root), Toks(c, doc, 0);
    if r.Parsed? && r.ok {
      var v := JsonText.Plain(r.root);
      AcceptedIff(c, doc, root, v);
      var k: nat :| IsDocument(c, doc, ts, k, v);
      SameTokens(c, d, doc, 0);
      DocumentStays(c, d, doc, ts, k, v);
      AcceptedIff(d, doc, root, v);
    }
  }

  lemma DocumentStays(c: Settings, d: Settings, doc: ByteString, ts: seq<Token>, k: nat, v: Value)
    requires NoStricter(d, c) && IsDocument(c, doc, ts, k, v)
    ensures IsDocument(d, doc, ts, k, v)
  {
    hide IsValue;
    ValueStays(c, d, doc, ts[..k], v, 1);
  }

  /** In particular the default settings read what strict mode reads. */
  lemma StrictWithinDefault(scanDouble: ByteString -> Option<Double>, showDouble: Double -> ByteString,
                            doc: ByteString, root: Value)
    ensures var r := Parse(StrictSettings(scanDouble, showDouble), doc, root);
            var s := Parse(DefaultSettings(scanDouble, showDouble), doc, root);
            r.Parsed? && r.ok ==> s.Parsed? && s.ok && JsonText.Plain(s.root) == JsonText.Plain(r.root)
  {
    hide Parse, JsonText.Plain;
    LenientAcceptsMore(StrictSettings(scanDouble, showDouble), DefaultSettings(scanDouble, showDouble), doc, root);
  }
}
