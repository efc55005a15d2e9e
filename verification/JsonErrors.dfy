/** The verdict of the reader and its list of errors say the same, on every document and under every setting. */
module JsonErrors {
  import opened Bytes
  import opened JsonValue
  import opened JsonStrings
  import opened JsonLexer
  import opened JsonParser

  /** Success adds no error; failure adds some and takes none back. */
  predicate Tells(o: Outcome, errors: seq<Error>) {
    o.Done? ==> if o.ok then o.errors == errors else errors < o.errors
  }

  lemma ScalarTells(cfg: Settings, doc: ByteString, t: Token, errors: seq<Error>, v: Value)
    requires t.start <= t.end <= |doc| && (t.kind != EndOfStream ==> t.start < t.end)
    requires t.kind == StringToken ==> t.start + 2 <= t.end
    ensures Tells(ReadScalar(cfg, doc, t, errors, v), errors)
  {
    hide DecodeFrom, Text, DecodeNumberToken;
  }

  lemma {:induction false} ValueTells(cfg: Settings, doc: ByteString, pos: nat, errors: seq<Error>, depth: nat,
                                      v: Value)
    requires pos <= |doc|
    ensures Tells(ReadValue(cfg, doc, pos, errors, depth, v), errors)
    decreases |doc| - pos, 0
  {
    hide SkipCommentTokens, ReadMembers, ReadElements, ReadScalar;
    if depth <= cfg.stackLimit {
      var t := SkipCommentTokens(cfg, doc, pos);
      if t.kind == ObjectBegin {
        MembersTell(cfg, doc, t.end, errors, depth, Value(Object(Empty), t.start, v.limit), []);
      } else if t.kind == ArrayBegin {
        ElementsTell(cfg, doc, t.end, errors, depth, Value(Array(Empty), t.start, v.limit), 0);
      } else {
        ScalarTells(cfg, doc, t, errors, v);
      }
    }
  }

  lemma {:induction false} MembersTell(cfg: Settings, doc: ByteString, pos: nat, errors: seq<Error>, depth: nat,
                                       v: Value, name: ByteString)
    requires pos <= |doc| && v.payload.Object?
    ensures Tells(ReadMembers(cfg, doc, pos, errors, depth, v, name), errors)
    decreases |doc| - pos, 1
  {
    hide NextToken, ReadName, ReadMember, Recover;
    var t := NextToken(cfg, doc, pos);
    if t.kind != ObjectEnd || !(name == [] || cfg.allowTrailingCommas) {
      var next := ReadName(cfg, doc, t);
      if next.Named? {
        assert t.kind != EndOfStream by { NamedIsToken(cfg, doc, t); }
        MemberTells(cfg, doc, t, errors, depth, v, next.name);
      }
    }
  }

  lemma {:induction false} MemberTells(cfg: Settings, doc: ByteString, t: Token, errors: seq<Error>, depth: nat,
                                       v: Value, name: ByteString)
    requires t.end <= |doc| && v.payload.Object?
    ensures Tells(ReadMember(cfg, doc, t, errors, depth, v, name), errors)
    decreases |doc| - t.end, 2
  {
    hide ReadToken, ReadValue, AfterMember, WithEntry, Recover, Lookup;
    var colon := ReadToken(cfg, doc, t.end);
    if colon.kind == MemberSeparator {
      var prior := Get(v.payload.values, Name(name));
      ValueTells(cfg, doc, colon.end, errors, depth + 1, prior);
      var o := ReadValue(cfg, doc, colon.end, errors, depth + 1, prior);
      if o.Done? && o.ok {
        AfterMemberTells(cfg, doc, o.pos, o.errors, depth, WithEntry(v, Name(name), o.value), name);
      }
    }
  }

  lemma {:induction false} AfterMemberTells(cfg: Settings, doc: ByteString, pos: nat, errors: seq<Error>, depth: nat,
                                            w: Value, name: ByteString)
    requires pos <= |doc| && w.payload.Object?
    ensures Tells(AfterMember(cfg, doc, pos, errors, depth, w, name), errors)
    decreases |doc| - pos, 2
  {
    hide ReadToken, NextToken, ReadMembers, Recover;
    var comma := ReadToken(cfg, doc, pos);
    var last := if comma.kind == CommentToken then NextToken(cfg, doc, comma.end) else comma;
    if comma.kind in {ArraySeparator, CommentToken} && last.kind != ObjectEnd {
      MembersTell(cfg, doc, last.end, errors, depth, w, name);
    }
  }

  lemma {:induction false} ElementsTell(cfg: Settings, doc: ByteString, pos: nat, errors: seq<Error>, depth: nat,
                                        v: Value, index: nat)
    requires pos <= |doc| && v.payload.Array?
    ensures Tells(ReadElements(cfg, doc, pos, errors, depth, v, index), errors)
    decreases |doc| - pos, 1
  {
    hide SkipSpaces, ReadValue, AfterElement, WithEntry, Recover, Lookup;
    var p := SkipSpaces(doc, pos);
    var prior := Get(v.payload.values, Index(index));
    ValueTells(cfg, doc, p, errors, depth + 1, prior);
    var o := ReadValue(cfg, doc, p, errors, depth + 1, prior);
    if o.Done? && o.ok {
      AfterElementTells(cfg, doc, o.pos, o.errors, depth, WithEntry(v, Index(index), o.value), index);
    }
  }

  lemma {:induction false} AfterElementTells(cfg: Settings, doc: ByteString, pos: nat, errors: seq<Error>, depth: nat,
                                             w: Value, index: nat)
    requires pos <= |doc| && w.payload.Array?
    ensures Tells(AfterElement(cfg, doc, pos, errors, depth, w, index), errors)
    decreases |doc| - pos, 0
  {
    hide NextToken, ReadElements, Recover;
    var t := NextToken(cfg, doc, pos);
    if t.kind == ArraySeparator {
      ElementsTell(cfg, doc, t.end, errors, depth, w, index + 1);
    }
  }

  /** `parse` returns true exactly if it has collected no errors. */
  lemma OkIffNoErrors(cfg: Settings, doc: ByteString, root: Value)
    ensures var r := Parse(cfg, doc, root); r.Parsed? ==> (r.ok <==> r.errors == [])
  {
    hide ReadValue, SkipCommentTokens;
    ValueTells(cfg, doc, 0, [], 1, root);
  }
}
