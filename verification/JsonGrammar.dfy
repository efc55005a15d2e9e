/**
 The language the reader accepts, as a grammar over the tokens of a document: section 2 of RFC 8259 with what the
 settings and the code add to it. Nothing here says how a document is read; the reader is proved to accept exactly the
 documents of the grammar, with the values it gives them.
 */
module JsonGrammar {
  import opened Bytes
  import opened JsonValue
  import opened JsonNumbers
  import opened JsonStrings
  import opened JsonLexer
  import opened JsonParser
  import opened JsonText

  // ---- tokens ----

  /** The tokens of the document from `pos` on: comments, errors and the NULs that end a stream included. */
  function Toks(cfg: Settings, doc: ByteString, pos: nat): seq<Token>
    requires pos <= |doc|
    decreases |doc| - pos
  {
    var t := ReadToken(cfg, doc, pos);
    if t.start == t.end then [] else [t] + Toks(cfg, doc, t.end)
  }

  /** Without the comments at the front. */
  function Trim(ts: seq<Token>): (r: seq<Token>)
    ensures |r| <= |ts|
    ensures r != [] ==> r[0].kind != CommentToken
  {
    if ts != [] && ts[0].kind == CommentToken then Trim(ts[1..]) else ts
  }

  predicate InDocument(doc: ByteString, t: Token) {
    t.start < t.end <= |doc| && (t.kind == StringToken ==> t.start + 2 <= t.end)
  }

  // ---- the grammar ----

  /** A token that is a value by itself. */
  predicate IsAtom(cfg: Settings, doc: ByteString, t: Token, p: Payload) {
    && InDocument(doc, t) && Success(ReadScalar(cfg, doc, t, [], NULL_SINGLETON))
    && ReadScalar(cfg, doc, t, [], NULL_SINGLETON).value.payload == p
  }

  predicate IsName(cfg: Settings, doc: ByteString, t: Token, name: ByteString) {
    InDocument(doc, t) && ReadName(cfg, doc, t) == Named(name) && |name| < MAX_KEY_LENGTH
  }

  /** value = atom / "[" elements / "{" members, after comments if those are allowed. */
  ghost predicate IsValue(cfg: Settings, doc: ByteString, ts: seq<Token>, v: Value, depth: nat)
    decreases |ts|
  {
    var b := if cfg.allowComments then Trim(ts) else ts;
    && b != [] && depth <= cfg.stackLimit && v.start == 0 == v.limit
    && match b[0].kind
       case ArrayBegin => v.payload.Array? && IsElements(cfg, doc, b[1..], Empty, 0, v.payload.values, depth)
       case ObjectBegin => v.payload.Object? && IsMembers(cfg, doc, b[1..], Empty, [], v.payload.values, depth)
       case _ => |b| == 1 && IsAtom(cfg, doc, b[0], v.payload)
  }

  /** elements = "]" / value comments "]" / value comments "," elements; a bracket after a comma has to be allowed. */
  ghost predicate IsElements(cfg: Settings, doc: ByteString, ts: seq<Token>, acc: ObjectValues, i: nat, m: ObjectValues,
                             depth: nat)
    decreases |ts|
  {
    if ts != [] && ts[0].kind == ArrayEnd && (i == 0 || cfg.allowTrailingCommas) then |ts| == 1 && m == acc
    else i <= MAX_INT && exists k: nat, v :: ElementAt(cfg, doc, ts, acc, i, m, depth, k, v)
  }

  /** The first `k` tokens are the value `v`, and the rest goes on with it. */
  ghost predicate ElementAt(cfg: Settings, doc: ByteString, ts: seq<Token>, acc: ObjectValues, i: nat, m: ObjectValues,
                            depth: nat, k: nat, v: Value)
    decreases |ts|, 0
  {
    && 0 < k < |ts| && IsValue(cfg, doc, ts[..k], v, depth + 1)
    && var r, more := Trim(ts[k..]), Put(acc, Index(i), v);
    && r != []
    && match r[0].kind
       case ArrayEnd => |r| == 1 && m == more
       case ArraySeparator => IsElements(cfg, doc, r[1..], more, i + 1, m, depth)
       case _ => false
  }

  /**
   members = comments "}" / comments name ":" value rest; the brace has to be allowed after a name that is not
   empty.
   */
  ghost predicate IsMembers(cfg: Settings, doc: ByteString, ts: seq<Token>, acc: ObjectValues, name: ByteString,
                            m: ObjectValues, depth: nat)
    decreases |ts|
  {
    var r := Trim(ts);
    && r != []
    && if r[0].kind == ObjectEnd && (name == [] || cfg.allowTrailingCommas) then |r| == 1 && m == acc
       else exists k: nat, n, v :: MemberAt(cfg, doc, r, acc, m, depth, k, n, v)
  }

  /**
   A name, a colon, `k` tokens that are the value `v`, and the rest: comments and a brace, or a comma and members, or
   comments, any token in place of the comma, and members.
   */
  ghost predicate MemberAt(cfg: Settings, doc: ByteString, r: seq<Token>, acc: ObjectValues, m: ObjectValues,
                           depth: nat, k: nat, n: ByteString, v: Value)
    decreases |r|, 0
  {
    && 0 < k < |r| - 2 && IsName(cfg, doc, r[0], n) && !(cfg.rejectDupKeys && Lookup(acc, Name(n)).Some?)
    && r[1].kind == MemberSeparator && IsValue(cfg, doc, r[2..2 + k], v, depth + 1)
    && var q, more := r[2 + k..], Put(acc, Name(n), v);
    var last := Trim(q);
    && last != [] && q[0].kind in {ObjectEnd, ArraySeparator, CommentToken}
    && if last[0].kind == ObjectEnd then |last| == 1 && m == more
       else IsMembers(cfg, doc, last[1..], more, n, m, depth)
  }

  // ---- tokens and places ----

  /**
   If the tokens from `pos` on are `used` and then `rest`, the next token is the first of `used` past its comments.
   */
  lemma {:induction false} NextOfUsed(cfg: Settings, doc: ByteString, pos: nat, used: seq<Token>, rest: seq<Token>)
    requires pos <= |doc| && Toks(cfg, doc, pos) == used + rest && Trim(used) != []
    ensures var t := NextToken(cfg, doc, pos);
            t == Trim(used)[0] && t.start < t.end && Toks(cfg, doc, t.end) == Trim(used)[1..] + rest
    decreases |used|
  {
    hide ReadToken;
    var t := ReadToken(cfg, doc, pos);
    assert used != [] && t == used[0] && Toks(cfg, doc, t.end) == used[1..] + rest by {
      assert (used + rest)[0] == used[0] && (used + rest)[1..] == used[1..] + rest;
      assert Toks(cfg, doc, pos)[1..] == Toks(cfg, doc, t.end);
    }
    if t.kind == CommentToken {
      NextOfUsed(cfg, doc, t.end, used[1..], rest);
    }
  }

  /** The comments before the next token. */
  lemma {:induction false} CommentsBefore(cfg: Settings, doc: ByteString, pos: nat) returns (cs: seq<Token>)
    requires pos <= |doc| && NextToken(cfg, doc, pos).start < NextToken(cfg, doc, pos).end
    ensures var t := NextToken(cfg, doc, pos); Toks(cfg, doc, pos) == cs + ([t] + Toks(cfg, doc, t.end))
    ensures forall more: seq<Token> | more != [] && more[0].kind != CommentToken :: Trim(cs + more) == more
    ensures cs != [] ==> cs[0] == ReadToken(cfg, doc, pos) && cs[0].kind == CommentToken
    ensures cs == [] ==> ReadToken(cfg, doc, pos) == NextToken(cfg, doc, pos)
    decreases |doc| - pos
  {
    hide ReadToken;
    var t := ReadToken(cfg, doc, pos);
    if t.kind == CommentToken {
      var tail := CommentsBefore(cfg, doc, t.end);
      cs := [t] + tail;
      forall more: seq<Token> | more != [] && more[0].kind != CommentToken ensures Trim(cs + more) == more {
        assert (cs + more)[1..] == tail + more;
      }
      var n := NextToken(cfg, doc, pos);
      Regrouped([t], tail, [n] + Toks(cfg, doc, n.end), []);
    } else {
      cs := [];
      forall more: seq<Token> | more != [] && more[0].kind != CommentToken ensures Trim([] + more) == more {
        assert [] + more == more;
      }
    }
  }

  lemma SpacesKeepTokens(cfg: Settings, doc: ByteString, pos: nat)
    requires pos <= |doc|
    ensures var p := SkipSpaces(doc, pos);
            && Toks(cfg, doc, p) == Toks(cfg, doc, pos)
            && (ReadToken(cfg, doc, pos).kind == ArrayEnd <==> p < |doc| && doc[p] == 0x5d)
            && (ReadToken(cfg, doc, pos).kind == ArrayEnd ==> ReadToken(cfg, doc, pos).end == p + 1)
  {
    hide ReadNumber, ReadString, ReadComment;
    assert ReadToken(cfg, doc, SkipSpaces(doc, pos)) == ReadToken(cfg, doc, pos);
  }

  lemma {:induction false} PlainPut(m: ObjectValues, k: CZString, v: Value)
    ensures PlainMap(Put(m, k, v)) == Put(PlainMap(m), k, Plain(v))
  {
    if m.Entry? {
      PlainPut(m.rest, k, v);
    }
  }

  lemma {:induction false} PlainLookup(m: ObjectValues, k: CZString)
    ensures Lookup(PlainMap(m), k).Some? == Lookup(m, k).Some?
  {
    if m.Entry? {
      PlainLookup(m.rest, k);
    }
  }

  lemma PlainEntry(acc: Value, k: CZString, child: Value)
    requires acc.payload.Object? || acc.payload.Array?
    ensures var w := WithEntry(acc, k, child);
            && (acc.payload.Object? ==> w.payload.Object?) && (acc.payload.Array? ==> w.payload.Array?)
            && PlainMap(w.payload.values) == Put(PlainMap(acc.payload.values), k, Plain(child))
  {
    PlainPut(acc.payload.values, k, child);
  }

  /** A token that is a value by itself is read as one, whatever was there before. */
  lemma ScalarIsAtom(cfg: Settings, doc: ByteString, t: Token, errors: seq<Error>, v: Value)
    requires !cfg.allowDroppedNullPlaceholders && InDocument(doc, t)
    requires t.kind != ArrayBegin && t.kind != ObjectBegin
    ensures var o := ReadScalar(cfg, doc, t, errors, v);
            && (Success(o) ==> IsAtom(cfg, doc, t, o.value.payload) && o.pos == t.end && o.errors == errors
                               && Plain(o.value) == Value(o.value.payload, 0, 0))
            && forall p | IsAtom(cfg, doc, t, p) :: Success(o) && o.value.payload == p
  {
    hide DecodeFrom, Text, DecodeNumberToken;
    ScalarPayload(cfg, doc, t, errors, v);
    NumberPayload(cfg, Text(doc, t));
  }

  lemma ScalarPayload(cfg: Settings, doc: ByteString, t: Token, errors: seq<Error>, v: Value)
    requires !cfg.allowDroppedNullPlaceholders && InDocument(doc, t)
    ensures var o, other := ReadScalar(cfg, doc, t, errors, v), ReadScalar(cfg, doc, t, [], NULL_SINGLETON);
            && (Success(o) <==> Success(other))
            && (Success(o) ==> o.value.payload == other.value.payload && o.pos == t.end && o.errors == errors)
  {
    hide DecodeFrom, Text, DecodeNumberToken;
  }

  lemma NumberPayload(cfg: Settings, text: ByteString)
    ensures var p := DecodeNumberToken(cfg, text); p.Some? ==> !p.value.Array? && !p.value.Object?
  {
    hide IntegerOf;
  }

  // ---- what the reader accepts is in the grammar ----

  lemma {:induction false} ValueSound(cfg: Settings, doc: ByteString, pos: nat, errors: seq<Error>, depth: nat,
                                      prior: Value) returns (used: seq<Token>)
    requires pos <= |doc| && !cfg.allowDroppedNullPlaceholders
    requires Success(ReadValue(cfg, doc, pos, errors, depth, prior))
    ensures var o := ReadValue(cfg, doc, pos, errors, depth, prior);
            && used != [] && Toks(cfg, doc, pos) == used + Toks(cfg, doc, o.pos)
            && IsValue(cfg, doc, used, Plain(o.value), depth)
    decreases |doc| - pos, 1
  {
    var t := SkipCommentTokens(cfg, doc, pos);
    if t.kind == ObjectBegin {
      used := ObjectSound(cfg, doc, pos, errors, depth, prior);
    } else if t.kind == ArrayBegin {
      used := ArraySound(cfg, doc, pos, errors, depth, prior);
    } else {
      ValueCases(cfg, doc, pos, errors, depth, prior);
      assert depth <= cfg.stackLimit;
      hide ReadValue, ReadScalar, IsValue, IsAtom, Plain, Toks, SkipCommentTokens;
      EndIsNoValue(cfg, doc, t, errors, prior);
      ScalarIsAtom(cfg, doc, t, errors, prior);
      var cs := CommentsBeforeValue(cfg, doc, pos, []);
      used := cs + [t];
      assert [t] + [] == [t];
      Regrouped(cs, [t], [], Toks(cfg, doc, t.end));
      AtomIsValue(cfg, doc, used, t, Plain(ReadScalar(cfg, doc, t, errors, prior).value), depth);
    }
  }

  lemma ObjectSound(cfg: Settings, doc: ByteString, pos: nat, errors: seq<Error>, depth: nat, prior: Value)
    returns (used: seq<Token>)
    requires pos <= |doc| && !cfg.allowDroppedNullPlaceholders && SkipCommentTokens(cfg, doc, pos).kind == ObjectBegin
    requires Success(ReadValue(cfg, doc, pos, errors, depth, prior))
    ensures var o := ReadValue(cfg, doc, pos, errors, depth, prior);
            && used != [] && Toks(cfg, doc, pos) == used + Toks(cfg, doc, o.pos)
            && IsValue(cfg, doc, used, Plain(o.value), depth)
    decreases |doc| - pos, 0
  {
    var t := SkipCommentTokens(cfg, doc, pos);
    ValueCases(cfg, doc, pos, errors, depth, prior);
    assert depth <= cfg.stackLimit;
    hide ReadValue, ReadMembers, ReadElements, IsValue, IsElements, IsMembers, Plain, Toks, SkipCommentTokens;
    var acc := Value(Object(Empty), t.start, prior.limit);
    var o := ReadMembers(cfg, doc, t.end, errors, depth, acc, []);
    var body := MembersSound(cfg, doc, t.end, errors, depth, acc, []);
    PlainContainer(o.value, o.pos);
    var cs := CommentsBeforeValue(cfg, doc, pos, body);
    used := cs + ([t] + body);
    Regrouped(cs, [t], body, Toks(cfg, doc, o.pos));
    ContainerIsValue(cfg, doc, used, t, body, Plain(o.value.(limit := o.pos)), depth);
  }

  lemma ArraySound(cfg: Settings, doc: ByteString, pos: nat, errors: seq<Error>, depth: nat, prior: Value)
    returns (used: seq<Token>)
    requires pos <= |doc| && !cfg.allowDroppedNullPlaceholders && SkipCommentTokens(cfg, doc, pos).kind == ArrayBegin
    requires Success(ReadValue(cfg, doc, pos, errors, depth, prior))
    ensures var o := ReadValue(cfg, doc, pos, errors, depth, prior);
            && used != [] && Toks(cfg, doc, pos) == used + Toks(cfg, doc, o.pos)
            && IsValue(cfg, doc, used, Plain(o.value), depth)
    decreases |doc| - pos, 0
  {
    var t := SkipCommentTokens(cfg, doc, pos);
    ValueCases(cfg, doc, pos, errors, depth, prior);
    assert depth <= cfg.stackLimit;
    hide ReadValue, ReadMembers, ReadElements, IsValue, IsElements, IsMembers, Plain, Toks, SkipCommentTokens;
    var acc := Value(Array(Empty), t.start, prior.limit);
    var o := ReadElements(cfg, doc, t.end, errors, depth, acc, 0);
    var body := ElementsSound(cfg, doc, t.end, errors, depth, acc, 0);
    PlainContainer(o.value, o.pos);
    var cs := CommentsBeforeValue(cfg, doc, pos, body);
    used := cs + ([t] + body);
    Regrouped(cs, [t], body, Toks(cfg, doc, o.pos));
    ContainerIsValue(cfg, doc, used, t, body, Plain(o.value.(limit := o.pos)), depth);
  }

  lemma Regrouped(s: seq<Token>, t: seq<Token>, u: seq<Token>, v: seq<Token>)
    ensures s + (t + (u + v)) == s + (t + u) + v && s + (t + v) == s + t + v && s + (t + u) == s + t + u
  {
  }

  /** The comments before a value, which are there only if they are allowed. */
  lemma CommentsBeforeValue(cfg: Settings, doc: ByteString, pos: nat, body: seq<Token>) returns (cs: seq<Token>)
    requires pos <= |doc| && SkipCommentTokens(cfg, doc, pos).kind != EndOfStream
    requires SkipCommentTokens(cfg, doc, pos).kind != CommentToken
    ensures var t := SkipCommentTokens(cfg, doc, pos);
            && Toks(cfg, doc, pos) == cs + ([t] + Toks(cfg, doc, t.end))
            && (if cfg.allowComments then Trim(cs + ([t] + body)) else cs + ([t] + body)) == [t] + body
  {
    hide ReadToken, NextToken;
    var t := SkipCommentTokens(cfg, doc, pos);
    if cfg.allowComments {
      cs := CommentsBefore(cfg, doc, pos);
      assert ([t] + body)[0] == t;
    } else {
      cs := [];
      assert Toks(cfg, doc, pos) == [] + ([t] + Toks(cfg, doc, t.end));
      assert [] + ([t] + body) == [t] + body;
    }
  }

  lemma PlainContainer(v: Value, limit: int)
    requires v.payload.Array? || v.payload.Object?
    ensures var p := Plain(v.(limit := limit));
            && p.start == 0 == p.limit && p.payload.Array? == v.payload.Array? && p.payload.Object? == v.payload.Object?
            && p.payload.values == PlainMap(v.payload.values)
    ensures PlainMap(Empty) == Empty
  {
  }

  lemma ContainerIsValue(cfg: Settings, doc: ByteString, ts: seq<Token>, t: Token, body: seq<Token>, v: Value,
                         depth: nat)
    requires (if cfg.allowComments then Trim(ts) else ts) == [t] + body && depth <= cfg.stackLimit
    requires v.start == 0 == v.limit && (t.kind == ArrayBegin || t.kind == ObjectBegin)
    requires t.kind == ArrayBegin ==> v.payload.Array? && IsElements(cfg, doc, body, Empty, 0, v.payload.values, depth)
    requires t.kind == ObjectBegin ==>
               v.payload.Object? && IsMembers(cfg, doc, body, Empty, [], v.payload.values, depth)
    ensures IsValue(cfg, doc, ts, v, depth)
  {
    hide IsElements, IsMembers, Trim;
    assert ([t] + body)[1..] == body && ([t] + body)[0] == t;
  }

  lemma AtomIsValue(cfg: Settings, doc: ByteString, ts: seq<Token>, t: Token, v: Value, depth: nat)
    requires (if cfg.allowComments then Trim(ts) else ts) == [t] && depth <= cfg.stackLimit
    requires v.start == 0 == v.limit && t.kind != ArrayBegin && t.kind != ObjectBegin && IsAtom(cfg, doc, t, v.payload)
    ensures IsValue(cfg, doc, ts, v, depth)
  {
    hide IsAtom, Trim;
  }

  lemma EndIsNoValue(cfg: Settings, doc: ByteString, t: Token, errors: seq<Error>, v: Value)
    requires t.start <= t.end <= |doc| && (t.kind != EndOfStream ==> t.start < t.end)
    requires t.kind == StringToken ==> t.start + 2 <= t.end
    ensures t.kind == EndOfStream ==> !Success(ReadScalar(cfg, doc, t, errors, v))
    ensures t.kind == CommentToken ==> !Success(ReadScalar(cfg, doc, t, errors, v))
  {
  }

  lemma {:induction false} MembersSound(cfg: Settings, doc: ByteString, pos: nat, errors: seq<Error>, depth: nat,
                                        acc: Value, name: ByteString) returns (used: seq<Token>)
    requires pos <= |doc| && acc.payload.Object? && !cfg.allowDroppedNullPlaceholders
    requires Success(ReadMembers(cfg, doc, pos, errors, depth, acc, name))
    ensures var o := ReadMembers(cfg, doc, pos, errors, depth, acc, name);
            && used != [] && Toks(cfg, doc, pos) == used + Toks(cfg, doc, o.pos) && o.value.payload.Object?
            && IsMembers(cfg, doc, used, PlainMap(acc.payload.values), name, PlainMap(o.value.payload.values), depth)
    decreases |doc| - pos, 1
  {
    hide ReadToken, NextToken, ReadName, ReadMember, MemberAt, IsName, ReadValue;
    var t := NextToken(cfg, doc, pos);
    EndIsNoName(cfg, doc, t);
    var cs := CommentsBefore(cfg, doc, pos);
    if t.kind == ObjectEnd && (name == [] || cfg.allowTrailingCommas) {
      used := cs + [t];
    } else {
      var n := ReadName(cfg, doc, t).name;
      var more, k, v := MemberSound(cfg, doc, t, errors, depth, acc, n);
      used := cs + more;
      assert cs + ([t] + Toks(cfg, doc, t.end)) == used
             + Toks(cfg, doc, ReadMember(cfg, doc, t, errors, depth, acc, n).pos);
      MembersBegin(cfg, doc, more, PlainMap(acc.payload.values), name,
                   PlainMap(ReadMember(cfg, doc, t, errors, depth, acc, n).value.payload.values), depth, k, n, v);
    }
  }

  lemma EndIsNoName(cfg: Settings, doc: ByteString, t: Token)
    requires t.start <= t.end <= |doc| && (t.kind == StringToken ==> t.start + 2 <= t.end)
    ensures t.kind == EndOfStream ==> ReadName(cfg, doc, t).NotNamed?
    ensures t.kind == ObjectEnd ==> ReadName(cfg, doc, t).NotNamed?
  {
  }

  lemma MembersBegin(cfg: Settings, doc: ByteString, r: seq<Token>, acc: ObjectValues, name: ByteString,
                     m: ObjectValues, depth: nat, k: nat, n: ByteString, v: Value)
    requires r != [] && r[0].kind != CommentToken && r[0].kind != ObjectEnd
             && MemberAt(cfg, doc, r, acc, m, depth, k, n, v)
    ensures forall ts: seq<Token> | Trim(ts) == r :: IsMembers(cfg, doc, ts, acc, name, m, depth)
  {
    hide MemberAt;
  }

  /** The name, the colon, the value and the rest of a member; the value is `v`, in `k` tokens. */
  lemma {:induction false} MemberSound(cfg: Settings, doc: ByteString, t: Token, errors: seq<Error>, depth: nat,
                                       acc: Value, n: ByteString) returns (used: seq<Token>, k: nat, v: Value)
    requires InDocument(doc, t) && acc.payload.Object? && !cfg.allowDroppedNullPlaceholders
    requires ReadName(cfg, doc, t) == Named(n) && Success(ReadMember(cfg, doc, t, errors, depth, acc, n))
    ensures var o := ReadMember(cfg, doc, t, errors, depth, acc, n);
            && [t] + Toks(cfg, doc, t.end) == used + Toks(cfg, doc, o.pos) && o.value.payload.Object?
            && used != [] && used[0] == t
            && MemberAt(cfg, doc, used, PlainMap(acc.payload.values), PlainMap(o.value.payload.values), depth, k, n, v)
    decreases |doc| - t.end, 2
  {
    hide ReadToken, NextToken, ReadName, ReadValue, AfterMember, IsValue, IsMembers, WithEntry, Plain, Fail, Recover;
    var colon := ReadToken(cfg, doc, t.end);
    var prior := Get(acc.payload.values, Name(n));
    var o := ReadValue(cfg, doc, colon.end, errors, depth + 1, prior);
    PlainLookup(acc.payload.values, Name(n));
    PlainEntry(acc, Name(n), o.value);
    var value := ValueSound(cfg, doc, colon.end, errors, depth + 1, prior);
    var w := WithEntry(acc, Name(n), o.value);
    var rest := RestSound(cfg, doc, o.pos, o.errors, depth, w, n);
    used, k, v := [t, colon] + value + rest, |value|, Plain(o.value);
    MemberPieces(t, colon, value, rest, Toks(cfg, doc, AfterMember(cfg, doc, o.pos, o.errors, depth, w, n).pos));
  }

  lemma MemberPieces(t: Token, colon: Token, value: seq<Token>, rest: seq<Token>, more: seq<Token>)
    ensures var used := [t, colon] + value + rest;
            && [t] + ([colon] + (value + (rest + more))) == used + more
            && |used| == 2 + |value| + |rest| && used[0] == t && used[1] == colon
            && used[2..2 + |value|] == value && used[2 + |value|..] == rest
  {
  }

  /** What follows the value of a member. */
  lemma {:induction false} RestSound(cfg: Settings, doc: ByteString, pos: nat, errors: seq<Error>, depth: nat, w: Value,
                                     n: ByteString) returns (q: seq<Token>)
    requires pos <= |doc| && w.payload.Object? && !cfg.allowDroppedNullPlaceholders
    requires Success(AfterMember(cfg, doc, pos, errors, depth, w, n))
    ensures var o := AfterMember(cfg, doc, pos, errors, depth, w, n);
            && Toks(cfg, doc, pos) == q + Toks(cfg, doc, o.pos) && o.value.payload.Object?
            && var last := Trim(q);
            && last != [] && q[0].kind in {ObjectEnd, ArraySeparator, CommentToken}
            && var before, after := PlainMap(w.payload.values), PlainMap(o.value.payload.values);
            if last[0].kind == ObjectEnd then |last| == 1 && after == before
            else IsMembers(cfg, doc, last[1..], before, n, after, depth)
    decreases |doc| - pos, 2
  {
    hide ReadToken, NextToken, ReadMembers, IsMembers, Fail;
    var t := NextToken(cfg, doc, pos);
    LastOfMember(cfg, doc, pos, errors, depth, w, n);
    var cs := CommentsBefore(cfg, doc, pos);
    var o := AfterMember(cfg, doc, pos, errors, depth, w, n);
    if t.kind == ObjectEnd {
      q := cs + [t];
      Chained(cs, t, [], Toks(cfg, doc, t.end));
    } else {
      var more := MembersSound(cfg, doc, t.end, errors, depth, w, n);
      q := cs + ([t] + more);
      Chained(cs, t, more, Toks(cfg, doc, o.pos));
    }
  }

  lemma Chained(cs: seq<Token>, t: Token, more: seq<Token>, rest: seq<Token>)
    ensures cs + ([t] + (more + rest)) == cs + ([t] + more) + rest
    ensures ([t] + more)[1..] == more && [t] + [] == [t] && [] + rest == rest
  {
  }

  /** The token after a member, past comments, decides how an object goes on. */
  lemma LastOfMember(cfg: Settings, doc: ByteString, pos: nat, errors: seq<Error>, depth: nat, w: Value, n: ByteString)
    requires pos <= |doc| && w.payload.Object?
    ensures var first, t := ReadToken(cfg, doc, pos), NextToken(cfg, doc, pos);
            && (Success(AfterMember(cfg, doc, pos, errors, depth, w, n)) ==>
                  first.kind in {ObjectEnd, ArraySeparator, CommentToken} && t.start < t.end)
            && (first.kind in {ObjectEnd, ArraySeparator, CommentToken} ==>
                  AfterMember(cfg, doc, pos, errors, depth, w, n)
                  == if t.kind == ObjectEnd then Done(true, t.end, errors, w)
                     else ReadMembers(cfg, doc, t.end, errors, depth, w, n))
  {
    hide ReadToken, ReadMembers, Recover;
    var t := NextToken(cfg, doc, pos);
    if t.start == t.end && Success(AfterMember(cfg, doc, pos, errors, depth, w, n)) {
      NoMembersPastEnd(cfg, doc, pos, errors, depth, w, n);
    }
  }

  lemma NoMembersPastEnd(cfg: Settings, doc: ByteString, pos: nat, errors: seq<Error>, depth: nat, w: Value,
                         n: ByteString)
    requires pos <= |doc| && w.payload.Object? && NextToken(cfg, doc, pos).start == NextToken(cfg, doc, pos).end
    ensures !Success(ReadMembers(cfg, doc, NextToken(cfg, doc, pos).end, errors, depth, w, n))
  {
    EmptyTokenIsLast(cfg, doc, pos);
    var t := NextToken(cfg, doc, |doc|);
    assert t.kind == EndOfStream;
    EndIsNoName(cfg, doc, t);
    hide NextToken, ReadMember, ReadName, Recover;
  }

  lemma {:induction false} EmptyTokenIsLast(cfg: Settings, doc: ByteString, pos: nat)
    requires pos <= |doc|
    ensures var t := NextToken(cfg, doc, pos); t.start == t.end ==> t.end == |doc|
    decreases |doc| - pos
  {
    hide TokenAt;
    var t := ReadToken(cfg, doc, pos);
    if t.kind == CommentToken {
      EmptyTokenIsLast(cfg, doc, t.end);
    }
  }

  lemma {:induction false} ElementsSound(cfg: Settings, doc: ByteString, pos: nat, errors: seq<Error>, depth: nat,
                                         acc: Value, i: nat) returns (used: seq<Token>)
    requires pos <= |doc| && acc.payload.Array? && !cfg.allowDroppedNullPlaceholders
    requires Success(ReadElements(cfg, doc, pos, errors, depth, acc, i))
    ensures var o := ReadElements(cfg, doc, pos, errors, depth, acc, i);
            && used != [] && Toks(cfg, doc, pos) == used + Toks(cfg, doc, o.pos) && o.value.payload.Array?
            && IsElements(cfg, doc, used, PlainMap(acc.payload.values), i, PlainMap(o.value.payload.values), depth)
    decreases |doc| - pos, 2
  {
    hide ReadToken, SkipSpaces, ReadValue, AfterElement, IsValue, WithEntry, Plain, Recover, ElementAt;
    var p := SkipSpaces(doc, pos);
    SpacesKeepTokens(cfg, doc, pos);
    var first := ReadToken(cfg, doc, pos);
    if first.kind == ArrayEnd && (i == 0 || cfg.allowTrailingCommas) {
      used := [first];
    } else {
      var prior := Get(acc.payload.values, Index(i));
      var o := ReadValue(cfg, doc, p, errors, depth + 1, prior);
      var value := ValueSound(cfg, doc, p, errors, depth + 1, prior);
      PlainEntry(acc, Index(i), o.value);
      var w := WithEntry(acc, Index(i), o.value);
      var rest := AfterSound(cfg, doc, o.pos, o.errors, depth, w, i);
      used := value + rest;
      var end := AfterElement(cfg, doc, o.pos, o.errors, depth, w, i);
      assert value + (rest + Toks(cfg, doc, end.pos)) == used + Toks(cfg, doc, end.pos);
      assert used[0] == first by { assert (used + Toks(cfg, doc, end.pos))[0] == first; }
      assert used[..|value|] == value && used[|value|..] == rest;
      ElementIsThere(cfg, doc, used, PlainMap(acc.payload.values), i, PlainMap(end.value.payload.values), depth,
                     |value|, Plain(o.value));
    }
  }

  lemma ElementIsThere(cfg: Settings, doc: ByteString, ts: seq<Token>, acc: ObjectValues, i: nat, m: ObjectValues,
                       depth: nat, k: nat, v: Value)
    requires 0 < k < |ts| && IsValue(cfg, doc, ts[..k], v, depth + 1)
    requires var r, more := Trim(ts[k..]), Put(acc, Index(i), v);
             && r != []
             && (r[0].kind == ArrayEnd ==> |r| == 1 && m == more)
             && (r[0].kind != ArrayEnd ==>
                   r[0].kind == ArraySeparator && IsElements(cfg, doc, r[1..], more, i + 1, m, depth))
    ensures ElementAt(cfg, doc, ts, acc, i, m, depth, k, v)
  {
    hide IsValue, IsElements, Put;
  }

  /** What follows an element. */
  lemma {:induction false} AfterSound(cfg: Settings, doc: ByteString, pos: nat, errors: seq<Error>, depth: nat,
                                      w: Value, i: nat) returns (q: seq<Token>)
    requires pos <= |doc| && w.payload.Array? && !cfg.allowDroppedNullPlaceholders
    requires Success(AfterElement(cfg, doc, pos, errors, depth, w, i))
    ensures var o := AfterElement(cfg, doc, pos, errors, depth, w, i);
            && q != [] && Toks(cfg, doc, pos) == q + Toks(cfg, doc, o.pos) && o.value.payload.Array?
            && var r := Trim(q);
            && r != []
            && (r[0].kind == ArrayEnd ==> |r| == 1 && PlainMap(o.value.payload.values) == PlainMap(w.payload.values))
            && (r[0].kind != ArrayEnd ==>
                  r[0].kind == ArraySeparator
                  && IsElements(cfg, doc, r[1..], PlainMap(w.payload.values), i + 1, PlainMap(o.value.payload.values),
                                depth))
    decreases |doc| - pos, 0
  {
    hide ReadToken, NextToken, ReadElements, IsElements;
    var t := NextToken(cfg, doc, pos);
    var cs := CommentsBefore(cfg, doc, pos);
    var o := AfterElement(cfg, doc, pos, errors, depth, w, i);
    if t.kind == ArrayEnd {
      q := cs + [t];
      assert cs + ([t] + Toks(cfg, doc, t.end)) == q + Toks(cfg, doc, t.end);
    } else {
      var more := ElementsSound(cfg, doc, t.end, errors, depth, w, i + 1);
      q := cs + ([t] + more);
      assert ([t] + more)[1..] == more;
      assert cs + ([t] + (more + Toks(cfg, doc, o.pos))) == q + Toks(cfg, doc, o.pos);
    }
  }

  // ---- what is in the grammar the reader accepts ----

  /** The reader succeeds and leaves the tokens `rest`. */
  predicate Accepts(cfg: Settings, doc: ByteString, o: Outcome, rest: seq<Token>) {
    Success(o) && o.pos <= |doc| && Toks(cfg, doc, o.pos) == rest
  }

  lemma FirstOfUsed(cfg: Settings, doc: ByteString, pos: nat, used: seq<Token>, rest: seq<Token>)
    requires pos <= |doc| && Toks(cfg, doc, pos) == used + rest && used != []
    ensures var t := ReadToken(cfg, doc, pos);
            t == used[0] && t.start < t.end && Toks(cfg, doc, t.end) == used[1..] + rest
  {
    hide ReadToken;
    var t := ReadToken(cfg, doc, pos);
    assert (used + rest)[0] == used[0] && (used + rest)[1..] == used[1..] + rest;
    assert ([t] + Toks(cfg, doc, t.end))[1..] == Toks(cfg, doc, t.end);
  }

  lemma {:induction false} ValueComplete(cfg: Settings, doc: ByteString, pos: nat, errors: seq<Error>, depth: nat,
                                         prior: Value, used: seq<Token>, rest: seq<Token>, v: Value)
    requires pos <= |doc| && !cfg.allowDroppedNullPlaceholders && Toks(cfg, doc, pos) == used + rest
    requires IsValue(cfg, doc, used, v, depth)
    ensures var o := ReadValue(cfg, doc, pos, errors, depth, prior); Accepts(cfg, doc, o, rest) && Plain(o.value) == v
    decreases |used|, 0
  {
    var b := if cfg.allowComments then Trim(used) else used;
    var t := SkipCommentTokens(cfg, doc, pos);
    assert t == b[0] && t.start < t.end && Toks(cfg, doc, t.end) == b[1..] + rest by {
      FirstOfValue(cfg, doc, pos, used, rest);
    }
    hide Toks, SkipCommentTokens, ReadMembers, ReadElements, ReadScalar, IsMembers, IsElements, IsAtom, Plain;
    assert PlainMap(Empty) == Empty;
    if t.kind == ObjectBegin {
      var acc := Value(Object(Empty), t.start, prior.limit);
      MembersComplete(cfg, doc, t.end, errors, depth, acc, [], b[1..], rest, v.payload.values);
      var o := ReadMembers(cfg, doc, t.end, errors, depth, acc, []);
      PlainContainer(o.value, o.pos);
    } else if t.kind == ArrayBegin {
      var acc := Value(Array(Empty), t.start, prior.limit);
      ElementsComplete(cfg, doc, t.end, errors, depth, acc, 0, b[1..], rest, v.payload.values);
      var o := ReadElements(cfg, doc, t.end, errors, depth, acc, 0);
      PlainContainer(o.value, o.pos);
    } else {
      assert InDocument(doc, t) by { AtomInDocument(cfg, doc, t, v.payload); }
      ScalarIsAtom(cfg, doc, t, errors, prior);
      assert b[1..] + rest == rest;
    }
  }

  lemma AtomInDocument(cfg: Settings, doc: ByteString, t: Token, p: Payload)
    requires IsAtom(cfg, doc, t, p)
    ensures InDocument(doc, t)
  {
  }

  lemma FirstOfValue(cfg: Settings, doc: ByteString, pos: nat, used: seq<Token>, rest: seq<Token>)
    requires pos <= |doc| && Toks(cfg, doc, pos) == used + rest
             && (if cfg.allowComments then Trim(used) else used) != []
    ensures var b, t := if cfg.allowComments then Trim(used) else used, SkipCommentTokens(cfg, doc, pos);
            t == b[0] && t.start < t.end && Toks(cfg, doc, t.end) == b[1..] + rest
  {
    hide Toks, ReadToken, NextToken, Trim;
    if cfg.allowComments {
      NextOfUsed(cfg, doc, pos, used, rest);
    } else {
      FirstOfUsed(cfg, doc, pos, used, rest);
    }
  }

  lemma {:induction false} MembersComplete(cfg: Settings, doc: ByteString, pos: nat, errors: seq<Error>, depth: nat,
                                           acc: Value, name: ByteString, used: seq<Token>, rest: seq<Token>,
                                           m: ObjectValues)
    requires pos <= |doc| && acc.payload.Object? && !cfg.allowDroppedNullPlaceholders
    requires Toks(cfg, doc, pos) == used + rest && IsMembers(cfg, doc, used, PlainMap(acc.payload.values), name, m,
                                                             depth)
    ensures var o := ReadMembers(cfg, doc, pos, errors, depth, acc, name);
            Accepts(cfg, doc, o, rest) && o.value.payload.Object? && PlainMap(o.value.payload.values) == m
    decreases |used|, 2
  {
    var r, t := Trim(used), NextToken(cfg, doc, pos);
    NextOfUsed(cfg, doc, pos, used, rest);
    hide Toks, NextToken, Trim, ReadMember, ReadName, MemberAt, IsName;
    if t.kind == ObjectEnd && (name == [] || cfg.allowTrailingCommas) {
      assert r[1..] + rest == rest;
    } else {
      var k: nat, n, v :| MemberAt(cfg, doc, r, PlainMap(acc.payload.values), m, depth, k, n, v);
      MemberComplete(cfg, doc, t, errors, depth, acc, r, rest, m, k, n, v);
    }
  }

  lemma {:induction false} MemberComplete(cfg: Settings, doc: ByteString, t: Token, errors: seq<Error>, depth: nat,
                                          acc: Value, r: seq<Token>, rest: seq<Token>, m: ObjectValues, k: nat,
                                          n: ByteString, v: Value)
    requires t.end <= |doc| && acc.payload.Object? && !cfg.allowDroppedNullPlaceholders && r != [] && t == r[0]
    requires Toks(cfg, doc, t.end) == r[1..] + rest
    requires MemberAt(cfg, doc, r, PlainMap(acc.payload.values), m, depth, k, n, v)
    ensures InDocument(doc, t) && ReadName(cfg, doc, t) == Named(n)
    ensures var o := ReadMember(cfg, doc, t, errors, depth, acc, n);
            Accepts(cfg, doc, o, rest) && o.value.payload.Object? && PlainMap(o.value.payload.values) == m
    decreases |r|, 1
  {
    hide Toks, ReadToken, NextToken, ReadName, ReadValue, AfterMember, IsValue, IsMembers, WithEntry, Plain;
    hide Recover, Trim;
    var value, q := r[2..2 + k], r[2 + k..];
    var colon := ReadToken(cfg, doc, t.end);
    FirstOfUsed(cfg, doc, t.end, r[1..], rest);
    assert r[1..][1..] + rest == value + (q + rest);
    var prior := Get(acc.payload.values, Name(n));
    PlainLookup(acc.payload.values, Name(n));
    ValueComplete(cfg, doc, colon.end, errors, depth + 1, prior, value, q + rest, v);
    var o := ReadValue(cfg, doc, colon.end, errors, depth + 1, prior);
    PlainEntry(acc, Name(n), o.value);
    RestComplete(cfg, doc, o.pos, o.errors, depth, WithEntry(acc, Name(n), o.value), n, q, rest, m);
  }

  lemma {:induction false} RestComplete(cfg: Settings, doc: ByteString, pos: nat, errors: seq<Error>, depth: nat,
                                        w: Value, n: ByteString, q: seq<Token>, rest: seq<Token>, m: ObjectValues)
    requires pos <= |doc| && w.payload.Object? && !cfg.allowDroppedNullPlaceholders && Toks(cfg, doc, pos) == q + rest
    requires var last := Trim(q);
             && last != [] && q[0].kind in {ObjectEnd, ArraySeparator, CommentToken}
             && if last[0].kind == ObjectEnd then |last| == 1 && m == PlainMap(w.payload.values)
                else IsMembers(cfg, doc, last[1..], PlainMap(w.payload.values), n, m, depth)
    ensures var o := AfterMember(cfg, doc, pos, errors, depth, w, n);
            Accepts(cfg, doc, o, rest) && o.value.payload.Object? && PlainMap(o.value.payload.values) == m
    decreases |q|, 3
  {
    hide Toks, ReadToken, NextToken, AfterMember, ReadMembers, IsMembers, Trim;
    FirstOfUsed(cfg, doc, pos, q, rest);
    NextOfUsed(cfg, doc, pos, q, rest);
    LastOfMember(cfg, doc, pos, errors, depth, w, n);
    var last, t := Trim(q), NextToken(cfg, doc, pos);
    if t.kind == ObjectEnd {
      assert last[1..] + rest == rest;
    } else {
      MembersComplete(cfg, doc, t.end, errors, depth, w, n, last[1..], rest, m);
    }
  }

  lemma {:induction false} ElementsComplete(cfg: Settings, doc: ByteString, pos: nat, errors: seq<Error>, depth: nat,
                                            acc: Value, i: nat, used: seq<Token>, rest: seq<Token>, m: ObjectValues)
    requires pos <= |doc| && acc.payload.Array? && !cfg.allowDroppedNullPlaceholders
    requires Toks(cfg, doc, pos) == used + rest && IsElements(cfg, doc, used, PlainMap(acc.payload.values), i, m, depth)
    ensures var o := ReadElements(cfg, doc, pos, errors, depth, acc, i);
            Accepts(cfg, doc, o, rest) && o.value.payload.Array? && PlainMap(o.value.payload.values) == m
    decreases |used|, 2
  {
    assert used != [];
    var p, first := SkipSpaces(doc, pos), ReadToken(cfg, doc, pos);
    SpacesKeepTokens(cfg, doc, pos);
    FirstOfUsed(cfg, doc, pos, used, rest);
    hide Toks, ReadToken, SkipSpaces, ReadValue, AfterElement, IsValue, WithEntry, Plain, Recover, Trim;
    if first.kind == ArrayEnd && (i == 0 || cfg.allowTrailingCommas) {
      assert used[1..] + rest == rest;
    } else {
      ElementComplete(cfg, doc, pos, errors, depth, acc, i, used, rest, m);
    }
  }

  lemma {:induction false} ElementComplete(cfg: Settings, doc: ByteString, pos: nat, errors: seq<Error>, depth: nat,
                                           acc: Value, i: nat, used: seq<Token>, rest: seq<Token>, m: ObjectValues)
    requires pos <= |doc| && acc.payload.Array? && !cfg.allowDroppedNullPlaceholders
             && Toks(cfg, doc, pos) == used + rest
    requires ReadToken(cfg, doc, pos).kind == ArrayEnd ==> i != 0 && !cfg.allowTrailingCommas
    requires i <= MAX_INT && exists k: nat, v :: ElementAt(cfg, doc, used, PlainMap(acc.payload.values), i, m, depth,
                                                           k, v)
    ensures var o := ReadElements(cfg, doc, pos, errors, depth, acc, i);
            Accepts(cfg, doc, o, rest) && o.value.payload.Array? && PlainMap(o.value.payload.values) == m
    decreases |used|, 1
  {
    var k: nat, v :| ElementAt(cfg, doc, used, PlainMap(acc.payload.values), i, m, depth, k, v);
    var p, value, q := SkipSpaces(doc, pos), used[..k], used[k..];
    SpacesKeepTokens(cfg, doc, pos);
    hide Toks, ReadToken, SkipSpaces, ReadValue, AfterElement, IsValue, IsElements, WithEntry, Plain, Recover;
    hide Trim, Accepts;
    assert used + rest == value + (q + rest) by { Regrouped(value, q, rest, []); }
    var prior := Get(acc.payload.values, Index(i));
    ValueComplete(cfg, doc, p, errors, depth + 1, prior, value, q + rest, v);
    var o := ReadValue(cfg, doc, p, errors, depth + 1, prior);
    assert Success(o) && o.pos <= |doc| && Toks(cfg, doc, o.pos) == q + rest by { AcceptsMeans(cfg, doc, o, q + rest); }
    PlainEntry(acc, Index(i), o.value);
    AfterComplete(cfg, doc, o.pos, o.errors, depth, WithEntry(acc, Index(i), o.value), i, q, rest, m);
  }

  lemma AcceptsMeans(cfg: Settings, doc: ByteString, o: Outcome, rest: seq<Token>)
    requires Accepts(cfg, doc, o, rest)
    ensures Success(o) && o.pos <= |doc| && Toks(cfg, doc, o.pos) == rest
  {
  }

  lemma {:induction false} AfterComplete(cfg: Settings, doc: ByteString, pos: nat, errors: seq<Error>, depth: nat,
                                         w: Value, i: nat, q: seq<Token>, rest: seq<Token>, m: ObjectValues)
    requires pos <= |doc| && w.payload.Array? && !cfg.allowDroppedNullPlaceholders && Toks(cfg, doc, pos) == q + rest
    requires var r := Trim(q);
             && r != []
             && match r[0].kind
                case ArrayEnd => |r| == 1 && m == PlainMap(w.payload.values)
                case ArraySeparator => IsElements(cfg, doc, r[1..], PlainMap(w.payload.values), i + 1, m, depth)
                case _ => false
    ensures var o := AfterElement(cfg, doc, pos, errors, depth, w, i);
            Accepts(cfg, doc, o, rest) && o.value.payload.Array? && PlainMap(o.value.payload.values) == m
    decreases |q|, 3
  {
    hide Toks, ReadToken, NextToken, ReadElements, IsElements, Trim;
    NextOfUsed(cfg, doc, pos, q, rest);
    var r, t := Trim(q), NextToken(cfg, doc, pos);
    if t.kind == ArrayEnd {
      assert r[1..] + rest == rest;
    } else {
      ElementsComplete(cfg, doc, t.end, errors, depth, w, i + 1, r[1..], rest, m);
    }
  }

  // ---- documents ----

  /**
   The reader gives the value `v`, and no others, exactly to the documents that begin with a value of the grammar that
   means `v`; past it there may only be comments, if they are allowed, where nothing else is to follow; and the root is
   a container where it has to be.
   */
  lemma AcceptedIff(cfg: Settings, doc: ByteString, root: Value, v: Value)
    requires !cfg.allowDroppedNullPlaceholders
    ensures var r, ts := Parse(cfg, doc, root), Toks(cfg, doc, 0);
            (r.Parsed? && r.ok && Plain(r.root) == v) <==>
            exists k: nat :: IsDocument(cfg, doc, ts, k, v)
  {
    hide Parse, Toks, IsDocument, Plain;
    var r := Parse(cfg, doc, root);
    if r.Parsed? && r.ok {
      var k := AcceptedIsDocument(cfg, doc, root);
    }
    forall k: nat | IsDocument(cfg, doc, Toks(cfg, doc, 0), k, v) ensures r.Parsed? && r.ok && Plain(r.root) == v {
      DocumentIsAccepted(cfg, doc, root, k, v);
    }
  }

  lemma AcceptedIsDocument(cfg: Settings, doc: ByteString, root: Value) returns (k: nat)
    requires !cfg.allowDroppedNullPlaceholders && var r := Parse(cfg, doc, root); r.Parsed? && r.ok
    ensures IsDocument(cfg, doc, Toks(cfg, doc, 0), k, Plain(Parse(cfg, doc, root).root))
  {
    hide ReadValue, Toks, IsValue, Plain, SkipCommentTokens;
    var o := ReadValue(cfg, doc, 0, [], 1, root);
    var used := ValueSound(cfg, doc, 0, [], 1, root);
    var ts := Toks(cfg, doc, 0);
    RestIsOver(cfg, doc, o.pos);
    SameKind(o.value);
    k := |used|;
    assert ts[..k] == used && ts[k..] == Toks(cfg, doc, o.pos);
  }

  lemma DocumentIsAccepted(cfg: Settings, doc: ByteString, root: Value, k: nat, v: Value)
    requires !cfg.allowDroppedNullPlaceholders && IsDocument(cfg, doc, Toks(cfg, doc, 0), k, v)
    ensures var r := Parse(cfg, doc, root); r.Parsed? && r.ok && Plain(r.root) == v
  {
    hide ReadValue, Toks, IsValue, Plain, SkipCommentTokens;
    var ts := Toks(cfg, doc, 0);
    assert ts == ts[..k] + ts[k..];
    ValueComplete(cfg, doc, 0, [], 1, root, ts[..k], ts[k..], v);
    var o := ReadValue(cfg, doc, 0, [], 1, root);
    RestIsOver(cfg, doc, o.pos);
    SameKind(o.value);
  }

  /** The first `k` tokens are the root, and what follows and what the root is are as the settings want. */
  ghost predicate IsDocument(cfg: Settings, doc: ByteString, ts: seq<Token>, k: nat, v: Value) {
    && k <= |ts| && IsValue(cfg, doc, ts[..k], v, 1)
    && (cfg.failIfExtra ==> Over(if cfg.allowComments then Trim(ts[k..]) else ts[k..]))
    && (cfg.strictRoot ==> v.payload.Array? || v.payload.Object?)
  }

  /** Nothing is left, or the stream ends at a NUL. */
  predicate Over(ts: seq<Token>) { ts == [] || ts[0].kind == EndOfStream }

  lemma SameKind(v: Value)
    ensures Plain(v).payload.Array? == v.payload.Array? && Plain(v).payload.Object? == v.payload.Object?
  {
  }

  lemma RestIsOver(cfg: Settings, doc: ByteString, pos: nat)
    requires pos <= |doc|
    ensures var rest := Toks(cfg, doc, pos);
            SkipCommentTokens(cfg, doc, pos).kind == EndOfStream
            <==> Over(if cfg.allowComments then Trim(rest) else rest)
  {
    TrimIsNext(cfg, doc, pos);
  }

  lemma {:induction false} TrimIsNext(cfg: Settings, doc: ByteString, pos: nat)
    requires pos <= |doc|
    ensures Over(Trim(Toks(cfg, doc, pos))) <==> NextToken(cfg, doc, pos).kind == EndOfStream
    ensures Over(Toks(cfg, doc, pos)) <==> ReadToken(cfg, doc, pos).kind == EndOfStream
    decreases |doc| - pos
  {
    hide TokenAt;
    var t := ReadToken(cfg, doc, pos);
    if t.kind == CommentToken {
      assert Toks(cfg, doc, pos)[1..] == Toks(cfg, doc, t.end);
      TrimIsNext(cfg, doc, t.end);
    }
  }
}
