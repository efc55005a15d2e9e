/**
 Offsets. In a successful parse every value lies within the value that holds it, and the bytes it claims as its own
 are a document that parses to it.
 */
module JsonOffsets {
  import opened Bytes
  import opened JsonValue
  import opened JsonNumbers
  import opened JsonStrings
  import opened JsonLexer
  import opened JsonParser
  import opened JsonLocality

  // ---- moving offsets ----

  function Shift(v: Value, lo: int): Value {
    Value(ShiftPayload(v.payload, lo), v.start - lo, v.limit - lo)
  }

  function ShiftPayload(p: Payload, lo: int): Payload {
    match p
    case Array(m) => Array(ShiftMap(m, lo))
    case Object(m) => Object(ShiftMap(m, lo))
    case _ => p
  }

  function ShiftMap(m: ObjectValues, lo: int): ObjectValues {
    match m
    case Empty => Empty
    case Entry(key, value, rest) => Entry(key, Shift(value, lo), ShiftMap(rest, lo))
  }

  lemma {:induction false} ShiftPut(m: ObjectValues, k: CZString, v: Value, lo: int)
    ensures ShiftMap(Put(m, k, v), lo) == Put(ShiftMap(m, lo), k, Shift(v, lo))
  {
    if m.Entry? {
      ShiftPut(m.rest, k, v, lo);
    }
  }

  lemma {:induction false} ShiftLookup(m: ObjectValues, k: CZString, lo: int)
    ensures Lookup(ShiftMap(m, lo), k).Some? == Lookup(m, k).Some?
  {
    if m.Entry? {
      ShiftLookup(m.rest, k, lo);
    }
  }

  /** The same container under construction, `lo` further on; the end is not known yet. */
  predicate Moved(acc: Value, other: Value, lo: int) {
    other.payload == ShiftPayload(acc.payload, lo) && other.start == acc.start - lo
  }

  lemma MovedEntry(acc: Value, other: Value, lo: int, k: CZString, child: Value)
    requires Moved(acc, other, lo) && (acc.payload.Object? || acc.payload.Array?)
    ensures Moved(WithEntry(acc, k, child), WithEntry(other, k, Shift(child, lo)), lo)
  {
    ShiftPut(acc.payload.values, k, child, lo);
  }

  // ---- reading a piece ----

  /** The loop of a container does in the piece what it does in the document. */
  predicate LoopAgrees(o: Outcome, other: Outcome, errors: seq<Error>, lo: nat) {
    Success(o) && Success(other) && other.pos == o.pos - lo && other.errors == errors && Moved(o.value, other.value, lo)
  }

  lemma ScalarLocal(cfg: Settings, other: Settings, doc: ByteString, part: ByteString, lo: nat, t: Token,
                    errors: seq<Error>, v: Value, errors2: seq<Error>, v2: Value)
    requires Part(doc, part, lo) && Alike(cfg, other)
    requires lo <= t.start <= t.end <= lo + |part| && (t.kind != EndOfStream ==> t.start < t.end)
    requires t.kind == StringToken ==> t.start + 2 <= t.end
    requires Success(ReadScalar(cfg, doc, t, errors, v))
    ensures var o := ReadScalar(cfg, doc, t, errors, v);
            lo <= o.pos && ReadScalar(other, part, Shifted(t, lo), errors2, v2)
              == Done(true, o.pos - lo, errors2, Shift(o.value, lo))
  {
    hide DecodeFrom, Text;
    TextLocal(doc, part, lo, t);
  }

  lemma {:induction false} ValueLocal(cfg: Settings, other: Settings, doc: ByteString, part: ByteString, lo: nat,
                                      pos: nat, errors: seq<Error>, depth: nat, v: Value, errors2: seq<Error>,
                                      depth2: nat, v2: Value)
    requires Part(doc, part, lo) && Alike(cfg, other) && depth2 <= depth
    requires lo <= pos <= |doc|
    requires var o := ReadValue(cfg, doc, pos, errors, depth, v); Success(o) && o.pos <= lo + |part|
    requires SkipCommentTokens(cfg, doc, pos).end <= lo + |part|
    ensures var o := ReadValue(cfg, doc, pos, errors, depth, v);
            ReadValue(other, part, pos - lo, errors2, depth2, v2) == Done(true, o.pos - lo, errors2, Shift(o.value, lo))
    decreases |doc| - pos, 0
  {
    hide SkipCommentTokens, ReadMembers, ReadElements, ReadScalar, Part;
    var t := SkipCommentTokens(cfg, doc, pos);
    assert ShiftMap(Empty, lo) == Empty;
    if t.kind == ObjectBegin {
      SkipCommentsLocal(cfg, other, doc, part, lo, pos);
      MembersLocal(cfg, other, doc, part, lo, t.end, errors, depth, Value(Object(Empty), t.start, v.limit), [],
                   errors2, depth2, Value(Object(Empty), t.start - lo, v2.limit));
    } else if t.kind == ArrayBegin {
      SkipCommentsLocal(cfg, other, doc, part, lo, pos);
      ElementsLocal(cfg, other, doc, part, lo, t.end, errors, depth, Value(Array(Empty), t.start, v.limit), 0,
                    errors2, depth2, Value(Array(Empty), t.start - lo, v2.limit));
    } else {
      SkipCommentsLocal(cfg, other, doc, part, lo, pos);
      ScalarLocal(cfg, other, doc, part, lo, t, errors, v, errors2, v2);
    }
  }

  /** What a missing value leaves, when it is read as null: a null of one byte, where a real one has four. */
  predicate IsDropped(v: Value) { v.payload.Null? && v.limit == v.start + 1 }

  /** A value ends after its first token, except for a missing one, which leaves the token to be read again. */
  lemma ValueShape(cfg: Settings, doc: ByteString, pos: nat, errors: seq<Error>, depth: nat, v: Value)
    requires pos <= |doc| && Success(ReadValue(cfg, doc, pos, errors, depth, v))
    ensures var o, t := ReadValue(cfg, doc, pos, errors, depth, v), SkipCommentTokens(cfg, doc, pos);
            && t.start < t.end && t.kind != CommentToken
            && (t.end <= o.pos ||
                (o.pos == t.start && cfg.allowDroppedNullPlaceholders && o.errors == errors && IsDropped(o.value)
                 && ReadToken(cfg, doc, o.pos) == t == NextToken(cfg, doc, o.pos)))
  {
    hide SkipCommentTokens, ReadMembers, ReadElements, DecodeFrom, DecodeNumberToken, Text;
    var o, t := ReadValue(cfg, doc, pos, errors, depth, v), SkipCommentTokens(cfg, doc, pos);
    if EndsDroppedNull(t.kind) {
      SingleToken(cfg, doc, pos);
      TokenAgain(cfg, doc, pos);
      ReadTwice(cfg, doc, pos);
    }
  }

  lemma {:induction false} SingleToken(cfg: Settings, doc: ByteString, pos: nat)
    requires pos <= |doc|
    ensures var t := ReadToken(cfg, doc, pos); EndsDroppedNull(t.kind) ==> t.end == t.start + 1
    ensures var t := NextToken(cfg, doc, pos); EndsDroppedNull(t.kind) ==> t.end == t.start + 1
    ensures var t := SkipCommentTokens(cfg, doc, pos); EndsDroppedNull(t.kind) ==> t.end == t.start + 1
    decreases |doc| - pos
  {
    hide ReadNumber, ReadString, ReadComment;
    var t := ReadToken(cfg, doc, pos);
    if t.kind == CommentToken {
      SingleToken(cfg, doc, t.end);
    }
  }

  lemma ReadTwice(cfg: Settings, doc: ByteString, pos: nat)
    requires pos <= |doc| && EndsDroppedNull(SkipCommentTokens(cfg, doc, pos).kind)
    ensures var t := SkipCommentTokens(cfg, doc, pos); ReadToken(cfg, doc, t.start) == t == NextToken(cfg, doc, t.start)
  {
    hide ReadToken;
    TokenAgain(cfg, doc, pos);
  }

  lemma NameLocal(cfg: Settings, other: Settings, doc: ByteString, part: ByteString, lo: nat, t: Token)
    requires Part(doc, part, lo) && Alike(cfg, other)
    requires lo <= t.start <= t.end <= lo + |part| && (t.kind == StringToken ==> t.start + 2 <= t.end)
    requires ReadName(cfg, doc, t).Named?
    ensures t.kind != EndOfStream && ReadName(other, part, Shifted(t, lo)) == ReadName(cfg, doc, t)
  {
    hide DecodeFrom, Text;
    TextLocal(doc, part, lo, t);
  }

  lemma {:induction false} MembersLocal(cfg: Settings, other: Settings, doc: ByteString, part: ByteString, lo: nat,
                                        pos: nat, errors: seq<Error>, depth: nat, acc: Value, name: ByteString,
                                        errors2: seq<Error>, depth2: nat, acc2: Value)
    requires Part(doc, part, lo) && Alike(cfg, other) && depth2 <= depth
    requires lo <= pos <= |doc| && acc.payload.Object? && Moved(acc, acc2, lo)
    requires var o := ReadMembers(cfg, doc, pos, errors, depth, acc, name); Success(o) && o.pos <= lo + |part|
    ensures LoopAgrees(ReadMembers(cfg, doc, pos, errors, depth, acc, name),
                       ReadMembers(other, part, pos - lo, errors2, depth2, acc2, name), errors2, lo)
    decreases |doc| - pos, 1
  {
    hide NextToken, ReadName, ReadMember, Part;
    var t := NextToken(cfg, doc, pos);
    NextTokenLocal(cfg, other, doc, part, lo, pos);
    if !(t.kind == ObjectEnd && (name == [] || cfg.allowTrailingCommas)) {
      NameLocal(cfg, other, doc, part, lo, t);
      MemberLocal(cfg, other, doc, part, lo, t, errors, depth, acc, ReadName(cfg, doc, t).name, errors2, depth2, acc2);
    }
  }

  lemma {:induction false} MemberLocal(cfg: Settings, other: Settings, doc: ByteString, part: ByteString, lo: nat,
                                       t: Token, errors: seq<Error>, depth: nat, acc: Value, name: ByteString,
                                       errors2: seq<Error>, depth2: nat, acc2: Value)
    requires Part(doc, part, lo) && Alike(cfg, other) && depth2 <= depth
    requires lo <= t.start < t.end <= |doc| && acc.payload.Object? && Moved(acc, acc2, lo)
    requires var o := ReadMember(cfg, doc, t, errors, depth, acc, name); Success(o) && o.pos <= lo + |part|
    ensures LoopAgrees(ReadMember(cfg, doc, t, errors, depth, acc, name),
                       ReadMember(other, part, Shifted(t, lo), errors2, depth2, acc2, name), errors2, lo)
    decreases |doc| - t.end, 2
  {
    hide ReadToken, ReadValue, AfterMember, Part, WithEntry, Fail, Recover, SkipCommentTokens;
    ShiftLookup(acc.payload.values, Name(name), lo);
    ReadTokenLocal(cfg, other, doc, part, lo, t.end);
    var colon := ReadToken(cfg, doc, t.end);
    var prior, prior2 := Get(acc.payload.values, Name(name)), Get(acc2.payload.values, Name(name));
    var o := ReadValue(cfg, doc, colon.end, errors, depth + 1, prior);
    ValueShape(cfg, doc, colon.end, errors, depth + 1, prior);
    AfterMemberPast(cfg, doc, o.pos, o.errors, depth, WithEntry(acc, Name(name), o.value), name);
    ValueLocal(cfg, other, doc, part, lo, colon.end, errors, depth + 1, prior, errors2, depth2 + 1, prior2);
    MovedEntry(acc, acc2, lo, Name(name), o.value);
    AfterMemberLocal(cfg, other, doc, part, lo, o.pos, o.errors, depth, WithEntry(acc, Name(name), o.value), name,
                     errors2, depth2, WithEntry(acc2, Name(name), Shift(o.value, lo)));
  }

  /** What follows a member is read past its first token. */
  lemma AfterMemberPast(cfg: Settings, doc: ByteString, pos: nat, errors: seq<Error>, depth: nat, w: Value,
                        name: ByteString)
    requires pos <= |doc| && w.payload.Object? && Success(AfterMember(cfg, doc, pos, errors, depth, w, name))
    ensures ReadToken(cfg, doc, pos).end <= AfterMember(cfg, doc, pos, errors, depth, w, name).pos
  {
    hide ReadToken, ReadMembers, Recover;
  }

  lemma AfterElementPast(cfg: Settings, doc: ByteString, pos: nat, errors: seq<Error>, depth: nat, w: Value, index: nat)
    requires pos <= |doc| && w.payload.Array? && Success(AfterElement(cfg, doc, pos, errors, depth, w, index))
    ensures NextToken(cfg, doc, pos).end <= AfterElement(cfg, doc, pos, errors, depth, w, index).pos
  {
    hide NextToken, ReadElements, Recover;
  }

  lemma {:induction false} AfterMemberLocal(cfg: Settings, other: Settings, doc: ByteString, part: ByteString, lo: nat,
                                            pos: nat, errors: seq<Error>, depth: nat, acc: Value, name: ByteString,
                                            errors2: seq<Error>, depth2: nat, acc2: Value)
    requires Part(doc, part, lo) && Alike(cfg, other) && depth2 <= depth
    requires lo <= pos <= |doc| && acc.payload.Object? && Moved(acc, acc2, lo)
    requires var o := AfterMember(cfg, doc, pos, errors, depth, acc, name); Success(o) && o.pos <= lo + |part|
    ensures LoopAgrees(AfterMember(cfg, doc, pos, errors, depth, acc, name),
                       AfterMember(other, part, pos - lo, errors2, depth2, acc2, name), errors2, lo)
    decreases |doc| - pos, 2
  {
    hide ReadToken, NextToken, ReadMembers, Part, Fail;
    var comma := ReadToken(cfg, doc, pos);
    ReadTokenLocal(cfg, other, doc, part, lo, pos);
    var last := comma;
    if comma.kind == CommentToken {
      NextTokenLocal(cfg, other, doc, part, lo, comma.end);
      last := NextToken(cfg, doc, comma.end);
    }
    if last.kind != ObjectEnd {
      if last.end > pos {
        MembersLocal(cfg, other, doc, part, lo, last.end, errors, depth, acc, name, errors2, depth2, acc2);
      }
    }
  }

  lemma {:induction false} ElementsLocal(cfg: Settings, other: Settings, doc: ByteString, part: ByteString, lo: nat,
                                         pos: nat, errors: seq<Error>, depth: nat, acc: Value, index: nat,
                                         errors2: seq<Error>, depth2: nat, acc2: Value)
    requires Part(doc, part, lo) && Alike(cfg, other) && depth2 <= depth
    requires lo <= pos <= |doc| && acc.payload.Array? && Moved(acc, acc2, lo)
    requires var o := ReadElements(cfg, doc, pos, errors, depth, acc, index); Success(o) && o.pos <= lo + |part|
    ensures LoopAgrees(ReadElements(cfg, doc, pos, errors, depth, acc, index),
                       ReadElements(other, part, pos - lo, errors2, depth2, acc2, index), errors2, lo)
    decreases |doc| - pos, 1
  {
    hide AfterElement, SkipSpaces, ReadElements, ReadValue, WithEntry, Part, Closes;
    var p := SkipSpaces(doc, pos);
    var prior, prior2 := Get(acc.payload.values, Index(index)), Get(acc2.payload.values, Index(index));
    ElementsCases(cfg, doc, pos, errors, depth, acc, index);
    SpacesLocal(doc, part, lo, pos - lo);
    PartAt(doc, part, lo, p - lo);
    ClosesLocal(cfg, other, doc, part, lo, p, index);
    ElementsCases(other, part, pos - lo, errors2, depth2, acc2, index);
    if !Closes(cfg, doc, p, index) {
      var o := ReadValue(cfg, doc, p, errors, depth + 1, prior);
      ValueLocal(cfg, other, doc, part, lo, p, errors, depth + 1, prior, errors2, depth2 + 1, prior2);
      MovedEntry(acc, acc2, lo, Index(index), o.value);
      AfterElementLocal(cfg, other, doc, part, lo, o.pos, o.errors, depth, WithEntry(acc, Index(index), o.value), index,
                        errors2, depth2, WithEntry(acc2, Index(index), Shift(o.value, lo)));
    }
  }

  /** The bracket that ends an array at once. */
  predicate Closes(cfg: Settings, doc: ByteString, p: nat, index: nat) {
    p < |doc| && doc[p] == 0x5d && (index == 0 || (cfg.allowTrailingCommas && !cfg.allowDroppedNullPlaceholders))
  }

  lemma ClosesLocal(cfg: Settings, other: Settings, doc: ByteString, part: ByteString, lo: nat, p: nat, index: nat)
    requires Part(doc, part, lo) && Alike(cfg, other) && lo <= p < lo + |part|
    ensures Closes(other, part, p - lo, index) == Closes(cfg, doc, p, index)
  {
    PartAt(doc, part, lo, p - lo);
  }

  /** A turn of the loop of `readArray`. */
  lemma ElementsCases(cfg: Settings, doc: ByteString, pos: nat, errors: seq<Error>, depth: nat, acc: Value, index: nat)
    requires pos <= |doc| && acc.payload.Array?
    ensures var p, all := SkipSpaces(doc, pos), ReadElements(cfg, doc, pos, errors, depth, acc, index);
            var o := ReadValue(cfg, doc, p, errors, depth + 1, Get(acc.payload.values, Index(index)));
            && (Success(all) ==> p < |doc| && p < all.pos)
            && (Closes(cfg, doc, p, index) ==> all == Done(true, p + 1, errors, acc))
            && (!Closes(cfg, doc, p, index) && Success(all) ==>
                  index <= MAX_INT && Success(o) && SkipCommentTokens(cfg, doc, p).end <= all.pos)
            && (!Closes(cfg, doc, p, index) && index <= MAX_INT && Success(o) ==>
                  all == AfterElement(cfg, doc, o.pos, o.errors, depth, WithEntry(acc, Index(index), o.value), index))
  {
    hide AfterElement, SkipSpaces, ReadValue, WithEntry, Recover, SkipCommentTokens;
    var p, all := SkipSpaces(doc, pos), ReadElements(cfg, doc, pos, errors, depth, acc, index);
    var prior := Get(acc.payload.values, Index(index));
    var o := ReadValue(cfg, doc, p, errors, depth + 1, prior);
    if !Closes(cfg, doc, p, index) && Success(all) {
      ValueShape(cfg, doc, p, errors, depth + 1, prior);
      AfterElementPast(cfg, doc, o.pos, o.errors, depth, WithEntry(acc, Index(index), o.value), index);
    }
  }

  lemma {:induction false} AfterElementLocal(cfg: Settings, other: Settings, doc: ByteString, part: ByteString, lo: nat,
                                             pos: nat, errors: seq<Error>, depth: nat, acc: Value, index: nat,
                                             errors2: seq<Error>, depth2: nat, acc2: Value)
    requires Part(doc, part, lo) && Alike(cfg, other) && depth2 <= depth
    requires lo <= pos <= |doc| && acc.payload.Array? && Moved(acc, acc2, lo)
    requires var o := AfterElement(cfg, doc, pos, errors, depth, acc, index); Success(o) && o.pos <= lo + |part|
    ensures LoopAgrees(AfterElement(cfg, doc, pos, errors, depth, acc, index),
                       AfterElement(other, part, pos - lo, errors2, depth2, acc2, index), errors2, lo)
    decreases |doc| - pos, 0
  {
    hide NextToken, ReadElements, Part;
    NextTokenLocal(cfg, other, doc, part, lo, pos);
    var t := NextToken(cfg, doc, pos);
    if t.kind == ArraySeparator {
      ElementsLocal(cfg, other, doc, part, lo, t.end, errors, depth, acc, index + 1, errors2, depth2, acc2);
    }
  }

  // ---- every value of the tree ----

  function Relaxed(cfg: Settings): Settings { cfg.(strictRoot := false) }

  /** The bytes of the value, as a document, parse to it. */
  ghost predicate Rereads(cfg: Settings, doc: ByteString, v: Value) {
    && 0 <= v.start < v.limit <= |doc|
    && forall root :: Parse(Relaxed(cfg), doc[v.start..v.limit], root) == Parsed(true, Shift(v, v.start), [])
  }

  /** The value and all values in it reread, and each lies strictly inside the one that holds it. */
  ghost predicate Located(cfg: Settings, doc: ByteString, v: Value)
    decreases v
  {
    && Rereads(cfg, doc, v)
    && match v.payload
       case Array(m) => EntriesLocated(cfg, doc, m, v.start + 1, v.limit - 1)
       case Object(m) => EntriesLocated(cfg, doc, m, v.start + 1, v.limit - 1)
       case _ => true
  }

  ghost predicate EntriesLocated(cfg: Settings, doc: ByteString, m: ObjectValues, lo: int, hi: int)
    decreases m
  {
    match m
    case Empty => true
    case Entry(_, value, rest) =>
      lo <= value.start && value.limit <= hi && Located(cfg, doc, value) && EntriesLocated(cfg, doc, rest, lo, hi)
  }

  // ---- nulls that are not there ----

  /** No value of the tree was missing. */
  predicate NoneDropped(v: Value)
    decreases v
  {
    match v.payload
    case Array(m) => NoneDroppedIn(m)
    case Object(m) => NoneDroppedIn(m)
    case _ => !IsDropped(v)
  }

  predicate NoneDroppedIn(m: ObjectValues)
    decreases m
  {
    match m
    case Empty => true
    case Entry(_, value, rest) => NoneDropped(value) && NoneDroppedIn(rest)
  }

  /** A missing value that is read as null gets the byte before the un-read token, and never rereads from it. */
  lemma DroppedNullNeverRereads(cfg: Settings, doc: ByteString, t: Token, errors: seq<Error>, v: Value)
    requires cfg.allowDroppedNullPlaceholders && EndsDroppedNull(t.kind) && t.start < t.end <= |doc|
    ensures var o := ReadScalar(cfg, doc, t, errors, v);
            Success(o) && o.value == Value(Null, t.end - 2, t.end - 1) && !Rereads(cfg, doc, o.value)
  {
    NullOfOneByte(cfg, doc, ReadScalar(cfg, doc, t, errors, v).value);
  }

  lemma NullOfOneByte(cfg: Settings, doc: ByteString, v: Value)
    requires v.payload.Null? && v.limit == v.start + 1
    ensures !Rereads(cfg, doc, v)
  {
    if 0 <= v.start < v.limit <= |doc| {
      var part := doc[v.start..v.limit];
      var r := Parse(Relaxed(cfg), part, NULL_SINGLETON);
      OneByte(Relaxed(cfg), part);
      assert r != Parsed(true, Shift(v, v.start), []);
    }
  }

  lemma OneByte(cfg: Settings, doc: ByteString)
    requires |doc| == 1
    ensures var r := Parse(cfg, doc, NULL_SINGLETON); !(r.Parsed? && r.ok && r.root == Value(Null, 0, 1))
  {
    hide ReadMembers, ReadElements, SkipCommentTokens, TokenAt;
    var o := ReadValue(cfg, doc, 0, [], 1, NULL_SINGLETON);
    var t := SkipCommentTokens(cfg, doc, 0);
    if Success(o) && o.value == Value(Null, 0, 1) {
      EndOfPart(cfg, doc);
      if t.kind == ObjectBegin {
        NoMembersAtEnd(cfg, doc, Value(Object(Empty), t.start, 0));
      } else if t.kind == ArrayBegin {
        NoElementsAtEnd(cfg, doc, Value(Array(Empty), t.start, 0));
      }
      assert t.kind == NullToken by {
        hide DecodeFrom, DecodeNumberToken;
      }
      NullIsFourLong(cfg, doc, 0);
      assert false;
    }
  }

  lemma NoMembersAtEnd(cfg: Settings, doc: ByteString, acc: Value)
    requires acc.payload.Object?
    ensures !Success(ReadMembers(cfg, doc, |doc|, [], 1, acc, []))
  {
  }

  lemma NoElementsAtEnd(cfg: Settings, doc: ByteString, acc: Value)
    requires acc.payload.Array?
    ensures !Success(ReadElements(cfg, doc, |doc|, [], 1, acc, 0))
  {
    var o := ReadValue(cfg, doc, |doc|, [], 2, Get(acc.payload.values, Index(0)));
    assert !Success(o);
  }

  lemma {:induction false} LocatedHasNone(cfg: Settings, doc: ByteString, v: Value)
    requires Located(cfg, doc, v)
    ensures NoneDropped(v)
    decreases v
  {
    if v.payload.Array? || v.payload.Object? {
      EntriesHaveNone(cfg, doc, v.payload.values, v.start + 1, v.limit - 1);
    } else if IsDropped(v) {
      NullOfOneByte(cfg, doc, v);
    }
  }

  lemma {:induction false} EntriesHaveNone(cfg: Settings, doc: ByteString, m: ObjectValues, lo: int, hi: int)
    requires EntriesLocated(cfg, doc, m, lo, hi)
    ensures NoneDroppedIn(m)
    decreases m
  {
    if m.Entry? {
      LocatedHasNone(cfg, doc, m.value);
      EntriesHaveNone(cfg, doc, m.rest, lo, hi);
    }
  }

  // ---- values in their places ----

  /** A value without missing ones is located and within bounds; and none is missing if that is not allowed. */
  ghost predicate Placed(cfg: Settings, doc: ByteString, v: Value, lo: int, hi: int) {
    && (NoneDropped(v) ==> lo <= v.start && v.limit <= hi && Located(cfg, doc, v))
    && (cfg.allowDroppedNullPlaceholders || NoneDropped(v))
  }

  ghost predicate EntriesPlaced(cfg: Settings, doc: ByteString, m: ObjectValues, lo: int, hi: int)
    decreases m
  {
    match m
    case Empty => true
    case Entry(_, value, rest) => Placed(cfg, doc, value, lo, hi) && EntriesPlaced(cfg, doc, rest, lo, hi)
  }

  lemma {:induction false} MoreRoom(cfg: Settings, doc: ByteString, m: ObjectValues, lo: int, hi: int, higher: int)
    requires EntriesPlaced(cfg, doc, m, lo, hi) && hi <= higher
    ensures EntriesPlaced(cfg, doc, m, lo, higher)
  {
    if m.Entry? {
      MoreRoom(cfg, doc, m.rest, lo, hi, higher);
    }
  }

  lemma {:induction false} PutPlaced(cfg: Settings, doc: ByteString, m: ObjectValues, k: CZString, v: Value, lo: int,
                                     hi: int)
    requires EntriesPlaced(cfg, doc, m, lo, hi) && Placed(cfg, doc, v, lo, hi)
    ensures EntriesPlaced(cfg, doc, Put(m, k, v), lo, hi)
  {
    hide Placed;
    if m.Entry? {
      PutPlaced(cfg, doc, m.rest, k, v, lo, hi);
    }
  }

  /** A child is entered into the container it belongs to. */
  lemma ChildPlaced(cfg: Settings, doc: ByteString, acc: Value, k: CZString, child: Value, hi: int, from: int,
                    higher: int)
    requires acc.payload.Object? || acc.payload.Array?
    requires EntriesPlaced(cfg, doc, acc.payload.values, acc.start + 1, hi) && Placed(cfg, doc, child, from, higher)
    requires acc.start + 1 <= from && hi <= higher
    ensures var w := WithEntry(acc, k, child);
            w.start == acc.start && EntriesPlaced(cfg, doc, w.payload.values, acc.start + 1, higher)
  {
    MoreRoom(cfg, doc, acc.payload.values, acc.start + 1, hi, higher);
    PutPlaced(cfg, doc, acc.payload.values, k, child, acc.start + 1, higher);
  }

  lemma {:induction false} AllLocated(cfg: Settings, doc: ByteString, m: ObjectValues, lo: int, hi: int)
    requires EntriesPlaced(cfg, doc, m, lo, hi)
    ensures NoneDroppedIn(m) ==> EntriesLocated(cfg, doc, m, lo, hi)
    ensures !cfg.allowDroppedNullPlaceholders ==> NoneDroppedIn(m)
  {
    hide Located;
    if m.Entry? {
      AllLocated(cfg, doc, m.rest, lo, hi);
    }
  }

  lemma RereadsItself(cfg: Settings, doc: ByteString, pos: nat, errors: seq<Error>, depth: nat, v: Value)
    requires pos <= |doc| && depth >= 1
    requires var o, t := ReadValue(cfg, doc, pos, errors, depth, v), SkipCommentTokens(cfg, doc, pos);
             Success(o) && o.value.limit == o.pos && o.value.start == t.start < o.pos && t.end <= o.pos
    ensures Rereads(cfg, doc, ReadValue(cfg, doc, pos, errors, depth, v).value)
  {
    var o := ReadValue(cfg, doc, pos, errors, depth, v);
    var lo := SkipCommentTokens(cfg, doc, pos).start;
    var part := doc[lo..o.pos];
    ReadAgain(cfg, doc, pos, errors, depth, v);
    TokenAgain(cfg, doc, pos);
    forall root ensures Parse(Relaxed(cfg), part, root) == Parsed(true, Shift(o.value, lo), []) {
      hide ReadValue, SkipCommentTokens;
      ValueLocal(cfg, Relaxed(cfg), doc, part, lo, lo, errors, depth, v, [], 1, root);
      assert SkipCommentTokens(Relaxed(cfg), part, |part|).kind == EndOfStream by { EndOfPart(Relaxed(cfg), part); }
    }
  }

  lemma ReadAgain(cfg: Settings, doc: ByteString, pos: nat, errors: seq<Error>, depth: nat, v: Value)
    requires pos <= |doc|
    ensures ReadValue(cfg, doc, SkipCommentTokens(cfg, doc, pos).start, errors, depth, v)
         == ReadValue(cfg, doc, pos, errors, depth, v)
  {
    hide SkipCommentTokens, ReadMembers, ReadElements, ReadScalar;
    TokenAgain(cfg, doc, pos);
  }

  lemma EndOfPart(cfg: Settings, doc: ByteString)
    ensures SkipCommentTokens(cfg, doc, |doc|).kind == EndOfStream
  {
  }

  lemma {:induction false} ValueLocated(cfg: Settings, doc: ByteString, pos: nat, errors: seq<Error>, depth: nat,
                                        v: Value)
    requires pos <= |doc| && depth >= 1 && Success(ReadValue(cfg, doc, pos, errors, depth, v))
    ensures var o := ReadValue(cfg, doc, pos, errors, depth, v);
            o.errors == errors && Placed(cfg, doc, o.value, pos, o.pos)
    decreases |doc| - pos, 1
  {
    hide ReadValue, Located, EntriesPlaced, Rereads, SkipCommentTokens;
    var o := ReadValue(cfg, doc, pos, errors, depth, v);
    ValueShape(cfg, doc, pos, errors, depth, v);
    if SkipCommentTokens(cfg, doc, pos).end <= o.pos {
      ValueInPlace(cfg, doc, pos, errors, depth, v);
      RereadsItself(cfg, doc, pos, errors, depth, v);
      LocatedParts(cfg, doc, o.value);
    }
  }

  /** The value starts at `start`, ends where reading it ends, and what it holds is inside; it is not a missing one. */
  ghost predicate InPlace(cfg: Settings, doc: ByteString, o: Outcome, errors: seq<Error>, start: nat) {
    && o.Done? && o.errors == errors && o.value.limit == o.pos && o.value.start == start < o.pos && !IsDropped(o.value)
    && (o.value.payload.Array? || o.value.payload.Object? ==>
          EntriesPlaced(cfg, doc, o.value.payload.values, o.value.start + 1, o.value.limit - 1))
  }

  lemma ContainerInPlace(cfg: Settings, doc: ByteString, o: Outcome, errors: seq<Error>, acc: Value)
    requires acc.payload.Array? || acc.payload.Object?
    requires LoopLocated(cfg, doc, o, errors, acc) && 0 <= acc.start < o.pos
    ensures InPlace(cfg, doc, WithLimit(o), errors, acc.start)
  {
    hide EntriesPlaced;
  }

  /** The value starts at its first token and ends where reading it ends; what it holds is inside. */
  lemma ValueInPlace(cfg: Settings, doc: ByteString, pos: nat, errors: seq<Error>, depth: nat, v: Value)
    requires pos <= |doc| && depth >= 1 && Success(ReadValue(cfg, doc, pos, errors, depth, v))
    requires SkipCommentTokens(cfg, doc, pos).end <= ReadValue(cfg, doc, pos, errors, depth, v).pos
    ensures var o := ReadValue(cfg, doc, pos, errors, depth, v);
            InPlace(cfg, doc, o, errors, SkipCommentTokens(cfg, doc, pos).start)
    decreases |doc| - pos, 0
  {
    var t := SkipCommentTokens(cfg, doc, pos);
    hide ReadValue, Located, EntriesPlaced, SkipCommentTokens, ReadMembers, ReadElements, ReadScalar;
    hide LoopLocated, WithLimit, InPlace;
    ValueCases(cfg, doc, pos, errors, depth, v);
    NoEntries(cfg, doc, t.start + 1, t.end);
    if t.kind == ObjectBegin {
      var acc := Value(Object(Empty), t.start, v.limit);
      MembersLocated(cfg, doc, t.end, errors, depth, acc, []);
      ContainerInPlace(cfg, doc, ReadMembers(cfg, doc, t.end, errors, depth, acc, []), errors, acc);
    } else if t.kind == ArrayBegin {
      var acc := Value(Array(Empty), t.start, v.limit);
      ElementsLocated(cfg, doc, t.end, errors, depth, acc, 0);
      ContainerInPlace(cfg, doc, ReadElements(cfg, doc, t.end, errors, depth, acc, 0), errors, acc);
    } else {
      NullIsFourLong(cfg, doc, pos);
      ScalarPlace(cfg, doc, t, errors, v);
    }
  }

  lemma NoEntries(cfg: Settings, doc: ByteString, lo: int, hi: int)
    ensures EntriesPlaced(cfg, doc, Empty, lo, hi)
  {
  }

  lemma {:induction false} NullIsFourLong(cfg: Settings, doc: ByteString, pos: nat)
    requires pos <= |doc|
    ensures var t := ReadToken(cfg, doc, pos); t.kind == NullToken ==> t.end == t.start + 4
    ensures var t := NextToken(cfg, doc, pos); t.kind == NullToken ==> t.end == t.start + 4
    ensures var t := SkipCommentTokens(cfg, doc, pos); t.kind == NullToken ==> t.end == t.start + 4
    decreases |doc| - pos
  {
    hide ReadNumber, ReadString, ReadComment;
    var t := ReadToken(cfg, doc, pos);
    if t.kind == CommentToken {
      NullIsFourLong(cfg, doc, t.end);
    }
  }

  lemma ScalarPlace(cfg: Settings, doc: ByteString, t: Token, errors: seq<Error>, v: Value)
    requires t.start <= t.end <= |doc| && (t.kind != EndOfStream ==> t.start < t.end)
    requires (t.kind == StringToken ==> t.start + 2 <= t.end) && (t.kind == NullToken ==> t.end == t.start + 4)
    requires Success(ReadScalar(cfg, doc, t, errors, v)) && t.end <= ReadScalar(cfg, doc, t, errors, v).pos
    ensures InPlace(cfg, doc, ReadScalar(cfg, doc, t, errors, v), errors, t.start)
  {
    hide DecodeFrom, Text;
  }

  lemma LocatedParts(cfg: Settings, doc: ByteString, v: Value)
    requires Rereads(cfg, doc, v) && !IsDropped(v)
    requires v.payload.Array? || v.payload.Object? ==>
               EntriesPlaced(cfg, doc, v.payload.values, v.start + 1, v.limit - 1)
    ensures NoneDropped(v) ==> Located(cfg, doc, v)
    ensures cfg.allowDroppedNullPlaceholders || NoneDropped(v)
  {
    hide Rereads, EntriesLocated, EntriesPlaced;
    if v.payload.Array? || v.payload.Object? {
      AllLocated(cfg, doc, v.payload.values, v.start + 1, v.limit - 1);
    }
  }

  /** The loop of a container added no errors and only values that are in their places. */
  ghost predicate LoopLocated(cfg: Settings, doc: ByteString, o: Outcome, errors: seq<Error>, acc: Value)
    requires acc.payload.Array? || acc.payload.Object?
  {
    && o.Done? && o.errors == errors && o.value.start == acc.start
    && (if acc.payload.Array? then o.value.payload.Array? else o.value.payload.Object?)
    && EntriesPlaced(cfg, doc, o.value.payload.values, acc.start + 1, o.pos - 1)
  }

  lemma {:induction false} MembersLocated(cfg: Settings, doc: ByteString, pos: nat, errors: seq<Error>, depth: nat,
                                          acc: Value, name: ByteString)
    requires pos <= |doc| && acc.payload.Object? && acc.start < pos
    requires EntriesPlaced(cfg, doc, acc.payload.values, acc.start + 1, pos)
    requires Success(ReadMembers(cfg, doc, pos, errors, depth, acc, name))
    ensures LoopLocated(cfg, doc, ReadMembers(cfg, doc, pos, errors, depth, acc, name), errors, acc)
    decreases |doc| - pos, 2
  {
    hide NextToken, ReadName, ReadMember, EntriesPlaced;
    var t := NextToken(cfg, doc, pos);
    if t.kind == ObjectEnd && (name == [] || cfg.allowTrailingCommas) {
      MoreRoom(cfg, doc, acc.payload.values, acc.start + 1, pos, t.end - 1);
    } else {
      MoreRoom(cfg, doc, acc.payload.values, acc.start + 1, pos, t.end);
      assert t.kind != EndOfStream by { NamedIsToken(cfg, doc, t); }
      MemberLocated(cfg, doc, t, errors, depth, acc, ReadName(cfg, doc, t).name);
    }
  }

  lemma {:induction false} MemberLocated(cfg: Settings, doc: ByteString, t: Token, errors: seq<Error>, depth: nat,
                                         acc: Value, name: ByteString)
    requires t.end <= |doc| && acc.payload.Object? && acc.start < t.end
    requires EntriesPlaced(cfg, doc, acc.payload.values, acc.start + 1, t.end)
    requires Success(ReadMember(cfg, doc, t, errors, depth, acc, name))
    ensures LoopLocated(cfg, doc, ReadMember(cfg, doc, t, errors, depth, acc, name), errors, acc)
    decreases |doc| - t.end, 3
  {
    hide ReadToken, ReadValue, AfterMember, EntriesPlaced, Placed, WithEntry, Fail, Recover;
    var colon := ReadToken(cfg, doc, t.end);
    var prior := Get(acc.payload.values, Name(name));
    var o := ReadValue(cfg, doc, colon.end, errors, depth + 1, prior);
    ValueLocated(cfg, doc, colon.end, errors, depth + 1, prior);
    ChildPlaced(cfg, doc, acc, Name(name), o.value, t.end, colon.end, o.pos);
    AfterMemberLocated(cfg, doc, o.pos, errors, depth, WithEntry(acc, Name(name), o.value), name);
  }

  lemma {:induction false} AfterMemberLocated(cfg: Settings, doc: ByteString, pos: nat, errors: seq<Error>, depth: nat,
                                              acc: Value, name: ByteString)
    requires pos <= |doc| && acc.payload.Object? && acc.start < pos
    requires EntriesPlaced(cfg, doc, acc.payload.values, acc.start + 1, pos)
    requires Success(AfterMember(cfg, doc, pos, errors, depth, acc, name))
    ensures LoopLocated(cfg, doc, AfterMember(cfg, doc, pos, errors, depth, acc, name), errors, acc)
    decreases |doc| - pos, 3
  {
    hide ReadToken, NextToken, ReadMembers, EntriesPlaced, Fail;
    var comma := ReadToken(cfg, doc, pos);
    var last := if comma.kind == CommentToken then NextToken(cfg, doc, comma.end) else comma;
    if last.kind == ObjectEnd {
      MoreRoom(cfg, doc, acc.payload.values, acc.start + 1, pos, last.end - 1);
    } else {
      MoreRoom(cfg, doc, acc.payload.values, acc.start + 1, pos, last.end);
      MembersLocated(cfg, doc, last.end, errors, depth, acc, name);
    }
  }

  lemma {:induction false} ElementsLocated(cfg: Settings, doc: ByteString, pos: nat, errors: seq<Error>, depth: nat,
                                           acc: Value, index: nat)
    requires pos <= |doc| && acc.payload.Array? && acc.start < pos
    requires EntriesPlaced(cfg, doc, acc.payload.values, acc.start + 1, pos)
    requires Success(ReadElements(cfg, doc, pos, errors, depth, acc, index))
    ensures LoopLocated(cfg, doc, ReadElements(cfg, doc, pos, errors, depth, acc, index), errors, acc)
    decreases |doc| - pos, 2
  {
    hide SkipSpaces, ReadValue, AfterElement, EntriesPlaced, Placed, WithEntry, Recover;
    var p := SkipSpaces(doc, pos);
    if p < |doc| && doc[p] == 0x5d
      && (index == 0 || (cfg.allowTrailingCommas && !cfg.allowDroppedNullPlaceholders)) {
      MoreRoom(cfg, doc, acc.payload.values, acc.start + 1, pos, p);
    } else {
      var prior := Get(acc.payload.values, Index(index));
      var o := ReadValue(cfg, doc, p, errors, depth + 1, prior);
      ValueLocated(cfg, doc, p, errors, depth + 1, prior);
      ChildPlaced(cfg, doc, acc, Index(index), o.value, pos, p, o.pos);
      AfterElementLocated(cfg, doc, o.pos, errors, depth, WithEntry(acc, Index(index), o.value), index);
    }
  }

  lemma {:induction false} AfterElementLocated(cfg: Settings, doc: ByteString, pos: nat, errors: seq<Error>, depth: nat,
                                               acc: Value, index: nat)
    requires pos <= |doc| && acc.payload.Array? && acc.start < pos
    requires EntriesPlaced(cfg, doc, acc.payload.values, acc.start + 1, pos)
    requires Success(AfterElement(cfg, doc, pos, errors, depth, acc, index))
    ensures LoopLocated(cfg, doc, AfterElement(cfg, doc, pos, errors, depth, acc, index), errors, acc)
    decreases |doc| - pos, 0
  {
    hide NextToken, ReadElements, EntriesPlaced, Fail;
    var t := NextToken(cfg, doc, pos);
    if t.kind == ArrayEnd {
      MoreRoom(cfg, doc, acc.payload.values, acc.start + 1, pos, t.end - 1);
    } else {
      MoreRoom(cfg, doc, acc.payload.values, acc.start + 1, pos, t.end);
      ElementsLocated(cfg, doc, t.end, errors, depth, acc, index + 1);
    }
  }

  /**
   The tree of a successful parse, under any settings: there are no errors, and the offsets nest strictly and every
   value rereads from its own bytes exactly if no value of the tree was missing; none is unless that is allowed.
   */
  lemma ParseIsLocated(cfg: Settings, doc: ByteString, root: Value)
    requires var r := Parse(cfg, doc, root); r.Parsed? && r.ok
    ensures var r := Parse(cfg, doc, root);
            && r.errors == [] && (Located(cfg, doc, r.root) <==> NoneDropped(r.root))
            && (!cfg.allowDroppedNullPlaceholders ==> Located(cfg, doc, r.root))
  {
    hide ReadValue, Located, NoneDropped;
    ValueLocated(cfg, doc, 0, [], 1, root);
    var v := Parse(cfg, doc, root).root;
    if Located(cfg, doc, v) {
      LocatedHasNone(cfg, doc, v);
    }
  }
}
