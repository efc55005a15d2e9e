/**
 The texts of a value. `Tokens` lists the tokens a writer prints for a value, and a document spells them when it
 holds them in order with nothing but white space around them. Both writers are proved to produce a spelling, and
 the reader is proved to read every spelling.
 */
module JsonText {
  import opened Bytes
  import opened JsonValue
  import opened JsonNumbers
  import opened JsonUnicode
  import opened JsonStrings
  import opened JsonLexer
  import opened JsonParser
  import opened JsonArrays

  const LBRACE: ByteString := [0x7b]
  const RBRACE: ByteString := [0x7d]
  const LBRACKET: ByteString := [0x5b]
  const RBRACKET: ByteString := [0x5d]
  const COMMA: ByteString := [0x2c]
  const COLON: ByteString := [0x3a]
  const NULL_TEXT: ByteString := [0x6e, 0x75, 0x6c, 0x6c]
  const TRUE_TEXT: ByteString := [0x74, 0x72, 0x75, 0x65]
  const FALSE_TEXT: ByteString := [0x66, 0x61, 0x6c, 0x73, 0x65]

  /** The tokens of a value; a real has none, because its text is the library's. */
  function Tokens(v: Value, emitUTF8: bool): seq<ByteString>
    decreases Weight(v), 0
  {
    match v.payload
    case Null => [NULL_TEXT]
    case Int(i) => [IntegerText(i)]
    case UInt(u) => [IntegerText(u)]
    case Real(_) => []
    case String(s) => [Quoted(s, emitUTF8)]
    case Bool(b) => [if b then TRUE_TEXT else FALSE_TEXT]
    case Array(m) =>
      [LBRACKET] + (if ArraySize(m) == 0 then [] else ElementTokens(m, 0, ArraySize(m), emitUTF8)) + [RBRACKET]
    case Object(m) => [LBRACE] + MemberTokens(m, emitUTF8) + [RBRACE]
  }

  /** The elements from index `i` on, with commas between them; a hole is printed as null. */
  function ElementTokens(m: ObjectValues, i: nat, size: nat, emitUTF8: bool): seq<ByteString>
    requires i < size
    decreases MapWeight(m) + 2, size - i
  {
    Tokens(Get(m, Index(i)), emitUTF8)
      + if i + 1 == size then [] else [COMMA] + ElementTokens(m, i + 1, size, emitUTF8)
  }

  function MemberTokens(m: ObjectValues, emitUTF8: bool): seq<ByteString>
    decreases MapWeight(m) + 2, 0
  {
    match m
    case Empty => []
    case Entry(key, value, rest) =>
      [Quoted(KeyText(key), emitUTF8), COLON] + Tokens(value, emitUTF8)
        + if rest.Empty? then [] else [COMMA] + MemberTokens(rest, emitUTF8)
  }

  function KeyText(k: CZString): ByteString { if k.Name? then k.text else [] }

  /** From `pos` on, the document is exactly these tokens, with white space before, between and after them. */
  predicate Spells(doc: ByteString, pos: nat, toks: seq<ByteString>)
    requires pos <= |doc|
    decreases |toks|
  {
    var p := SkipSpaces(doc, pos);
    if toks == [] then p == |doc|
    else
      var end := p + |toks[0]|;
      toks[0] != [] && end <= |doc| && doc[p..end] == toks[0] && Spells(doc, end, toks[1..])
  }

  predicate Blank(s: ByteString) { forall i | 0 <= i < |s| :: IsSpace(s[i]) }

  lemma {:induction false} BlankSkipped(s: ByteString, pos: nat)
    requires pos <= |s| && Blank(s[pos..])
    ensures SkipSpaces(s, pos) == |s|
    decreases |s| - pos
  {
    if pos < |s| {
      assert s[pos] == s[pos..][0] && s[pos + 1..] == s[pos..][1..];
      BlankSkipped(s, pos + 1);
    }
  }

  lemma BlankSpells(s: ByteString)
    requires Blank(s)
    ensures Spells(s, 0, [])
  {
    assert s[0..] == s;
    BlankSkipped(s, 0);
  }

  lemma TokenSpells(tok: ByteString)
    requires tok != [] && !IsSpace(tok[0])
    ensures Spells(tok, 0, [tok])
  {
    assert tok[0..|tok|] == tok && [tok][1..] == [];
  }

  lemma {:induction false} SpacesInPrefix(doc: ByteString, more: ByteString, pos: nat)
    requires pos <= |doc|
    ensures var p := SkipSpaces(doc, pos);
            SkipSpaces(doc + more, pos) == if p < |doc| then p else |doc| + SkipSpaces(more, 0)
    decreases |doc| - pos
  {
    if pos < |doc| {
      SpacesInPrefix(doc, more, pos + 1);
    } else {
      SpacesInSuffix(doc, more, 0);
    }
  }

  lemma {:induction false} SpacesInSuffix(doc: ByteString, more: ByteString, pos: nat)
    requires pos <= |more|
    ensures SkipSpaces(doc + more, |doc| + pos) == |doc| + SkipSpaces(more, pos)
    decreases |more| - pos
  {
    if pos < |more| {
      assert (doc + more)[|doc| + pos] == more[pos];
      SpacesInSuffix(doc, more, pos + 1);
    }
  }

  lemma SliceOfSuffix(doc: ByteString, more: ByteString, p: nat, end: nat)
    requires p <= end <= |more|
    ensures (doc + more)[|doc| + p..|doc| + end] == more[p..end]
  {
    var s, t := (doc + more)[|doc| + p..|doc| + end], more[p..end];
    forall k | 0 <= k < |t| ensures s[k] == t[k] {
      assert s[k] == (doc + more)[|doc| + p + k];
    }
  }

  lemma SliceOfPrefix(doc: ByteString, more: ByteString, p: nat, end: nat)
    requires p <= end <= |doc|
    ensures (doc + more)[p..end] == doc[p..end]
  {
  }

  lemma {:induction false} SpellsInSuffix(doc: ByteString, more: ByteString, pos: nat, toks: seq<ByteString>)
    requires pos <= |more| && Spells(more, pos, toks)
    ensures Spells(doc + more, |doc| + pos, toks)
    decreases |toks|
  {
    SpacesInSuffix(doc, more, pos);
    if toks != [] {
      var p := SkipSpaces(more, pos);
      var end := p + |toks[0]|;
      SliceOfSuffix(doc, more, p, end);
      SpellsInSuffix(doc, more, end, toks[1..]);
    }
  }

  /** Text after text spells the tokens of both. */
  lemma {:induction false} SpellsConcat(doc: ByteString, pos: nat, toks: seq<ByteString>, more: ByteString,
                                        others: seq<ByteString>)
    requires pos <= |doc| && Spells(doc, pos, toks) && Spells(more, 0, others)
    ensures Spells(doc + more, pos, toks + others)
    decreases |toks|
  {
    hide Spells, SkipSpaces;
    SpacesInPrefix(doc, more, pos);
    SpelledFirst(doc, pos, toks);
    if toks == [] {
      SpellsInSuffix(doc, more, 0, others);
      SpacesInSuffix(doc, more, 0);
      SpellsFromSpaces(doc + more, pos, |doc|, others);
      assert [] + others == others;
    } else {
      var p := SkipSpaces(doc, pos);
      var end := p + |toks[0]|;
      SliceOfPrefix(doc, more, p, end);
      SpellsConcat(doc, end, toks[1..], more, others);
      SpellsMore(doc + more, pos, toks[0], toks[1..] + others);
      assert toks + others == [toks[0]] + (toks[1..] + others);
    }
  }

  lemma SpelledFirst(doc: ByteString, pos: nat, toks: seq<ByteString>)
    requires pos <= |doc| && Spells(doc, pos, toks)
    ensures var p := SkipSpaces(doc, pos);
            if toks == [] then p == |doc|
            else
              var end := p + |toks[0]|;
              toks[0] != [] && end <= |doc| && doc[p..end] == toks[0] && Spells(doc, end, toks[1..])
  {
    hide SkipSpaces;
  }

  lemma SpellsFromSpaces(doc: ByteString, pos: nat, other: nat, toks: seq<ByteString>)
    requires pos <= |doc| && other <= |doc| && SkipSpaces(doc, pos) == SkipSpaces(doc, other)
    ensures Spells(doc, pos, toks) == Spells(doc, other, toks)
  {
  }

  lemma SpellsMore(doc: ByteString, pos: nat, tok: ByteString, toks: seq<ByteString>)
    requires pos <= |doc| && tok != []
    requires var p := SkipSpaces(doc, pos);
             p + |tok| <= |doc| && doc[p..p + |tok|] == tok && Spells(doc, p + |tok|, toks)
    ensures Spells(doc, pos, [tok] + toks)
  {
    assert ([tok] + toks)[1..] == toks;
  }

  // ---- what comes back ----

  /** The value with its offsets cleared. */
  function Plain(v: Value): Value {
    match v.payload
    case Array(m) => Value(Array(PlainMap(m)), 0, 0)
    case Object(m) => Value(Object(PlainMap(m)), 0, 0)
    case p => Value(p, 0, 0)
  }

  function PlainMap(m: ObjectValues): ObjectValues {
    match m
    case Empty => Empty
    case Entry(key, value, rest) => Entry(key, Plain(value), PlainMap(rest))
  }

  /** What the reader makes of a written value: small unsigned integers become signed, holes become null. */
  function Canon(v: Value): Value
    decreases Weight(v), 0
  {
    match v.payload
    case UInt(u) => Value(if u <= MAX_LARGEST_INT then Int(u) else UInt(u), 0, 0)
    case Array(m) => Value(Array(CanonElements(m, 0, ArraySize(m))), 0, 0)
    case Object(m) => Value(Object(CanonMembers(m)), 0, 0)
    case p => Value(p, 0, 0)
  }

  function CanonElements(m: ObjectValues, i: nat, size: nat): ObjectValues
    requires i <= size
    decreases MapWeight(m) + 2, size - i
  {
    if i == size then Empty else Entry(Index(i), Canon(Get(m, Index(i))), CanonElements(m, i + 1, size))
  }

  function CanonMembers(m: ObjectValues): ObjectValues
    decreases MapWeight(m) + 2, 0
  {
    match m
    case Empty => Empty
    case Entry(key, value, rest) => Entry(key, Canon(value), CanonMembers(rest))
  }

  // ---- the values in question ----

  /** Text the writer's escaping preserves. */
  predicate Preserved(s: ByteString, emitUTF8: bool) { emitUTF8 || WellFormed(s) }

  /** What every `Json::Value` is: its maps are sorted, and keyed by indices in arrays and by names in objects. */
  predicate Shaped(v: Value)
    decreases Weight(v)
  {
    match v.payload
    case Array(m) => Sorted(m) && ShapedEntries(m, true) && ArraySize(m) < TWO_TO_THE_32
    case Object(m) => Sorted(m) && ShapedEntries(m, false)
    case _ => true
  }

  predicate ShapedEntries(m: ObjectValues, indexed: bool)
    decreases MapWeight(m)
  {
    match m
    case Empty => true
    case Entry(key, value, rest) => key.Index? == indexed && Shaped(value) && ShapedEntries(rest, indexed)
  }

  /**
   A tree without reals whose maps are what `std::map` keeps, whose texts survive the escaping and whose sizes
   are ones the reader has types for.
   */
  predicate Writable(v: Value, emitUTF8: bool)
    decreases Weight(v)
  {
    match v.payload
    case Real(_) => false
    case String(s) => Preserved(s, emitUTF8) && |s| <= MAX_STRING_LENGTH
    case Array(m) => Sorted(m) && WritableElements(m, emitUTF8) && ArraySize(m) <= MAX_INT + 1
    case Object(m) => Sorted(m) && WritableMembers(m, emitUTF8)
    case _ => true
  }

  predicate WritableElements(m: ObjectValues, emitUTF8: bool)
    decreases MapWeight(m)
  {
    match m
    case Empty => true
    case Entry(key, value, rest) => key.Index? && Writable(value, emitUTF8) && WritableElements(rest, emitUTF8)
  }

  predicate WritableMembers(m: ObjectValues, emitUTF8: bool)
    decreases MapWeight(m)
  {
    match m
    case Empty => true
    case Entry(key, value, rest) =>
      && key.Name? && Preserved(key.text, emitUTF8) && |key.text| < MAX_KEY_LENGTH
      && Writable(value, emitUTF8) && WritableMembers(rest, emitUTF8)
  }

  /** How many values are open at once while the tree is read. */
  function Depth(v: Value): (d: nat)
    ensures d >= 1
  {
    match v.payload
    case Array(m) => 1 + MapDepth(m)
    case Object(m) => 1 + MapDepth(m)
    case _ => 1
  }

  function MapDepth(m: ObjectValues): nat {
    match m
    case Empty => 0
    case Entry(_, value, rest) => if Depth(value) > MapDepth(rest) then Depth(value) else MapDepth(rest)
  }

  lemma {:induction false} LookupProperties(m: ObjectValues, k: CZString, emitUTF8: bool)
    ensures Lookup(m, k).Some? ==> Depth(Lookup(m, k).value) <= MapDepth(m)
    ensures Lookup(m, k).Some? && WritableElements(m, emitUTF8) ==> Writable(Lookup(m, k).value, emitUTF8)
  {
    if m.Entry? && m.key != k {
      LookupProperties(m.rest, k, emitUTF8);
    }
  }

  /** Elements, holes included, are writable and no deeper than the array. */
  lemma ElementProperties(m: ObjectValues, i: nat, emitUTF8: bool)
    requires WritableElements(m, emitUTF8)
    ensures Writable(Get(m, Index(i)), emitUTF8)
    ensures m.Entry? ==> Depth(Get(m, Index(i))) <= MapDepth(m)
  {
    LookupProperties(m, Index(i), emitUTF8);
  }

  lemma {:induction false} EmptyArraySize(m: ObjectValues, emitUTF8: bool)
    requires WritableElements(m, emitUTF8)
    ensures ArraySize(m) == 0 <==> m.Empty?
  {
    if m.Entry? {
      EmptyArraySize(m.rest, emitUTF8);
    }
  }

  lemma {:induction false} WritableIsShaped(v: Value, emitUTF8: bool)
    requires Writable(v, emitUTF8)
    ensures Shaped(v)
    decreases Weight(v), 0
  {
    if v.payload.Array? || v.payload.Object? {
      WritableEntriesAreShaped(v.payload.values, v.payload.Array?, emitUTF8);
    }
  }

  lemma {:induction false} WritableEntriesAreShaped(m: ObjectValues, indexed: bool, emitUTF8: bool)
    requires if indexed then WritableElements(m, emitUTF8) else WritableMembers(m, emitUTF8)
    ensures ShapedEntries(m, indexed)
    decreases MapWeight(m), 0
  {
    if m.Entry? {
      WritableIsShaped(m.value, emitUTF8);
      WritableEntriesAreShaped(m.rest, indexed, emitUTF8);
    }
  }

  /** Every entry of a shaped map is found under its key, and shaped. */
  lemma {:induction false} ShapedLookup(m: ObjectValues, k: CZString, indexed: bool)
    requires ShapedEntries(m, indexed)
    ensures Shaped(Get(m, k))
  {
    if m.Entry? && m.key != k {
      ShapedLookup(m.rest, k, indexed);
    }
  }

  /** The entries from the one at position `i` on. */
  function From(m: ObjectValues, i: nat): ObjectValues {
    if i == 0 || m.Empty? then m else From(m.rest, i - 1)
  }

  lemma {:induction false} FromEnd(m: ObjectValues)
    ensures From(m, |Keys(m)|) == Empty
  {
    if m.Entry? {
      FromEnd(m.rest);
    }
  }

  lemma {:induction false} FromIsWithin(m: ObjectValues, i: nat)
    requires Sorted(m) && i < |Keys(m)|
    ensures From(m, i).Entry? && From(m, i).key == Keys(m)[i] && From(m, i + 1) == From(m, i).rest
    ensures Lookup(m, Keys(m)[i]) == Some(From(m, i).value)
    decreases i
  {
    if i > 0 {
      FromIsWithin(m.rest, i - 1);
      KeysAscend(m, 0, i);
      KeyLessTotal(m.key, Keys(m)[i]);
    }
  }

  /** Going through the member names and looking each up is going through the entries. */
  lemma MemberAt(m: ObjectValues, i: nat)
    requires Sorted(m) && ShapedEntries(m, false) && i < |Keys(m)|
    ensures var left, name := From(m, i), KeyText(Keys(m)[i]);
            && left.Entry? && left.key == Keys(m)[i] == Name(name) && From(m, i + 1) == left.rest
            && Get(m, Name(name)) == left.value && Shaped(left.value)
            && (left.rest.Empty? <==> i + 1 == |Keys(m)|)
  {
    FromIsWithin(m, i);
    if i + 1 < |Keys(m)| {
      FromIsWithin(m, i + 1);
    } else {
      FromEnd(m);
    }
    ShapedFrom(m, i);
  }

  lemma {:induction false} ShapedFrom(m: ObjectValues, i: nat)
    requires ShapedEntries(m, false)
    ensures ShapedEntries(From(m, i), false)
  {
    if i > 0 && m.Entry? {
      ShapedFrom(m.rest, i - 1);
    }
  }
}
