/** Which values come back from their text exactly as they were: the canonical ones, and no others. */
module JsonCanonical {
  import opened Bytes
  import opened JsonValue
  import opened JsonNumbers
  import opened JsonStrings
  import opened JsonLexer
  import opened JsonParser
  import opened JsonOrder
  import opened JsonText
  import opened JsonRoundTrip

  /** Unsigned integers only where a signed one would not do, and arrays without holes. */
  predicate Canonical(v: Value) {
    match v.payload
    case UInt(u) => u > MAX_LARGEST_INT
    case Array(m) => CanonicalElements(m, 0)
    case Object(m) => CanonicalMembers(m)
    case _ => true
  }

  predicate CanonicalElements(m: ObjectValues, i: nat) {
    match m
    case Empty => true
    case Entry(key, value, rest) => key == Index(i) && Canonical(value) && CanonicalElements(rest, i + 1)
  }

  predicate CanonicalMembers(m: ObjectValues) {
    match m
    case Empty => true
    case Entry(_, value, rest) => Canonical(value) && CanonicalMembers(rest)
  }

  /** The canonical form is the value itself exactly for canonical values. */
  lemma {:induction false} CanonicalIff(v: Value, emitUTF8: bool)
    requires Writable(v, emitUTF8)
    ensures Canon(v) == Plain(v) <==> Canonical(v)
    decreases Weight(v), 0
  {
    if v.payload.Array? {
      CanonicalElementsIff(v.payload.values, v.payload.values, 0, ArraySize(v.payload.values), emitUTF8);
    } else if v.payload.Object? {
      CanonicalMembersIff(v.payload.values, emitUTF8);
    }
  }

  lemma {:induction false} CanonicalElementsIff(m: ObjectValues, s: ObjectValues, i: nat, size: nat, emitUTF8: bool)
    requires WritableElements(s, emitUTF8) && Sorted(s) && Within(s, m) && i <= size
    requires if s.Empty? then i == size else i <= s.key.index && ArraySize(s) == size
    ensures CanonElements(m, i, size) == PlainMap(s) <==> CanonicalElements(s, i)
    decreases MapWeight(s), 0
  {
    if s.Entry? {
      assert WritableElements(s.rest, emitUTF8);
      FirstIsBelowSize(s, emitUTF8);
      RestIsWithin(s, m);
      if s.key == Index(i) {
        CanonicalIff(s.value, emitUTF8);
        CanonicalElementsIff(m, s.rest, i + 1, size, emitUTF8);
      }
    }
  }

  lemma {:induction false} CanonicalMembersIff(m: ObjectValues, emitUTF8: bool)
    requires WritableMembers(m, emitUTF8)
    ensures CanonMembers(m) == PlainMap(m) <==> CanonicalMembers(m)
    decreases MapWeight(m), 0
  {
    if m.Entry? {
      CanonicalIff(m.value, emitUTF8);
      CanonicalMembersIff(m.rest, emitUTF8);
    }
  }

  // ---- as `operator==` sees it ----

  lemma {:induction false} NormPlain(v: Value)
    ensures Norm(Plain(v)) == Norm(v)
    decreases v
  {
    if v.payload.Array? || v.payload.Object? {
      NormPlainMap(v.payload.values);
    }
  }

  lemma {:induction false} NormPlainMap(m: ObjectValues)
    ensures NormMap(PlainMap(m)) == NormMap(m)
    decreases m
  {
    if m.Entry? {
      NormPlain(m.value);
      NormPlainMap(m.rest);
    }
  }

  /** Without reals there is nothing else to normalise. */
  lemma {:induction false} NormIsPlain(v: Value, emitUTF8: bool)
    requires Writable(v, emitUTF8)
    ensures Norm(v) == Plain(v) && NaNFree(v)
    decreases Weight(v), 0
  {
    if v.payload.Array? || v.payload.Object? {
      NormIsPlainMap(v.payload.values, emitUTF8);
    }
  }

  lemma {:induction false} NormIsPlainMap(m: ObjectValues, emitUTF8: bool)
    requires WritableElements(m, emitUTF8) || WritableMembers(m, emitUTF8)
    ensures NormMap(m) == PlainMap(m) && MapNaNFree(m)
    decreases MapWeight(m), 0
  {
    if m.Entry? {
      NormIsPlain(m.value, emitUTF8);
      NormIsPlainMap(m.rest, emitUTF8);
    }
  }

  lemma {:induction false} CanonIsNormal(v: Value, emitUTF8: bool)
    requires Writable(v, emitUTF8)
    ensures Norm(Canon(v)) == Canon(v) && Canonical(Canon(v))
    decreases Weight(v), 0
  {
    if v.payload.Array? {
      CanonElementsIsNormal(v.payload.values, 0, ArraySize(v.payload.values), emitUTF8);
    } else if v.payload.Object? {
      CanonMembersIsNormal(v.payload.values, emitUTF8);
    }
  }

  lemma {:induction false} CanonElementsIsNormal(m: ObjectValues, i: nat, size: nat, emitUTF8: bool)
    requires WritableElements(m, emitUTF8) && i <= size
    ensures NormMap(CanonElements(m, i, size)) == CanonElements(m, i, size)
    ensures CanonicalElements(CanonElements(m, i, size), i)
    decreases MapWeight(m) + 2, size - i
  {
    if i < size {
      ElementProperties(m, i, emitUTF8);
      CanonIsNormal(Get(m, Index(i)), emitUTF8);
      CanonElementsIsNormal(m, i + 1, size, emitUTF8);
    }
  }

  lemma {:induction false} CanonMembersIsNormal(m: ObjectValues, emitUTF8: bool)
    requires WritableMembers(m, emitUTF8)
    ensures NormMap(CanonMembers(m)) == CanonMembers(m) && CanonicalMembers(CanonMembers(m))
    decreases MapWeight(m) + 2, 0
  {
    if m.Entry? {
      CanonIsNormal(m.value, emitUTF8);
      CanonMembersIsNormal(m.rest, emitUTF8);
    }
  }

  /** What is parsed is always canonical, and `operator==` finds it equal to what was written iff that was canonical. */
  lemma ComesBackEqualIff(cfg: Settings, doc: ByteString, v: Value, emitUTF8: bool, root: Value)
    requires Writable(v, emitUTF8) && Spells(doc, 0, Tokens(v, emitUTF8)) && Depth(v) <= cfg.stackLimit
    ensures var r := Parse(cfg, doc, root);
            r.Parsed? && Canonical(r.root) && (Equal(v, r.root) <==> Canonical(v))
  {
    hide Canonical, Norm, Plain, Canon, Equal, Parse, Tokens, Writable, NaNFree, Spells, Depth;
    RoundTrip(cfg, doc, v, emitUTF8, root);
    var r := Parse(cfg, doc, root).root;
    NormPlain(r);
    NormIsPlain(v, emitUTF8);
    CanonIsNormal(v, emitUTF8);
    CanonicalIff(v, emitUTF8);
    EqualIsNormEqual(v, r);
    CanonicalPlain(r);
  }

  lemma {:induction false} CanonicalPlain(v: Value)
    ensures Canonical(Plain(v)) == Canonical(v)
    decreases v
  {
    if v.payload.Array? || v.payload.Object? {
      CanonicalPlainMap(v.payload.values, 0);
    }
  }

  lemma {:induction false} CanonicalPlainMap(m: ObjectValues, i: nat)
    ensures CanonicalElements(PlainMap(m), i) == CanonicalElements(m, i)
    ensures CanonicalMembers(PlainMap(m)) == CanonicalMembers(m)
    decreases m
  {
    if m.Entry? {
      CanonicalPlain(m.value);
      CanonicalPlainMap(m.rest, i + 1);
    }
  }
}
