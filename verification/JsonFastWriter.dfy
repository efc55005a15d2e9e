/** `FastWriter`: everything on one line. */
module JsonFastWriter {
  import opened Bytes
  import opened JsonValue
  import opened JsonNumbers
  import opened JsonStrings
  import opened JsonLexer
  import opened JsonParser
  import opened JsonText
  import opened JsonArrays
  import opened JsonRoundTrip

  /** The switches of the writer; `realText` is what the library makes of a double. */
  datatype FastStyle = FastStyle(yamlCompatibility: bool, dropNullPlaceholders: bool, omitEndingLineFeed: bool,
                                 realText: Double -> ByteString)

  /** The text the writer appends for a value. */
  function FastText(style: FastStyle, v: Value): ByteString
    decreases Weight(v), 0
  {
    match v.payload
    case Null => if style.dropNullPlaceholders then [] else NULL_TEXT
    case Int(i) => IntegerText(i)
    case UInt(u) => IntegerText(u)
    case Real(d) => style.realText(d)
    case String(s) => Quoted(s, false)
    case Bool(b) => if b then TRUE_TEXT else FALSE_TEXT
    case Array(m) => LBRACKET + FastElements(style, m, 0, ArraySize(m)) + RBRACKET
    case Object(m) => LBRACE + FastMembers(style, m, true) + RBRACE
  }

  function FastElements(style: FastStyle, m: ObjectValues, i: nat, size: nat): ByteString
    requires i <= size
    decreases MapWeight(m) + 2, size - i
  {
    if i == size then []
    else (if i > 0 then COMMA else []) + FastText(style, Get(m, Index(i))) + FastElements(style, m, i + 1, size)
  }

  function FastColon(style: FastStyle): ByteString { if style.yamlCompatibility then COLON + [0x20] else COLON }

  function FastMembers(style: FastStyle, m: ObjectValues, first: bool): ByteString
    decreases MapWeight(m) + 2, 0
  {
    match m
    case Empty => []
    case Entry(key, value, rest) =>
      MemberText(style, KeyText(key), value, first) + FastMembers(style, rest, false)
  }

  function MemberText(style: FastStyle, name: ByteString, value: Value, first: bool): ByteString
    decreases Weight(value), 1
  {
    (if first then [] else COMMA) + Quoted(name, false) + FastColon(style) + FastText(style, value)
  }

  class FastWriter {
    const style: FastStyle
    var document: ByteString

    constructor (style: FastStyle)
      ensures this.style == style && document == []
    {
      this.style := style;
      document := [];
    }

    method Write(root: Value) returns (text: ByteString)
      requires Shaped(root)
      modifies this
      ensures text == document == FastText(style, root) + if style.omitEndingLineFeed then [] else [0x0a]
    {
      document := [];
      WriteValue(root);
      if !style.omitEndingLineFeed {
        document := document + [0x0a];
      }
      return document;
    }

    method WriteValue(value: Value)
      requires Shaped(value)
      modifies this
      ensures document == old(document) + FastText(style, value)
      decreases Weight(value), 1
    {
      match value.payload {
        case Null =>
          if !style.dropNullPlaceholders {
            document := document + NULL_TEXT;
          }
        case Int(i) =>
          var text := IntToString(i);
          document := document + text;
        case UInt(u) =>
          var text := UIntToText(u);
          document := document + text;
        case Real(d) => document := document + style.realText(d);
        case String(s) =>
          var text := ValueToQuotedStringN(s, false);
          document := document + text;
        case Bool(b) => document := document + if b then TRUE_TEXT else FALSE_TEXT;
        case Array(m) => WriteArray(value, m);
        case Object(m) => WriteObject(value, m);
      }
    }

    method WriteArray(value: Value, m: ObjectValues)
      requires Shaped(value) && value.payload == Array(m)
      modifies this
      ensures document == old(document) + FastText(style, value)
      decreases Weight(value), 0
    {
      hide FastText, FastElements;
      document := document + LBRACKET;
      var size, index := ArraySize(m), 0;
      ghost var written: ByteString := [];
      while index < size
        invariant index <= size
        invariant document == old(document) + LBRACKET + written
        invariant written + FastElements(style, m, index, size) == FastElements(style, m, 0, size)
      {
        var text := if index > 0 then COMMA else [];
        document := document + text;
        ShapedLookup(m, Index(index), true);
        WriteValue(Get(m, Index(index)));
        FastElementWritten(style, m, index, size, written);
        written := written + (text + FastText(style, Get(m, Index(index))));
        index := index + 1;
      }
      AllElementsWritten(style, value, m, written);
      document := document + RBRACKET;
    }

    method WriteObject(value: Value, m: ObjectValues)
      requires Shaped(value) && value.payload == Object(m)
      modifies this
      ensures document == old(document) + FastText(style, value)
      decreases Weight(value), 0
    {
      hide FastText, FastMembers, MemberText, Keys, From;
      var members := Keys(m);
      document := document + LBRACE;
      var it := 0;
      ghost var written: ByteString := [];
      while it < |members|
        invariant it <= |members|
        invariant document == old(document) + LBRACE + written
        invariant written + FastMembers(style, From(m, it), it == 0) == FastMembers(style, From(m, 0), true)
      {
        MemberAt(m, it);
        var name := KeyText(members[it]);
        ghost var before, text := document, MemberText(style, name, Get(m, Name(name)), it == 0);
        WriteMember(m, name, it == 0);
        FastMemberWritten(style, From(m, it), it == 0, written);
        Appended(old(document), written, text, before);
        written := written + text;
        it := it + 1;
      }
      AllMembersWritten(style, value, m, it == 0, written);
      document := document + RBRACE;
    }

    /** One turn of the loop over the members. */
    method WriteMember(m: ObjectValues, name: ByteString, first: bool)
      requires Shaped(Get(m, Name(name)))
      modifies this
      ensures document == old(document) + MemberText(style, name, Get(m, Name(name)), first)
      decreases MapWeight(m) + 2, 2
    {
      hide FastText, Quoted, FastColon;
      var comma := if first then [] else COMMA;
      document := document + comma;
      var quoted := ValueToQuotedStringN(name, false);
      document := document + quoted;
      document := document + FastColon(style);
      WriteValue(Get(m, Name(name)));
      AppendInTurn(old(document), comma, quoted, FastColon(style), FastText(style, Get(m, Name(name))));
    }
  }

  lemma Appended(start: ByteString, written: ByteString, text: ByteString, document: ByteString)
    requires document == start + LBRACE + written
    ensures document + text == start + LBRACE + (written + text)
  {
  }

  lemma AppendInTurn(s: ByteString, t: ByteString, u: ByteString, v: ByteString, w: ByteString)
    ensures s + t + u + v + w == s + (t + u + v + w)
  {
  }

  lemma FastElementWritten(style: FastStyle, m: ObjectValues, i: nat, size: nat, written: ByteString)
    requires i < size
    ensures written + FastElements(style, m, i, size)
         == written + ((if i > 0 then COMMA else []) + FastText(style, Get(m, Index(i))))
           + FastElements(style, m, i + 1, size)
  {
    hide FastText;
  }

  lemma AllElementsWritten(style: FastStyle, v: Value, m: ObjectValues, written: ByteString)
    requires v.payload == Array(m)
    requires written + FastElements(style, m, ArraySize(m), ArraySize(m)) == FastElements(style, m, 0, ArraySize(m))
    ensures FastText(style, v) == LBRACKET + written + RBRACKET
  {
  }

  lemma FastMemberWritten(style: FastStyle, left: ObjectValues, first: bool, written: ByteString)
    requires left.Entry?
    ensures written + FastMembers(style, left, first)
         == written + MemberText(style, KeyText(left.key), left.value, first) + FastMembers(style, left.rest, false)
  {
    hide MemberText;
  }

  lemma AllMembersWritten(style: FastStyle, v: Value, m: ObjectValues, first: bool, written: ByteString)
    requires v.payload == Object(m)
    requires written + FastMembers(style, From(m, |Keys(m)|), first) == FastMembers(style, From(m, 0), true)
    ensures FastText(style, v) == LBRACE + written + RBRACE
  {
    FromEnd(m);
  }

  // ---- the text spells the tokens ----

  lemma {:induction false} FastTextSpells(style: FastStyle, v: Value)
    requires Writable(v, false) && !style.dropNullPlaceholders
    ensures Spells(FastText(style, v), 0, Tokens(v, false))
    decreases Weight(v), 0
  {
    hide Spells, FastElements, FastMembers, ElementTokens, MemberTokens, Quoted;
    match v.payload
    case Array(m) =>
      EmptyArraySize(m, false);
      var size := ArraySize(m);
      if size > 0 {
        FastElementsSpell(style, m, 0, size);
        assert FirstComma(0) + ElementTokens(m, 0, size, false) == ElementTokens(m, 0, size, false);
        Bracketed(LBRACKET, FastElements(style, m, 0, size), ElementTokens(m, 0, size, false), RBRACKET);
      } else {
        assert FastElements(style, m, 0, 0) == [] by { NoFastElements(style, m); }
        BlankSpells([]);
        Bracketed(LBRACKET, [], [], RBRACKET);
      }
    case Object(m) =>
      if m.Entry? {
        FastMembersSpell(style, m, true);
        assert [] + MemberTokens(m, false) == MemberTokens(m, false);
        Bracketed(LBRACE, FastMembers(style, m, true), MemberTokens(m, false), RBRACE);
      } else {
        assert MemberTokens(m, false) == [] by { NoMembers(false); }
        assert FastMembers(style, m, true) == [] by { NoFastMembers(style); }
        BlankSpells([]);
        Bracketed(LBRACE, [], [], RBRACE);
      }
    case Int(i) =>
      IntegerTextStarts(i);
      TokenSpells(IntegerText(i));
    case UInt(u) =>
      IntegerTextStarts(u);
      TokenSpells(IntegerText(u));
    case String(s) =>
      QuotedStarts(s, false);
      TokenSpells(Quoted(s, false));
    case Bool(b) => TokenSpells(if b then TRUE_TEXT else FALSE_TEXT);
    case Null => TokenSpells(NULL_TEXT);
  }

  function FirstComma(i: nat): seq<ByteString> { if i > 0 then [COMMA] else [] }

  lemma NoFastElements(style: FastStyle, m: ObjectValues)
    ensures FastElements(style, m, 0, 0) == []
  {
  }

  lemma NoFastMembers(style: FastStyle)
    ensures FastMembers(style, Empty, true) == []
  {
  }

  lemma {:induction false} FastElementsSpell(style: FastStyle, m: ObjectValues, i: nat, size: nat)
    requires WritableElements(m, false) && !style.dropNullPlaceholders && i < size && m.Entry?
    ensures Spells(FastElements(style, m, i, size), 0, FirstComma(i) + ElementTokens(m, i, size, false))
    decreases MapWeight(m) + 2, size - i
  {
    hide Spells, FastText, Tokens;
    var elem, comma := Get(m, Index(i)), if i > 0 then COMMA else [];
    ElementProperties(m, i, false);
    FastTextSpells(style, elem);
    if i > 0 { TokenSpells(COMMA); } else { BlankSpells([]); }
    SpellsConcat(comma, 0, FirstComma(i), FastText(style, elem), Tokens(elem, false));
    var head := comma + FastText(style, elem);
    var others := if i + 1 == size then [] else [COMMA] + ElementTokens(m, i + 1, size, false);
    var tail := FastElements(style, m, i + 1, size);
    if i + 1 < size {
      FastElementsSpell(style, m, i + 1, size);
    } else {
      BlankSpells([]);
    }
    SpellsConcat(head, 0, FirstComma(i) + Tokens(elem, false), tail, others);
    assert FirstComma(i) + Tokens(elem, false) + others == FirstComma(i) + (Tokens(elem, false) + others);
    assert FastElements(style, m, i, size) == head + tail;
  }

  lemma FastColonSpells(style: FastStyle)
    ensures Spells(FastColon(style), 0, [COLON])
  {
    TokenSpells(COLON);
    BlankSpells([0x20]);
    SpellsConcat(COLON, 0, [COLON], [0x20], []);
    assert [COLON] + [] == [COLON];
  }

  lemma {:induction false} FastMembersSpell(style: FastStyle, m: ObjectValues, first: bool)
    requires WritableMembers(m, false) && !style.dropNullPlaceholders && m.Entry?
    ensures Spells(FastMembers(style, m, first), 0, (if first then [] else [COMMA]) + MemberTokens(m, false))
    decreases MapWeight(m) + 2, 0
  {
    hide Spells, FastText, Tokens, Quoted;
    var comma, toks := if first then [] else COMMA, if first then [] else [COMMA];
    if first { BlankSpells([]); } else { TokenSpells(COMMA); }
    var name, member := Quoted(KeyText(m.key), false), [Quoted(KeyText(m.key), false), COLON] + Tokens(m.value, false);
    FastTextSpells(style, m.value);
    FastColonSpells(style);
    MemberSpells(comma, toks, KeyText(m.key), FastColon(style), FastText(style, m.value), Tokens(m.value, false),
                 false);
    var others := if m.rest.Empty? then [] else [COMMA] + MemberTokens(m.rest, false);
    if m.rest.Entry? {
      FastMembersSpell(style, m.rest, false);
    } else {
      BlankSpells([]);
    }
    var head := MemberText(style, KeyText(m.key), m.value, first);
    SpellsConcat(head, 0, toks + member, FastMembers(style, m.rest, false), others);
    assert toks + member + others == toks + (member + others);
  }

  lemma FastDocumentSpells(style: FastStyle, v: Value)
    requires Writable(v, false) && !style.dropNullPlaceholders
    ensures Spells(FastText(style, v) + if style.omitEndingLineFeed then [] else [0x0a], 0, Tokens(v, false))
  {
    hide Spells, FastText, Tokens, Writable;
    var end := if style.omitEndingLineFeed then [] else [0x0a];
    FastTextSpells(style, v);
    BlankSpells(end);
    SpellsConcat(FastText(style, v), 0, Tokens(v, false), end, []);
    assert Tokens(v, false) + [] == Tokens(v, false);
  }

  /** The reader gets every writable value back from what `FastWriter` writes. */
  lemma FastRoundTrip(cfg: Settings, style: FastStyle, v: Value, root: Value)
    requires Writable(v, false) && !style.dropNullPlaceholders && Depth(v) <= cfg.stackLimit
    requires cfg.strictRoot ==> v.payload.Array? || v.payload.Object?
    ensures var r := Parse(cfg, FastText(style, v) + if style.omitEndingLineFeed then [] else [0x0a], root);
            r.Parsed? && r.ok && r.errors == [] && Plain(r.root) == Canon(v)
  {
    hide Parse, FastText, Tokens, Writable;
    FastDocumentSpells(style, v);
    RoundTrip(cfg, FastText(style, v) + if style.omitEndingLineFeed then [] else [0x0a], v, false, root);
  }

  /**
   So it is with the settings the library offers: by default for every root, and in strict mode for containers
   only.
   */
  lemma OfferedSettingsRoundTrip(scanDouble: ByteString -> Option<Double>, showDouble: Double -> ByteString,
                                 style: FastStyle, v: Value, root: Value)
    requires Writable(v, false) && !style.dropNullPlaceholders && Depth(v) <= 1000
    ensures var doc := FastText(style, v) + if style.omitEndingLineFeed then [] else [0x0a];
            var r := Parse(DefaultSettings(scanDouble, showDouble), doc, root);
            var s := Parse(StrictSettings(scanDouble, showDouble), doc, root);
            && r.Parsed? && r.ok && r.errors == [] && Plain(r.root) == Canon(v)
            && s.Parsed? && (s.ok <==> v.payload.Array? || v.payload.Object?) && Plain(s.root) == Canon(v)
  {
    hide Parse, FastText, Tokens, Writable;
    var doc := FastText(style, v) + if style.omitEndingLineFeed then [] else [0x0a];
    FastDocumentSpells(style, v);
    RoundTrip(DefaultSettings(scanDouble, showDouble), doc, v, false, root);
    RoundTrip(StrictSettings(scanDouble, showDouble), doc, v, false, root);
  }
}
