/**
 What the texts of the two writers look like, byte for byte. The styled writer's text is a list of lines, each at a
 depth; the fast writer's is its tokens with nothing between them.
 */
module JsonLayout {
  import opened Bytes
  import opened JsonValue
  import opened JsonArrays
  import opened JsonNumbers
  import opened JsonStrings
  import opened JsonText
  import opened JsonFastWriter
  import opened JsonStyledWriter
  import opened JsonLeniencies

  // ---- lines ----

  datatype TextLine = TextLine(depth: nat, content: ByteString)

  function Deeper(lines: seq<TextLine>): (r: seq<TextLine>)
    ensures |r| == |lines|
  {
    if lines == [] then [] else [TextLine(lines[0].depth + 1, lines[0].content)] + Deeper(lines[1..])
  }

  /** Something is put behind the last line. */
  function Ending(lines: seq<TextLine>, tail: ByteString): (r: seq<TextLine>)
    requires lines != []
    ensures |r| == |lines|
  {
    var last := lines[|lines| - 1];
    lines[..|lines| - 1] + [TextLine(last.depth, last.content + tail)]
  }

  function Repeat(s: ByteString, n: nat): ByteString { if n == 0 then [] else Repeat(s, n - 1) + s }

  /** How a line begins: on a new line, as many times the indentation as it is deep; without indentation, at once. */
  function Break(style: Style, depth: nat): ByteString {
    if style.indentation == [] then []
    else (if style.newline then [0x0a] else []) + Repeat(style.indentation, depth)
  }

  /** The lines written out, the first at depth `d`. */
  function Laid(style: Style, lines: seq<TextLine>, d: nat): ByteString {
    if lines == [] then []
    else Break(style, d + lines[0].depth) + lines[0].content + Laid(style, lines[1..], d)
  }

  // ---- the lines of a value ----

  function Separated(texts: seq<ByteString>, separator: ByteString): ByteString {
    if texts == [] then []
    else if |texts| == 1 then texts[0]
    else texts[0] + separator + Separated(texts[1..], separator)
  }

  /** The texts of the elements of an array that holds no container with entries. */
  function ElementTexts(style: Style, m: ObjectValues): seq<ByteString> {
    seq(ArraySize(m), i requires 0 <= i < ArraySize(m) => FlatText(style, Get(m, Index(i))))
  }

  /** The line of an array when blanks are put between its parts, whose length decides whether it is used. */
  function SpacedLine(style: Style, m: ObjectValues): ByteString {
    [0x5b, 0x20] + Separated(ElementTexts(style, m), [0x2c, 0x20]) + [0x20, 0x5d]
  }

  /**
   An array goes on one line if no comments may be there, it holds no container with entries, and its line is shorter
   than 74 columns, to 32 bits; three columns an element are too many from 74 on as well.
   */
  ghost predicate OnOneLine(style: Style, m: ObjectValues) {
    && style.comments == NoComments
    && (forall i: nat | i < ArraySize(m) :: !HasEntries(Get(m, Index(i))))
    && 3 * ArraySize(m) % 0x1_0000_0000 < 74
    && |SpacedLine(style, m)| % 0x1_0000_0000 < 74
  }

  function Blank1(style: Style): ByteString { if style.indentation == [] then [] else [0x20] }

  /** The lines of a value: the brackets of a container that does not go on one line have lines of their own. */
  ghost function Lines(style: Style, v: Value): (lines: seq<TextLine>)
    ensures lines != []
    decreases Weight(v), 0
  {
    var flat := [TextLine(0, FlatText(style, v))];
    match v.payload
    case Array(m) =>
      if !HasEntries(v) then flat
      else if OnOneLine(style, m) then
        [TextLine(0, [0x5b] + Blank1(style) + Separated(ElementTexts(style, m), [0x2c] + Blank1(style))
                     + Blank1(style) + [0x5d])]
      else [TextLine(0, [0x5b])] + Deeper(ElementLines(style, m, 0, ArraySize(m))) + [TextLine(0, [0x5d])]
    case Object(m) =>
      if !HasEntries(v) then flat
      else [TextLine(0, [0x7b])] + Deeper(MemberLines(style, m)) + [TextLine(0, [0x7d])]
    case _ => flat
  }

  /** The elements from index `i` on, a comma behind each but the last. */
  ghost function ElementLines(style: Style, m: ObjectValues, i: nat, size: nat): (lines: seq<TextLine>)
    requires i < size
    ensures lines != []
    decreases MapWeight(m) + 2, size - i
  {
    if i + 1 == size then Lines(style, Get(m, Index(i)))
    else Ending(Lines(style, Get(m, Index(i))), [0x2c]) + ElementLines(style, m, i + 1, size)
  }

  ghost function MemberLines(style: Style, m: ObjectValues): (lines: seq<TextLine>)
    ensures m.Entry? ==> lines != []
    decreases MapWeight(m) + 2, 0
  {
    match m
    case Empty => []
    case Entry(key, value, rest) =>
      var lines := NamedLines(style, Quoted(KeyText(key), style.emitUTF8) + style.colonSymbol, value);
      if rest.Empty? then lines else Ending(lines, [0x2c]) + MemberLines(style, rest)
  }

  /** A value of one line stands behind its name, and any other below it. */
  ghost function NamedLines(style: Style, name: ByteString, v: Value): (lines: seq<TextLine>)
    ensures lines != []
    decreases Weight(v), 1
  {
    var lines := Lines(style, v);
    if |lines| == 1 then [TextLine(0, name + lines[0].content)] else [TextLine(0, name)] + lines
  }

  // ---- writing lines out ----

  lemma {:induction false} LaidConcat(style: Style, a: seq<TextLine>, b: seq<TextLine>, d: nat)
    ensures Laid(style, a + b, d) == Laid(style, a, d) + Laid(style, b, d)
  {
    hide Break;
    if a == [] {
      assert a + b == b;
    } else {
      assert (a + b)[1..] == a[1..] + b;
      LaidConcat(style, a[1..], b, d);
    }
  }

  lemma {:induction false} LaidDeeper(style: Style, a: seq<TextLine>, d: nat)
    ensures Laid(style, Deeper(a), d) == Laid(style, a, d + 1)
  {
    hide Break;
    if a != [] {
      var r := Deeper(a);
      assert r[0] == TextLine(a[0].depth + 1, a[0].content) && r[1..] == Deeper(a[1..]);
      LaidDeeper(style, a[1..], d);
    }
  }

  lemma LaidOne(style: Style, line: TextLine, d: nat)
    ensures Laid(style, [line], d) == Break(style, d + line.depth) + line.content
  {
    hide Break;
    assert Laid(style, [line][1..], d) == [];
  }

  lemma LaidEnding(style: Style, a: seq<TextLine>, tail: ByteString, d: nat)
    requires a != []
    ensures Laid(style, Ending(a, tail), d) == Laid(style, a, d) + tail
  {
    hide Laid, Break;
    var start, last := a[..|a| - 1], a[|a| - 1];
    assert a == start + [last];
    LaidConcat(style, start, [last], d);
    LaidConcat(style, start, [TextLine(last.depth, last.content + tail)], d);
    LaidOne(style, last, d);
    LaidOne(style, TextLine(last.depth, last.content + tail), d);
  }

  lemma IndentIsBreak(style: Style, d: nat)
    ensures Indent(style, Repeat(style.indentation, d)) == Break(style, d)
    ensures Repeat(style.indentation, d) + style.indentation == Repeat(style.indentation, d + 1)
  {
  }

  // ---- arrays on one line ----

  lemma {:induction false} NestedIff(m: ObjectValues, i: nat, size: nat)
    ensures NestedFrom(m, i, size) <==> exists k: nat :: i <= k < size && HasEntries(Get(m, Index(k)))
    decreases size - i
  {
    if i < size {
      NestedIff(m, i + 1, size);
    }
  }

  lemma {:induction false} TextsAre(style: Style, m: ObjectValues, n: nat)
    requires n <= ArraySize(m)
    ensures ChildTexts(style, m, n) == ElementTexts(style, m)[..n]
  {
    hide FlatText;
    if n > 0 {
      TextsAre(style, m, n - 1);
      assert ElementTexts(style, m)[..n] == ElementTexts(style, m)[..n - 1] + [ElementTexts(style, m)[n - 1]];
    }
  }

  lemma {:induction false} OneLineIsSeparated(style: Style, texts: seq<ByteString>, i: nat)
    requires i <= |texts|
    ensures var rest := Separated(texts[i..], [0x2c] + Blank1(style));
            OneLine(style, texts, i) == if 0 < i < |texts| then [0x2c] + Blank1(style) + rest else rest
    decreases |texts| - i
  {
    if i < |texts| {
      OneLineIsSeparated(style, texts, i + 1);
      assert texts[i..][1..] == texts[i + 1..];
      assert texts[i..][0] == texts[i];
    }
  }

  lemma {:induction false} TotalIsSum(s: seq<ByteString>, t: ByteString)
    ensures TotalLength([t] + s) == |t| + TotalLength(s)
    decreases |s|
  {
    var all := [t] + s;
    if s == [] {
      assert all[..|all| - 1] == [];
    } else {
      assert all[..|all| - 1] == [t] + s[..|s| - 1];
      TotalIsSum(s[..|s| - 1], t);
    }
  }

  lemma {:induction false} SeparatedLength(texts: seq<ByteString>, separator: ByteString)
    requires texts != []
    ensures |Separated(texts, separator)| == TotalLength(texts) + (|texts| - 1) * |separator|
  {
    assert texts == [texts[0]] + texts[1..];
    TotalIsSum(texts[1..], texts[0]);
    if |texts| > 1 {
      SeparatedLength(texts[1..], separator);
      assert (|texts| - 1) * |separator| == (|texts| - 2) * |separator| + |separator|;
    } else {
      assert TotalLength([]) == 0;
    }
  }

  lemma LineLength(style: Style, m: ObjectValues)
    requires ArraySize(m) > 0
    ensures var texts := ChildTexts(style, m, ArraySize(m));
            |SpacedLine(style, m)| == 4 + (ArraySize(m) - 1) * 2 + TotalLength(texts)
  {
    var size, texts := ArraySize(m), ElementTexts(style, m);
    TextsAre(style, m, size);
    assert texts[..size] == texts;
    SeparatedLength(texts, [0x2c, 0x20]);
    hide ElementTexts, ChildTexts, Separated, TotalLength;
  }

  /** The lengths the writer adds up are those of that line. */
  lemma SpreadIff(style: Style, m: ObjectValues)
    requires ArraySize(m) > 0
    ensures Spread(style, m) <==> !OnOneLine(style, m)
  {
    NestedIff(m, 0, ArraySize(m));
    LineLength(style, m);
    hide ChildTexts, NestedFrom, SpacedLine, TotalLength, HasEntries, ArraySize;
  }

  // ---- the styled writer's text ----

  lemma OneLineLaid(style: Style, m: ObjectValues)
    requires ArraySize(m) > 0
    ensures OneLine(style, ChildTexts(style, m, ArraySize(m)), 0)
         == Separated(ElementTexts(style, m), [0x2c] + Blank1(style))
  {
    var texts := ChildTexts(style, m, ArraySize(m));
    TextsAre(style, m, ArraySize(m));
    assert ElementTexts(style, m)[..ArraySize(m)] == ElementTexts(style, m);
    OneLineIsSeparated(style, texts, 0);
    assert texts[0..] == texts;
  }

  predicate IsLine(lines: seq<TextLine>, text: ByteString) { lines == [TextLine(0, text)] }

  lemma FlatLine(style: Style, v: Value, indent: ByteString, indented: bool)
    requires !HasEntries(v)
    ensures IsLine(Lines(style, v), StyledText(style, v, indent, indented))
  {
    hide FlatText, HasEntries, OnOneLine;
  }

  lemma ShortArrayLine(style: Style, v: Value, indent: ByteString, indented: bool)
    requires HasEntries(v) && v.payload.Array? && OnOneLine(style, v.payload.values)
    ensures IsLine(Lines(style, v), StyledText(style, v, indent, indented))
  {
    SpreadIff(style, v.payload.values);
    OneLineLaid(style, v.payload.values);
    hide Spread, OnOneLine, OneLine, ChildTexts, Separated, ElementTexts, ArraySize;
  }

  lemma ManyLines(style: Style, v: Value)
    requires HasEntries(v) && !(v.payload.Array? && OnOneLine(style, v.payload.values))
    ensures |Lines(style, v)| > 1
  {
    hide OnOneLine, ElementLines, MemberLines;
  }

  lemma LeadMoves(lead: ByteString, a: ByteString, b: ByteString, c: ByteString, e: ByteString)
    ensures lead + a + b + c + e == lead + ([] + a + b + c + e)
  {
  }

  lemma BlockText(style: Style, v: Value, indent: ByteString)
    requires HasEntries(v) && !(v.payload.Array? && OnOneLine(style, v.payload.values))
    ensures StyledText(style, v, indent, false) == Indent(style, indent) + StyledText(style, v, indent, true)
  {
    var lead, more := Indent(style, indent), indent + style.indentation;
    match v.payload
    case Array(m) =>
      SpreadIff(style, m);
      hide Spread, OnOneLine, StyledElements, Indent;
      LeadMoves(lead, LBRACKET, StyledElements(style, m, 0, ArraySize(m), more), lead, RBRACKET);
    case Object(m) =>
      hide StyledMembers, Indent;
      LeadMoves(lead, LBRACE, StyledMembers(style, m, more), lead, RBRACE);
  }

  /** Whether the value is one line, and what its text is then, indented or not. */
  lemma OneLineIff(style: Style, v: Value, indent: ByteString, indented: bool)
    ensures var flat := !HasEntries(v) || (v.payload.Array? && OnOneLine(style, v.payload.values));
            && (|Lines(style, v)| == 1 <==> flat)
            && (flat ==> IsLine(Lines(style, v), StyledText(style, v, indent, indented)))
            && (!flat ==> StyledText(style, v, indent, false)
                          == Indent(style, indent) + StyledText(style, v, indent, true))
  {
    hide Lines, StyledText, HasEntries, OnOneLine, Indent;
    if !HasEntries(v) {
      FlatLine(style, v, indent, indented);
    } else if v.payload.Array? && OnOneLine(style, v.payload.values) {
      ShortArrayLine(style, v, indent, indented);
    } else {
      ManyLines(style, v);
      BlockText(style, v, indent);
    }
  }

  /** The text of a value is its lines written out, whatever the depth it stands at. */
  lemma {:induction false} ValueLaid(style: Style, v: Value, d: nat)
    ensures Break(style, d) + StyledText(style, v, Repeat(style.indentation, d), true)
         == Laid(style, Lines(style, v), d)
    decreases Weight(v), 1
  {
    hide Laid, Break, Lines, StyledText, Repeat, HasEntries, OnOneLine;
    var indent := Repeat(style.indentation, d);
    OneLineIff(style, v, indent, true);
    if !HasEntries(v) || (v.payload.Array? && OnOneLine(style, v.payload.values)) {
      var lines := Lines(style, v);
      assert lines == [lines[0]];
      LaidOne(style, lines[0], d);
    } else {
      BlockLaid(style, v, d);
    }
  }

  /** A container on several lines. */
  lemma {:induction false} BlockLaid(style: Style, v: Value, d: nat)
    requires HasEntries(v) && !(v.payload.Array? && OnOneLine(style, v.payload.values))
    ensures Break(style, d) + StyledText(style, v, Repeat(style.indentation, d), true)
         == Laid(style, Lines(style, v), d)
    decreases Weight(v), 0
  {
    var indent, more := Repeat(style.indentation, d), Repeat(style.indentation, d + 1);
    IndentIsBreak(style, d);
    hide Laid, Break, Repeat, OnOneLine, Indent, Spread;
    match v.payload
    case Array(m) =>
      var inner := ElementLines(style, m, 0, ArraySize(m));
      SpreadIff(style, m);
      ElementsLaid(style, m, 0, ArraySize(m), d + 1);
      hide ElementLines, StyledElements;
      BracketsLaid(style, [0x5b], inner, [0x5d], d);
      BracketsText(Break(style, d), [0x5b], StyledElements(style, m, 0, ArraySize(m), more), [0x5d]);
    case Object(m) =>
      var inner := MemberLines(style, m);
      MembersLaid(style, m, d + 1);
      hide MemberLines, StyledMembers;
      BracketsLaid(style, [0x7b], inner, [0x7d], d);
      BracketsText(Break(style, d), [0x7b], StyledMembers(style, m, more), [0x7d]);
  }

  lemma BracketsText(lead: ByteString, open: ByteString, inner: ByteString, close: ByteString)
    ensures lead + ([] + open + inner + lead + close) == lead + open + inner + (lead + close)
  {
  }

  lemma BracketsLaid(style: Style, open: ByteString, inner: seq<TextLine>, close: ByteString, d: nat)
    ensures Laid(style, [TextLine(0, open)] + Deeper(inner) + [TextLine(0, close)], d)
         == Break(style, d) + open + Laid(style, inner, d + 1) + (Break(style, d) + close)
  {
    hide Laid, Break;
    LaidConcat(style, [TextLine(0, open)] + Deeper(inner), [TextLine(0, close)], d);
    LaidConcat(style, [TextLine(0, open)], Deeper(inner), d);
    LaidDeeper(style, inner, d);
    LaidOne(style, TextLine(0, open), d);
    LaidOne(style, TextLine(0, close), d);
  }

  lemma {:induction false} ElementsLaid(style: Style, m: ObjectValues, i: nat, size: nat, d: nat)
    requires i < size
    ensures StyledElements(style, m, i, size, Repeat(style.indentation, d))
         == Laid(style, ElementLines(style, m, i, size), d)
    decreases MapWeight(m) + 2, size - i
  {
    var child, indent := Get(m, Index(i)), Repeat(style.indentation, d);
    IndentIsBreak(style, d);
    hide Laid, Break, Repeat, Lines, StyledText, Indent, Ending;
    ValueLaid(style, child, d);
    if i + 1 < size {
      ElementsLaid(style, m, i + 1, size, d);
      LaidEnding(style, Lines(style, child), [0x2c], d);
      LaidConcat(style, Ending(Lines(style, child), [0x2c]), ElementLines(style, m, i + 1, size), d);
      Regroup(Break(style, d), StyledText(style, child, indent, true), StyledElements(style, m, i + 1, size, indent));
    }
  }

  lemma Regroup(a: ByteString, b: ByteString, c: ByteString)
    ensures a + b + ([0x2c] + c) == a + b + [0x2c] + c
  {
  }

  lemma {:induction false} MembersLaid(style: Style, m: ObjectValues, d: nat)
    ensures StyledMembers(style, m, Repeat(style.indentation, d)) == Laid(style, MemberLines(style, m), d)
    decreases MapWeight(m) + 2, 0
  {
    hide Break, Repeat, NamedLines, StyledMember, Ending, Quoted;
    if m.Entry? {
      var name, indent := Quoted(KeyText(m.key), style.emitUTF8) + style.colonSymbol, Repeat(style.indentation, d);
      NamedLaid(style, KeyText(m.key), m.value, d);
      hide Laid;
      if m.rest.Entry? {
        var lines := NamedLines(style, name, m.value);
        MembersLaid(style, m.rest, d);
        LaidEnding(style, lines, [0x2c], d);
        LaidConcat(style, Ending(lines, [0x2c]), MemberLines(style, m.rest), d);
        Regroup(StyledMember(style, KeyText(m.key), m.value, indent), [], StyledMembers(style, m.rest, indent));
        assert StyledMember(style, KeyText(m.key), m.value, indent) + []
            == StyledMember(style, KeyText(m.key), m.value, indent);
      } else {
        LastMember(style, m, indent);
      }
    }
  }

  lemma LastMember(style: Style, m: ObjectValues, indent: ByteString)
    requires m.Entry? && m.rest.Empty?
    ensures StyledMembers(style, m, indent) == StyledMember(style, KeyText(m.key), m.value, indent)
  {
    hide StyledMember;
  }

  lemma {:induction false} NamedLaid(style: Style, name: ByteString, v: Value, d: nat)
    ensures StyledMember(style, name, v, Repeat(style.indentation, d))
         == Laid(style, NamedLines(style, Quoted(name, style.emitUTF8) + style.colonSymbol, v), d)
    decreases Weight(v), 2
  {
    var start, indent := Quoted(name, style.emitUTF8) + style.colonSymbol, Repeat(style.indentation, d);
    IndentIsBreak(style, d);
    OneLineIff(style, v, indent, false);
    hide Laid, Break, Repeat, Lines, StyledText, Indent, Quoted, HasEntries, OnOneLine;
    var lines := Lines(style, v);
    if |lines| == 1 {
      LaidOne(style, TextLine(0, start + lines[0].content), d);
      NameText(Break(style, d), Quoted(name, style.emitUTF8), style.colonSymbol, lines[0].content);
    } else {
      ValueLaid(style, v, d);
      LaidConcat(style, [TextLine(0, start)], lines, d);
      LaidOne(style, TextLine(0, start), d);
      NameText(Break(style, d), Quoted(name, style.emitUTF8), style.colonSymbol, Laid(style, lines, d));
    }
  }

  lemma NameText(a: ByteString, b: ByteString, c: ByteString, e: ByteString)
    ensures a + b + c + e == a + (b + c) + e == a + ((b + c) + e)
  {
  }

  /** The whole text of `BuiltStyledStreamWriter`: the lines of the root, the first one without its break. */
  lemma StyledLayout(style: Style, root: Value)
    ensures Break(style, 0) + StyledText(style, root, [], true) == Laid(style, Lines(style, root), 0)
  {
    hide Laid, Break, Lines, StyledText;
    ValueLaid(style, root, 0);
  }

  /** With an indentation, no array is written on one line that takes 74 columns or more, up to 2^32 of them. */
  lemma OneLineIsShort(style: Style, v: Value, indent: ByteString, indented: bool)
    requires v.payload.Array? && HasEntries(v) && |Lines(style, v)| == 1
    requires style.indentation != [] && |StyledText(style, v, indent, indented)| < 0x1_0000_0000
    ensures |StyledText(style, v, indent, indented)| < 74
  {
    OneLineIff(style, v, indent, indented);
    hide StyledText, HasEntries, ArraySize, ElementTexts, Separated, ElementLines;
    var m := v.payload.values;
    assert [0x2c] + Blank1(style) == [0x2c, 0x20];
    assert |Lines(style, v)[0].content| == |SpacedLine(style, m)|;
  }

  // ---- the fast writer's text ----

  lemma {:induction false} JoinedConcat(a: seq<ByteString>, b: seq<ByteString>)
    ensures Joined(a + b) == Joined(a) + Joined(b)
  {
    if a == [] {
      assert a + b == b;
    } else {
      assert (a + b)[1..] == a[1..] + b;
      JoinedConcat(a[1..], b);
    }
  }

  lemma JoinedOne(tok: ByteString)
    ensures Joined([tok]) == tok
  {
    assert [tok][1..] == [];
  }

  /** The text of doubles is the library's. */
  predicate RealFree(v: Value) {
    match v.payload
    case Real(_) => false
    case Array(m) => RealFreeMap(m)
    case Object(m) => RealFreeMap(m)
    case _ => true
  }

  predicate RealFreeMap(m: ObjectValues) {
    match m
    case Empty => true
    case Entry(_, value, rest) => RealFree(value) && RealFreeMap(rest)
  }

  lemma {:induction false} RealFreeGet(m: ObjectValues, i: nat)
    requires RealFreeMap(m)
    ensures RealFree(Get(m, Index(i)))
  {
    if m.Entry? && m.key != Index(i) {
      RealFreeGet(m.rest, i);
    }
  }

  /** `FastWriter` writes the tokens of a value and nothing else. */
  lemma {:induction false} FastLayout(style: FastStyle, v: Value)
    requires RealFree(v) && !style.dropNullPlaceholders && !style.yamlCompatibility
    ensures FastText(style, v) == Joined(Tokens(v, false))
    decreases Weight(v), 0
  {
    hide Joined, Quoted, FastElements, FastMembers, ElementTokens, MemberTokens, IntegerText;
    match v.payload
    case Array(m) =>
      var size := ArraySize(m);
      var inner := if size == 0 then [] else ElementTokens(m, 0, size, false);
      if size > 0 {
        FastElementsLaid(style, m, 0, size);
      } else {
        NoFastElements(style, m);
        JoinedNone();
      }
      BracketsJoined(LBRACKET, inner, RBRACKET);
    case Object(m) =>
      FastMembersLaid(style, m, true);
      BracketsJoined(LBRACE, MemberTokens(m, false), RBRACE);
    case _ => ScalarLaid(style, v);
  }

  lemma ScalarLaid(style: FastStyle, v: Value)
    requires RealFree(v) && !style.dropNullPlaceholders && !v.payload.Array? && !v.payload.Object?
    ensures FastText(style, v) == Joined(Tokens(v, false))
  {
    hide Joined, Quoted, IntegerText;
    JoinedOne(Tokens(v, false)[0]);
  }

  lemma JoinedNone()
    ensures Joined([]) == []
  {
  }

  lemma BracketsJoined(open: ByteString, inner: seq<ByteString>, close: ByteString)
    ensures Joined([open] + inner + [close]) == open + Joined(inner) + close
  {
    hide Joined;
    JoinedConcat([open] + inner, [close]);
    JoinedConcat([open], inner);
    JoinedOne(open);
    JoinedOne(close);
  }

  lemma {:induction false} FastElementsLaid(style: FastStyle, m: ObjectValues, i: nat, size: nat)
    requires RealFreeMap(m) && i < size && !style.dropNullPlaceholders && !style.yamlCompatibility
    ensures FastElements(style, m, i, size)
         == (if i > 0 then COMMA else []) + Joined(ElementTokens(m, i, size, false))
    decreases MapWeight(m) + 2, size - i
  {
    hide Joined, FastText, Tokens;
    var child := Get(m, Index(i));
    RealFreeGet(m, i);
    FastLayout(style, child);
    if i + 1 < size {
      FastElementsLaid(style, m, i + 1, size);
      JoinedConcat(Tokens(child, false), [COMMA] + ElementTokens(m, i + 1, size, false));
      JoinedConcat([COMMA], ElementTokens(m, i + 1, size, false));
      JoinedOne(COMMA);
    } else {
      assert FastElements(style, m, size, size) == [];
      assert Tokens(child, false) + [] == Tokens(child, false);
    }
  }

  lemma {:induction false} FastMembersLaid(style: FastStyle, m: ObjectValues, first: bool)
    requires RealFreeMap(m) && !style.dropNullPlaceholders && !style.yamlCompatibility
    ensures FastMembers(style, m, first)
         == (if m.Empty? || first then [] else COMMA) + Joined(MemberTokens(m, false))
    decreases MapWeight(m) + 2, 0
  {
    hide FastText, Tokens, Quoted;
    if m.Entry? {
      var name, value := Quoted(KeyText(m.key), false), Tokens(m.value, false);
      FastLayout(style, m.value);
      FastMembersLaid(style, m.rest, false);
      MemberJoined(name, value, if m.rest.Empty? then [] else [COMMA] + MemberTokens(m.rest, false));
      hide Joined;
      if m.rest.Entry? {
        JoinedConcat([COMMA], MemberTokens(m.rest, false));
        JoinedOne(COMMA);
      }
      Reassociate(if first then [] else COMMA, name, COLON, Joined(value), FastMembers(style, m.rest, false));
    }
  }

  lemma Reassociate(a: ByteString, b: ByteString, c: ByteString, d: ByteString, e: ByteString)
    ensures a + b + c + d + e == a + (b + c + d + e)
  {
  }

  lemma MemberJoined(name: ByteString, value: seq<ByteString>, rest: seq<ByteString>)
    ensures Joined([name, COLON] + value + rest) == name + COLON + Joined(value) + Joined(rest)
  {
    hide Joined;
    JoinedConcat([name, COLON] + value, rest);
    JoinedConcat([name, COLON], value);
    JoinedConcat([name], [COLON]);
    JoinedOne(name);
    JoinedOne(COLON);
    assert [name] + [COLON] == [name, COLON];
  }
}
