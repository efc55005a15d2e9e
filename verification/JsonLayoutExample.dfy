/** One value as the writer that `StreamWriterBuilder` makes prints it, byte for byte. */
module JsonLayoutExample {
  import opened Bytes
  import opened JsonValue
  import opened JsonArrays
  import opened JsonNumbers
  import opened JsonStrings
  import opened JsonLexemes
  import opened JsonStyledWriter
  import opened JsonLayout

  const LIST := Value(Array(Entry(Index(0), Value(Int(1), 0, 0), Empty)), 0, 0)
  const INNER := Value(Object(Entry(Name([0x62]), LIST, Empty)), 0, 0)

  /** `{"a":{"b":[1]}}` */
  const EXAMPLE := Value(Object(Entry(Name([0x61]), INNER, Empty)), 0, 0)

  lemma QuotedLetter(c: Byte, emitUTF8: bool)
    requires 0x61 <= c <= 0x7a
    ensures Quoted([c], emitUTF8) == [0x22, c, 0x22]
  {
    assert [c][1..] == [];
    assert EscapeUnit([c], emitUTF8) == Unit([c], 1);
    assert Escaped([], emitUTF8) == [];
  }

  lemma ListLines(style: Style)
    requires style.comments == NoComments && style.indentation == [0x09]
    ensures Lines(style, LIST) == [TextLine(0, Ascii("[ 1 ]"))]
  {
    var m := LIST.payload.values;
    assert ArraySize(m) == 1 && Get(m, Index(0)) == Value(Int(1), 0, 0);
    assert ElementTexts(style, m) == [[0x31]] by { assert IntegerText(1) == [0x31]; }
    assert OnOneLine(style, m);
    hide OnOneLine, IntegerText;
    assert Separated(ElementTexts(style, m), [0x2c] + Blank1(style)) == [0x31];
    assert [0x5b] + [0x20] + [0x31] + [0x20] + [0x5d] == Ascii("[ 1 ]");
  }

  lemma OneMember(style: Style, c: Byte, child: Value)
    requires 0x61 <= c <= 0x7a
    ensures var m := Entry(Name([c]), child, Empty);
            MemberLines(style, m) == NamedLines(style, [0x22, c, 0x22] + style.colonSymbol, child)
    ensures var v := Value(Object(Entry(Name([c]), child, Empty)), 0, 0);
            Lines(style, v) == [TextLine(0, [0x7b])]
                               + Deeper(NamedLines(style, [0x22, c, 0x22] + style.colonSymbol, child))
                               + [TextLine(0, [0x7d])]
  {
    hide NamedLines, Deeper, Quoted;
    QuotedLetter(c, style.emitUTF8);
  }

  lemma MemberLine()
    ensures [0x22, 0x62, 0x22] + [0x20, 0x3a, 0x20] + Ascii("[ 1 ]") == Ascii("\"b\" : [ 1 ]")
  {
  }

  lemma InnerLines(style: Style)
    requires style.comments == NoComments && style.indentation == [0x09] && style.colonSymbol == [0x20, 0x3a, 0x20]
    ensures Lines(style, INNER)
         == [TextLine(0, [0x7b]), TextLine(1, Ascii("\"b\" : [ 1 ]")), TextLine(0, [0x7d])]
  {
    ListLines(style);
    OneMember(style, 0x62, LIST);
    MemberLine();
    hide Lines, Ascii;
    var line := TextLine(0, Ascii("\"b\" : [ 1 ]"));
    assert NamedLines(style, [0x22, 0x62, 0x22] + style.colonSymbol, LIST) == [line];
    assert [line][1..] == [] && Deeper([]) == [];
  }

  lemma DeeperStep(depth: nat, content: ByteString, rest: seq<TextLine>)
    ensures Deeper([TextLine(depth, content)] + rest) == [TextLine(depth + 1, content)] + Deeper(rest)
  {
    assert ([TextLine(depth, content)] + rest)[1..] == rest;
  }

  lemma NoneDeeper()
    ensures Deeper([]) == []
  {
  }

  lemma ExampleLines(style: Style)
    requires style.comments == NoComments && style.indentation == [0x09] && style.colonSymbol == [0x20, 0x3a, 0x20]
    ensures Lines(style, EXAMPLE)
         == [TextLine(0, [0x7b]), TextLine(1, [0x22, 0x61, 0x22, 0x20, 0x3a, 0x20]), TextLine(1, [0x7b]),
             TextLine(2, Ascii("\"b\" : [ 1 ]")), TextLine(1, [0x7d]), TextLine(0, [0x7d])]
  {
    InnerLines(style);
    OneMember(style, 0x61, INNER);
    hide Lines, Ascii, Deeper;
    var name, member := [0x22, 0x61, 0x22, 0x20, 0x3a, 0x20], Ascii("\"b\" : [ 1 ]");
    assert [0x22, 0x61, 0x22] + style.colonSymbol == name;
    DeeperStep(0, [0x7d], []);
    DeeperStep(1, member, [TextLine(0, [0x7d])]);
    DeeperStep(0, [0x7b], [TextLine(1, member), TextLine(0, [0x7d])]);
    DeeperStep(0, name, [TextLine(0, [0x7b]), TextLine(1, member), TextLine(0, [0x7d])]);
    NoneDeeper();
    assert Lines(style, EXAMPLE)
        == [TextLine(0, [0x7b])] + Deeper([TextLine(0, name)] + Lines(style, INNER)) + [TextLine(0, [0x7d])];
  }

  lemma LaidStep(style: Style, line: TextLine, rest: seq<TextLine>)
    ensures Laid(style, [line] + rest, 0) == Break(style, line.depth) + line.content + Laid(style, rest, 0)
  {
    hide Break;
    assert ([line] + rest)[1..] == rest;
  }

  lemma LaidLines(style: Style, a: ByteString, b: ByteString, c: ByteString, d: ByteString, e: ByteString,
                  f: ByteString)
    ensures Laid(style,
                 [TextLine(0, a), TextLine(1, b), TextLine(1, c), TextLine(2, d), TextLine(1, e), TextLine(0, f)], 0)
         == Break(style, 0) + a + (Break(style, 1) + b + (Break(style, 1) + c + (Break(style, 2) + d
            + (Break(style, 1) + e + (Break(style, 0) + f)))))
  {
    hide Break;
    LaidOne(style, TextLine(0, f), 0);
    LaidStep(style, TextLine(1, e), [TextLine(0, f)]);
    LaidStep(style, TextLine(2, d), [TextLine(1, e), TextLine(0, f)]);
    LaidStep(style, TextLine(1, c), [TextLine(2, d), TextLine(1, e), TextLine(0, f)]);
    LaidStep(style, TextLine(1, b), [TextLine(1, c), TextLine(2, d), TextLine(1, e), TextLine(0, f)]);
    LaidStep(style, TextLine(0, a),
             [TextLine(1, b), TextLine(1, c), TextLine(2, d), TextLine(1, e), TextLine(0, f)]);
  }

  const MEMBER_BYTES: ByteString := [0x22, 0x62, 0x22, 0x20, 0x3a, 0x20, 0x5b, 0x20, 0x31, 0x20, 0x5d]

  const EXAMPLE_BYTES: ByteString :=
      [0x7b, 0x0a, 0x09, 0x22, 0x61, 0x22, 0x20, 0x3a, 0x20, 0x0a, 0x09, 0x7b, 0x0a, 0x09, 0x09, 0x22,
       0x62, 0x22, 0x20, 0x3a, 0x20, 0x5b, 0x20, 0x31, 0x20, 0x5d, 0x0a, 0x09, 0x7d, 0x0a, 0x7d]

  lemma ExampleSpelt()
    ensures Ascii("\"b\" : [ 1 ]") == MEMBER_BYTES
    ensures Ascii("{\n\t\"a\" : \n\t{\n\t\t\"b\" : [ 1 ]\n\t}\n}") == EXAMPLE_BYTES
  {
  }

  lemma ExampleBytes()
    ensures [0x0a] + [0x7b] + ([0x0a, 0x09] + [0x22, 0x61, 0x22, 0x20, 0x3a, 0x20] + ([0x0a, 0x09] + [0x7b]
            + ([0x0a, 0x09, 0x09] + MEMBER_BYTES + ([0x0a, 0x09] + [0x7d] + ([0x0a] + [0x7d])))))
         == [0x0a] + EXAMPLE_BYTES
  {
  }

  lemma SameRest(a: ByteString, b: ByteString)
    requires [0x0a] + a == [0x0a] + b
    ensures a == b
  {
    assert ([0x0a] + a)[1..] == a && ([0x0a] + b)[1..] == b;
  }

  /** Tabs, no comments: braces on lines of their own, a short array on the line of its name. */
  lemma ExampleText(realText: Double -> ByteString)
    ensures StyledText(NewStyle([0x09], NoComments, false, false, false, true, realText), EXAMPLE, [], true)
         == Ascii("{\n\t\"a\" : \n\t{\n\t\t\"b\" : [ 1 ]\n\t}\n}")
  {
    var style := NewStyle([0x09], NoComments, false, false, false, true, realText);
    ExampleLines(style);
    StyledLayout(style, EXAMPLE);
    Breaks(style);
    hide Lines, StyledText, Break, Laid, Ascii;
    LaidLines(style, [0x7b], [0x22, 0x61, 0x22, 0x20, 0x3a, 0x20], [0x7b], Ascii("\"b\" : [ 1 ]"), [0x7d], [0x7d]);
    ExampleSpelt();
    ExampleBytes();
    SameRest(StyledText(style, EXAMPLE, [], true), Ascii("{\n\t\"a\" : \n\t{\n\t\t\"b\" : [ 1 ]\n\t}\n}"));
  }

  lemma Breaks(style: Style)
    requires style.indentation == [0x09] && style.newline
    ensures Break(style, 0) == [0x0a] && Break(style, 1) == [0x0a, 0x09] && Break(style, 2) == [0x0a, 0x09, 0x09]
  {
    assert Repeat([0x09], 1) == [0x09] && Repeat([0x09], 2) == [0x09, 0x09];
  }
}
