/**
 `BuiltStyledStreamWriter`: one entry a line, short arrays on one line. Values carry no comments here, so the
 comment style only decides the layout of arrays.
 */
module JsonStyledWriter {
  import opened Bytes
  import opened JsonValue
  import opened JsonArrays
  import opened JsonNumbers
  import opened JsonStrings
  import opened JsonLexer
  import opened JsonParser
  import opened JsonText
  import opened JsonRoundTrip
  import opened JsonFastWriter

  datatype CommentStyle = NoComments | AllComments

  /** What the constructor is given, the `newline` switch of the stream writer and the library's text of doubles. */
  datatype Style = Style(indentation: ByteString, comments: CommentStyle, colonSymbol: ByteString,
                         nullSymbol: ByteString, endingLineFeed: ByteString, emitUTF8: bool, newline: bool,
                         realText: Double -> ByteString)

  const RIGHT_MARGIN: nat := 74

  /** `StreamWriterBuilder::newStreamWriter`. */
  function NewStyle(indentation: ByteString, comments: CommentStyle, yamlCompatibility: bool,
                    dropNullPlaceholders: bool, emitUTF8: bool, newline: bool, realText: Double -> ByteString): Style
  {
    var colon := if yamlCompatibility then [0x3a, 0x20] else if indentation == [] then [0x3a] else [0x20, 0x3a, 0x20];
    Style(indentation, comments, colon, if dropNullPlaceholders then [] else NULL_TEXT, [], emitUTF8, newline, realText)
  }

  // ---- the text ----

  predicate Container(v: Value) { v.payload.Array? || v.payload.Object? }

  /** `Value::empty` of a container: no member, or no element below the size. */
  predicate HasEntries(v: Value) {
    match v.payload
    case Array(m) => ArraySize(m) != 0
    case Object(m) => m.Entry?
    case _ => false
  }

  /** What `writeIndent` writes. */
  function Indent(style: Style, indent: ByteString): ByteString {
    if style.indentation == [] then [] else (if style.newline then [0x0a] else []) + indent
  }

  function Lead(style: Style, indent: ByteString, indented: bool): ByteString {
    if indented then [] else Indent(style, indent)
  }

  /** The text of a value that fits on one line whatever its length: a scalar or an empty container. */
  function FlatText(style: Style, v: Value): ByteString {
    match v.payload
    case Null => style.nullSymbol
    case Int(i) => IntegerText(i)
    case UInt(u) => IntegerText(u)
    case Real(d) => style.realText(d)
    case String(s) => Quoted(s, style.emitUTF8)
    case Bool(b) => if b then TRUE_TEXT else FALSE_TEXT
    case Array(_) => LBRACKET + RBRACKET
    case Object(_) => LBRACE + RBRACE
  }

  /** Some element from index `i` on is a container with entries. */
  predicate NestedFrom(m: ObjectValues, i: nat, size: nat)
    decreases size - i
  {
    i < size && (HasEntries(Get(m, Index(i))) || NestedFrom(m, i + 1, size))
  }

  /** The texts of the elements below index `i`. */
  function ChildTexts(style: Style, m: ObjectValues, i: nat): (texts: seq<ByteString>)
    ensures |texts| == i
  {
    if i == 0 then [] else ChildTexts(style, m, i - 1) + [FlatText(style, Get(m, Index(i - 1)))]
  }

  function TotalLength(texts: seq<ByteString>): nat {
    if texts == [] then 0 else TotalLength(texts[..|texts| - 1]) + |texts[|texts| - 1]|
  }

  /** A 32-bit unsigned result. */
  function Wrap32(n: nat): nat { n % TWO_TO_THE_32 }

  /** `isMultilineArray`; its lengths are 32-bit and wrap around. */
  predicate Multiline(style: Style, m: ObjectValues, size: nat) {
    || Wrap32(size * 3) >= RIGHT_MARGIN
    || NestedFrom(m, 0, size)
    || Wrap32(4 + (size - 1) * 2 + TotalLength(ChildTexts(style, m, size))) >= RIGHT_MARGIN
  }

  /** Whether an array goes on several lines. */
  predicate Spread(style: Style, m: ObjectValues) {
    style.comments == AllComments || Multiline(style, m, ArraySize(m))
  }

  function OneLine(style: Style, texts: seq<ByteString>, i: nat): ByteString
    requires i <= |texts|
    decreases |texts| - i
  {
    if i == |texts| then []
    else (if i > 0 then COMMA + Space(style) else []) + texts[i] + OneLine(style, texts, i + 1)
  }

  function Space(style: Style): ByteString { if style.indentation == [] then [] else [0x20] }

  /** The text of a value at an indent; `indented` tells whether the indent is already written. */
  function StyledText(style: Style, v: Value, indent: ByteString, indented: bool): ByteString
    decreases Weight(v), 0
  {
    if !HasEntries(v) then FlatText(style, v)
    else
      match v.payload
      case Array(m) =>
        if Spread(style, m) then
          Lead(style, indent, indented) + LBRACKET
            + StyledElements(style, m, 0, ArraySize(m), indent + style.indentation)
            + Indent(style, indent) + RBRACKET
        else
          LBRACKET + Space(style) + OneLine(style, ChildTexts(style, m, ArraySize(m)), 0) + Space(style) + RBRACKET
      case Object(m) =>
        Lead(style, indent, indented) + LBRACE + StyledMembers(style, m, indent + style.indentation)
          + Indent(style, indent) + RBRACE
      case _ => []
  }

  function StyledElements(style: Style, m: ObjectValues, i: nat, size: nat, indent: ByteString): ByteString
    requires i < size
    decreases MapWeight(m) + 2, size - i
  {
    Indent(style, indent) + StyledText(style, Get(m, Index(i)), indent, true)
      + if i + 1 == size then [] else COMMA + StyledElements(style, m, i + 1, size, indent)
  }

  function StyledMember(style: Style, name: ByteString, v: Value, indent: ByteString): ByteString
    decreases Weight(v), 1
  {
    Indent(style, indent) + Quoted(name, style.emitUTF8) + style.colonSymbol + StyledText(style, v, indent, false)
  }

  function StyledMembers(style: Style, m: ObjectValues, indent: ByteString): ByteString
    decreases MapWeight(m) + 2, 0
  {
    match m
    case Empty => []
    case Entry(key, value, rest) =>
      StyledMember(style, KeyText(key), value, indent)
        + if rest.Empty? then [] else COMMA + StyledMembers(style, rest, indent)
  }

  /** Whether the writer still has the indent of the line behind it after a value. */
  predicate StaysIndented(style: Style, v: Value, indented: bool) {
    indented && !(HasEntries(v) && (v.payload.Array? ==> Spread(style, v.payload.values)))
  }

  class BuiltStyledStreamWriter {
    const style: Style
    var childValues: seq<ByteString>
    var indentString: ByteString
    var addChildValues: bool
    var indented: bool
    var sout: ByteString

    /** Child texts are only ever collected for arrays that may go on one line. */
    ghost predicate Valid()
      reads this
    {
      style.comments == AllComments ==> childValues == []
    }

    constructor (style: Style)
      ensures this.style == style && Valid() && sout == []
    {
      this.style := style;
      childValues, indentString, addChildValues, indented, sout := [], [], false, false, [];
    }

    method Write(root: Value)
      requires Valid() && Shaped(root)
      modifies this
      ensures Valid() && sout == old(sout) + StyledText(style, root, [], true) + style.endingLineFeed
    {
      // Without a comment before the root, the root counts as indented.
      addChildValues, indented, indentString := false, true, [];
      WriteValue(root);
      sout := sout + style.endingLineFeed;
    }

    method WriteValue(value: Value)
      requires Valid() && Shaped(value) && (addChildValues ==> !HasEntries(value) && style.comments == NoComments)
      modifies this
      ensures Valid() && indentString == old(indentString) && addChildValues == old(addChildValues)
      ensures addChildValues ==> sout == old(sout) && childValues == old(childValues) + [FlatText(style, value)]
                                 && indented == old(indented)
      ensures !addChildValues ==> sout == old(sout) + StyledText(style, value, indentString, old(indented))
                                  && indented == StaysIndented(style, value, old(indented))
      decreases Weight(value), 3
    {
      match value.payload {
        case Null => PushValue(style.nullSymbol);
        case Int(i) =>
          var text := IntToString(i);
          PushValue(text);
        case UInt(u) =>
          var text := UIntToText(u);
          PushValue(text);
        case Real(d) => PushValue(style.realText(d));
        case String(s) =>
          var text := ValueToQuotedStringN(s, style.emitUTF8);
          PushValue(text);
        case Bool(b) => PushValue(if b then TRUE_TEXT else FALSE_TEXT);
        case Array(m) => WriteArrayValue(value, m);
        case Object(m) =>
          if Keys(m) == [] {
            PushValue(LBRACE + RBRACE);
          } else {
            WriteObjectValue(value, m);
          }
      }
    }

    /** The object case of `writeValue`, for an object with members. */
    method WriteObjectValue(value: Value, m: ObjectValues)
      requires Valid() && Shaped(value) && value.payload == Object(m) && m.Entry? && !addChildValues
      modifies this
      ensures Valid() && indentString == old(indentString) && !addChildValues && !indented
      ensures sout == old(sout) + StyledText(style, value, indentString, old(indented))
      decreases Weight(value), 0
    {
      hide StyledMembers, StyledText, Lead, Indent, Sorted, ShapedEntries;
      WriteWithIndent(LBRACE);
      IndentMore();
      WriteMembers(m);
      ObjectText(style, value, m, old(indentString), old(indented));
      Finish(old(sout), Lead(style, old(indentString), old(indented)), LBRACE, StyledMembers(style, m, indentString),
             Indent(style, old(indentString)), RBRACE);
      IndentLess();
      WriteWithIndent(RBRACE);
    }

    /** The loop over the members. */
    method WriteMembers(m: ObjectValues)
      requires Valid() && Sorted(m) && ShapedEntries(m, false) && m.Entry? && !addChildValues && !indented
      modifies this
      ensures Valid() && indentString == old(indentString) && !addChildValues && !indented
      ensures sout == old(sout) + StyledMembers(style, m, indentString)
      decreases MapWeight(m) + 2, 5
    {
      assert From(m, 0) == m;
      hide StyledMembers, StyledMember, Keys, From, Indent, Sorted, ShapedEntries;
      var members, it := Keys(m), 0;
      assert |members| > 0 by { KeysOfEntry(m); }
      ghost var written: ByteString := [];
      while true
        invariant it < |members|
        invariant Valid() && !addChildValues && !indented && indentString == old(indentString)
        invariant sout == old(sout) + written
        invariant written + StyledMembers(style, From(m, it), indentString) == StyledMembers(style, m, indentString)
        decreases |members| - it
      {
        MemberAt(m, it);
        var name := KeyText(members[it]);
        var childValue := Get(m, Name(name));
        ghost var text := StyledMember(style, name, childValue, indentString);
        WriteMember(name, childValue);
        MemberWritten(style, From(m, it), indentString, written);
        Concat(old(sout), written, text);
        it := it + 1;
        if it == |members| {
          break;
        }
        sout := sout + COMMA;
        Concat(old(sout), written + text, COMMA);
        written := written + text + COMMA;
      }
    }

    /** One turn of that loop, up to the value of the member. */
    method WriteMember(name: ByteString, childValue: Value)
      requires Valid() && Shaped(childValue) && !addChildValues && !indented
      modifies this
      ensures Valid() && !addChildValues && !indented && indentString == old(indentString)
      ensures sout == old(sout) + StyledMember(style, name, childValue, indentString)
      decreases Weight(childValue), 4
    {
      hide Quoted, StyledText, Indent;
      var quoted := ValueToQuotedStringN(name, style.emitUTF8);
      WriteWithIndent(quoted);
      sout := sout + style.colonSymbol;
      WriteValue(childValue);
    }

    method WriteArrayValue(value: Value, m: ObjectValues)
      requires Valid() && Shaped(value) && value.payload == Array(m)
      requires addChildValues ==> !HasEntries(value) && style.comments == NoComments
      modifies this
      ensures Valid() && indentString == old(indentString) && addChildValues == old(addChildValues)
      ensures addChildValues ==> sout == old(sout) && childValues == old(childValues) + [FlatText(style, value)]
                                 && indented == old(indented)
      ensures !addChildValues ==> sout == old(sout) + StyledText(style, value, indentString, old(indented))
                                  && indented == StaysIndented(style, value, old(indented))
      decreases Weight(value), 2
    {
      var size := ArraySize(m);
      if size == 0 {
        PushValue(LBRACKET + RBRACKET);
      } else {
        var isMultiLine := style.comments == AllComments;
        if !isMultiLine {
          isMultiLine := IsMultilineArray(value, m);
        }
        if isMultiLine {
          WriteLines(value, m);
        } else {
          assert |childValues| == size;
          WriteOneLine(m);
        }
      }
    }

    /** An array on one line, from the texts of its elements. */
    method WriteOneLine(m: ObjectValues)
      requires Valid() && childValues == ChildTexts(style, m, ArraySize(m))
      modifies this`sout
      ensures sout == old(sout) + (LBRACKET + Space(style) + OneLine(style, childValues, 0) + Space(style) + RBRACKET)
    {
      hide OneLine, ChildTexts;
      sout := sout + LBRACKET;
      if style.indentation != [] {
        sout := sout + [0x20];
      }
      WriteChildValues(ArraySize(m));
      if style.indentation != [] {
        sout := sout + [0x20];
      }
      sout := sout + RBRACKET;
      Finish(old(sout), LBRACKET, Space(style), OneLine(style, childValues, 0), Space(style), RBRACKET);
    }

    method WriteChildValues(size: nat)
      requires |childValues| == size
      modifies this`sout
      ensures sout == old(sout) + OneLine(style, childValues, 0)
    {
      hide OneLine;
      ghost var written: ByteString := [];
      for index := 0 to size
        invariant sout == old(sout) + written
        invariant written + OneLine(style, childValues, index) == OneLine(style, childValues, 0)
      {
        var comma := if index == 0 then [] else if style.indentation != [] then COMMA + [0x20] else COMMA;
        sout := sout + comma;
        sout := sout + childValues[index];
        OneWritten(style, childValues, index, written);
        Concat(old(sout), written, comma);
        Concat(old(sout), written + comma, childValues[index]);
        written := written + comma + childValues[index];
      }
      OneEnd(style, childValues);
    }

    /** An array on several lines. */
    method WriteLines(value: Value, m: ObjectValues)
      requires Valid() && Shaped(value) && value.payload == Array(m) && ArraySize(m) > 0 && !addChildValues
      requires Spread(style, m)
      requires childValues != [] ==> !NestedFrom(m, 0, ArraySize(m))
      requires childValues != [] ==> childValues == ChildTexts(style, m, ArraySize(m))
      modifies this
      ensures Valid() && indentString == old(indentString) && !addChildValues && !indented
      ensures sout == old(sout) + StyledText(style, value, indentString, old(indented))
      decreases Weight(value), 0
    {
      hide StyledElements, StyledText, Lead, Indent, Spread, FlatText, Sorted, ShapedEntries;
      var size := ArraySize(m);
      WriteWithIndent(LBRACKET);
      IndentMore();
      var hasChildValue := childValues != [];
      var index := 0;
      ghost var start, written: ByteString := sout, [];
      while true
        invariant index < size
        invariant Valid() && !addChildValues && !indented && indentString == old(indentString) + style.indentation
        invariant hasChildValue ==> childValues == old(childValues)
        invariant sout == start + written
        invariant written + StyledElements(style, m, index, size, indentString)
                  == StyledElements(style, m, 0, size, indentString)
        decreases size - index
      {
        var childValue := Get(m, Index(index));
        ghost var text := Indent(style, indentString) + StyledText(style, childValue, indentString, true);
        ShapedLookup(m, Index(index), true);
        if hasChildValue {
          ChildTextAt(style, m, size, index);
          FlatAt(m, 0, index, size);
        }
        WriteElement(childValue, index, hasChildValue);
        ElementWritten(style, m, index, size, indentString, written);
        Concat(start, written, text);
        index := index + 1;
        if index == size {
          written := written + text;
          break;
        }
        sout := sout + COMMA;
        Concat(start, written + text, COMMA);
        written := written + text + COMMA;
      }
      LinesText(style, value, m, old(indentString), old(indented));
      Finish(old(sout), Lead(style, old(indentString), old(indented)), LBRACKET, written,
             Indent(style, old(indentString)), RBRACKET);
      IndentLess();
      WriteWithIndent(RBRACKET);
    }

    /** One turn of that loop: the text collected for an element, or the text it has now. */
    method WriteElement(childValue: Value, index: nat, hasChildValue: bool)
      requires Valid() && Shaped(childValue) && !addChildValues && !indented
      requires hasChildValue ==>
                 index < |childValues| && !HasEntries(childValue) && childValues[index] == FlatText(style, childValue)
      modifies this
      ensures Valid() && !addChildValues && !indented && indentString == old(indentString)
      ensures hasChildValue ==> childValues == old(childValues)
      ensures sout == old(sout) + (Indent(style, indentString) + StyledText(style, childValue, indentString, true))
      decreases Weight(childValue), 4
    {
      hide StyledText, Indent, FlatText;
      if hasChildValue {
        FlatIsStyled(style, childValue, indentString, true);
        WriteWithIndent(childValues[index]);
      } else {
        if !indented {
          WriteIndent();
        }
        indented := true;
        WriteValue(childValue);
        indented := false;
      }
    }

    /** The size of `childValues` is the size of the array whenever the answer is no. */
    method IsMultilineArray(value: Value, m: ObjectValues) returns (isMultiLine: bool)
      requires Valid() && Shaped(value) && value.payload == Array(m) && ArraySize(m) > 0
      requires !addChildValues && style.comments == NoComments
      modifies this
      ensures Valid() && !addChildValues && indented == old(indented) && sout == old(sout)
              && indentString == old(indentString)
      ensures isMultiLine == Multiline(style, m, ArraySize(m))
      ensures childValues == []
           || (!NestedFrom(m, 0, ArraySize(m)) && childValues == ChildTexts(style, m, ArraySize(m)))
      ensures !isMultiLine ==> childValues == ChildTexts(style, m, ArraySize(m))
      decreases Weight(value), 1
    {
      var size := ArraySize(m);
      isMultiLine := Wrap32(size * 3) >= RIGHT_MARGIN;
      childValues := [];
      var index := 0;
      while index < size && !isMultiLine
        invariant index <= size
        invariant Wrap32(size * 3) >= RIGHT_MARGIN ==> isMultiLine
        invariant isMultiLine ==> Wrap32(size * 3) >= RIGHT_MARGIN || NestedFrom(m, 0, size)
        invariant !isMultiLine ==> NestedFrom(m, 0, size) == NestedFrom(m, index, size)
        decreases size - index, !isMultiLine
      {
        var childValue := Get(m, Index(index));
        isMultiLine := Container(childValue) && HasEntries(childValue);
        index := index + 1;
      }
      if !isMultiLine {
        var lineLength := CollectChildValues(value, m);
        isMultiLine := isMultiLine || lineLength >= RIGHT_MARGIN;
      }
    }

    /** The second half of `isMultilineArray`: it collects the texts of the elements and counts the line. */
    method CollectChildValues(value: Value, m: ObjectValues) returns (lineLength: nat)
      requires Valid() && Shaped(value) && value.payload == Array(m) && ArraySize(m) > 0
               && !NestedFrom(m, 0, ArraySize(m))
      requires !addChildValues && style.comments == NoComments && childValues == []
      modifies this
      ensures Valid() && !addChildValues && indented == old(indented) && sout == old(sout)
              && indentString == old(indentString)
      ensures childValues == ChildTexts(style, m, ArraySize(m))
      ensures lineLength == Wrap32(4 + (ArraySize(m) - 1) * 2 + TotalLength(childValues))
      decreases Weight(value), 0
    {
      hide NestedFrom, FlatText, ChildTexts, TotalLength, Wrap32, Sorted, ShapedEntries, HasEntries;
      NoTexts(style, m);
      var size := ArraySize(m);
      addChildValues := true;
      lineLength := Wrap32(4 + (size - 1) * 2);
      for index := 0 to size
        invariant Valid() && addChildValues && indented == old(indented) && sout == old(sout)
                  && indentString == old(indentString)
        invariant childValues == ChildTexts(style, m, index)
        invariant lineLength == Wrap32(4 + (size - 1) * 2 + TotalLength(childValues))
      {
        ShapedLookup(m, Index(index), true);
        FlatAt(m, 0, index, size);
        WriteValue(Get(m, Index(index)));
        TextStep(style, m, index);
        WrappedSum(4 + (size - 1) * 2 + TotalLength(ChildTexts(style, m, index)), |childValues[index]|);
        lineLength := Wrap32(lineLength + Wrap32(|childValues[index]|));
      }
      addChildValues := false;
    }

    method PushValue(text: ByteString)
      modifies this`childValues, this`sout
      ensures if addChildValues then childValues == old(childValues) + [text] && sout == old(sout)
              else childValues == old(childValues) && sout == old(sout) + text
    {
      if addChildValues {
        childValues := childValues + [text];
      } else {
        sout := sout + text;
      }
    }

    method WriteIndent()
      modifies this`sout
      ensures sout == old(sout) + Indent(style, indentString)
    {
      if style.indentation != [] {
        if style.newline {
          sout := sout + [0x0a];
        }
        sout := sout + indentString;
      }
    }

    method WriteWithIndent(text: ByteString)
      modifies this`sout, this`indented
      ensures sout == old(sout) + Lead(style, indentString, old(indented)) + text && !indented
    {
      if !indented {
        WriteIndent();
      }
      sout := sout + text;
      indented := false;
    }

    /** `indent`. */
    method IndentMore()
      modifies this`indentString
      ensures indentString == old(indentString) + style.indentation
    {
      indentString := indentString + style.indentation;
    }

    /** `unindent`; its assertion holds because every indent is matched. */
    method IndentLess()
      requires |indentString| >= |style.indentation|
      modifies this`indentString
      ensures forall base: ByteString :: old(indentString) == base + style.indentation ==> indentString == base
    {
      indentString := indentString[..|indentString| - |style.indentation|];
    }
  }

  // ---- steps of the loops ----

  lemma WrappedSum(a: nat, b: nat)
    ensures Wrap32(Wrap32(a) + Wrap32(b)) == Wrap32(a + b)
  {
  }

  lemma Concat(s: ByteString, t: ByteString, u: ByteString)
    ensures s + t + u == s + (t + u)
  {
  }

  lemma Finish(start: ByteString, lead: ByteString, open: ByteString, written: ByteString, indent: ByteString,
               close: ByteString)
    ensures start + lead + open + written + indent + close == start + (lead + open + written + indent + close)
  {
  }

  lemma ObjectText(style: Style, v: Value, m: ObjectValues, indent: ByteString, indented: bool)
    requires v.payload == Object(m) && m.Entry?
    ensures StyledText(style, v, indent, indented)
         == Lead(style, indent, indented) + LBRACE + StyledMembers(style, m, indent + style.indentation)
            + Indent(style, indent) + RBRACE
    ensures Lead(style, indent, false) == Indent(style, indent)
  {
  }

  lemma LinesText(style: Style, v: Value, m: ObjectValues, indent: ByteString, indented: bool)
    requires v.payload == Array(m) && ArraySize(m) > 0 && Spread(style, m)
    ensures StyledText(style, v, indent, indented)
         == Lead(style, indent, indented) + LBRACKET
            + StyledElements(style, m, 0, ArraySize(m), indent + style.indentation) + Indent(style, indent) + RBRACKET
    ensures Lead(style, indent, false) == Indent(style, indent)
  {
  }

  lemma FlatIsStyled(style: Style, v: Value, indent: ByteString, indented: bool)
    requires !HasEntries(v)
    ensures StyledText(style, v, indent, indented) == FlatText(style, v)
    ensures Lead(style, indent, false) == Indent(style, indent)
  {
  }

  lemma KeysOfEntry(m: ObjectValues)
    ensures Keys(m) == [] <==> m.Empty?
  {
  }

  lemma MemberWritten(style: Style, left: ObjectValues, indent: ByteString, written: ByteString)
    requires left.Entry?
    ensures var text := StyledMember(style, KeyText(left.key), left.value, indent);
            written + StyledMembers(style, left, indent)
            == if left.rest.Empty? then written + text
               else written + text + COMMA + StyledMembers(style, left.rest, indent)
  {
    hide StyledMember;
  }

  lemma ElementWritten(style: Style, m: ObjectValues, i: nat, size: nat, indent: ByteString, written: ByteString)
    requires i < size
    ensures var text := Indent(style, indent) + StyledText(style, Get(m, Index(i)), indent, true);
            written + StyledElements(style, m, i, size, indent)
            == if i + 1 == size then written + text
               else written + text + COMMA + StyledElements(style, m, i + 1, size, indent)
  {
    hide StyledText, Indent;
  }

  lemma OneWritten(style: Style, texts: seq<ByteString>, i: nat, written: ByteString)
    requires i < |texts|
    ensures written + OneLine(style, texts, i)
         == written + (if i == 0 then [] else if style.indentation != [] then COMMA + [0x20] else COMMA) + texts[i]
            + OneLine(style, texts, i + 1)
  {
  }

  lemma OneEnd(style: Style, texts: seq<ByteString>)
    ensures OneLine(style, texts, |texts|) == []
  {
  }

  lemma {:induction false} ChildTextAt(style: Style, m: ObjectValues, size: nat, i: nat)
    requires i < size
    ensures ChildTexts(style, m, size)[i] == FlatText(style, Get(m, Index(i)))
  {
    if i + 1 < size {
      ChildTextAt(style, m, size - 1, i);
    }
  }

  lemma {:induction false} FlatAt(m: ObjectValues, from: nat, i: nat, size: nat)
    requires from <= i < size && !NestedFrom(m, from, size)
    ensures !HasEntries(Get(m, Index(i)))
    decreases size - from
  {
    if from < i {
      FlatAt(m, from + 1, i, size);
    }
  }

  lemma NoTexts(style: Style, m: ObjectValues)
    ensures ChildTexts(style, m, 0) == [] && TotalLength([]) == 0
  {
  }

  lemma TextStep(style: Style, m: ObjectValues, i: nat)
    ensures ChildTexts(style, m, i + 1) == ChildTexts(style, m, i) + [FlatText(style, Get(m, Index(i)))]
    ensures TotalLength(ChildTexts(style, m, i + 1))
         == TotalLength(ChildTexts(style, m, i)) + |FlatText(style, Get(m, Index(i)))|
  {
    assert ChildTexts(style, m, i + 1)[..i] == ChildTexts(style, m, i);
  }

  // ---- the text spells the tokens ----

  /** A style that drops nothing and puts only white space between the tokens. */
  predicate Faithful(style: Style) {
    style.nullSymbol == NULL_TEXT && Blank(style.indentation) && Spells(style.colonSymbol, 0, [COLON])
      && Blank(style.endingLineFeed)
  }

  lemma BlankConcat(s: ByteString, t: ByteString)
    requires Blank(s) && Blank(t)
    ensures Blank(s + t)
  {
  }

  lemma LeadSpells(style: Style, indent: ByteString, indented: bool)
    requires Blank(indent)
    ensures Spells(Lead(style, indent, indented), 0, []) && Spells(Indent(style, indent), 0, [])
    ensures Spells(Space(style), 0, [])
  {
    BlankConcat([0x0a], indent);
    BlankSpells(Lead(style, indent, indented));
    BlankSpells(Indent(style, indent));
    BlankSpells(Space(style));
  }

  lemma FlatTextSpells(style: Style, v: Value)
    requires Writable(v, style.emitUTF8) && Faithful(style) && !HasEntries(v)
    ensures Spells(FlatText(style, v), 0, Tokens(v, style.emitUTF8))
  {
    hide Spells, ElementTokens, Quoted;
    match v.payload
    case Null => TokenSpells(NULL_TEXT);
    case Int(i) =>
      IntegerTextStarts(i);
      TokenSpells(IntegerText(i));
    case UInt(u) =>
      IntegerTextStarts(u);
      TokenSpells(IntegerText(u));
    case String(s) =>
      QuotedStarts(s, style.emitUTF8);
      TokenSpells(Quoted(s, style.emitUTF8));
    case Bool(b) => TokenSpells(if b then TRUE_TEXT else FALSE_TEXT);
    case Array(m) =>
      BlankSpells([]);
      Bracketed(LBRACKET, [], [], RBRACKET);
      assert LBRACKET + [] + RBRACKET == LBRACKET + RBRACKET;
    case Object(m) =>
      BlankSpells([]);
      Bracketed(LBRACE, [], [], RBRACE);
      assert LBRACE + [] + RBRACE == LBRACE + RBRACE;
  }

  /** Entries between brackets, with blanks around the brackets. */
  lemma BlockSpells(lead: ByteString, open: ByteString, space: ByteString, inner: ByteString, toks: seq<ByteString>,
                    indent: ByteString, close: ByteString)
    requires Spells(lead, 0, []) && Spells(space, 0, []) && Spells(inner, 0, toks) && Spells(indent, 0, [])
    requires open != [] && !IsSpace(open[0]) && close != [] && !IsSpace(close[0])
    ensures Spells(lead + open + space + inner + indent + close, 0, [open] + toks + [close])
  {
    hide Spells;
    SpellsConcat(space, 0, [], inner, toks);
    SpellsConcat(space + inner, 0, [] + toks, indent, []);
    Bracketed(open, space + inner + indent, [] + toks + [], close);
    SpellsConcat(lead, 0, [], open + (space + inner + indent) + close, [open] + ([] + toks + []) + [close]);
    assert lead + (open + (space + inner + indent) + close) == lead + open + space + inner + indent + close;
    assert [] + ([open] + ([] + toks + []) + [close]) == [open] + toks + [close];
  }

  lemma {:induction false} StyledTextSpells(style: Style, v: Value, indent: ByteString, indented: bool)
    requires Writable(v, style.emitUTF8) && Faithful(style) && Blank(indent)
    ensures Spells(StyledText(style, v, indent, indented), 0, Tokens(v, style.emitUTF8))
    decreases Weight(v), 1
  {
    hide Spells, StyledText, Tokens;
    if !HasEntries(v) {
      FlatTextSpells(style, v);
      FlatIsStyled(style, v, indent, indented);
    } else if v.payload.Object? {
      ObjectTextSpells(style, v, indent, indented);
    } else {
      ArrayTextSpells(style, v, indent, indented);
    }
  }

  lemma ObjectTextSpells(style: Style, v: Value, indent: ByteString, indented: bool)
    requires Writable(v, style.emitUTF8) && Faithful(style) && Blank(indent) && v.payload.Object? && HasEntries(v)
    ensures Spells(StyledText(style, v, indent, indented), 0, Tokens(v, style.emitUTF8))
    decreases Weight(v), 0
  {
    hide Spells, StyledText, StyledMembers, MemberTokens, Lead, Indent;
    var m := v.payload.values;
    ObjectText(style, v, m, indent, indented);
    LeadSpells(style, indent, indented);
    BlankConcat(indent, style.indentation);
    StyledMembersSpell(style, m, indent + style.indentation);
    BlankSpells([]);
    BlockSpells(Lead(style, indent, indented), LBRACE, [], StyledMembers(style, m, indent + style.indentation),
                MemberTokens(m, style.emitUTF8), Indent(style, indent), RBRACE);
    assert Lead(style, indent, indented) + LBRACE + [] == Lead(style, indent, indented) + LBRACE;
  }

  lemma ArrayTextSpells(style: Style, v: Value, indent: ByteString, indented: bool)
    requires Writable(v, style.emitUTF8) && Faithful(style) && Blank(indent) && v.payload.Array? && HasEntries(v)
    ensures Spells(StyledText(style, v, indent, indented), 0, Tokens(v, style.emitUTF8))
    decreases Weight(v), 0
  {
    hide Spells, StyledText, StyledElements, ElementTokens, Lead, Indent, Spread, OneLine, Space, ArraySize;
    hide ChildTexts, WritableElements;
    var m := v.payload.values;
    var size := ArraySize(m);
    LeadSpells(style, indent, indented);
    EmptyArraySize(m, style.emitUTF8);
    BlankSpells([]);
    if Spread(style, m) {
      LinesText(style, v, m, indent, indented);
      BlankConcat(indent, style.indentation);
      StyledElementsSpell(style, m, 0, size, indent + style.indentation);
      BlockSpells(Lead(style, indent, indented), LBRACKET, [],
                  StyledElements(style, m, 0, size, indent + style.indentation),
                  ElementTokens(m, 0, size, style.emitUTF8), Indent(style, indent), RBRACKET);
      assert Lead(style, indent, indented) + LBRACKET + [] == Lead(style, indent, indented) + LBRACKET;
    } else {
      OneLineText(style, v, m, indent, indented);
      OneLineSpells(style, m, 0, size);
      assert FirstComma(0) + ElementTokens(m, 0, size, style.emitUTF8) == ElementTokens(m, 0, size, style.emitUTF8);
      BlockSpells([], LBRACKET, Space(style), OneLine(style, ChildTexts(style, m, size), 0),
                  ElementTokens(m, 0, size, style.emitUTF8), Space(style), RBRACKET);
      assert [] + LBRACKET == LBRACKET;
    }
  }

  lemma OneLineText(style: Style, v: Value, m: ObjectValues, indent: ByteString, indented: bool)
    requires v.payload == Array(m) && ArraySize(m) > 0 && !Spread(style, m)
    ensures StyledText(style, v, indent, indented)
         == LBRACKET + Space(style) + OneLine(style, ChildTexts(style, m, ArraySize(m)), 0) + Space(style) + RBRACKET
    ensures !NestedFrom(m, 0, ArraySize(m))
  {
  }

  lemma {:induction false} OneLineSpells(style: Style, m: ObjectValues, i: nat, size: nat)
    requires WritableElements(m, style.emitUTF8) && Faithful(style) && i < size && m.Entry? && !NestedFrom(m, 0, size)
    ensures Spells(OneLine(style, ChildTexts(style, m, size), i), 0,
                   FirstComma(i) + ElementTokens(m, i, size, style.emitUTF8))
    decreases size - i
  {
    hide Spells, ChildTexts, FlatText, Tokens, Space, NestedFrom;
    var elem, texts := Get(m, Index(i)), ChildTexts(style, m, size);
    var toks := Tokens(elem, style.emitUTF8);
    var comma := if i > 0 then COMMA + Space(style) else [];
    ElementProperties(m, i, style.emitUTF8);
    FlatAt(m, 0, i, size);
    ChildTextAt(style, m, size, i);
    FlatTextSpells(style, elem);
    LeadSpells(style, [], true);
    TokenSpells(COMMA);
    BlankSpells([]);
    SpellsConcat(COMMA, 0, [COMMA], Space(style), []);
    assert [COMMA] + [] == [COMMA];
    SpellsConcat(comma, 0, FirstComma(i), texts[i], toks);
    var others := if i + 1 == size then [] else [COMMA] + ElementTokens(m, i + 1, size, style.emitUTF8);
    if i + 1 < size {
      OneLineSpells(style, m, i + 1, size);
    }
    SpellsConcat(comma + texts[i], 0, FirstComma(i) + toks, OneLine(style, texts, i + 1), others);
    assert FirstComma(i) + toks + others == FirstComma(i) + (toks + others);
  }

  lemma {:induction false} StyledElementsSpell(style: Style, m: ObjectValues, i: nat, size: nat, indent: ByteString)
    requires WritableElements(m, style.emitUTF8) && Faithful(style) && Blank(indent) && i < size && m.Entry?
    ensures Spells(StyledElements(style, m, i, size, indent), 0, ElementTokens(m, i, size, style.emitUTF8))
    decreases MapWeight(m) + 2, size - i
  {
    hide Spells, StyledText, Tokens, Indent;
    var elem := Get(m, Index(i));
    var text, toks := StyledText(style, elem, indent, true), Tokens(elem, style.emitUTF8);
    ElementProperties(m, i, style.emitUTF8);
    StyledTextSpells(style, elem, indent, true);
    LeadSpells(style, indent, true);
    SpellsConcat(Indent(style, indent), 0, [], text, toks);
    assert [] + toks == toks;
    if i + 1 < size {
      StyledElementsSpell(style, m, i + 1, size, indent);
      AfterCommaSpells(Indent(style, indent) + text, toks, StyledElements(style, m, i + 1, size, indent),
                       ElementTokens(m, i + 1, size, style.emitUTF8));
    } else {
      assert Indent(style, indent) + text + [] == Indent(style, indent) + text && toks + [] == toks;
    }
  }

  lemma AfterCommaSpells(text: ByteString, toks: seq<ByteString>, others: ByteString, otherToks: seq<ByteString>)
    requires Spells(text, 0, toks) && Spells(others, 0, otherToks)
    ensures Spells(text + (COMMA + others), 0, toks + ([COMMA] + otherToks))
  {
    TokenSpells(COMMA);
    SpellsConcat(COMMA, 0, [COMMA], others, otherToks);
    SpellsConcat(text, 0, toks, COMMA + others, [COMMA] + otherToks);
  }

  lemma {:induction false} StyledMembersSpell(style: Style, m: ObjectValues, indent: ByteString)
    requires WritableMembers(m, style.emitUTF8) && Faithful(style) && Blank(indent) && m.Entry?
    ensures Spells(StyledMembers(style, m, indent), 0, MemberTokens(m, style.emitUTF8))
    decreases MapWeight(m) + 2, 0
  {
    hide Spells, StyledText, Tokens, Quoted, Indent;
    var member := [Quoted(KeyText(m.key), style.emitUTF8), COLON] + Tokens(m.value, style.emitUTF8);
    StyledTextSpells(style, m.value, indent, false);
    LeadSpells(style, indent, false);
    MemberSpells(Indent(style, indent), [], KeyText(m.key), style.colonSymbol,
                 StyledText(style, m.value, indent, false),
                 Tokens(m.value, style.emitUTF8), style.emitUTF8);
    assert [] + member == member;
    assert Spells(StyledMember(style, KeyText(m.key), m.value, indent), 0, member);
    if m.rest.Entry? {
      StyledMembersSpell(style, m.rest, indent);
      AfterCommaSpells(StyledMember(style, KeyText(m.key), m.value, indent), member,
                       StyledMembers(style, m.rest, indent),
                       MemberTokens(m.rest, style.emitUTF8));
    } else {
      var text := StyledMember(style, KeyText(m.key), m.value, indent);
      assert text + [] == text && member + [] == member;
    }
  }

  // ---- layout never changes meaning ----

  /** Every style the builder makes for a blank indentation is faithful, unless it is told to drop nulls. */
  lemma BuilderIsFaithful(indentation: ByteString, comments: CommentStyle, yaml: bool, emitUTF8: bool, newline: bool,
                          realText: Double -> ByteString)
    requires Blank(indentation)
    ensures Faithful(NewStyle(indentation, comments, yaml, false, emitUTF8, newline, realText))
  {
    hide Spells;
    TokenSpells(COLON);
    BlankSpells([0x20]);
    SpellsConcat(COLON, 0, [COLON], [0x20], []);
    SpellsConcat([0x20], 0, [], COLON + [0x20], [COLON] + []);
    assert [0x20] + (COLON + [0x20]) == [0x20, 0x3a, 0x20] && COLON + [0x20] == [0x3a, 0x20];
    assert [] + ([COLON] + []) == [COLON] == [COLON] + [];
  }

  lemma StyledDocumentSpells(style: Style, v: Value)
    requires Writable(v, style.emitUTF8) && Faithful(style)
    ensures Spells(StyledText(style, v, [], true) + style.endingLineFeed, 0, Tokens(v, style.emitUTF8))
  {
    hide Spells, StyledText, Tokens, Writable;
    StyledTextSpells(style, v, [], true);
    BlankSpells(style.endingLineFeed);
    SpellsConcat(StyledText(style, v, [], true), 0, Tokens(v, style.emitUTF8), style.endingLineFeed, []);
    assert Tokens(v, style.emitUTF8) + [] == Tokens(v, style.emitUTF8);
  }

  /** Two readings that say the same: both throw, or both give the same value with the same verdict. */
  predicate SameReading(r: ParseResult, s: ParseResult) {
    match (r, s)
    case (Parsed(ok, root, _), Parsed(okay, other, _)) => ok == okay && Plain(root) == Plain(other)
    case (ParseThrown(reason), ParseThrown(other)) => reason == other
    case (_, _) => false
  }

  /**
   What the styled writer and the fast writer make of a value reads the same, in every style and under all
   settings.
   */
  lemma LayoutKeepsMeaning(cfg: Settings, style: Style, fast: FastStyle, v: Value, root: Value)
    requires Faithful(style) && !fast.dropNullPlaceholders
    requires Writable(v, style.emitUTF8) && Writable(v, false)
    ensures SameReading(Parse(cfg, StyledText(style, v, [], true) + style.endingLineFeed, root),
                        Parse(cfg, FastText(fast, v) + if fast.omitEndingLineFeed then [] else [0x0a], root))
  {
    hide Parse, StyledText, FastText, Tokens, Writable, Spells, Canon, Faithful;
    StyledDocumentSpells(style, v);
    FastDocumentSpells(fast, v);
    RoundTrip(cfg, StyledText(style, v, [], true) + style.endingLineFeed, v, style.emitUTF8, root);
    RoundTrip(cfg, FastText(fast, v) + if fast.omitEndingLineFeed then [] else [0x0a], v, false, root);
  }
}
