# diagnose-tools, modelled and proved

diagnose-tools collects kernel and process diagnostics. This project models the four parts of it in which there is
something to get wrong, and proves what they are for.

**The JSON codec** (a vendored jsoncpp: `json_reader.cc`, `json_writer.cc`, `json_value.cc`, `json_tool.h`).
`JsonLexer` and `JsonParser` say what `OurReader` reads, as functions of the document, with every setting, the error
recovery and the exceptions; `JsonReader` is the reader as an object with its cursor, node stack and error list,
proved to agree. `JsonFastWriter` and `JsonStyledWriter` are the two writers, each proved to write exactly the text
its specification gives. `JsonText` ties them together: a document *spells* the tokens of a value if it is those
tokens with white space around them; both writers write spellings, and the reader reads every spelling back to the
*canonical form* of the value (unsigned integers that fit become signed, array holes become null). `JsonOffsets` is
about the byte ranges the reader records, `JsonErrors` about its verdict, and `JsonCanonical` about the values that
come back unchanged. `JsonGrammar` is the language the reader accepts, as a grammar of tokens, and `JsonLeniencies`
what is in it that the settings do not ask for. What the grammar takes for granted is said, without the code, in
`JsonLexemes` (which text is which token), `JsonStringMeaning` (what a string literal denotes) and `JsonAtoms`
(numbers, and what a token is worth); `JsonMonotone` compares settings; `JsonDiagnoses` is about the errors,
`JsonLayout` about the look of the two writers' texts, with one of them in `JsonLayoutExample`, and `JsonOrderMeaning`
about the comparison operators. `JsonStrings`, `JsonUnicode` and `JsonNumbers` are the leaves; `JsonOrder` and
`JsonArrays` the value tree.

**SHA-1** (`sha1.cc`). `Sha1Standard` is FIPS 180-4, checked by `Sha1KnownAnswer` against the published digest of
"abc"; `Sha1Stream` is the code, proved against it.

**Symbols and mappings** (`symbol.cc`, `symbol.h`, `elf.cc`). `SymbolSet` is `std::set<symbol>` as a search tree
walked with the program's asymmetric comparison; `Symbols` are the tables made of it; `VmaMap` the memory mappings.

**Kernel-side state** (`entry.c`, `mm_tree.c`, `stack.c`). `Unload` is the unload protocol as interleaved steps of any
number of threads; `MmTree` the ownership of `mm_info`s; `StackTree` the tree of stack traces.

## Conventions

Bytes are integers 0..255. Integers wrap only where written with `%`; the compression function alone uses `bv32`. A
container is a list of entries in key order, as `std::map` iterates. The library's text of doubles, its reading of them,
memory running out and the rebalancing of a tree are parameters. A pointer that may be null is a sequence of at most
one element.

## What the proofs show about the code

- `sha1_final` counts blocks in 32 bits: the digest is SHA-1 for messages under 2^38 bytes, and from there on the padding
  is no longer that of the standard. `calc_sha1` hashes calc_size/4096 + 2 chunks; the name of its caller suggests 1 MB.
- A token `-` decodes to the integer 0. The two readers give 2^31..2^63-1 different types.
- An unterminated C comment is accepted if the document ends in a slash. `'` without its setting is read as the start of
  a comment. A NUL byte is the end of the stream.
- Settings without comments still let comments pass before members and after members and elements; they refuse them
  before values, and every setting does before colons. After a comment that follows a member value any token but a brace
  is taken for the comma. `{"":1,}` is accepted even where trailing commas are not, because the loop looks at the last
  name to see whether there was a member. `JsonLeniencies` has the exact condition of each and a document in strict mode
  that shows it; `JsonGrammar` has the whole language.
- A number is the longest text of digits, fraction and exponent, each with any digits or none, so `1.e` is one token;
  what it is worth is left to the C++ library.
- The second half of a surrogate pair may be any `\u` escape, of which ten bits count, and a low surrogate may stand
  alone. A string in single quotes ends, for the decoder but not for the lexer, at a bare quotation mark in it.
- A value read in place of a missing one gets the byte before the next token for its own.
- With emitUTF8, control characters without a short escape are written raw, against section 7 of RFC 8259. Without it
  a text comes back exactly if it is well-formed UTF-8.
- `operator<` and `operator==` are an order exactly on trees without NaN.
- `find_vma` never finds the highest mapping, and below all mappings it finds the first. A kernel symbol whose address
  another one shares does not cover the addresses it is found for.
- `diagnosis_exit` looks at the probe's flag twice before it unregisters the probe, and `syscall on` and `syscall off`
  are not kept apart. From a state before exit in which nobody is switching the probe on, and if nobody does later,
  unloading is safe exactly if the probe is off, or a `syscall off` has yet to unregister it, or the flag is set and no
  `syscall off` is about to clear it. Written one at a time, the switches keep to that; overlapping, they do not.
- `putin_mm_info` loses the new entry if the radix tree has no memory for it.

## Model

| member | source | states |
|---|---|---|
| `JsonRoundTrip.RoundTrip` | diagnose-tools/SOURCE/diagnose-tools/json_reader.cc:1015-1149 | every settings, every layout: a document spelling a writable value parses to its canonical form with no errors exactly when its depth is within the stack limit, and throws otherwise; a strict root only rejects scalars |
| `JsonRoundTrip.ReadsValue` | diagnose-tools/SOURCE/diagnose-tools/json_reader.cc:1059-1149 | `readValue` on any spelling of a value returns true, adds no error, stops after the value and leaves its canonical form |
| `JsonRoundTrip.ReadsElements` | diagnose-tools/SOURCE/diagnose-tools/json_reader.cc:1500-1540 | `readArray` appends the canonical elements in order and stops after the bracket |
| `JsonRoundTrip.ReadsMembers` | diagnose-tools/SOURCE/diagnose-tools/json_reader.cc:1436-1498 | `readObject` appends the canonical members in key order and stops after the brace |
| `JsonRoundTrip.ReadsScalar` | diagnose-tools/SOURCE/diagnose-tools/json_reader.cc:1081-1121 | a scalar of any kind is read back from its one token |
| `JsonRoundTrip.ThrowsValue` | diagnose-tools/SOURCE/diagnose-tools/json_reader.cc:1063-1064 | a value nested deeper than the limit throws, wherever in the tree the deep part is |
| `JsonRoundTrip.TokenIsLexed` | diagnose-tools/SOURCE/diagnose-tools/json_reader.cc:1161-1267 | each token a writer prints is read whole and with the right kind wherever it stands |
| `JsonFastWriter.FastWriter.Write` | diagnose-tools/SOURCE/diagnose-tools/json_writer.cc:369-375 | the document is the text of the value and, unless omitted, one line feed |
| `JsonFastWriter.FastWriter.WriteValue` | diagnose-tools/SOURCE/diagnose-tools/json_writer.cc:377-429 | appends exactly the text of the value to the document |
| `JsonFastWriter.FastWriter.WriteArray` | diagnose-tools/SOURCE/diagnose-tools/json_writer.cc:405-415 | the loop over the indices appends every element below the size, holes as null, with commas between |
| `JsonFastWriter.FastWriter.WriteObject` | diagnose-tools/SOURCE/diagnose-tools/json_writer.cc:416-429 | the loop over the member names finds each member again and appends them in key order |
| `JsonFastWriter.FastTextSpells` | diagnose-tools/SOURCE/diagnose-tools/json_writer.cc:377-429 | the text spells the tokens of the value |
| `JsonFastWriter.FastRoundTrip` | diagnose-tools/SOURCE/diagnose-tools/json_writer.cc:369-429 | `OurReader` parses what `FastWriter` writes back to the canonical form, without errors, under all settings |
| `JsonFastWriter.OfferedSettingsRoundTrip` | diagnose-tools/SOURCE/diagnose-tools/json_reader.cc:1931-1962 | the same for the default settings, and for strict mode with exactly the container roots accepted |
| `JsonStyledWriter.BuiltStyledStreamWriter.Write` | diagnose-tools/SOURCE/diagnose-tools/json_writer.cc:923-937 | the stream grows by exactly the styled text of the root and the ending line feed |
| `JsonStyledWriter.BuiltStyledStreamWriter.WriteValue` | diagnose-tools/SOURCE/diagnose-tools/json_writer.cc:938-999 | writes the styled text at the current indent, or pushes one child value; the indent string is the same afterwards |
| `JsonStyledWriter.BuiltStyledStreamWriter.WriteMembers` | diagnose-tools/SOURCE/diagnose-tools/json_writer.cc:966-997 | the loop over the members, one line each |
| `JsonStyledWriter.BuiltStyledStreamWriter.WriteArrayValue` | diagnose-tools/SOURCE/diagnose-tools/json_writer.cc:1001-1049 | chooses between lines and one line; the assertion on the number of child values holds |
| `JsonStyledWriter.BuiltStyledStreamWriter.WriteLines` | diagnose-tools/SOURCE/diagnose-tools/json_writer.cc:1007-1033 | the multi-line form, from collected child values or from the elements |
| `JsonStyledWriter.BuiltStyledStreamWriter.WriteOneLine` | diagnose-tools/SOURCE/diagnose-tools/json_writer.cc:1033-1047 | the one-line form, from the collected child values |
| `JsonStyledWriter.BuiltStyledStreamWriter.IsMultilineArray` | diagnose-tools/SOURCE/diagnose-tools/json_writer.cc:1051-1076 | answers by size, nesting and line length, in 32-bit arithmetic; on no, there is one child value per element |
| `JsonStyledWriter.BuiltStyledStreamWriter.IndentLess` | diagnose-tools/SOURCE/diagnose-tools/json_writer.cc:1108-1111 | undoes the matching indent; its assertion is a proved precondition |
| `JsonStyledWriter.StyledTextSpells` | diagnose-tools/SOURCE/diagnose-tools/json_writer.cc:938-1049 | in every faithful style, at every indent, the styled text spells the tokens of the value |
| `JsonStyledWriter.BuilderIsFaithful` | diagnose-tools/SOURCE/diagnose-tools/json_writer.cc:1161-1202 | every style the builder makes with a blank indentation and nulls kept is faithful |
| `JsonStyledWriter.LayoutKeepsMeaning` | diagnose-tools/SOURCE/diagnose-tools/json_writer.cc:923-1111 | styled and fast text of a value read the same under all settings: same value and verdict, or the same exception |
| `JsonLayout.StyledLayout` | diagnose-tools/SOURCE/diagnose-tools/json_writer.cc:923-1111 | byte for byte the styled text is the lines of the value, each behind a line feed and as many indentations as it is deep; every entry of a container that is spread starts a line |
| `JsonLayout.ValueLaid` | diagnose-tools/SOURCE/diagnose-tools/json_writer.cc:938-1049 | the same for a value at any depth |
| `JsonLayout.SpreadIff` | diagnose-tools/SOURCE/diagnose-tools/json_writer.cc:1001-1076 | an array is spread exactly if comments are on, it holds a container with entries, or its line would take 74 columns, to 32 bits |
| `JsonLayout.OneLineIsShort` | diagnose-tools/SOURCE/diagnose-tools/json_writer.cc:1051-1076 | no array stands on one line of 74 columns or more, up to 2^32 |
| `JsonLayout.FastLayout` | diagnose-tools/SOURCE/diagnose-tools/json_writer.cc:369-429 | the fast text is the tokens of the value with nothing between them |
| `JsonLayoutExample.ExampleText` | diagnose-tools/SOURCE/diagnose-tools/json_writer.cc:1161-1202 | a nested value as the writer of the builder prints it with tabs, byte for byte: colons with blanks, braces on lines of their own, a short array behind its name |
| `JsonCanonical.CanonicalIff` | diagnose-tools/SOURCE/diagnose-tools/json_reader.cc:1623-1627 | a value is its own canonical form exactly if it has no unsigned integer that fits a signed one and no array holes |
| `JsonCanonical.ComesBackEqualIff` | diagnose-tools/SOURCE/diagnose-tools/json_value.cc:539-579 | what is parsed is canonical, and `operator==` finds it equal to what was written exactly if that was canonical |
| `JsonText.SpellsConcat` | diagnose-tools/SOURCE/diagnose-tools/json_writer.cc:369-429 | text appended to text spells the tokens of both |
| `JsonOffsets.ParseIsLocated` | diagnose-tools/SOURCE/diagnose-tools/json_reader.cc:1059-1149 | a successful parse, under any settings, has no errors; offsets nest strictly and every value rereads from its own bytes exactly if no value of the tree was missing |
| `JsonOffsets.ValueLocated` | diagnose-tools/SOURCE/diagnose-tools/json_reader.cc:1059-1149 | one value: no error, and unless a value in it was missing it is located within what was read |
| `JsonOffsets.ValueLocal` | diagnose-tools/SOURCE/diagnose-tools/json_reader.cc:1059-1149 | reading a piece of the document, at no greater depth, gives the same value shifted |
| `JsonOffsets.MembersLocal` | diagnose-tools/SOURCE/diagnose-tools/json_reader.cc:1436-1498 | the same for the loop of `readObject`, comments and repeated keys included |
| `JsonOffsets.ElementsLocal` | diagnose-tools/SOURCE/diagnose-tools/json_reader.cc:1500-1540 | the same for the loop of `readArray` |
| `JsonOffsets.DroppedNullNeverRereads` | diagnose-tools/SOURCE/diagnose-tools/json_reader.cc:1123-1134 | a missing value read as null gets a range that never parses to it |
| `JsonLocality.TokenLocal` | diagnose-tools/SOURCE/diagnose-tools/json_reader.cc:1161-1267 | the lexer looks no further than the end of the token it returns, error tokens included |
| `JsonLocality.TokenAgain` | diagnose-tools/SOURCE/diagnose-tools/json_reader.cc:1151-1267 | a token is read again from where it starts |
| `JsonGrammar.AcceptedIff` | diagnose-tools/SOURCE/diagnose-tools/json_reader.cc:1015-1149 | without dropped nulls, the documents the reader accepts are exactly those of the grammar, with the value the grammar gives them |
| `JsonGrammar.ValueSound` | diagnose-tools/SOURCE/diagnose-tools/json_reader.cc:1059-1149 | what `readValue` takes is a value of the grammar |
| `JsonGrammar.ValueComplete` | diagnose-tools/SOURCE/diagnose-tools/json_reader.cc:1059-1149 | a value of the grammar is taken by `readValue`, whatever follows |
| `JsonGrammar.MembersComplete` | diagnose-tools/SOURCE/diagnose-tools/json_reader.cc:1436-1498 | the same for members, with every place a comment or another separator is let pass |
| `JsonGrammar.ElementsComplete` | diagnose-tools/SOURCE/diagnose-tools/json_reader.cc:1500-1540 | the same for elements |
| `JsonMonotone.LenientAcceptsMore` | diagnose-tools/SOURCE/diagnose-tools/json_reader.cc:1015-1149 | whatever is accepted under some settings is accepted with the same value under any that allow no less and demand no more |
| `JsonMonotone.ValueStays` | diagnose-tools/SOURCE/diagnose-tools/json_reader.cc:1059-1149 | the same for one value of the grammar, in every place where a setting is asked |
| `JsonMonotone.StrictWithinDefault` | diagnose-tools/SOURCE/diagnose-tools/json_reader.cc:1931-1962 | what strict mode reads the default settings read, as the same value |
| `JsonLeniencies.TrailingCommaIff` | diagnose-tools/SOURCE/diagnose-tools/json_reader.cc:1436-1448 | a comma before the closing brace is accepted exactly if trailing commas are allowed or the last name is empty |
| `JsonLeniencies.CommaInObjectIff` | diagnose-tools/SOURCE/diagnose-tools/json_reader.cc:1436-1498 | the same for whole documents of one member |
| `JsonLeniencies.AnySeparatorIff` | diagnose-tools/SOURCE/diagnose-tools/json_reader.cc:1483-1494 | a token other than comma and brace separates members exactly if a comment stands before it and the rest is read |
| `JsonLeniencies.CommentBeforeValueIff` | diagnose-tools/SOURCE/diagnose-tools/json_reader.cc:1151-1159 | before a value a comment is accepted exactly if comments are allowed |
| `JsonLeniencies.CommentBeforeMember` | diagnose-tools/SOURCE/diagnose-tools/json_reader.cc:1442-1446 | before a member a comment is passed over under every setting |
| `JsonLeniencies.CommentAfterMember` | diagnose-tools/SOURCE/diagnose-tools/json_reader.cc:1483-1494 | after a member too |
| `JsonLeniencies.CommentAfterElement` | diagnose-tools/SOURCE/diagnose-tools/json_reader.cc:1524-1530 | after an element too |
| `JsonLeniencies.CommentBeforeColon` | diagnose-tools/SOURCE/diagnose-tools/json_reader.cc:1472-1476 | before a colon a comment is refused under every setting |
| `JsonLeniencies.CommentInArray` | diagnose-tools/SOURCE/diagnose-tools/json_reader.cc:1500-1540 | an array of one value with a comment after it parses to the array under every setting |
| `JsonLeniencies.CommentAndSemicolon` | diagnose-tools/SOURCE/diagnose-tools/json_reader.cc:1436-1498 | an object with a comment and a semicolon between its members parses under every setting |
| `JsonLeniencies.StrictModeAcceptsComma` | diagnose-tools/SOURCE/diagnose-tools/json_reader.cc:1931-1945 | strict mode accepts `{"":1,}` |
| `JsonLeniencies.StrictModeAcceptsComment` | diagnose-tools/SOURCE/diagnose-tools/json_reader.cc:1931-1945 | strict mode accepts `[true/**/]` |
| `JsonLeniencies.StrictModeAcceptsSemicolon` | diagnose-tools/SOURCE/diagnose-tools/json_reader.cc:1931-1945 | strict mode accepts `{"a":true/**/;"b":true}` |
| `JsonLeniencies.EndOfStreamIff` | diagnose-tools/SOURCE/diagnose-tools/json_reader.cc:1256-1258 | the stream ends at the end of the document and at every NUL |
| `JsonLeniencies.CommentTokenIff` | diagnose-tools/SOURCE/diagnose-tools/json_reader.cc:1183-1195 | a comment starts at a slash, and at a single quote that does not start a string |
| `JsonErrors.OkIffNoErrors` | diagnose-tools/SOURCE/diagnose-tools/json_reader.cc:1015-1057 | `parse` returns true exactly if it collected no errors, on every document and setting |
| `JsonErrors.ValueTells` | diagnose-tools/SOURCE/diagnose-tools/json_reader.cc:1059-1149 | success adds no error; failure adds some and discards none |
| `JsonDiagnoses.ErrorsJustified` | diagnose-tools/SOURCE/diagnose-tools/json_reader.cc:1015-1057 | every error of every parse is about a token of the document that deserves its message, or is the last one, that a strict root is no container |
| `JsonDiagnoses.MalformedAtFault` | diagnose-tools/SOURCE/diagnose-tools/json_reader.cc:1665-1767 | an error in a string points at the place that is wrong: no such escape, no hexadecimal digit, too few characters, no second half |
| `JsonDiagnoses.RecoverStops` | diagnose-tools/SOURCE/diagnose-tools/json_reader.cc:1778-1789 | recovery goes on behind the first token of the wanted kind or end of stream, and no sooner |
| `JsonReader.OurReader.Parse` | diagnose-tools/SOURCE/diagnose-tools/json_reader.cc:1015-1057 | equals the parse function; unless it threw, the node stack is empty and the cursor within the document |
| `JsonReader.OurReader.ReadValue` | diagnose-tools/SOURCE/diagnose-tools/json_reader.cc:1059-1149 | terminates on every input and settings, does what the specification says and restores the node stack below its value |
| `JsonReader.OurReader.ReadObject` | diagnose-tools/SOURCE/diagnose-tools/json_reader.cc:1436-1498 | the loop with names, colons, repeated keys, commas, comments and recovery |
| `JsonReader.OurReader.ReadArray` | diagnose-tools/SOURCE/diagnose-tools/json_reader.cc:1500-1540 | the loop with empty arrays, trailing commas, recovery and the index limit |
| `JsonReader.OurReader.ReadMissing` | diagnose-tools/SOURCE/diagnose-tools/json_reader.cc:1123-1140 | a dropped null un-reads one byte and the measure survives it |
| `JsonReader.OurReader.ReadToken` | diagnose-tools/SOURCE/diagnose-tools/json_reader.cc:1161-1267 | every kind of token, by first character, and the fall-through of the single quote |
| `JsonReader.OurReader.ReadNumber` | diagnose-tools/SOURCE/diagnose-tools/json_reader.cc:1386-1411 | moves over the longest text there is of the form digits, fraction, exponent, whatever follows it; an `I` behind a sign is reported instead |
| `JsonLexemes.LexemeIff` | diagnose-tools/SOURCE/diagnose-tools/json_reader.cc:1161-1267 | from a given first character a token of each kind is found exactly if the text is that token by a definition of its own: the marks and words spelt out, longest number, first bare quote, first comment end |
| `JsonLexemes.TokenIff` | diagnose-tools/SOURCE/diagnose-tools/json_reader.cc:1151-1278 | `readToken` passes over exactly the blanks and then finds that token, or the end |
| `JsonLexemes.NumberIsLongest` | diagnose-tools/SOURCE/diagnose-tools/json_reader.cc:1386-1411 | what is passed over is digits, fraction and exponent, and no longer text from the same place is |
| `JsonLexemes.StringEnds` | diagnose-tools/SOURCE/diagnose-tools/json_reader.cc:1412-1432 | a string is read up to the first quote with an even number of backslashes before it, for both kinds of quote |
| `JsonLexemes.CCommentIff` | diagnose-tools/SOURCE/diagnose-tools/json_reader.cc:1356-1368 | a C comment ends at its first closing pair, and without one only at a slash that ends the document |
| `JsonLexemes.CppCommentIff` | diagnose-tools/SOURCE/diagnose-tools/json_reader.cc:1370-1384 | a C++ comment ends behind the first line feed, carriage return or pair of them, or with the document |
| `JsonAtoms.RfcNumberIsRead` | diagnose-tools/SOURCE/diagnose-tools/json_reader.cc:1386-1411 | a number of RFC 8259 section 6, in its parts, is one number token exactly unless the byte behind it would go on with it |
| `JsonAtoms.NumberDocument` | diagnose-tools/SOURCE/diagnose-tools/json_reader.cc:1552-1653 | a document that is such a number parses, under every setting, to the integer if it is one that fits 64 bits and otherwise to what the C++ library makes of the whole text |
| `JsonAtoms.IntegerNumberIff` | diagnose-tools/SOURCE/diagnose-tools/json_reader.cc:1552-1630 | that is an integer exactly if there is no fraction and no exponent and the value lies within [-2^63, 2^64-1] |
| `JsonAtoms.StringDocument` | diagnose-tools/SOURCE/diagnose-tools/json_reader.cc:1655-1716 | a document that is a string literal parses to the bytes the literal denotes |
| `JsonAtoms.AtomIff` | diagnose-tools/SOURCE/diagnose-tools/json_reader.cc:1081-1140 | the atoms of the grammar, by kind and text alone: literals by what they denote, integers by value, the special doubles by their bits |
| `JsonAtoms.NameIff` | diagnose-tools/SOURCE/diagnose-tools/json_reader.cc:1449-1470 | the member names likewise, numeric keys included |
| `JsonReader.OurReader.ReadString` | diagnose-tools/SOURCE/diagnose-tools/json_reader.cc:1412-1422 | stops at the first quote that no backslash precedes, or at the end |
| `JsonReader.OurReader.ReadCStyleComment` | diagnose-tools/SOURCE/diagnose-tools/json_reader.cc:1356-1368 | stops at the slash of the first closing pair, or at the last byte |
| `JsonReader.OurReader.ReadCppStyleComment` | diagnose-tools/SOURCE/diagnose-tools/json_reader.cc:1370-1384 | stops after the line end, CR LF taken together |
| `JsonReader.OurReader.SkipCommentTokens` | diagnose-tools/SOURCE/diagnose-tools/json_reader.cc:1151-1159 | skips comments only when they are allowed |
| `JsonReader.OurReader.RecoverFromError` | diagnose-tools/SOURCE/diagnose-tools/json_reader.cc:1778-1789 | skips to the wanted token or the end, and ends |
| `JsonReader.OurReader.ReadChild` | diagnose-tools/SOURCE/diagnose-tools/json_reader.cc:1476-1479 | the child is read at depth one more, entered under its key, and nothing below it on the stack changes |
| `JsonLexer.CommentAcceptedIff` | diagnose-tools/SOURCE/diagnose-tools/json_reader.cc:1356-1368 | a C comment is accepted exactly if it is closed or the document ends in a slash after it |
| `JsonParser.ReadValue` | diagnose-tools/SOURCE/diagnose-tools/json_reader.cc:1059-1149 | reading never moves backwards nor past the end |
| `JsonStrings.ValueToQuotedStringN` | diagnose-tools/SOURCE/diagnose-tools/json_writer.cc:268-346 | writes exactly the quoted text, for all bytes and both settings of emitUTF8 |
| `JsonStrings.IsAnyCharRequiredQuoting` | diagnose-tools/SOURCE/diagnose-tools/json_writer.cc:176-187 | true exactly if some byte is a control, a quote, a backslash or not ASCII |
| `JsonStrings.QuotedDecodes` | diagnose-tools/SOURCE/diagnose-tools/json_writer.cc:268-346 | for all bytes the output is one accepted string token that decodes without error |
| `JsonStrings.EmittedIsIdentity` | diagnose-tools/SOURCE/diagnose-tools/json_writer.cc:268-346 | with emitUTF8 every byte string comes back |
| `JsonStrings.AsciiRoundTripIff` | diagnose-tools/SOURCE/diagnose-tools/json_writer.cc:189-239 | without it exactly the well-formed UTF-8 (RFC 3629 section 4) comes back |
| `JsonStrings.AsciiOutput` | diagnose-tools/SOURCE/diagnose-tools/json_writer.cc:313-340 | without it the output lies within 0x20..0x7F |
| `JsonStrings.EmittedControlIff` | diagnose-tools/SOURCE/diagnose-tools/json_writer.cc:312-316 | with it a raw control character is written exactly if one without a short escape is there |
| `JsonStrings.DecoderInStep` | diagnose-tools/SOURCE/diagnose-tools/json_reader.cc:1665-1716 | on an accepted token the decoder ends at the closing quote or at a proper error, never early, late or at an empty escape |
| `JsonStrings.DecodeString` | diagnose-tools/SOURCE/diagnose-tools/json_reader.cc:1665-1716 | the loop with its early exits gives what `DecodeFrom` gives, which `JsonStringMeaning.DecodedIff` characterises |
| `JsonStringMeaning.DecodedIff` | diagnose-tools/SOURCE/diagnose-tools/json_reader.cc:1655-1767 | an accepted token decodes to given bytes exactly if it denotes them by RFC 8259 section 7, said apart from the code: raw bytes, the eight two-character escapes, `\u` by positional value in both cases of letters, pairs |
| `JsonStringMeaning.MalformedIff` | diagnose-tools/SOURCE/diagnose-tools/json_reader.cc:1665-1716 | and is refused exactly if it denotes nothing |
| `JsonStringMeaning.DecodesIff` | diagnose-tools/SOURCE/diagnose-tools/json_reader.cc:1665-1716 | the same from every place of every token, single-quoted ones included, which end early at a bare quotation mark |
| `JsonStringMeaning.DenotedIsToken` | diagnose-tools/SOURCE/diagnose-tools/json_reader.cc:1412-1422 | text that denotes anything makes a token between quotes, and denotes one thing only |
| `JsonStringMeaning.SpellingsInterchange` | diagnose-tools/SOURCE/diagnose-tools/json_reader.cc:1665-1716 | two spellings of a character may stand for each other anywhere |
| `JsonStringMeaning.SolidusMayBeEscaped` | diagnose-tools/SOURCE/diagnose-tools/json_reader.cc:1681-1683 | a backslash put before a solidus changes nothing of what is decoded |
| `JsonStringMeaning.HexAt` | diagnose-tools/SOURCE/diagnose-tools/json_reader.cc:1743-1767 | four digits decode to their positional value, either case, and nothing else decodes |
| `JsonStringMeaning.Utf8OfCodePoint` | diagnose-tools/SOURCE/diagnose-tools/json_tool.h:39-65 | the bytes of a code point are those of the table in RFC 3629 section 3 |
| `JsonStringMeaning.EscapedIsWritten` | diagnose-tools/SOURCE/diagnose-tools/json_writer.cc:268-346 | what is written for each character: its two-character escape if it is one of seven, else itself, or its number in small hexadecimal digits when only ASCII may be used |
| `JsonStrings.DecodeUnicodeCodePoint` | diagnose-tools/SOURCE/diagnose-tools/json_reader.cc:1718-1741 | surrogate pairs joined, a missing second half reported |
| `JsonStrings.DecodeUnicodeEscapeSequence` | diagnose-tools/SOURCE/diagnose-tools/json_reader.cc:1743-1767 | four hexadecimal digits, read and bounded |
| `JsonStrings.PairDecodes` | diagnose-tools/SOURCE/diagnose-tools/json_writer.cc:333-339 | a code point beyond the BMP, written as two escapes, decodes to its UTF-8 bytes |
| `JsonUnicode.WellFormedChar` | diagnose-tools/SOURCE/diagnose-tools/json_writer.cc:189-239 | a well-formed character decodes to a scalar that encodes to the same bytes |
| `JsonUnicode.UnchangedChar` | diagnose-tools/SOURCE/diagnose-tools/json_writer.cc:189-239 | only well-formed characters survive decoding and encoding |
| `JsonUnicode.ScalarRoundTrip` | diagnose-tools/SOURCE/diagnose-tools/json_tool.h:39-65 | the encoder and the decoder undo each other on every Unicode scalar value |
| `JsonNumbers.UintToString` | diagnose-tools/SOURCE/diagnose-tools/json_tool.h:81-87 | writes the decimal form and a NUL within 21 bytes, touching nothing else |
| `JsonNumbers.IntToString` | diagnose-tools/SOURCE/diagnose-tools/json_writer.cc:92-106 | every Int64, the minimum included |
| `JsonNumbers.UIntToText` | diagnose-tools/SOURCE/diagnose-tools/json_writer.cc:108-114 | every UInt64 |
| `JsonNumbers.DecimalIsShortest` | diagnose-tools/SOURCE/diagnose-tools/json_tool.h:81-87 | no digit string for the same number is shorter |
| `JsonNumbers.DecimalHasNoLeadingZero` | diagnose-tools/SOURCE/diagnose-tools/json_tool.h:81-87 | the form starts with 0 exactly for zero |
| `JsonNumbers.IntegerTextRoundTrip` | diagnose-tools/SOURCE/diagnose-tools/json_reader.cc:1552-1630 | the text of every Int64 and UInt64 decodes to the number |
| `JsonNumbers.DecodeNumber` | diagnose-tools/SOURCE/diagnose-tools/json_reader.cc:1552-1630 | an integer exactly if the digits denote one within [-2^63, 2^64-1], that integer, with no overflow on the way; otherwise left to the double |
| `JsonNumbers.OldDecodeNumber` | diagnose-tools/SOURCE/diagnose-tools/json_reader.cc:557-598 | the same for `Reader` |
| `JsonNumbers.OutOfRange` | diagnose-tools/SOURCE/diagnose-tools/json_reader.cc:1586-1612 | once the accumulated prefix passes the threshold no continuation is in range |
| `JsonNumbers.ReadersAgree` | diagnose-tools/SOURCE/diagnose-tools/json_reader.cc:557-598 | both readers give the same number, and the same type except for 2^31..2^63-1 |
| `JsonNumbers.LoneMinusIsZero` | diagnose-tools/SOURCE/diagnose-tools/json_reader.cc:1552-1630 | a minus alone decodes to 0 |
| `JsonOrder.Trichotomy` | diagnose-tools/SOURCE/diagnose-tools/json_value.cc:483-579 | on NaN-free trees exactly one of less, greater and equal holds |
| `JsonOrder.TrichotomyIff` | diagnose-tools/SOURCE/diagnose-tools/json_value.cc:483-579 | and only on those: a value equals itself exactly if it holds no NaN |
| `JsonOrder.Transitive` | diagnose-tools/SOURCE/diagnose-tools/json_value.cc:483-531 | `operator<` is transitive on NaN-free trees, through sizes and nested maps |
| `JsonOrder.EqualIsCongruence` | diagnose-tools/SOURCE/diagnose-tools/json_value.cc:539-579 | equal values compare alike with every other |
| `JsonOrder.EqualIsNormEqual` | diagnose-tools/SOURCE/diagnose-tools/json_value.cc:539-579 | `operator==` sees the tree without offsets and with the two zeros identified |
| `JsonOrderMeaning.LessIff` | diagnose-tools/SOURCE/diagnose-tools/json_value.cc:483-531 | `operator<` is the order of kinds, then of numbers by value, text by first difference, containers by size and then by the first entry that differs |
| `JsonOrderMeaning.DoublesByValue` | diagnose-tools/SOURCE/diagnose-tools/json_value.cc:493-496 | doubles compare by the values IEEE 754 gives their bits, a NaN with nothing |
| `JsonOrderMeaning.BytesLessIff` | diagnose-tools/SOURCE/diagnose-tools/json_value.cc:288-303 | a text is less exactly if at the first difference it ends or has the smaller unsigned byte |
| `JsonValue.BytesLessTotal` | diagnose-tools/SOURCE/diagnose-tools/json_value.cc:288-303 | the comparison of keys and strings is total and strict |
| `JsonValue.BytesLessTransitive` | diagnose-tools/SOURCE/diagnose-tools/json_value.cc:288-303 | and transitive |
| `JsonValue.PutIsUpdate` | diagnose-tools/SOURCE/diagnose-tools/json_value.cc:1049-1065 | assignment through `operator[]` sets one entry, keeps all others and the order |
| `JsonValue.EraseRemoves` | diagnose-tools/SOURCE/diagnose-tools/json_value.cc:1159-1171 | removal takes one entry, keeps all others and the order |
| `JsonArrays.Cell.Insert` | diagnose-tools/SOURCE/diagnose-tools/json_value.cc:1133-1145 | on a dense array the chain of moves is sequence insertion, and fails exactly past the end |
| `JsonArrays.Cell.Append` | diagnose-tools/SOURCE/diagnose-tools/json_value.cc:1120-1127 | append is push |
| `JsonArrays.Cell.RemoveIndex` | diagnose-tools/SOURCE/diagnose-tools/json_value.cc:1190-1212 | removal is deletion with the removed element returned, and fails exactly past the end |
| `JsonArrays.Cell.MoveElement` | diagnose-tools/SOURCE/diagnose-tools/json_value.cc:444-447 | one swap-based move |
| `JsonArrays.Cell.RemoveMember` | diagnose-tools/SOURCE/diagnose-tools/json_value.cc:1159-1171 | removes the member and returns it, if it is there |
| `JsonArrays.Cell.GetMemberNames` | diagnose-tools/SOURCE/diagnose-tools/json_value.cc:1225-1236 | all member names |
| `JsonArrays.KeysAscend` | diagnose-tools/SOURCE/diagnose-tools/json_value.cc:1225-1236 | in ascending order, each once |
| `JsonArrays.DenseLookup` | diagnose-tools/SOURCE/diagnose-tools/json_value.cc:861-867 | a dense array has exactly the keys 0..size-1 |
| `Sha1Stream.Sha1Context.Transform` | diagnose-tools/SOURCE/diagnose-tools/sha1.cc:68-202 | the unrolled in-place rounds are the compression function of FIPS 180-4 section 6.1.2 |
| `Sha1Stream.M` | diagnose-tools/SOURCE/diagnose-tools/sha1.cc:104-106 | the circular slot gets the schedule word W_t of section 6.1.2 |
| `Sha1Stream.R` | diagnose-tools/SOURCE/diagnose-tools/sha1.cc:108-113 | one round with renamed registers |
| `Sha1Stream.FirstRounds` | diagnose-tools/SOURCE/diagnose-tools/sha1.cc:115-134 | rounds 0 to 19 |
| `Sha1Stream.SecondRounds` | diagnose-tools/SOURCE/diagnose-tools/sha1.cc:135-154 | rounds 20 to 39 |
| `Sha1Stream.ThirdRounds` | diagnose-tools/SOURCE/diagnose-tools/sha1.cc:155-174 | rounds 40 to 59 |
| `Sha1Stream.FourthRounds` | diagnose-tools/SOURCE/diagnose-tools/sha1.cc:175-194 | rounds 60 to 79 |
| `Sha1Stream.MacroIsF` | diagnose-tools/SOURCE/diagnose-tools/sha1.cc:99-102 | F1 to F4 are Ch, Parity, Maj and Parity of section 4.1.1 |
| `Sha1Stream.Sha1Context.constructor` | diagnose-tools/SOURCE/diagnose-tools/sha1.cc:55-63 | the initial chain of section 5.3.1 and nothing absorbed |
| `Sha1Stream.Sha1Context.Write` | diagnose-tools/SOURCE/diagnose-tools/sha1.cc:207-237 | any input appended in any pieces: the chain is that of the full blocks, the buffer the remainder, nblocks the count modulo 2^32 |
| `Sha1Stream.BitCount` | diagnose-tools/SOURCE/diagnose-tools/sha1.cc:251-265 | the shifted halves are the exact bit count of what nblocks and count say; the carry never fires |
| `Sha1Stream.Sha1Context.Pad` | diagnose-tools/SOURCE/diagnose-tools/sha1.cc:267-280 | both cases absorb one, zeros up to the count, in one block or two |
| `Sha1Stream.PaddingStandardIff` | diagnose-tools/SOURCE/diagnose-tools/sha1.cc:245-291 | the padding is that of section 5.1.1 exactly for messages under 2^38 bytes |
| `Sha1Stream.Sha1Context.Final` | diagnose-tools/SOURCE/diagnose-tools/sha1.cc:245-306 | leaves the digest of the whole message, which is SHA-1 under 2^38 bytes |
| `Sha1Stream.CalcSha1` | diagnose-tools/SOURCE/diagnose-tools/sha1.cc:309-345 | the digest of the first calc_size/4096 + 2 chunks before an empty one, however the reads cut the file, and none if it cannot be opened or read |
| `Sha1KnownAnswer.AbcDigest` | diagnose-tools/SOURCE/diagnose-tools/sha1.cc:55-202 | the digest of "abc" is a9993e36 4706816a ba3e2571 7850c26c 9cd0d89d, which fixes constants, rotations, schedule and padding of the definition the code is proved against |
| `SymbolSet.LowerBoundIsPredecessor` | diagnose-tools/SOURCE/diagnose-tools/symbol.h:68-70 | the asymmetric comparison turns `lower_bound` into a predecessor search, on any shape of tree |
| `SymbolSet.FindIsPredecessor` | diagnose-tools/SOURCE/diagnose-tools/elf.cc:357-370 | a lookup finds the last start at or below its ip, and misses exactly if no start lies between its start and its ip |
| `SymbolSet.InsertKeepsFirst` | diagnose-tools/SOURCE/diagnose-tools/elf.cc:290-295 | insertion keeps the order and adds the symbol exactly if its start is new |
| `Symbols.LookupAnswers` | diagnose-tools/SOURCE/diagnose-tools/elf.cc:357-370 | after any insertions and rebalancing a lookup with start 0 finds the first-inserted symbol with the greatest start at or below pc, and fails exactly if there is none |
| `Symbols.LookupWithStart` | diagnose-tools/SOURCE/diagnose-tools/elf.cc:357-370 | with another start it misses exactly if no symbol starts between that and the ip |
| `Symbols.InsertionHolds` | diagnose-tools/SOURCE/diagnose-tools/symbol.cc:193-224 | one insertion keeps the table in step with the list of insertions |
| `Symbols.KernelLookup` | diagnose-tools/SOURCE/diagnose-tools/symbol.cc:193-243 | from the first address on every pc is found; the symbol found covers it exactly if its address is not shared |
| `Symbols.SymbolArg.Reset` | diagnose-tools/SOURCE/diagnose-tools/symbol.h:67-67 | the start a lookup comes with is 0 again |
| `Symbols.SearchSymbol` | diagnose-tools/SOURCE/diagnose-tools/elf.cc:357-370 | fills start, end and name on success and nothing on failure |
| `Symbols.KernelTable.LoadKernel` | diagnose-tools/SOURCE/diagnose-tools/symbol.cc:193-243 | fills an empty table with just the first line of each address, under its own name and ending at the next line, and leaves any other table alone |
| `Symbols.KernelTable.FindKernelSymbol` | diagnose-tools/SOURCE/diagnose-tools/symbol.cc:193-273 | loads if need be; finds, exactly from the first address on, the name and address of the first line with the greatest address at or below the ip, up to the next line |
| `VmaMap.FoundUnlessHighest` | diagnose-tools/SOURCE/diagnose-tools/symbol.cc:380-428 | the mapping that contains pc is found exactly if it is not the highest |
| `VmaMap.FoundContainsIff` | diagnose-tools/SOURCE/diagnose-tools/symbol.cc:380-428 | what is found contains pc exactly if some mapping other than the highest does |
| `VmaMap.FoundIff` | diagnose-tools/SOURCE/diagnose-tools/symbol.cc:380-428 | something is found exactly below the start of the highest mapping |
| `VmaMap.FoundIsNearest` | diagnose-tools/SOURCE/diagnose-tools/symbol.cc:380-428 | what is found starts last at or below pc, whether it contains pc or not, or is the first of all if none does |
| `VmaMap.BelowAllFindsFirst` | diagnose-tools/SOURCE/diagnose-tools/symbol.cc:410-420 | below all mappings the first is found though it does not contain pc |
| `VmaMap.InsertAddsNew` | diagnose-tools/SOURCE/diagnose-tools/symbol.cc:36-39 | a mapping is added exactly if none starts where it does |
| `VmaMap.MachineVma.AddPidMaps` | diagnose-tools/SOURCE/diagnose-tools/symbol.cc:23-40 | only the given process changes |
| `VmaMap.MachineVma.FindVmaAt` | diagnose-tools/SOURCE/diagnose-tools/symbol.cc:380-399 | the pointer form |
| `VmaMap.MachineVma.FindVmaInto` | diagnose-tools/SOURCE/diagnose-tools/symbol.cc:401-428 | the form that fills its argument, which agrees with the other |
| `VmaMap.MappedOffset` | diagnose-tools/SOURCE/diagnose-tools/symbol.h:91-93 | a found address maps as far into the part of the file its mapping shows as it is from the start |
| `VmaMap.MapsInStep` | diagnose-tools/SOURCE/diagnose-tools/symbol.h:91-93 | the start of a mapping maps to its offset and each next address to the next place |
| `VmaMap.MapIsInjective` | diagnose-tools/SOURCE/diagnose-tools/symbol.h:91-93 | no two addresses of a mapping map to one place |
| `VmaMap.MapIsBijective` | diagnose-tools/SOURCE/diagnose-tools/symbol.h:91-93 | every place of the part that is shown is mapped from exactly one address |
| `Unload.CounterAndSemaphore` | diagnose-tools/SOURCE/module/entry.c:326-457 | in every state of every run the counter is the number of handlers between increment and decrement, and at most one of them dispatches |
| `Unload.StepKeepsConsistent` | diagnose-tools/SOURCE/module/entry.c:326-457 | every step of every thread keeps that |
| `Unload.UnloadIsSafe` | diagnose-tools/SOURCE/module/entry.c:628-648 | after unhook, grace period and drain no handler is left anywhere, in every run from a sound state in which `syscall on` is neither under way nor written later |
| `Unload.RunKeepsUnloading` | diagnose-tools/SOURCE/module/entry.c:628-648 | what each phase of the exit rules out stays ruled out, through both looks at the flag |
| `Unload.UnloadIsUnsafeIff` | diagnose-tools/SOURCE/module/entry.c:628-648 | from such a state some run ends with a handler dispatching in the drained module exactly if the state is not sound |
| `Unload.UnsafeWithoutFlag` | diagnose-tools/SOURCE/module/entry.c:632-633 | when no writer switches, that is exactly if the probe is on and the flag off |
| `Unload.DrainMakesHeadway` | diagnose-tools/SOURCE/module/entry.c:646-648 | after the grace period the counter never rises, and while it is positive some handler can move |
| `Unload.FlagFollowsProbe` | diagnose-tools/SOURCE/module/entry.c:468-486 | if the switches are written one at a time every state before exit without `syscall on` under way is sound |
| `Unload.SecondLookIsUnsafe` | diagnose-tools/SOURCE/module/entry.c:479-486 | probe and flag on and no `syscall on` under way is not enough: the flag can be cleared between the two looks of exit |
| `Unload.OverlapIsUnsafe` | diagnose-tools/SOURCE/module/entry.c:275-287 | overlapping switches reach a state with the probe on, the flag off and nobody about |
| `Unload.LateHookIsUnsafe` | diagnose-tools/SOURCE/module/entry.c:275-287 | switching on after the unhook is unsafe |
| `MmTree.Conserved` | diagnose-tools/SOURCE/module/mm_tree.c:58-124 | over every run each mm_info made is in exactly one of tree, call_rcu queue, taken out or lost, once; in the tree under its own mm |
| `MmTree.LostIff` | diagnose-tools/SOURCE/module/mm_tree.c:93-113 | nothing is lost exactly if every insertion found memory |
| `MmTree.LeastFirst` | diagnose-tools/SOURCE/module/mm_tree.c:58-81 | the batches come in the order of the keys |
| `MmTree.MmTree.CleanupMmTree` | diagnose-tools/SOURCE/module/mm_tree.c:58-79 | ends with the tree empty; behind what was queued before come exactly the old entries, each once, by ascending address space |
| `MmTree.MmTree.PutinMmInfo` | diagnose-tools/SOURCE/module/mm_tree.c:93-112 | the entry is found under its address space, or none is if there was no room; an old one is queued last and all others stay |
| `MmTree.MmTree.TakeoutMmInfo` | diagnose-tools/SOURCE/module/mm_tree.c:114-124 | returns the entry there was and removes it; all others and the queue stay |
| `MmTree.MmTree.FindMmInfo` | diagnose-tools/SOURCE/module/mm_tree.c:81-91 | the entry of an address space, and none for the null one |
| `MmTree.MmTree.HookExec` | diagnose-tools/SOURCE/module/mm_tree.c:274-299 | nothing without an address space or memory, else one fresh entry under it and all others as before |
| `MmTree.MmTree.HookProcessExit` | diagnose-tools/SOURCE/module/mm_tree.c:300-315 | what is freed is the entry there was; all others and the queue stay |
| `StackTree.EqualIsSameFrames` | diagnose-tools/SOURCE/module/pub/stack.c:282-297 | the comparison is zero exactly for traces with the same frames before the first zero |
| `StackTree.Ordering` | diagnose-tools/SOURCE/module/pub/stack.c:282-297 | and a total order of the traces |
| `StackTree.BeforeIff` | diagnose-tools/SOURCE/module/pub/stack.c:282-297 | a trace is before another exactly if it has the lower value at the first difference of the frames |
| `StackTree.StackTraceCmp` | diagnose-tools/SOURCE/module/pub/stack.c:282-297 | the loop computes that comparison |
| `StackTree.FindIsComplete` | diagnose-tools/SOURCE/module/stack.c:31-51 | the walk finds the one descriptor with the trace, and nothing only if there is none |
| `StackTree.LinkThenFind` | diagnose-tools/SOURCE/module/stack.c:53-91 | after linking and rebalancing the new trace is found and all other lookups are unchanged |
| `StackTree.OneDescriptorPerTrace` | diagnose-tools/SOURCE/module/stack.c:53-91 | in every run two calls give the same descriptor exactly if their traces are the same |
| `StackTree.Conserved` | diagnose-tools/SOURCE/module/stack.c:53-204 | over every run of find_alloc and cleanup each descriptor made is in the tree or freed, once |
| `StackTree.StepConserves` | diagnose-tools/SOURCE/module/stack.c:53-204 | each call keeps that, and the order of the tree |
| `StackTree.StackTraceTree.FindStackDesc` | diagnose-tools/SOURCE/module/stack.c:31-51 | the pointer walk |
| `StackTree.StackTraceTree.FindAlloc` | diagnose-tools/SOURCE/module/stack.c:53-91 | the descriptor there is, a fresh one, or none without memory; lookup agrees afterwards |
| `StackTree.StackTraceTree.Cleanup` | diagnose-tools/SOURCE/module/stack.c:181-204 | frees every descriptor of the tree once and leaves it empty |

## Left out

- Doubles as text: reading and printing them is the library's; they are parameters of the reader and the writers, and a
  tree with reals is outside the round trip.
- JsonRoundTrip.RoundTrip: names of 2^30 bytes or more, strings longer than the library can hold and arrays whose indices
  leave `int` are outside it, because the reader throws on them.
- Comments on values: collecting and printing them again. Comments in a document are lexed and skipped as the code does.
- `Reader`: only its `decodeNumber`; its default features are in a header that is not part of this model.
- `StyledWriter` and `StyledStreamWriter`, which repeat `BuiltStyledStreamWriter` and cut keys at NUL.
- Writers told to drop nulls: the texts are modelled, but they do not read back as the same value and no round trip is
  claimed.
- JsonGrammar.AcceptedIff: documents read with missing values as null. Tokens and what they mean are in `JsonLexemes`
  and `JsonAtoms`; the text of reals is the library's.
- JsonStringMeaning.EscapedIsWritten: what is written for malformed UTF-8 when only ASCII may be used, which is modelled
  as the code has it and of which it is only said that it does not come back.
- JsonLayout.FastLayout: trees with reals, and the styles with dropped nulls or a blank behind the colon.
- JsonReader.OurReader.ReadChild: the reader's stack holds pointers into the tree; here a child is kept on the stack and
  stored under its key when it is popped, so aliasing between the stack and the tree is not captured.
- Error messages as text, and line and column numbers: an error carries its token, what was wrong, and where.
- `Value::resize`, `Path`, conversions between types, and the memory of keys and strings.
- Symbols.KernelTable.LoadKernel: reading and sorting the symbol list; it starts from the sorted lines.
- ELF, build ids, name spaces, Java symbols, and the cache of resolved symbols. `elf_file::reset` keeps the old type, so
  no claim is made that resolution depends on the address alone.
- StackTree.StackTraceTree.FindAlloc: the tree is a value that is replaced, so linking a node in place and recolouring
  are not captured; rebalancing is any function that keeps the elements in order.
- MmTree.MmTree.CleanupMmTree: the inside of the radix tree; a gang lookup is the first few entries from a key on. A
  grace period is taken to end some time after `call_rcu`.
- `__get_argv_processes` inserts without looking at the result and walks without the lock; conservation does not cover it.
- Unload.UnloadIsSafe: the kernel's promises are assumptions of the model: registering and unregistering the probe
  succeeds, `synchronize_sched` waits for the handlers that have not yet counted themselves, and removing a proc file
  waits for its writers. What the subsystems do when they are torn down is not modelled.
- The commands of the single tools, ioctl plumbing, files and processes.
