# Verification of the algorithmic parts of MFCTool

MFCTool is a collection of Windows utilities. Most of it is sockets and user
interface; this project models the components that carry an algorithm of their
own and proves what they are for:

- the JSON reader and its three writers (`Json*.dfy`): a tokenizer, a recursive
  descent parser with a stack of nodes and error recovery, and the fast, styled
  and styled-stream writers. The main results are the exact conditions under
  which what was written is read back, and that what was read from any document
  can be written and read again;
- TinyXML (`Xml*.dfy`): entity encoding, white-space condensing, the parser, the
  printer, the linked lists of children and of attributes, and the UTF-8
  converter. The main results are which trees come back from their print, and
  what holds of the tree of any document, well formed or not;
- end-of-line handling in both libraries (`EndOfLine.dfy`);
- the streaming MD5 (`Md5*.dfy`) against the definition in RFC 1321;
- the batch allocator of the JSON library (`BatchAllocator.dfy`);
- the query-string parser of the HTTP handler (`QueryString.dfy`) and the
  growing string of TinyXML (`TiXmlString.dfy`).

`dafny verify dfyconfig.toml` checks everything.

## How the model is built

Code that works step by step is imperative here as well: `Reader`, the writers,
`DocumentParser`, `Printer`, `DomNode`, `AttributeSet`, `MD5`, `Allocator` and
`TiXmlString` are classes with the fields and loops of the source. Each is proved
equal to a function on values, and the round trips, orders and conservation laws
are lemmas about those functions. The functions that parse take the text that is
still unread; the functions that print take the text that follows. Both make
statements about any surrounding text.

A round trip does not notice a mistake that its two sides share. So what is
written and what is read is also given on its own, by tables of literal texts and
their meanings: the lexemes, string literals and documents of JSON
(`JsonLexemes.dfy`, `JsonLiterals.dfy`, `JsonGrammar.dfy`), the references, texts
and markup of XML (`XmlReferences.dfy`, `XmlRuns.dfy`, `XmlMarkup.dfy`), the faults
of both and the error each of them gives (`JsonFaults.dfy`, `JsonErrors.dfy`,
`XmlFaults.dfy`), the lines that the printers write (`JsonLayout.dfy`,
`XmlLayout.dfy`), and the escapes and segments of a query (`QueryPieces.dfy`).
Digits, in either case, have their place values from `Numerals.dfy`.

Conventions:

- A byte is the character with that code. A `const char*` is the text from there
  on; reading at its end gives NUL. A null pointer is `None`.
- A JSON object is its list of members sorted by key, which is what iterating
  over the `std::map` gives. A JSON array is dense. Strings are NUL-free C
  strings, as they are held in the value. The finite doubles are reals. What
  `sprintf` prints for one is the constant `SPRINTF`, of which nothing is assumed
  but, where a value is written, that the text is a number of less than 32
  characters with a point or an exponent; `sscanf` is the parameter `scanDouble`
  of the reader's features.
- The class `StyledWriter` stands for both styled writers of the source, whose
  code differs in the indentation string and in when the line break before a
  value is written; its `style` tells them apart.
- The node pointers on the reader's stack are places below the root; reading and
  writing through a pointer is `Load` and `Store`.
- An XML document is parsed in the byte encoding, with white space condensed. A
  readable tree has names that ReadName reads, distinct attribute names, no
  "&#x" in texts and attribute values, no two plain texts in a row, comments
  without "-->", CDATA sections without "]]>", unknown tags that Identify takes
  for nothing else and declarations without quotes and ampersands; plain text
  stands only inside elements. Texts with spaces at their ends or blank texts are
  allowed: they come back condensed or not at all. `Parsed` is what every tree
  that comes out of the parser satisfies; apart from "&#x" and the declarations
  it is the same condition.
- In the child lists of XML nodes `delete` is modelled as leaving every list:
  the node has no parent afterwards and no linked node leads to it. `Dom(nodes)`
  says of all nodes of a document that their lists are well formed; every
  operation keeps it. `Shows(n, t, nodes)` says that the node n stands at the root
  of the tree t; every operation says what the root of the document shows
  afterwards. Such a tree is of nodes on the heap, of any kind and with any
  children; the trees that are parsed and printed are `XmlTree.Node`.
- MD5 words are integers below 2^32. The round functions and the rotation use bit
  vectors; shifts and masks that select bytes are divisions and remainders. The
  chunks given to update are those in which its loop test does not wrap
  (`Md5.Fits`, `LoopRunsOff`), among them all of at most 2^32 - 64 bytes.
- A page of the allocator has memory for as many allocations as it counts slots.
  Only if the allocation size divides the page size does `used` ever meet the end
  of a page; otherwise the first page is used on and on, and its memory holds as
  many allocations as the page size says (`StaysBeforeEnd`, `StaysInMemory`; the
  array pages of the JSON library are such a case, `ArrayPages`). Allocate asks
  for memory to be left (`Room`), which is always so for sizes that divide.
- The bit operations of both UTF-8 converters act on disjoint bits and are sums.

Where the code differs from what one may expect of it, the model follows the code:

- readArray tests for a bad separator with a condition that is never true
  (`MFCTool/json/json_reader.cpp:566`). The test and its error are in the model,
  and no document ever gets that error (`SeparatorNeverMissing`): any token but
  ']' separates array items (`AnySeparatorInArray`, `ColonInArray`). In objects
  any token but '}' takes the place of the comma when a comment stands before it
  (`AnySeparatorAfterComment`, `ColonAfterComment`).
- A NUL inside a document is a token of its own, the end of the stream, and does
  not end the reading: `EndOfStreamAt`.
- A \u escape for a low surrogate without a high one is accepted and gives bytes
  that are not UTF-8 (`LoneLowSurrogate`); apart from that, text that is UTF-8
  decodes to UTF-8 (`DecodedIsUTF8`).
- Integers within ten of the 32-bit limits become doubles, so the round trip ends
  at -2147483639 and 4294967289: `NumberRoundTrip`.
- isArray and isObject hold for null, so strict mode accepts a null root.
- Text after the root value is ignored.
- A comment between the brackets of an empty array is refused, whether or not
  comments are allowed: `CommentInEmptyArray`. So is one before a colon: `NoColon`.
- The minus sign alone is a number token and denotes 0, as in `DigitsRead`, which
  also reads leading zeros.
- The documentation of StyledWriter in `MFCTool/json/writer.h` lets objects and
  non-empty arrays among the items force several lines. The code looks at the
  size alone, so an empty object does not: `EmptyObjectOnOneLine`.
- EncodeString copies "&#x" and what follows up to a semicolon unchanged, so such
  texts are never read back, neither between quotes nor as element text:
  `QuotedRoundTrip` and `ReadTextCondensed` are if-and-only-ifs. The text alone
  can come back, at the cost of the markup behind it: `SwallowedMarkup`.
- Reading an element to the end of the text gives one error or another, depending
  on whether white space stands there: `TextEndsInElement`, `EndTagMissing`.
- A character reference in the byte encoding gives the low byte of its number,
  and its digits count back from the semicolon to the last "x" or "#", whatever
  stands before it: `ReferenceReads`.
- Next of an attribute takes one with empty name and value for the sentinel, so
  copying and printing stop there: `WalkedAll`.
- FindOrCreate adds an attribute before it has its name, so the assertion in Add
  fails when a new name is set while the empty name is present: `CreateAsserts`.
- decodeDouble puts the terminator of a token of exactly 32 characters behind its
  buffer: `CopyToken`. What the writers print for a double is shorter.
- ParseQueryParams does not reset its lengths after an incomplete pair. A list is
  stored pair by pair exactly when no key without value stands before a full pair,
  no value without key before a full pair that is not last, and the two kinds do
  not meet: `StoresExactly`. With distinct keys that leaves the lists of full pairs
  (`DistinctRoundTrip`). The copies it makes can then also be longer than what is
  left of the query; `CopiesWithin` says when they are not. What is stored ends
  with the query all the same, because the copies go through `c_str`.
- finalize of MD5 clears one byte of the buffer, not all of it.

## Model

| member | source | states |
|---|---|---|
| JsonRoundTrip.FastRoundTrip | MFCTool/json/json_writer.cpp:197-263 | for every value: parsing what FastWriter prints succeeds with the same value (a UInt up to maxInt coming back as Int) exactly when every integer in it lies in -2147483639..4294967289, sscanf reads from the text of each double that double and, in strict mode, the root is an array, an object or null |
| JsonRoundTrip.StyledRoundTrip | MFCTool/json/json_writer.cpp:276-480 | the same if-and-only-if for StyledWriter and, with a white-space indentation, StyledStreamWriter |
| JsonRoundTrip.ParseLexed | MFCTool/json/json_reader.cpp:150-191 | any text at all that lexes to the tokens of a value parses to that value, under the same exact condition; white space between the tokens does not matter |
| JsonGrammar.ParseDoc | MFCTool/json/json_reader.cpp:150-191 | parse on every document of the grammar of RFC 8259, members in any order and with duplicate names, numbers and strings in any spelling, comments where they are allowed: it succeeds exactly when every number and string denotes something and strict mode allows the root, and gives what the document denotes |
| JsonGrammar.ParseText | MFCTool/json/json_reader.cpp:273-345 | the same for the text: any white space, lexemes given by how they are written, and comments anywhere but before a colon and inside an empty array |
| JsonGrammar.ReadsDoc | MFCTool/json/json_reader.cpp:194-242 | readValue on the tokens of such a document followed by anything reads exactly those tokens |
| JsonGrammar.CommentInEmptyArray | MFCTool/json/json_reader.cpp:541-548 | an input that fails: a comment between the brackets of an empty array is refused whether or not comments are allowed |
| JsonRoundTrip.SameTokens | MFCTool/json/json_writer.cpp:552-760 | the fast, styled and styled-stream texts of a value have one and the same token sequence under readToken |
| JsonLenient.AnySeparatorInArray | MFCTool/json/json_reader.cpp:550-577 | an array of any number of items with any comments and tokens between them is read as the array of all of them exactly when none of these tokens is an end bracket |
| JsonLenient.ColonInArray | MFCTool/json/json_reader.cpp:565-572 | a concrete family: the malformed document [a:b] is accepted as the array [a,b] for all values a and b |
| JsonLenient.AnySeparatorAfterComment | MFCTool/json/json_reader.cpp:514-531 | an object with any gaps between its members is read with all of them exactly when each gap is a comma, or starts with a comment and ends in any token but a closing brace |
| JsonLenient.ColonAfterComment | MFCTool/json/json_reader.cpp:524-531 | a concrete family: {"k":a/**/:"l":b} is accepted as the object with the members k and l for all values a and b and all keys in order |
| JsonParseFacts.SeparatorNeverMissing | MFCTool/json/json_reader.cpp:566-573 | on every document, valid or not, the error of a missing comma or bracket in an array is never recorded |
| JsonErrors.ParseErrors | MFCTool/json/json_reader.cpp:150-191 | on every document: at most one error from reading, which names the kind and place of a token of the document that its message rules out there, and behind it the error about the root exactly when strict mode refuses the root |
| JsonErrors.ValueErrors | MFCTool/json/json_reader.cpp:194-242 | the same for every value, array and object inside a document |
| JsonFaults.FaultReported | MFCTool/json/json_reader.cpp:150-191 | the converse: a fault inside any number of open arrays and objects, behind any correct values, makes parse fail with that fault as the first error |
| JsonFaults.NoValue | MFCTool/json/json_reader.cpp:194-242 | a token that starts no value, a comment among them where comments are not allowed: the error names it, and the value stays as it was |
| JsonFaults.InList | MFCTool/json/json_reader.cpp:550-564 | a fault in an item: the array keeps the items before it and what was read of this one |
| JsonFaults.InRecord | MFCTool/json/json_reader.cpp:483-535 | a fault in a member: the object keeps the members before it |
| JsonFaults.NoName | MFCTool/json/json_reader.cpp:483-535 | neither a name nor, in front of the first member, a closing brace |
| JsonFaults.NoColon | MFCTool/json/json_reader.cpp:500-507 | no colon directly behind a name, not even a comment |
| JsonFaults.NoComma | MFCTool/json/json_reader.cpp:514-525 | neither a comma nor a brace nor a comment behind the value of a member, which is kept |
| JsonSecondRound.SecondRound | MFCTool/json/json_reader.cpp:150-191 | for every document that parses without error and whose doubles are read back from their text: writing the value, fast or styled, and parsing again gives exactly that value |
| JsonRoundTrip.ReadsBack | MFCTool/json/json_reader.cpp:194-242 | readValue on the tokens of a value followed by anything consumes exactly those tokens and stores what its numbers are read as, or fails if sscanf reads nothing from one that is passed to it |
| JsonRoundTrip.BackIsNorm | MFCTool/json/json_reader.cpp:581-616 | what comes back is the value itself, with UInt up to maxInt turned into Int, exactly when all integers are in range and all doubles are read back |
| JsonLexing.FastLexes | MFCTool/json/json_writer.cpp:207-263 | the text FastWriter makes of a value, in front of any delimited text, lexes to the tokens of the value followed by those of the text |
| JsonLexing.StyledLexes | MFCTool/json/json_writer.cpp:290-402 | the same for the two styled layouts, with every one-line and multi-line array choice |
| JsonParseFacts.ParseWellFormed | MFCTool/json/json_reader.cpp:150-191 | whatever bytes are parsed, the value stored is well formed: integers in their 32-bit ranges, members sorted by key without duplicates, keys and strings free of NUL |
| JsonParse.Parse | MFCTool/json/json_reader.cpp:150-191 | on every document, feature set and previous root: success exactly when no error was recorded, and what is left unread is a suffix of the document |
| JsonParse.ReadValue | MFCTool/json/json_reader.cpp:194-242 | every recursive call ends at a suffix of its input, consumes input when it succeeds, and reports failure exactly when it adds an error |
| JsonTokens.ReadToken | MFCTool/json/json_reader.cpp:273-345 | what is left unread is a suffix of the document; every token that is not the end consumes at least one character, string tokens at least two |
| JsonTokens.EndOfStreamAt | MFCTool/json/json_reader.cpp:334-344 | the end is reported exactly where only white space is left or the next character is a NUL; behind a NUL inside the document the rest is still unread |
| JsonTokens.Recover | MFCTool/json/json_reader.cpp:773-788 | skipping to a token in error recovery terminates inside the document |
| JsonLexemes.LexemeReads | MFCTool/json/json_reader.cpp:273-345 | the six marks, the three words, numbers, string literals and both kinds of comment, each given by its characters, after any white space and in front of anything that does not continue it: the token of that kind, up to its end |
| JsonLexemes.FaultReads | MFCTool/json/json_reader.cpp:376-476 | what is no lexeme is an error token: a stray character and a misspelt word cost one character, a slash without a comment two, and an unclosed string or comment the rest of the document |
| JsonLexemes.CommentsPassed | MFCTool/json/json_reader.cpp:245-257 | any number of comments is passed over up to the first other token |
| JsonLexemes.RecoverDrops | MFCTool/json/json_reader.cpp:773-788 | recovery drops every token up to and including the first of the wanted kind, or the end |
| JsonReader.Reader.Parse | MFCTool/json/json_reader.cpp:150-191 | the imperative parser on an arbitrary document equals the functional one in result, root, unread text and error list; true exactly when errors is empty; one node is left on the stack |
| JsonReader.Reader.ReadValue | MFCTool/json/json_reader.cpp:194-242 | current stays inside the document, nodes is the same stack after as before, errors only grow by those of the value read, and only the value at the top of the stack changes |
| JsonReader.Reader.ReadObject | MFCTool/json/json_reader.cpp:479-535 | the loop over members, with every error path and recovery, equals the functional reader and restores the node stack |
| JsonReader.Reader.ReadArray | MFCTool/json/json_reader.cpp:538-578 | the loop over items, with the separator test, its error and the recovery, equals the functional reader; item after item is stored at its index in the array under the top node and the node stack is restored |
| JsonReader.Reader.ReadItemAndSeparator | MFCTool/json/json_reader.cpp:550-576 | one round of that loop: the item, the comments after it, the test of the token and whether the loop goes on |
| JsonReader.Reader.ReadItem | MFCTool/json/json_reader.cpp:552-573 | one item: the element is created, pushed, read and popped, and the other items are as before |
| JsonReader.Reader.ReadMember | MFCTool/json/json_reader.cpp:508-511 | one member: the value is put under its key in sorted order and an existing member is overwritten |
| JsonReader.Reader.ReadToken | MFCTool/json/json_reader.cpp:273-345 | kind, start and end of the token read, as the functional lexer gives them |
| JsonReader.Reader.DecodeNumber | MFCTool/json/json_reader.cpp:581-616 | the accumulator never exceeds 32 bits and the result is that of the exact integer branch, or of decodeDouble |
| JsonReader.CopyToken | MFCTool/json/json_reader.cpp:619-640 | the copy made for sscanf, and that its terminator is put behind the buffer exactly for tokens of 32 characters |
| JsonReader.Reader.DecodeStringInto | MFCTool/json/json_reader.cpp:657-701 | the decoded text, or the first error with its position in the literal |
| JsonReader.Reader.DecodeUnicodeCodePoint | MFCTool/json/json_reader.cpp:703-730 | a four-digit escape or a surrogate pair gives its code point and the position after it; each malformed form gives its own error |
| JsonReader.Reader.DecodeUnicodeEscapeSequence | MFCTool/json/json_reader.cpp:733-756 | four hexadecimal digits give their value; fewer, or another character, give the error at that place |
| JsonReader.Reader.AddErrorAndRecover | MFCTool/json/json_reader.cpp:790-797 | the error is appended after the earlier ones, none of which is dropped by the recovery |
| JsonReader.StoreBelow | MFCTool/json/json_reader.cpp:552-555 | writing through the pointer to an entry of the current node is writing the node with that entry changed, and reading through it gives the entry |
| JsonNumbers.IntegerBranch | MFCTool/json/json_reader.cpp:581-616 | a digit string takes the integer branch exactly when its value is below ten times the threshold (2147483640 after a minus sign, 4294967290 otherwise), and then yields its exact value |
| JsonNumbers.NumberRoundTrip | MFCTool/json/json_writer.cpp:42-64 | for every integer: decodeNumber inverts valueToString exactly on -2147483639..4294967289 and falls to a double elsewhere |
| JsonNumerals.DigitsRead | MFCTool/json/json_reader.cpp:581-616 | any digits after an optional minus sign, leading zeros included: the exact Int or UInt of their place value below 2147483640 or 4294967290, a double from there on |
| JsonNumerals.DoubleRead | MFCTool/json/json_reader.cpp:584-593 | a point, an exponent, a plus sign or a minus sign behind the start makes a double of any token |
| JsonNumbers.UintToString | MFCTool/json/json_writer.cpp:30-40 | the decimal digits and the terminator are written backwards into the buffer, never below its start, and nothing else is touched |
| JsonNumbers.IntToString | MFCTool/json/json_writer.cpp:42-53 | the text of a signed integer, minint included, inside the 32-byte buffer |
| JsonDoubles.DoubleToString | MFCTool/json/json_writer.cpp:66-103 | the two loops over the printed double, inside the 32-byte buffer, leave the trimmed text |
| JsonDoubles.TrimMeaning | MFCTool/json/json_writer.cpp:74-103 | trimming drops only zeros at the end of the digits behind a point, and keeps one |
| JsonDoubles.TrimFraction | MFCTool/json/json_writer.cpp:74-103 | exactly: of a fraction the digits up to the last that is not zero stay, and one of the zeros behind them |
| JsonDoubles.TrimNothing | MFCTool/json/json_writer.cpp:74-103 | digits without a point before them, as in an exponent, all stay |
| JsonDoubles.TrimTwice | MFCTool/json/json_writer.cpp:74-103 | what was trimmed is not trimmed further |
| JsonDoubles.DoubleBranch | MFCTool/json/json_reader.cpp:584-593 | the text of a double is always passed on to decodeDouble, and its terminator fits the buffer there |
| JsonStrings.ValueToQuotedString | MFCTool/json/json_writer.cpp:111-172 | the escaped and quoted text, in which the short cut for strings without special characters is not visible |
| JsonStrings.EscapeRoundTrip | MFCTool/json/json_reader.cpp:657-701 | decodeString undoes the escaping of valueToQuotedString for every byte string |
| JsonLiterals.LiteralDecodes | MFCTool/json/json_reader.cpp:657-701 | a literal made of raw characters, the eight short escapes, and four-digit escapes and surrogate pairs in any spelling of their digits, each with its text and meaning given by a table, is decoded to the meanings in order |
| JsonLiterals.FaultRefused | MFCTool/json/json_reader.cpp:671-756 | behind any such pieces the first fault gives its message and its place: a backslash at the end, a letter that is no escape, missing or wrong digits, a missing or wrong second half of a surrogate pair |
| JsonLiterals.EveryText | MFCTool/json/json_reader.cpp:657-701 | every text between the quotes is such a literal, or starts with one that such a fault follows |
| JsonLiterals.QuadDecodes | MFCTool/json/json_reader.cpp:733-756 | four digits, each in either case, give their place value |
| JsonLiterals.EscapedCharacter | MFCTool/json/json_writer.cpp:111-172 | the short escapes that are written, as a table, and that no other character is escaped but control characters |
| JsonLiterals.EscapedControl | MFCTool/json/json_writer.cpp:156-162 | the other control characters as four digits, letters in upper case |
| JsonStrings.UnicodeEscapeRoundTrip | MFCTool/json/json_reader.cpp:703-756 | the escapes and surrogate pairs of section 7 of RFC 8259 decode to the UTF-8 of their scalar value, for every scalar value |
| JsonStrings.UTF8RoundTrip | MFCTool/json/json_reader.cpp:69-103 | for every Unicode scalar value codePointToUTF8 gives bytes that the decoder of sections 3 and 4 of RFC 3629 reads back to it, whatever follows |
| JsonUnicode.EscapeIsUTF8 | MFCTool/json/json_reader.cpp:703-730 | for every accepted \u escape: the bytes written are the UTF-8 of its code point, whatever follows, unless its four digits are a low surrogate, and then they are not UTF-8 |
| JsonUnicode.LoneLowSurrogate | MFCTool/json/json_reader.cpp:703-730 | the escape of U+DC00 in front of any string is accepted and makes the decoded text ill-formed UTF-8 |
| JsonUnicode.DecodedIsUTF8 | MFCTool/json/json_reader.cpp:657-701 | a string literal that is well-formed UTF-8 decodes to well-formed UTF-8 exactly when it holds no escape of a low surrogate on its own |
| JsonWriters.FastWriter.Write | MFCTool/json/json_writer.cpp:197-205 | the document is the text of the value followed by a line feed |
| JsonWriters.FastWriter.WriteValue | MFCTool/json/json_writer.cpp:207-263 | the text of the value is appended, whatever was written before |
| JsonStyledWriters.StyledWriter.Write | MFCTool/json/json_writer.cpp:276-288 | the document is the styled text of the value and a line feed, and the indentation is back to empty |
| JsonStyledWriters.StyledWriter.WriteValue | MFCTool/json/json_writer.cpp:290-349 | while child values are collected exactly one text is pushed; otherwise the styled text is appended and the indentation restored |
| JsonStyledWriters.StyledWriter.WriteArrayValue | MFCTool/json/json_writer.cpp:351-402 | the array on one line from the child values collected, or on several lines, each item printed once |
| JsonStyledWriters.StyledWriter.IsMultilineArray | MFCTool/json/json_writer.cpp:404-433 | the decision, and that the child values hold exactly the inline texts of the items whenever they are used |
| JsonLayout.StyledIsBlock | MFCTool/json/json_writer.cpp:290-480 | the styled text of every value is its block of lines: the brackets around the blocks of the parts, these moved to the right by three spaces or the given indentation, commas behind them, and names with " : " in front of their values |
| JsonLayout.OneLineTest | MFCTool/json/json_writer.cpp:404-433 | an array is printed on one line exactly when it has less than 25 items, none of which has items itself, and the line is shorter than 74 characters |
| JsonLayout.FastIsTokens | MFCTool/json/json_writer.cpp:207-263 | the fast text is the texts of the tokens one after the other, for yaml with a space behind each colon |
| JsonText.EmptyObjectOnOneLine | MFCTool/json/json_writer.cpp:404-433 | an array that holds an empty object is printed on one line |
| JsonStyledWriters.StyledWriter.WriteOneLine | MFCTool/json/json_writer.cpp:388-399 | the assertion that one child value was collected per item holds in every run |
| JsonStyledWriters.StyledWriter.Unindent | MFCTool/json/json_writer.cpp:475-480 | the assertion that the indentation is long enough holds in every run, and the outer indentation is restored |
| JsonValue.EqualIsEquality | MFCTool/json/json_value.cpp:626-668 | operator== is equality of the whole recursive value |
| JsonValue.LessTrichotomy | MFCTool/json/json_value.cpp:564-606 | operator< is irreflexive and asymmetric, and two values are incomparable exactly when operator== holds |
| JsonValue.LessTransitive | MFCTool/json/json_value.cpp:564-606 | operator< is transitive |
| JsonValue.KindsAscend | MFCTool/json/json_value.cpp:564-570 | values of different kinds: null, Int, UInt, real, string, bool, array, object, in this order |
| JsonValue.LessWithinKind | MFCTool/json/json_value.cpp:570-606 | values of one kind: numbers by value, false before true, strings by strcmp, arrays by size and then by the first item that differs, objects by size and then by the name and then the value of the first member that differs |
| CStrings.StrLessTrichotomy | MFCTool/json/json_value.cpp:217-231 | the key order is strict and total |
| CStrings.StrLessMeaning | MFCTool/json/json_value.cpp:217-222 | a key is less exactly when it is a proper prefix or its character at the first difference is less |
| JsonValue.PutKeepsSorted | MFCTool/json/json_value.cpp:1021-1042 | inserting a member keeps the keys strictly increasing |
| JsonValue.FindAfterPut | MFCTool/json/json_value.cpp:1021-1042 | looking a key up after an insertion finds the new value under that key and the old ones elsewhere |
| XmlRoundTrip.DocumentRoundTrip | MFCTool/TinyXML/tinyxml.cpp:1786-1905 | for every readable document, unknown tags and declarations included, and every white-space layout, the default and the stream printing one among them: the print has no NUL and is parsed to its end, without error, to the tree with its texts condensed and the blank ones dropped |
| XmlRoundTrip.TreeRoundTrip | MFCTool/TinyXML/tinyxmlparser.cpp:1045-1249 | a readable tree comes back unchanged exactly when no text in it is blank, has a space at an end or two in a row |
| XmlMarkup.DocumentReads | MFCTool/TinyXML/tinyxmlparser.cpp:705-798 | every document in the syntax TinyXML accepts, with any white space inside and between tags, attribute values in either quotes or bare, references in any spelling, comments, CDATA sections, other tags and declarations, is parsed without error to the nodes it means, in order |
| XmlMarkup.MarkupReads | MFCTool/TinyXML/tinyxmlparser.cpp:820-902 | each kind of such markup in front of anything is recognised and read as its node, up to its end |
| XmlMarkup.ContentReads | MFCTool/TinyXML/tinyxmlparser.cpp:1181-1249 | the content of an element up to its end tag: characters condensed, and dropped if nothing but white space is left of them |
| XmlMarkup.AttributesRead | MFCTool/TinyXML/tinyxmlparser.cpp:1083-1177 | attributes with distinct names in any spelling are read in order |
| XmlMarkup.AttributeReads | MFCTool/TinyXML/tinyxmlparser.cpp:1394-1465 | name, equals sign with any white space around it, and value, quoted or bare |
| XmlMarkup.PartsRead | MFCTool/TinyXML/tinyxmlparser.cpp:1574-1631 | the words of a declaration: the three names in any mixture of cases set their values, the last one counting, and everything else is passed over |
| XmlMarkup.NameCharacters | MFCTool/TinyXML/tinyxmlparser.cpp:402-437 | the characters of names, as a table |
| XmlFaults.FaultReported | MFCTool/TinyXML/tinyxmlparser.cpp:800-818 | a fault behind any correct markup and inside any number of open elements is the error of the document |
| XmlFaults.TagInDocument | MFCTool/TinyXML/tinyxmlparser.cpp:705-798 | the same for a faulty tag at the top level |
| XmlFaults.TagFaultRead | MFCTool/TinyXML/tinyxmlparser.cpp:1045-1178 | nine faults in a start tag, as a table of texts, each with its error; the node keeps the attributes before the fault |
| XmlFaults.EndTagMissing | MFCTool/TinyXML/tinyxmlparser.cpp:1112-1141 | another name, no bracket or the end of the text behind white space in place of the end tag |
| XmlFaults.CharactersToEnd | MFCTool/TinyXML/tinyxmlparser.cpp:1181-1249 | characters that no tag follows are an error of the element they stand in |
| XmlFaults.SectionToEnd | MFCTool/TinyXML/tinyxmlparser.cpp:1181-1249 | so is a comment or a CDATA section that is never closed |
| XmlSecondRound.TidyIsTidy | MFCTool/TinyXML/tinyxmlparser.cpp:1633-1639 | in the tree that was read back no text is blank, has a space at an end or two in a row |
| XmlSecondRound.CondenseCreatesNone | MFCTool/TinyXML/tinyxmlparser.cpp:595-635 | condensing never makes a new "&#x" |
| XmlSecondRound.TidiedIsReadable | MFCTool/TinyXML/tinyxmlparser.cpp:1181-1249 | the tree that was read back is readable again: no two texts become neighbours when a blank one is dropped |
| XmlSecondRound.SecondRound | MFCTool/TinyXML/tinyxmlparser.cpp:705-798 | printed again, in any other layout, the tree that was read back is parsed without error to itself |
| XmlParsed.DocumentFacts | MFCTool/TinyXML/tinyxmlparser.cpp:705-798 | on every document, valid or not: names are names, attributes distinct, no texts are neighbours or blank, comments, CDATA sections and unknown tags do not hold their own end |
| XmlParsed.ParsedRoundTrip | MFCTool/TinyXML/tinyxmlparser.cpp:705-798 | for every document, valid or not, whose tree holds no "&#x" and no quotes or ampersands in a declaration: the print of the tree is parsed without error, to the tree itself exactly when its texts are tidy, and the result is stable from then on |
| XmlParsed.TreesThatComeBack | MFCTool/TinyXML/tinyxml.cpp:1786-1905 | among all trees without "&#x", whatever their names, attributes and contents: those that come back from their print are exactly the ones of the shape the parser makes, with tidy texts |
| XmlParsed.SwallowedMarkup | MFCTool/TinyXML/tinyxml.cpp:61-83 | an input that shows why "&#x" is excluded: the text "&#x" is read back as itself while its end tag and the next start tag are lost |
| XmlRoundTrip.NodeReadsBack | MFCTool/TinyXML/tinyxmlparser.cpp:820-902 | a printed element, comment, CDATA section, unknown tag or declaration is recognised and parsed to its tidied form, and parsing stops just after it |
| XmlRoundTrip.AttributesReadBack | MFCTool/TinyXML/tinyxmlparser.cpp:1394-1465 | the printed attributes are read back in order, with either quote |
| XmlRoundTrip.UntilTag | MFCTool/TinyXML/tinyxmlparser.cpp:1380-1388 | a comment or CDATA text without its end tag is read to that end tag, also when it ends like the tag begins |
| XmlRoundTrip.UnknownReadsBack | MFCTool/TinyXML/tinyxmlparser.cpp:820-902 | a tag that is no declaration, comment, CDATA section or element is read back as it was |
| XmlRoundTrip.DeclarationReadsBack | MFCTool/TinyXML/tinyxmlparser.cpp:1574-1631 | a printed declaration is read back with its version, encoding and standalone values, empty ones left out |
| XmlText.QuotedRoundTrip | MFCTool/TinyXML/tinyxmlparser.cpp:575-638 | for every text: what EncodeString made of it is read back up to the closing quote, unchanged, exactly when it contains no "&#x" |
| XmlText.ReadTextCondensed | MFCTool/TinyXML/tinyxmlparser.cpp:595-635 | for every text: what EncodeString made of it, followed by any white space and a tag, is read back condensed, up to the tag, exactly when it contains no "&#x" |
| XmlText.CondenseMeaning | MFCTool/TinyXML/tinyxmlparser.cpp:595-635 | condensing keeps the words and puts single spaces between them |
| XmlText.CondenseFixed | MFCTool/TinyXML/tinyxmlparser.cpp:595-635 | exactly the condensed texts are unchanged, so encoding and reading again is idempotent |
| XmlText.EncodeCharDecodes | MFCTool/TinyXML/tinyxml.cpp:61-132 | the entity or character reference of each byte is read back by GetChar as that byte, whatever follows |
| XmlReferences.DecimalReads | MFCTool/TinyXML/tinyxmlparser.cpp:480-500 | a decimal reference with any number of digits gives the low byte of its place value, whatever follows |
| XmlReferences.HexadecimalReads | MFCTool/TinyXML/tinyxmlparser.cpp:451-478 | the same for hexadecimal references with digits of either case |
| XmlReferences.ReferenceReads | MFCTool/TinyXML/tinyxmlparser.cpp:443-512 | in general: the digits before the first semicolon count back to the last "x" or "#", and reading fails if another character stands there |
| XmlReferences.EntityReads | MFCTool/TinyXML/tinyxmlparser.cpp:514-525 | the five entities and their characters, as tables |
| XmlReferences.OtherwiseReads | MFCTool/TinyXML/tinyxmlparser.cpp:527-531 | an ampersand that starts nothing is dropped, and every other character stands for itself |
| XmlRuns.CondensedReads | MFCTool/TinyXML/tinyxmlparser.cpp:595-635 | element text of characters, entities and references in any spelling: every stretch of white space between two of them is one space, and none is left at the end |
| XmlRuns.KeptReads | MFCTool/TinyXML/tinyxmlparser.cpp:581-594 | quoted text of the same: everything is kept |
| XmlLayout.EncodedCharacter | MFCTool/TinyXML/tinyxml.cpp:84-132 | the five entities that are written, as a table, and that no other character from 32 on is changed |
| XmlLayout.EncodedControl | MFCTool/TinyXML/tinyxml.cpp:115-126 | control characters as references of two digits, letters in upper case |
| XmlText.CopiedReference | MFCTool/TinyXML/tinyxml.cpp:61-83 | what becomes of a passed-through reference: at most one character, and reading goes on after it, or behind the next semicolon and what has none |
| XmlParser.DocumentParser.ParseDocument | MFCTool/TinyXML/tinyxmlparser.cpp:705-798 | the pointer-advancing parser on every document equals the functional one in children, stopping place and first error |
| XmlParser.DocumentParser.ParseNode | MFCTool/TinyXML/tinyxmlparser.cpp:820-902 | every kind of node, with the first error of the chain kept |
| XmlParser.DocumentParser.ParseAttributes | MFCTool/TinyXML/tinyxmlparser.cpp:1083-1177 | the attribute loop: duplicates, missing parts and each end of the start tag give the result and the error of the source |
| XmlParser.DocumentParser.ReadValue | MFCTool/TinyXML/tinyxmlparser.cpp:1181-1249 | the children read, blank text dropped, and the error when the content ends too early |
| XmlParser.DocumentParser.ReadEndTag | MFCTool/TinyXML/tinyxmlparser.cpp:1112-1141 | the end tag must carry the name of the element and may have white space before its bracket |
| XmlParser.DocumentParser.ParseAttribute | MFCTool/TinyXML/tinyxmlparser.cpp:1394-1465 | name, equals sign and quoted or bare value, or the error |
| XmlParser.DocumentParser.ReadText | MFCTool/TinyXML/tinyxmlparser.cpp:575-638 | both loops; a pointer that is returned stands just after the end tag |
| XmlParser.DocumentParser.GetEntity | MFCTool/TinyXML/tinyxmlparser.cpp:439-532 | decimal and hexadecimal references in 32-bit arithmetic, the five named entities, and the lone ampersand that is dropped |
| XmlParser.DocumentParser.ReadName | MFCTool/TinyXML/tinyxmlparser.cpp:402-437 | the longest name at the pointer, or null |
| XmlParser.DocumentParser.ParseDeclaration | MFCTool/TinyXML/tinyxmlparser.cpp:1574-1631 | the loop over the three pseudo-attributes ends at the bracket or at the end of the text |
| XmlParser.DocumentParser.ParseCData | MFCTool/TinyXML/tinyxmlparser.cpp:1512-1534 | everything up to the closing tag, white space kept |
| XmlParser.DocumentParser.SetError | MFCTool/TinyXML/tinyxmlparser.cpp:800-818 | the first error of a chain is kept |
| XmlPrinter.Printer.Accept | MFCTool/TinyXML/tinyxml.cpp:876-887 | at any depth and after any earlier output exactly the text of the node is appended, and depth and simpleTextPrint are restored |
| XmlPrinter.Printer.AcceptDocument | MFCTool/TinyXML/tinyxml.cpp:1176-1187 | at depth 0 the text of the whole document is appended, and depth and simpleTextPrint are restored |
| XmlPrinter.Printer.VisitEnter | MFCTool/TinyXML/tinyxml.cpp:1786-1820 | the start tag with the attributes that First and Next visit, and the choice between an empty element, text on the same line and a new line |
| XmlPrinter.Printer.VisitExit | MFCTool/TinyXML/tinyxml.cpp:1823-1846 | the end tag, indented unless the element held a single text |
| XmlPrinter.Printer.PrintAttribute | MFCTool/TinyXML/tinyxml.cpp:1230-1253 | the quote is the one that the value does not contain |
| XmlPrinter.EncodeString | MFCTool/TinyXML/tinyxml.cpp:53-134 | the loops of the encoder, with the pass-through of "&#x" and its missing semicolon |
| XmlPrinter.PrintAppend | MFCTool/TinyXML/tinyxml.cpp:1786-1905 | the print of a node before any text is its print followed by that text |
| XmlLayout.PrintIsPage | MFCTool/TinyXML/tinyxml.cpp:1786-1905 | the print of every node, in every layout and at every depth, is its lines: the start tag, the lines of the children moved to the right by one indentation, and the end tag; an element without children or with a single text is one line |
| XmlUtf8.ConvertersAgree | MFCTool/TinyXML/tinyxmlparser.cpp:89-127 | the converters of the two libraries give the same bytes exactly on 0..0x10FFFF and from 0x200000 on, where both give none |
| XmlUtf8.ConvertedDecodes | MFCTool/TinyXML/tinyxmlparser.cpp:89-127 | for every Unicode scalar value the bytes are the encoding of section 3 of RFC 3629 and decode back to it |
| XmlUtf8.ConvertUTF32ToUTF8 | MFCTool/TinyXML/tinyxmlparser.cpp:89-127 | the fall-through switch writes those bytes and touches nothing after them |
| EndOfLine.LoadData | MFCTool/TinyXML/tinyxml.cpp:1072-1096 | the in-place loop: the write head never passes the read head, and the buffer holds the normalised text as a C string |
| EndOfLine.NormalizeEOL | MFCTool/json/json_writer.cpp:517-538 | the out-of-place loop gives the same normalisation |
| EndOfLine.NormalizeIsTwoPasses | MFCTool/TinyXML/tinyxml.cpp:1074-1096 | the normalisation is that of section 2.11 of XML 1.0: first the pairs, then the single carriage returns |
| EndOfLine.NormalizeKeepsLines | MFCTool/TinyXML/tinyxml.cpp:1074-1096 | it keeps the lines of the text and leaves no carriage return |
| EndOfLine.NormalizeLines | MFCTool/TinyXML/tinyxml.cpp:1074-1096 | lines with any mixture of the three line ends come out with line feeds |
| EndOfLine.NormalizeFixed | MFCTool/json/json_writer.cpp:517-538 | exactly the texts without carriage return are unchanged, so it is idempotent |
| XmlDom.DomNode.LinkEndChild | MFCTool/TinyXML/tinyxml.cpp:187-212 | a node that is in no list, whether or not its parent is already set, becomes the last child; a document is deleted instead; every child list of the document is well formed. Afterwards the root of the document shows its tree with just this list edited |
| XmlDom.DomNode.InsertBeforeChild | MFCTool/TinyXML/tinyxml.cpp:231-261 | a fresh copy is inserted just before the child; a node of another parent or a document is refused without change. Afterwards the root of the document shows its tree with just this list edited |
| XmlDom.DomNode.InsertAfterChild | MFCTool/TinyXML/tinyxml.cpp:264-294 | a fresh copy is inserted just after the child. Afterwards the root of the document shows its tree with just this list edited |
| XmlDom.DomNode.ReplaceChild | MFCTool/TinyXML/tinyxml.cpp:297-333 | a fresh copy takes the place of the child, which is unlinked. Afterwards the root of the document shows its tree with just this list edited |
| XmlDom.DomNode.RemoveChild | MFCTool/TinyXML/tinyxml.cpp:336-360 | the child list loses exactly that child; a node of another parent is refused. Afterwards the root of the document shows its tree with just this list edited |
| XmlDom.DomNode.Clear | MFCTool/TinyXML/tinyxml.cpp:170-184 | the child list becomes empty and every former child is unlinked. Afterwards the root of the document shows its tree with just this list edited |
| XmlDom.DomNode.Clone | MFCTool/TinyXML/tinyxml.cpp:890-898 | the copy consists of fresh nodes, forms well-formed child lists and has the contents, user data, location and structure of the original, with the attributes that First and Next visit; nothing else changes |
| XmlDom.DomNode.CloneChildren | MFCTool/TinyXML/tinyxml.cpp:869-873 | the copies of the children are linked in order |
| XmlDom.CopiedSame | MFCTool/TinyXML/tinyxml.cpp:854-874 | for the trees the library builds a copy equals the original |
| XmlDom.CopiedUpToBlank | MFCTool/TinyXML/tinyxml.cpp:862-867 | of an element with a blank attribute behind the first one a copy has the attributes before it |
| XmlDom.ShowsWithout | MFCTool/TinyXML/tinyxml.cpp:187-360 | no node stands in the trees of its own children, so editing its list leaves them as they are |
| XmlDom.EditedElsewhere | MFCTool/TinyXML/tinyxml.cpp:187-360 | a tree in which the edited node does not stand is shown unchanged |
| XmlDom.EditedHere | MFCTool/TinyXML/tinyxml.cpp:187-360 | seen from the edited node itself the new tree is its own with just that list edited |
| XmlDom.SiblingLinks | MFCTool/TinyXML/tinyxml.cpp:187-360 | in every well-formed document prev and next are mutual inverses under one parent, and first and last are the ends |
| XmlDom.DeletedUnreachable | MFCTool/TinyXML/tinyxml.cpp:336-360 | no linked node leads to a deleted one |
| XmlAttributes.AttributeSet.Add | MFCTool/TinyXML/tinyxml.cpp:1534-1547 | the new attribute is put between the last one and the sentinel and the ring stays closed in both directions; the source asserts, exactly if no attribute has its name, what the result says |
| XmlAttributes.AttributeSet.Remove | MFCTool/TinyXML/tinyxml.cpp:1549-1566 | the node is unlinked and the ring stays closed |
| XmlAttributes.AttributeSet.Find | MFCTool/TinyXML/tinyxml.cpp:1592-1600 | the attribute with that name, or null when no attribute has it |
| XmlAttributes.AttributeSet.SetAttribute | MFCTool/TinyXML/tinyxml.cpp:781-788 | a known name keeps its place and gets the new value, a new name goes to the end; the assertion in Add holds exactly if the name is known or no attribute has the empty name |
| XmlAttributes.AttributeSet.RemoveAttribute | MFCTool/TinyXML/tinyxml.cpp:438-451 | exactly the attribute with that name is removed and the order of the others is kept |
| XmlAttributes.AttributeSet.CopyTo | MFCTool/TinyXML/tinyxml.cpp:862-867 | the loop along First and Next sets exactly the attributes before the first blank one, once and in order; copying to an empty set gives that list; whether an assertion in Add fails on the way is said exactly |
| XmlTree.WalkedAll | MFCTool/TinyXML/tinyxml.cpp:1190-1197 | First and Next visit all attributes exactly when none after the first has both an empty name and an empty value |
| XmlTree.WalkedUpTo | MFCTool/TinyXML/tinyxml.cpp:1190-1197 | in general they are the first attribute and those behind it up to the first blank one |
| XmlAttributes.AddedOneByOne | MFCTool/TinyXML/tinyxml.cpp:1534-1540 | attributes with distinct names can be set one by one on an empty set without failing the assertion exactly if an empty name comes last or not at all |
| XmlAttributes.AttributeSet.Clear | MFCTool/TinyXML/tinyxml.cpp:566-575 | the set ends up empty |
| XmlAttributes.SetThenLookup | MFCTool/TinyXML/tinyxml.cpp:781-788 | setting is the update of a map, and names stay distinct |
| XmlAttributes.SetPlace | MFCTool/TinyXML/tinyxml.cpp:781-788 | a known name keeps its place among the others, which are untouched; a new one goes to the end |
| XmlAttributes.RemoveThenLookup | MFCTool/TinyXML/tinyxml.cpp:438-451 | removing is the removal from a map, and names stay distinct |
| XmlAttributes.RemovePlace | MFCTool/TinyXML/tinyxml.cpp:438-451 | exactly the attribute with the name goes, the others keep their order |
| Md5.DigestStream | MFCTool/CmdService/md5.cpp:121-132 | for any split of a message into chunks the streaming digest is the one-shot digest of section 3 of RFC 1321, so it does not depend on the chunks |
| Md5.ShortChunksFit | MFCTool/CmdService/md5.cpp:93-95 | chunks of at most 2^32 - 64 bytes are all admitted, after any number of bytes |
| Md5.CopyContinues | MFCTool/CmdService/md5.cpp:51-58 | a copy taken anywhere in a stream of chunks and the original go on independently: each ends with the one-shot digest of the common part and its own rest |
| Md5.UpdateAll | MFCTool/CmdService/md5.cpp:63-104 | after any run of updates the context holds everything given so far |
| Md5.LoopRunsOff | MFCTool/CmdService/md5.cpp:93-95 | the loop test of update, which adds 63 in 32-bit arithmetic, fails at the last piece of a chunk exactly when the chunk is one the model admits |
| Md5.MD5.Update | MFCTool/CmdService/md5.cpp:63-104 | after every update the full blocks of all the input so far are compressed into the state, the rest stands in the buffer and the counter holds the bit length modulo 2^64; a finalized context is unchanged |
| Md5.MD5.Finalize | MFCTool/CmdService/md5.cpp:150-182 | the digest is that of the padded message with its bit length |
| Md5.MD5.Transform | MFCTool/CmdService/md5.cpp:295-382 | the 64 unrolled steps are the indexed loop of section 3.4 of RFC 1321, on any block |
| Md5.Round1 | MFCTool/CmdService/md5.cpp:303-319 | the first sixteen lines, with their registers, words, shifts and constants, are steps 1 to 16 |
| Md5.Round4 | MFCTool/CmdService/md5.cpp:357-373 | the last sixteen lines are steps 49 to 64 |
| Md5.CountAdvances | MFCTool/CmdService/md5.cpp:76-81 | the two-word counter with its carry test adds eight times the length modulo 2^64, for every earlier length |
| Md5.Encode | MFCTool/CmdService/md5.cpp:386-396 | words to bytes, low-order byte first |
| Md5.Decode | MFCTool/CmdService/md5.cpp:400-408 | bytes to words, low-order byte first |
| Md5Words.WordsOfBytes | MFCTool/CmdService/md5.cpp:386-408 | decode inverts encode |
| Md5Words.BytesOfWords | MFCTool/CmdService/md5.cpp:386-408 | encode inverts decode |
| Md5Bits.FSelects | MFCTool/CmdService/md5.cpp:437-440 | bit by bit: y where x has ones, z elsewhere |
| Md5Bits.GSelects | MFCTool/CmdService/md5.cpp:442-445 | x where z has ones, y elsewhere |
| Md5Bits.HParity | MFCTool/CmdService/md5.cpp:447-450 | the parity of the three bits |
| Md5Bits.IMeaning | MFCTool/CmdService/md5.cpp:452-455 | the complement of y where x has ones or z zeros, y elsewhere |
| Md5Bits.RotationMeaning | MFCTool/CmdService/md5.cpp:430-434 | the high-order bits become the low-order ones and the others move up |
| Md5Rfc.InitialBytes | MFCTool/CmdService/md5.cpp:264-272 | the initial state as the bytes of section 3.3 of RFC 1321 |
| Md5Rfc.PaddedShape | MFCTool/CmdService/md5.cpp:150-182 | sections 3.1 and 3.2 of RFC 1321: the message, a one bit, zeros up to 56 modulo 64, and the length in bits as a number of 64 bits, low-order byte first |
| Md5Known.AlphabetDigest | MFCTool/CmdService/md5.cpp:273-383 | the digest of the letters from a to z is the one in the test suite of section A.5 of RFC 1321, through all 64 steps |
| Md5Rfc.FoldAppend | MFCTool/CmdService/md5.cpp:86-95 | compressing block after block can be cut at any block boundary |
| BatchAllocator.Allocator.Allocate | MFCTool/json/json_batchallocator.h:53-77 | for all sizes, while memory is left: never a live slot, but the head of the free list or slots that were never handed out; live, free and unused slots still partition all pages, and the page in use and its used part are those of the step function |
| BatchAllocator.Allocator.Release | MFCTool/json/json_batchallocator.h:81-86 | a live slot becomes the head of the free list, which stays free of cycles and of repetitions |
| BatchAllocator.Allocator.NextPage | MFCTool/json/json_batchallocator.h:61-73 | the current page is always the head and every other page is full, so the search for a page with room always ends at null and a new page is put at the head |
| BatchAllocator.Allocator.TakeNew | MFCTool/json/json_batchallocator.h:74-76 | the next slots of the current page belong to no earlier allocation and lie inside its memory |
| BatchAllocator.Allocator.AlwaysRoom | MFCTool/json/json_batchallocator.h:61-76 | whatever was allocated and released, memory is left for the next allocation if the allocation size divides the page size |
| BatchAllocator.Allocator.RoomAt | MFCTool/json/json_batchallocator.h:61-76 | with no released slot it is left exactly while the next step stays within the memory of a page |
| BatchAllocator.StaysBeforeEnd | MFCTool/json/json_batchallocator.h:61-76 | used stays within a page after any number of allocations if and only if the allocation size divides the page size |
| BatchAllocator.OnePage | MFCTool/json/json_batchallocator.h:61-76 | if it does not, n allocations without a release all come from the first page, whose used stands at n times the allocation size |
| BatchAllocator.PagesNeeded | MFCTool/json/json_batchallocator.h:54-80 | with k allocations to a page, allocation number q * k + r + 1 without a release is the (r + 1)-st of page q + 1 |
| BatchAllocator.StaysInMemory | MFCTool/json/json_batchallocator.h:101-110 | the memory of the pages holds n allocations without a release exactly if the allocation size divides the page size or n is at most the page size |
| BatchAllocator.ArrayPages | MFCTool/json/json_internalarray.inl:138 | the case in the repository, 8 items an allocation and 255 a page: allocation 256 ends behind the 2040 items of the page |
| BatchAllocator.AllocateMany | MFCTool/json/json_batchallocator.h:53-77 | any run of n allocations that the memory holds gives n different live slots |
| BatchAllocator.Allocator.LiveBlocksDisjoint | MFCTool/json/json_batchallocator.h:53-77 | two live allocations share no slot, and each lies inside its page |
| BatchAllocator.Allocator.HandedOutIsBlock | MFCTool/json/json_batchallocator.h:53-86 | every live and every free slot starts a whole allocation |
| BatchAllocator.Batch.constructor | MFCTool/json/json_batchallocator.h:101-110 | a new page is empty and its slots are all distinct and new |
| QueryString.QueryRoundTrip | MFCTool/WSAndHttp/HttpHandle.cpp:173-215 | for every list of pairs with non-empty keys and values: percent-encoding, joining and ParseQueryParams give the map of the pairs, later duplicates winning, alone or after a path and a question mark, from any earlier map |
| QueryString.StoresExactly | MFCTool/WSAndHttp/HttpHandle.cpp:173-215 | for every list of pairs: exactly the full pairs are stored, in order, if and only if no key without value stands before a full pair, no value without key before a full pair that is not last, and the two kinds do not occur together |
| QueryString.DistinctRoundTrip | MFCTool/WSAndHttp/HttpHandle.cpp:173-215 | a list with distinct keys comes back as its map if and only if no key and no value is empty |
| QueryString.CopiesWithin | MFCTool/WSAndHttp/HttpHandle.cpp:207-213 | the copies of key and value at every store stay within the query exactly when the lengths pending there fit; with full pairs they always do |
| QueryString.UnescapeEncoded | MFCTool/WSAndHttp/HttpHandle.cpp:155-172 | url_unescape inverts the percent-encoding of section 2.1 of RFC 3986 on every byte string |
| QueryPieces.EscapeInEitherCase | MFCTool/WSAndHttp/HttpHandle.cpp:139-172 | every byte in each spelling of its two digits, either case for each, before any rest |
| QueryPieces.UnescapePieces | MFCTool/WSAndHttp/HttpHandle.cpp:155-172 | a text of characters, escapes in any spelling and percent signs that start none is decoded piece by piece |
| QueryPieces.EveryText | MFCTool/WSAndHttp/HttpHandle.cpp:155-172 | every text is made of such pieces |
| QueryPieces.ScanSegment | MFCTool/WSAndHttp/HttpHandle.cpp:173-215 | every segment between two ampersands, with any number of equals signs and any lengths pending: its first part counts for the key, the others for the value, which starts behind the last equals sign, and it is stored if both have a length then |
| QueryPieces.LastEntryCounts | MFCTool/WSAndHttp/HttpHandle.cpp:189-194 | a key has the value of its last entry |
| QueryString.EmptyValueSpoilsNext | MFCTool/WSAndHttp/HttpHandle.cpp:187-197 | the input that fails, in general: after a key without value the next key runs on over as many characters as the first key has, the equals sign and then the encoded value, and past the end when there are fewer |
| QueryString.HttpHandle.ParseQueryParams | MFCTool/WSAndHttp/HttpHandle.cpp:173-215 | the pointer loop equals the functional scan and reports -1 exactly when no parameter is known |
| QueryString.UrlUnescape | MFCTool/WSAndHttp/HttpHandle.cpp:155-172 | the loop equals the functional decoding; a percent sign that starts no escape stays |
| TinyString.RunIsEconomical | MFCTool/TinyXML/tinystr.cpp:68-78 | over every run of appends the capacity is at most twice the size, and all reallocations together copied at most the capacity |
| TinyString.EmptyRunCost | MFCTool/TinyXML/tinystr.cpp:68-78 | from the empty string: the size is the sum of the lengths, and what reallocations copied is at most twice that |
| TinyString.OneByteAtATime | MFCTool/TinyXML/tinystr.cpp:68-78 | n bytes appended one at a time: the capacity is the least number of the form 2^k - 1 that holds them, and k bytes less were copied |
| TinyString.TiXmlString.Append | MFCTool/TinyXML/tinystr.cpp:68-78 | the content is the concatenation with a terminator, and the buffer grows as the cost model says |
| TinyString.TiXmlString.Assign | MFCTool/TinyXML/tinystr.cpp:49-65 | the content is replaced and the buffer kept exactly when it is large enough but not far too large |
| TinyString.TiXmlString.Reserve | MFCTool/TinyXML/tinystr.cpp:37-46 | the content stays and the capacity grows only when asked for more |
| TinyString.Build | MFCTool/TinyXML/tinystr.cpp:68-78 | appending pieces to an empty string gives their concatenation, and the bytes copied by reallocations are at most twice its length |

## Left out

- JSON doubles: sprintf and sscanf are outside the model and enter as a constant and a parameter; infinities, NaN and rounding are left out.
- JSON comments: they are skipped by the reader and never stored or written (collectComments off).
- JSON errors: their kind, token and extra position are modelled, the English texts and the line and column report are not.
- Sparse arrays, removeMember, Path, iterators and the reference-counted and internal-map variants of the JSON value.
- A null string pointer inside a JSON string value, which prints as an empty text.
- XmlRoundTrip.TreeRoundTrip: texts and attribute values with "&#x" are excluded; for a single one the exact condition is proved, but not that a tree with one never comes back, since a reference can reach behind its text.
- XmlParsed.TreesThatComeBack: declarations whose values hold quotes or ampersands, which are printed unencoded, are excluded with them.
- The UTF-8 mode of TinyXML, keeping white space, source locations and the stream input functions.
- XmlDom.DomNode.Clone: a node's attributes are a sequence there; the linked attribute list has its own module. The error state and the settings of a document are not copied in the model.
- The error that the document records when a document node is offered as a child; the refusal itself is modelled.
- The typed attribute and text queries of TinyXML and its FILE printing.
- Md5.MD5.Update: chunks of nearly 2^32 bytes in which the loop test wraps and the loop leaves the chunk.
- Reading files and streams in MD5 (the chunks are given) and the hexadecimal forms of its digest; clearing the local block copy.
- BatchAllocator.Allocator.Allocate: failure of malloc, and what happens behind the memory of a page once it is used up.
- QueryString.HttpHandle.ParseQueryParams: the copy of a key or value longer than the rest of the query reads behind the terminator; what is read there is not modelled, since it is never stored. `CopiesWithin` says when there is no such copy.
- TinyString.TiXmlString.Append: text that aliases the buffer.
- The widths of text lengths and positions; texts are shorter than 2^31 in the source.
- Registering and finding HTTP handlers, sockets, serial ports, ICMP, logging and the user interface.
