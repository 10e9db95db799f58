# Verification of the JSON engine, the topic matcher and message dispatch

A Dafny model of three parts of the repository, each proved against an independent
statement of what it is for.

**The JSON engine (`3rdparty/cJSON/cJSON.c`).** Nodes, the parse buffer, the print
buffer and the allocator are classes; buffers are arrays; the loops and the in-place
writes are those of the C code. A value is a `Json.Tree`. A node tree is described by a
ghost `Heap.Shape` (which node, which strings, which children); `Heap.Owned` is its
footprint, `Heap.Distinct` says that no block occurs twice, `Heap.Wired` that the
pointers are those of the shape, `Heap.Holds` that the fields spell the value. The
allocator may fail at any call and records the live blocks.

- `Bytes`, `Bits`, `Unicode`, `Numbers`, `Json`, `Options`: bytes and C strings, masks
  and shifts, UTF-16 and UTF-8, number texts, values.
- `ParseSpec` is what the parser computes from bytes. `Grammar` is an independent grammar
  of the accepted texts and their meanings, with RFC 8259 as a part of it (the value of a
  numeral is read off digit by digit); `Completeness` shows that each of its texts parses
  to its meaning, and `Soundness` that no other text is accepted. `Spelling` shows that a
  text has one syntax tree, which says whether it is of RFC 8259. `StringParser` and
  `Parser` are the code on the heap.
- `PrintSpec` is the text of an unbounded printer; `PrintBuffers`, `StringPrinter` and
  `Printer` are the code, down to the exact size a buffer needs; `RoundTrip` joins
  printer and parser. `Literals` says in plain characters what is parsed and printed, so
  that no statement rests on the names that code and specification share.
- `Lists` (append, insert, detach, replace on rings of siblings), `Duplicate`, `Compare`
  and `NodeCompare`, `Doubles` (the tolerance of number comparison), `Access` (member
  lookup) and `Minify` are the other operations; `Runs` puts some of them in sequence.

**The topic matcher (`veides_base_client.c`).** `TopicMatch.Match` is the single-pass
scan; `TopicMatch.LevelsMatch` is section 4.7 of MQTT 3.1.1, level by level.

**Registration and dispatch (`veides_base_client.c`, `veides_stream_hub_client.c`).**
`Topics` builds topics and splits them in place; `Registry` says what the tables hold
after a run of registrations and which callback a message reaches; `Payload` decodes
the payload through the parser, for which `Padding` shows that NULs behind a text change
nothing; `Dispatch.Client` is the state machine. `Arrival` goes from a printed object,
sent as a payload on a topic spelled out, to what the callback is given.

`dafny verify dfyconfig.toml` checks the whole project.

## Where the code and its documentation part

- `cJSON.h` advises "5 bytes more than you actually need" for a preallocated buffer. The
  exact number is two more than the length of the text (`Printer.PrintPreallocated`).
- A filter and a topic of which only one starts with `$` are reported as a match, which
  section 4.7.2 of MQTT 3.1.1 rules out (`TopicMatch.Match`, `TopicMatch.MatchAgrees`).
  So a message on a `$` topic goes to the first handler ever stored, and can reach a
  callback although nobody registered the topic (`Registry.UnregisteredTopic`,
  `Registry.StrayReaches`).
- A filter with bytes behind its `#` is to be rejected, but `g/#x` passes where `g` ends
  in `+` and matches the topic (`TopicMatch.Match`, `TopicMatch.OverrunAccepted`).
- The trail and event tables are searched by name alone on registration and by agent and
  name on lookup, so a second agent with the same name is never served
  (`Registry.DispatchExact`).
- `minify_string` takes `\"` for an escaped quote even when the backslash is itself
  escaped. `Minify.MinifyFormatted` gives the values that survive this exactly,
  `Minify.BackslashSpoils` one that does not.
- A tree with a repeated key can differ from its own copy (`Compare.RepeatedKeyDiffers`);
  `Compare.CopyIsSame` gives the trees that equal their copies exactly. The tolerance of
  number comparison is not transitive (`Doubles.ToleranceAccumulates`): it fails on three
  doubles exactly when the second stands between the others, unless these are a power of
  two and the second double below it in size (`Doubles.TransitiveExactly`).
- The parser takes more than RFC 8259: any bytes up to 32 between tokens, leading zeros,
  `1.` and `-.5`, control bytes in strings, `\u` followed by no hexadecimal digits, and
  a backslash in front of the closing quote (`Spelling.BlanksBeyond`,
  `Spelling.NumeralsBeyond`, `Spelling.StringsBeyond`). Which accepted buffers are texts of
  RFC 8259 is exactly `Spelling.AcceptedStandard`.
- `strdup` is not checked. A handler whose name or topic was not copied is stored with
  success and never found; one whose agent was not copied keeps its name from ever being
  served (`Registry.LostForever`); a callback can be given null strings
  (`Dispatch.Client.MessageArrived`).

## Model

| member | source | states |
|---|---|---|
| Completeness.TextComplete | 3rdparty/cJSON/cJSON.c:1093-1170 | Any NUL-terminated text of the grammar nested at most 1000 deep, with or without a byte order mark, with any bytes up to 32 around its tokens, parses to exactly its meaning and ends behind it, also when nothing may follow it |
| Completeness.ValueComplete | 3rdparty/cJSON/cJSON.c:1310-1362 | The same inside a larger buffer, for every value, offset and nesting depth the limit leaves: the parse ends right behind the value's text |
| Completeness.StringComplete | 3rdparty/cJSON/cJSON.c:771-897 | A literal of any pieces that both passes can group (raw bytes, short escapes, `\u` escapes, surrogate pairs) parses to the C string of the bytes it denotes and ends behind the closing quote |
| Literals.ShortEscape | 3rdparty/cJSON/cJSON.c:835-858 | A literal of one of the escapes `\"`, `\\`, `\/`, `\b`, `\f`, `\n`, `\r`, `\t` parses to its byte |
| Literals.UnicodeEscape | 3rdparty/cJSON/cJSON.c:650-768 | `\u` and the four digits of any code point that is no surrogate, each in either case, parse to its UTF-8 form; zero ends the string |
| Literals.PairEscape | 3rdparty/cJSON/cJSON.c:675-706 | Two such escapes with the digits of a surrogate pair parse to the UTF-8 form of the code point above 0xFFFF that has the pair |
| Completeness.NumberComplete | 3rdparty/cJSON/cJSON.c:305-378 | A numeral of at most 63 bytes (sign, digits, point, exponent), followed by anything that is no number byte, parses to its value: the whole digits in decimal, each place a tenth of the one before, times ten for each unit of the exponent |
| Completeness.ValueScaled | 3rdparty/cJSON/cJSON.c:353 | The conversion of all digits at once, scaled by one power of ten, gives that value |
| Literals.NumberSpelled | 3rdparty/cJSON/cJSON.c:305-378 | The same with the numeral in characters (`-`, digits, `.`, digits, `e` or `E`, `+` or `-`, digits), wherever it stands in a buffer |
| Grammar.StandardValid | 3rdparty/cJSON/cJSON.c:1310-1362 | Every text of RFC 8259 (numbers of at most 63 bytes, no lone surrogates, nested at most 1000 deep) is in the grammar |
| Soundness.TextAccepted | 3rdparty/cJSON/cJSON.c:1093-1170 | The parser, told to take the whole buffer, accepts it if and only if it is a text of the grammar between blanks with an optional byte order mark, and the result then is that text's meaning |
| Soundness.Unambiguous | 3rdparty/cJSON/cJSON.c:1310-1362 | No text of the grammar nested at most 1000 deep has two meanings |
| Spelling.CstUnique | 3rdparty/cJSON/cJSON.c:1310-1362 | A text of the grammar determines its whole syntax tree, except for blanks the tree does not spell |
| Spelling.StandardDecided | 3rdparty/cJSON/cJSON.c:1310-1362 | So the text of a value can be read as one of RFC 8259 if and only if its one tree is standard |
| Spelling.AcceptedStandard | 3rdparty/cJSON/cJSON.c:1093-1170 | However an accepted buffer is taken apart, it is a text of RFC 8259 if and only if it has no byte order mark, the blanks around the value are whitespace, and the tree of the value is standard |
| Spelling.NumeralsBeyond | 3rdparty/cJSON/cJSON.c:305-378 | 01, 1. and -.5 are accepted as 1, 1 and -0.5 and are no texts of RFC 8259 |
| Spelling.StringsBeyond | 3rdparty/cJSON/cJSON.c:771-897 | So are literals with a control byte, with four bytes behind `\u` that are no digits, and with a backslash in front of the closing quote |
| Spelling.BlanksBeyond | 3rdparty/cJSON/cJSON.c:1036-1059 | So is an array with a control byte between its brackets |
| Soundness.TextRead | 3rdparty/cJSON/cJSON.c:1093-1170 | An accepted buffer, end required or not, is an optional mark, blanks, a text of the grammar nested at most 1000 deep and (if required) blanks up to the last byte, and the result is its meaning |
| Soundness.ValueRead | 3rdparty/cJSON/cJSON.c:1310-1362 | Whatever parse_value accepts anywhere in a buffer is a text of the grammar; it consumes exactly that text and returns its meaning |
| Soundness.StringRead | 3rdparty/cJSON/cJSON.c:771-897 | An accepted literal consists of pieces that both passes can group, and its value is their meaning |
| Soundness.NumberRead | 3rdparty/cJSON/cJSON.c:305-378 | What parse_number consumes is a numeral of at most 63 bytes and its result the value of that numeral, digit by digit |
| ParseSpec.ValueSound | 3rdparty/cJSON/cJSON.c:1439-1534 | For all bytes, a parsed value nests at most 1000 containers and holds no NUL in strings or keys |
| RoundTrip.PrintParse | 3rdparty/cJSON/cJSON.c:1310-1823 | Full text round trip: printing a value (whole numbers below 10^15, NUL-free strings, nesting at most 1000, repeated keys allowed), formatted or not, and parsing it gives the same value and ends at the NUL |
| Literals.ParsedBetween | 3rdparty/cJSON/cJSON.c:1036-1170 | It also survives between any bytes up to the blank and behind the bytes EF BB BF |
| Literals.ParsedBefore | 3rdparty/cJSON/cJSON.c:1118-1131 | Behind it any other text is left alone, or makes the parse fail if nothing may follow |
| Literals.RefusedStart | 3rdparty/cJSON/cJSON.c:1310-1362 | A text that starts with a byte above the blank other than `"`, `-`, a digit, `[`, `{`, `n`, `t` and `f`, or the mark, is refused |
| Literals.NestedParsed | 3rdparty/cJSON/cJSON.c:1439-1534 | Up to a thousand brackets in one another are read |
| Literals.NestedRefused | 3rdparty/cJSON/cJSON.c:1439-1448 | More opening brackets are refused, whatever follows |
| RoundTrip.Reparse | 3rdparty/cJSON/cJSON.c:1093-1170 | Whatever bytes were accepted, if the numbers are whole, printing the result and parsing again gives the same value |
| RoundTrip.StringRoundTrip | 3rdparty/cJSON/cJSON.c:771-1019 | Every NUL-free byte string survives printing and parsing, and parsing stops just behind the closing quote |
| RoundTrip.PrintsRendering | 3rdparty/cJSON/cJSON.c:1365-1436 | The printed text of a value is a text of the grammar that means the value, so completeness applies to it |
| Parser.ParseWithLengthOpts | 3rdparty/cJSON/cJSON.c:1093-1170 | Under any pattern of allocation failures: a null result leaves the live blocks as they were and means bad bytes or a failed allocation; a node comes with exactly the new blocks of a tree that holds the parsed value, in the form cJSON_Delete accepts; the reported end is in the buffer |
| Parser.ParseAndDelete | 3rdparty/cJSON/cJSON.c:253-274 | Parsing any buffer and deleting the result leaves exactly the live blocks of before, under any pattern of allocation failures |
| Parser.ParseValue | 3rdparty/cJSON/cJSON.c:1310-1362 | The heap parser returns what the specification returns or fails for want of memory; on success it has restored the depth counter; it keeps the offset within the buffer, owns exactly the blocks of the value, and leaves the item untouched on failure |
| Parser.ParseArray | 3rdparty/cJSON/cJSON.c:1439-1534 | The same for arrays; the children form a list whose head's prev is the tail |
| Parser.ParseObject | 3rdparty/cJSON/cJSON.c:1599-1709 | The same for objects, whose children own their keys |
| Parser.ParseElements | 3rdparty/cJSON/cJSON.c:1471-1511 | The loop builds a list joined both ways that holds the elements parsed so far, and frees all of it on failure |
| Parser.ParseMembers | 3rdparty/cJSON/cJSON.c:1629-1687 | The loop of parse_object, with names moved from valuestring to string |
| Parser.ParseName | 3rdparty/cJSON/cJSON.c:1655-1667 | The name is parsed into the item and moved; on failure the item keeps nothing |
| Parser.Close | 3rdparty/cJSON/cJSON.c:1513-1525 | Setting the head's prev closes the ring and leaves every child's value as it was |
| Parser.SkipWhitespace | 3rdparty/cJSON/cJSON.c:1036-1059 | The scan skips bytes up to 32 and, when it runs off the end, steps back to the last byte |
| Parser.ParseNumber | 3rdparty/cJSON/cJSON.c:305-378 | The copy through the 64-byte buffer converts what the specification converts, and never leaves the buffer; what that is in the numeral's own digits say NumberComplete, NumberSpelled and NumberRead |
| StringParser.ParseString | 3rdparty/cJSON/cJSON.c:771-897 | On success the item owns one new block with the decoded C string; on failure nothing is kept |
| StringParser.DecodeString | 3rdparty/cJSON/cJSON.c:817-875 | The second pass writes only inside the block the first pass sized, for every input |
| StringParser.StringFits | 3rdparty/cJSON/cJSON.c:784-816 | The size the first pass computes suffices for all bytes the second pass decodes and the NUL |
| StringParser.UnitFits | 3rdparty/cJSON/cJSON.c:819-872 | However the second pass pairs the bytes it consumes, it writes no more of them than the first pass kept |
| StringParser.ScanString | 3rdparty/cJSON/cJSON.c:784-809 | The first pass finds the closing quote and counts exactly the backslashes it pairs |
| StringParser.EscapeScalar | 3rdparty/cJSON/cJSON.c:650-768 | An accepted escape or surrogate pair writes the UTF-8 form of a scalar value from which the escape can be computed back; surrogates never come out |
| StringParser.Utf16ToUtf8 | 3rdparty/cJSON/cJSON.c:650-768 | The conversion writes exactly the specified bytes, consumes 6 or 12, and its branch for invalid code points cannot be reached |
| StringParser.WriteUtf8 | 3rdparty/cJSON/cJSON.c:744-762 | The encoding loop, with its masks and shifts, from the last byte down, writes the shortest UTF-8 form |
| StringParser.ParseHex4 | 3rdparty/cJSON/cJSON.c:613-647 | The result is the number of which the four bytes are the hexadecimal digits, in either case, or 0 if there is none |
| Unicode.HexDenotes | 3rdparty/cJSON/cJSON.c:613-647 | The specified number is `w` if and only if each byte is the digit of `w` for its place in `0123456789abcdef` or `0123456789ABCDEF` |
| Unicode.EncodesUnique | 3rdparty/cJSON/cJSON.c:716-762 | The UTF-8 relation of RFC 3629 is one to one: no two code points share bytes and no code point has two forms |
| Unicode.SurrogatePairs | 3rdparty/cJSON/cJSON.c:675-706 | A surrogate pair gives a scalar value, and its halves can be computed back (RFC 2781, section 2.2) |
| Bits.Continuation | 3rdparty/cJSON/cJSON.c:748-749 | The mask of a continuation byte leaves its mark and six bits of the code point, for every code point |
| Bits.Leading | 3rdparty/cJSON/cJSON.c:753-755 | The mask of a first byte puts the remaining bits behind the mark of the length |
| Bits.TwentyBits | 3rdparty/cJSON/cJSON.c:705 | Masking, shifting and joining the halves of a surrogate pair gives twenty bits, ten from each |
| Heap.Delete | 3rdparty/cJSON/cJSON.c:253-274 | cJSON_Delete frees every node and every string of a chain of trees, each exactly once, and nothing else |
| Heap.DeleteOne | 3rdparty/cJSON/cJSON.c:253-274 | The body of its loop: children, strings, node |
| Printer.PrintText | 3rdparty/cJSON/cJSON.c:1185-1247 | cJSON_Print returns a block of exactly the text and its NUL and keeps no other; null keeps nothing and means the text exceeds INT_MAX or an allocation failed; on the realloc and on the copy path |
| Printer.PrintBuffered | 3rdparty/cJSON/cJSON.c:1260-1288 | From any starting size (at least 1 without realloc) the result is a block with the same text |
| Printer.PrintPreallocated | 3rdparty/cJSON/cJSON.c:1290-1307 | Succeeds if and only if the text and two more bytes fit in the given length; the buffer then holds the text; nothing is allocated |
| Printer.PrintValue | 3rdparty/cJSON/cJSON.c:1365-1436 | Behind the text already written, the buffer then shows the text of the value and a NUL and earlier bytes are kept, or the text and two bytes exceed what the buffer may hold, or an allocation failed |
| Printer.PrintElements | 3rdparty/cJSON/cJSON.c:1560-1595 | The loop of print_array composes the text piece by piece, with the offset recovered by strlen |
| Printer.PrintEntries | 3rdparty/cJSON/cJSON.c:1739-1822 | The loop of print_object, with tabs, keys, colons and commas |
| Printer.PrintNumber | 3rdparty/cJSON/cJSON.c:547-610 | A whole number is written in decimal; its 26-byte buffer is never overrun |
| Literals.NumberPrinted | 3rdparty/cJSON/cJSON.c:547-610 | The text is the decimal digits of the number behind an optional `-`, without a leading zero |
| Literals.ArrayPrinted | 3rdparty/cJSON/cJSON.c:1537-1595 | The text of an array is the list of the texts of its items between `[` and `]`, with `,` or, formatted, `, ` between them |
| Literals.ObjectPrinted | 3rdparty/cJSON/cJSON.c:1712-1823 | The text of an object is the list of its members, key, `:` and value, between `{` and `}`, with `,` between them |
| Literals.ObjectFormatted | 3rdparty/cJSON/cJSON.c:1712-1823 | Formatted, each member stands on its own line, with one tab more than its object and a tab before its value, and so does the closing brace |
| StringPrinter.PrintString | 3rdparty/cJSON/cJSON.c:900-1019 | The two passes write exactly the quoted text, with its NUL, inside the space reserved |
| StringPrinter.CountEscapes | 3rdparty/cJSON/cJSON.c:927-953 | The first pass counts the bytes and the extra characters of the escapes |
| StringPrinter.EscapedLength | 3rdparty/cJSON/cJSON.c:900-1019 | The counted size is the size of what the writing pass emits, for every NUL-free string |
| StringPrinter.WriteAllEscaped | 3rdparty/cJSON/cJSON.c:970-1014 | The writing pass emits the escaped text; the NULs sprintf adds stay inside the block and are overwritten |
| Literals.ShortPrinted | 3rdparty/cJSON/cJSON.c:982-1005 | A quote, a backslash and five control bytes are printed as a backslash and a letter or themselves |
| Literals.ControlPrinted | 3rdparty/cJSON/cJSON.c:1006-1010 | All other bytes below 32 are printed as `\u00` and their two lower-case hexadecimal digits |
| PrintBuffers.PrintBuffer.Ensure | 3rdparty/cJSON/cJSON.c:439-524 | Room for the needed bytes and one more, with all bytes written so far kept through the growth; a buffer that grows gets twice the size needed, or the largest there is; refused only past the limit or for want of memory; the printer owns one block at most |
| PrintBuffers.PrintBuffer.Grow | 3rdparty/cJSON/cJSON.c:489-523 | Both growth paths free the old block exactly once, also on failure |
| PrintBuffers.PrintBuffer.UpdateOffset | 3rdparty/cJSON/cJSON.c:527-537 | strlen from the offset ends right behind what was written |
| Minify.MinifyInPlace | 3rdparty/cJSON/cJSON.c:2835-2881 | Reading and writing one buffer in place computes the specified text; the write position never passes the read position |
| Minify.MinifyString | 3rdparty/cJSON/cJSON.c:2813-2833 | The string loop copies exactly the span that the specification gives |
| Minify.Minified | 3rdparty/cJSON/cJSON.c:2835-2881 | The output is never longer than the input, comments and unterminated strings included |
| Minify.LineCommentDropped | 3rdparty/cJSON/cJSON.c:2786-2797 | A line comment and its line feed can be dropped in front of any text; without a line feed it takes the rest |
| Minify.BlockCommentDropped | 3rdparty/cJSON/cJSON.c:2799-2811 | So can a block comment with its end mark, the first `*/` behind its start |
| Minify.StringKept | 3rdparty/cJSON/cJSON.c:2813-2833 | A string without quotes inside that does not end in a backslash is kept in front of any text |
| Minify.Idempotent | 3rdparty/cJSON/cJSON.c:2835-2881 | Minifying twice is minifying once, for every text |
| Minify.MinifyFormatted | 3rdparty/cJSON/cJSON.c:2835-2881 | Minifying the formatted text of a value gives its unformatted text, byte for byte, if and only if no string and no key ends in a backslash, except a last string with just closing brackets of arrays behind it |
| Minify.SpanOfPrinted | 3rdparty/cJSON/cJSON.c:2813-2833 | minify_string stops right behind a printed string if and only if the string does not end in a backslash or nothing follows; otherwise it runs on by exactly the span of what follows |
| Minify.RunsOn | 3rdparty/cJSON/cJSON.c:2827-2831 | What is kept behind a string that ends in a backslash |
| Minify.BackslashSpoils | 3rdparty/cJSON/cJSON.c:2827-2831 | A concrete value for which minified formatted text differs from unformatted text |
| Lists.AddItemToArray | 3rdparty/cJSON/cJSON.c:1954-1985 | Append on the links: the children become the old sequence and the item; next and prev stay inverse and the head's prev is the tail |
| Lists.DetachItemViaPointer | 3rdparty/cJSON/cJSON.c:2185-2219 | Detach on the links: the sequence without that position; the item points nowhere |
| Lists.InsertItemInArray | 3rdparty/cJSON/cJSON.c:2261-2288 | Insert on the links; past the end it appends; a negative position is refused, and so is appending the list to itself |
| Lists.ReplaceLinks | 3rdparty/cJSON/cJSON.c:2290-2332 | Replace on the links: the sequence with that position changed |
| Lists.GetArrayItem | 3rdparty/cJSON/cJSON.c:1849-1866 | Walking the list gives the item at the position, or null past the end |
| Lists.AddItem | 3rdparty/cJSON/cJSON.c:1988-1991 | On values: the array then holds the old values and the new one last, and owns the blocks of both |
| Lists.InsertItem | 3rdparty/cJSON/cJSON.c:2261-2288 | On values: the new value stands at the position, or last |
| Lists.DetachItemFromArray | 3rdparty/cJSON/cJSON.c:2221-2229 | On values: the value leaves the array, the item keeps it and all its blocks |
| Lists.ReplaceItemInArray | 3rdparty/cJSON/cJSON.c:2339-2347 | On values: the position changes, and every block of the old item is freed exactly once; an item that stands there already is left alone |
| Lists.OpenArray | 3rdparty/cJSON/cJSON.c:1954-1985 | An array that holds values is such a list, with distinct nodes |
| Lists.CloseArray | 3rdparty/cJSON/cJSON.c:1954-1985 | Such a list whose nodes hold the values makes the array hold them |
| NodeCompare.CompareTrees | 3rdparty/cJSON/cJSON.c:2983-3106 | On nodes that are identical or share nothing the result is the relation on the values; null is equal to nothing |
| Compare.Symmetric | 3rdparty/cJSON/cJSON.c:2983-3106 | Comparison is symmetric on all values, repeated keys and both key modes included |
| Compare.Transitive | 3rdparty/cJSON/cJSON.c:2983-3106 | Comparison is transitive on all values with whole numbers, repeated keys and both key modes included |
| Doubles.ToleranceAccumulates | 3rdparty/cJSON/cJSON.c:540-544 | On 1, 1 + DBL_EPSILON, 1 + 2 DBL_EPSILON and on 1 - DBL_EPSILON, 1, 1 + DBL_EPSILON each number compares equal to the next and the first not to the last; on 1 - DBL_EPSILON, 1 - DBL_EPSILON / 2, 1 all three do |
| Doubles.CloseDoubles | 3rdparty/cJSON/cJSON.c:540-544 | Zero and all normal doubles of both signs: two of them compare equal if and only if they are the same, or have the same sign and are neighbours in size, or the larger is a power of two and the other the second double below it |
| Doubles.TransitiveExactly | 3rdparty/cJSON/cJSON.c:540-544 | For any three of them with both neighbouring pairs equal: the outer two compare equal if and only if the second does not stand strictly between them or they are a power of two and the second double below it |
| Doubles.RankOrders | 3rdparty/cJSON/cJSON.c:540-544 | The numbering behind these statements is one to one and follows the order of the doubles |
| Compare.CloseIsEqual | 3rdparty/cJSON/cJSON.c:540-544 | On whole numbers below 10^15 the tolerance test is equality |
| Compare.SameIsEqual | 3rdparty/cJSON/cJSON.c:2983-3106 | For all trees with whole numbers, in both key modes: they compare equal if and only if in each of them members with one key have equal values and, with objects read as finite maps, they stand for the same value |
| Compare.CopyIsSame | 3rdparty/cJSON/cJSON.c:2983-3106 | In both key modes a tree compares equal to its copy if and only if in every object the members with one key have equal values |
| Compare.DistinctConsistent | 3rdparty/cJSON/cJSON.c:2983-3106 | Trees whose keys are distinct in the key mode are among these |
| Compare.RepeatedKeyDiffers | 3rdparty/cJSON/cJSON.c:3065-3101 | An object with keys a and A equals its copy case-sensitively and differs from it otherwise |
| Duplicate.Duplicate | 3rdparty/cJSON/cJSON.c:2703-2784 | The copy holds the same value (without children if not recursive) and name in new blocks, which are all that is gained; without memory nothing is |
| Duplicate.CopyChildren | 3rdparty/cJSON/cJSON.c:2746-2773 | The loop over the children builds a list of copies, closed to a ring at the end |
| Runs.CompareWithCopy | 3rdparty/cJSON/cJSON.c:2703-3106 | A tree is duplicated, compared with its copy, and the copy deleted: they compare equal if and only if in every object the members with one key have equal values; without memory nothing is kept, and in the end no block is gained or lost |
| Runs.Reprint | 3rdparty/cJSON/cJSON.c:1093-1247 | A node tree is printed, the printed block parsed and freed: the result is a second tree of new blocks that holds the same value, or the text exceeds INT_MAX or an allocation failed |
| Access.GetObjectItem | 3rdparty/cJSON/cJSON.c:1878-1908 | Returns the first member whose key matches, in either key mode, or null if there is none |
| Access.FindSame | 3rdparty/cJSON/cJSON.c:1878-1908 | That is the first member with this very key, or the first whose key has the same letters when case does not matter |
| Access.FoldedSame | 3rdparty/cJSON/cJSON.c:133-154 | Keys count as one without regard to case if and only if they are equal byte by byte up to the case of the 26 letters |
| TopicMatch.Match | veides_stream_hub_client/src/veides_base_client.c:739-854 | The answer for every filter and topic, malformed ones included: success if and only if only one of them starts with `$`, or the topic has no wildcards and the filter is well formed and matches it by section 4.7 of MQTT 3.1.1, or is `g/#x` with `g` well formed, ending in `+` and matching; all indexing stays in the strings and the scan ends |
| TopicMatch.OverrunMalformed | veides_stream_hub_client/src/veides_base_client.c:794-800 | The filters of the last kind are all malformed, so accepting them is a deviation |
| TopicMatch.OverrunAccepted | veides_stream_hub_client/src/veides_base_client.c:794-800 | The filter `+/#x` is malformed, and the scan takes it for a match with the topic `a` |
| TopicMatch.MatchAgrees | veides_stream_hub_client/src/veides_base_client.c:747-749 | MQTT never matches a pair of which only one starts with `$`, so the code meets it exactly on the pairs that agree |
| TopicMatch.TidyLevels | veides_stream_hub_client/src/veides_base_client.c:759-792 | The character-wise tests for bad filters hold everywhere exactly when every level is well formed |
| TopicMatch.PlainFilter | veides_stream_hub_client/src/veides_base_client.c:739-854 | Between texts without wildcards that agree on a leading `$` to match is to be equal |
| Topics.BuildTopicWithName | veides_stream_hub_client/src/veides_stream_hub_client.c:11-19 | The buffer is never too small, so the topic is never truncated |
| Topics.SplitTopic | veides_stream_hub_client/src/veides_stream_hub_client.c:166-173 | The in-place split finds the agent and the name of any topic with two slashes, although the name is located before the bytes move |
| Topics.SplitBuild | veides_stream_hub_client/src/veides_stream_hub_client.c:11-19 | The parts of a built topic are the agent and the name it was built from if and only if those have no slash |
| Registry.DispatchFaithful | veides_stream_hub_client/src/veides_base_client.c:659-737 | After any run of registrations for which no allocation failed, every message on `agent/A/trail/N` reaches exactly the last trail callback registered for A and N, and every one on `agent/A/event/N` the last event callback, and no other, if and only if no name is used with two agents in one table |
| Registry.TopicsServed | veides_stream_hub_client/src/veides_stream_hub_client.c:70-146 | The same direction for one agent and name, with the call spelled out |
| Registry.TopicsStored | veides_stream_hub_client/src/veides_stream_hub_client.c:70-146 | After any run of registrations a trail whose topic was stored has an entry `agent/A/trail/N` in the topic table, an event one `agent/A/event/N` |
| Registry.DispatchExact | veides_stream_hub_client/src/veides_base_client.c:659-737 | For every run, whichever copies of strings are missing: the agent of the first row of the name, if it was copied, gets the last callback registered for the name, all others get none |
| Registry.DispatchAny | veides_stream_hub_client/src/veides_base_client.c:82-156 | For every run and topic, names with slashes and wildcards and missing copies included: the first stored topic that takes the message decides the table, and in it the agent of the first row of the name gets the last callback registered for it |
| Registry.LostForever | veides_stream_hub_client/src/veides_base_client.c:659-737 | Once the first row of a name has a null agent, no later registration of the name is ever served |
| Registry.UnregisteredTopic | veides_stream_hub_client/src/veides_base_client.c:747-749 | A message on a topic nobody registered invokes a callback if and only if the topic starts with `$`, the topic of some registration was stored, and the message's name and agent are served in the table of the first such one; then it gets the last callback of that name |
| Registry.StrayReaches | veides_stream_hub_client/src/veides_base_client.c:747-749 | One registration of a trail, and a message on `$x/a/y/t` that reaches its callback |
| Registry.RoutedPlain | veides_stream_hub_client/src/veides_base_client.c:82-98 | While stored topics have no wildcards, a message goes to the entry of its own topic, or to the first of all if it starts with `$` |
| Registry.TableLookup | veides_stream_hub_client/src/veides_base_client.c:100-156 | A lookup by agent and name in the table of a run |
| Registry.TopicInjective | veides_stream_hub_client/src/veides_stream_hub_client.c:11-19 | Different registrations have different topics |
| Dispatch.Client.SetNamedHandler | veides_stream_hub_client/src/veides_stream_hub_client.c:70-146 | For every agent and name: a registration fails before it is stored, or is added to the run with the set of strings that strdup did not copy, and success is returned if and only if its topic entry was stored; the three tables keep being those of the run, the topic table with the topics that `Registry.TopicsStored` spells; without a failed allocation nothing is missing |
| Dispatch.Client.MessageArrived | veides_stream_hub_client/src/veides_base_client.c:856-902 | For every topic, a message invokes exactly what the run prescribes for it, with the agent, the name and the decoded payload; when an allocation failed, nothing or that very call, with null for strings that were not copied; the tables stay as they were; for printed payloads `Arrival.TrailDelivered` and `Arrival.EventDelivered` spell the call |
| Dispatch.Client.MessageReceived | veides_stream_hub_client/src/veides_stream_hub_client.c:148-213 | Parse, split, look up: the call that results, with the same proviso |
| Dispatch.NamedHandlers.Set | veides_stream_hub_client/src/veides_base_client.c:659-737 | Search by name, overwrite the callback or append a row of the copied strings, as on a sequence of rows |
| Dispatch.NamedHandlers.Get | veides_stream_hub_client/src/veides_base_client.c:100-156 | Search by agent and name |
| Dispatch.Handlers.Find | veides_stream_hub_client/src/veides_base_client.c:82-98 | For every table and topic the search stops at the first stored topic that takes the text as a filter |
| Dispatch.Handlers.Set | veides_stream_hub_client/src/veides_base_client.c:615-657 | Search by match, overwrite or append an entry with the copied topic |
| Payload.ReadTrail | veides_stream_hub_client/src/veides_stream_hub_client.c:148-197 | The payload up to its first NUL is parsed, and the message has the string of the first member `timestamp` and the value of the first member `value`: a number is an integer if and only if it is one in the range of int, else a double; a Boolean and a string arrive as they are; a missing value or one of another type arrives as a string that is null; the copy of the timestamp can be missing when an allocation failed; the parsed tree stays allocated |
| Payload.TrailValueIs | veides_stream_hub_client/src/veides_stream_hub_client.c:180-197 | The cases of the value, for every object |
| Payload.CopyParses | veides_stream_hub_client/src/veides_stream_hub_client.c:151-156 | Parsing the zero-filled copy of the payload is parsing its C string |
| Padding.TextPadded | 3rdparty/cJSON/cJSON.c:1093-1170 | NULs behind a C string, whatever it holds, change neither the value parsed from it nor where it ends |
| Payload.ReadEvent | veides_stream_hub_client/src/veides_stream_hub_client.c:215-247 | The same for events, with the strings of the first members `timestamp` and `message` |
| Payload.IntegersStay | veides_stream_hub_client/src/veides_stream_hub_client.c:188-196 | The saturated integer beside a number equals it if and only if the number is an integer in the range of int |
| Arrival.TrailDelivered | veides_stream_hub_client/src/veides_stream_hub_client.c:148-213 | For every value that is an object with a string `timestamp`, printed in either format and sent on `agent/A/trail/N` after any legal run without losses: the last callback registered for A and N, and no other, is called with N, that timestamp and the value of the object's first `value` |
| Arrival.EventDelivered | veides_stream_hub_client/src/veides_stream_hub_client.c:215-263 | The same for events on `agent/A/event/N`, with the timestamp and the message of the object |
| Arrival.RegisterAndReceive | veides_stream_hub_client/src/veides_base_client.c:856-902 | A trail is registered with any client and a message arrives on its topic: if no allocation failed, the callback just registered is called with the decoded payload |

## Left out

- Numbers.Strtod: the value of a numeral is exact; rounding to double, overflow to infinity and the locale's decimal point are library behaviour, and a real has no negative zero, so `-0` parses to 0.
- Completeness.NumberComplete: the same.
- Completeness.ValueScaled: the same.
- Literals.NumberSpelled: the same.
- Soundness.NumberRead: the same.
- Printer.PrintNumber: whole numbers below 10^15 in size only, for which the C format gives plain decimal digits; the choice between 15 and 17 digits, its rounding and the replacement of the locale's decimal point are not modelled, nor is the sign of a negative zero, which makes its text `-0`.
- Printer.PrintValue: as for PrintNumber, the numbers of the tree are whole and no negative zero.
- Printer.PrintElements: the same.
- Printer.PrintEntries: the same.
- Printer.PrintText: the same.
- ParseSpec.ParseText: the buffer ends in NUL, as both callers build it; a null or empty buffer and the global error record are not modelled, the reported end position is.
- Parser.ParseWithLengthOpts: the same; in a buffer without that NUL parse_object may look at the byte behind the end (cJSON.c:1658), so the result is not a function of the buffer.
- Parser.ParseAndDelete: the same.
- Printer.PrintPreallocated: the numbers are whole and no negative zero, whose sign needs one byte more; the length is that of the array, so a negative length and a null buffer, which are refused at once, do not occur.
- Printer.PrintBuffered: the numbers are whole and no negative zero; without realloc the starting size must be at least 1, because the copy path moves one byte more than was written.
- Lists.AddItem: the statements on values are for arrays, those on links (`Lists.AddItemToArray` and its neighbours) for any parent; the item is in no list and shares no node with the array, which is what callers must provide.
- Duplicate.Duplicate: `valueint` follows from the number and is not a field of the model's nodes.
- Doubles.CloseDoubles: subnormal numbers, infinities and NaN; the product with DBL_EPSILON is exact, which in doubles it is from 2^-970 on.
- NodeCompare.CompareTrees: stated for trees that are the same node or share no node.
- Dispatch.Client.MessageArrived: outside its domain are topics that reach the split without two slashes, where the code follows a null pointer (after registrations without slashes and wildcards only topics that start with `$` can, `Registry.RoutedSlashes`), payloads that parse but lack a string `timestamp` (or `message` for events), likewise, and callbacks that register handlers; the copy of the payload is assumed to be allocated, since the code uses it unchecked; it and the copies made by strdup are not counted as blocks.
- Dispatch.Client.MessageReceived: likewise.
- Payload.ReadTrail: payloads that parse but lack a string `timestamp`, where the code follows a null pointer.
- Payload.ReadEvent: likewise, also without a string `message`.
- Arrival.TrailDelivered: the payload is printed by the modelled printer, so its numbers are whole; what any other payload delivers says `Payload.ReadTrail`.
- Arrival.EventDelivered: likewise, and `Payload.ReadEvent`.
- Arrival.RegisterAndReceive: likewise.
- Literals.NumberPrinted: whole numbers, as for PrintNumber.
- Dispatch.Client.SetNamedHandler: the malloc of the table entry itself is assumed to succeed, since the code writes to it unchecked (veides_base_client.c:641 and 679); a null callback and a null client are refused at once in the code and do not occur in the model; subscribing is a no-op.
- Registry.DispatchExact: the run holds agents and names without `/`, `+` and `#`; for others `Registry.DispatchAny` says what a message invokes.
- Registry.UnregisteredTopic: likewise.
- cJSON_Raw items, references and constant keys: they break ownership by design.
- cJSON_InitHooks: the hooks become one allocator that may fail, and a flag for realloc.
- The cJSON_Is, cJSON_Create and cJSON_Add wrappers and the object variants of detach and replace: thin calls of the operations modelled.
- Connecting, publishing, subscribing, retries and mutexes around the MQTT library, the API client, the logger and the properties: plumbing around libraries whose behaviour is not visible here.
