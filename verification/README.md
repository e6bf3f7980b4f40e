# Verified models of cJSON, uthash and the forwarding engine

Five parts of the capture program are modelled in Dafny and proved against plain specifications.

**cJSON** (Bytes, Json, Unicode, StringSpec, StringParser, NumberSpec, ParserSpec, Parser, PrinterSpec, Printer,
RoundTrip, ParsedTrees, Minify, MinifyModes, MinifyLiterals, MinifyParse, ChildList, CompareSpec, Items, JsonTree,
ItemRoundTrip, and the references Spellings, NumberReading, Tokens, ErrorPlace, Layout, MinifyStretches). The parser
is a cursor and a depth counter over a NUL-terminated buffer and builds items on the heap; the printer walks those
items and writes into a buffer that grows; minify moves two cursors over one array; child lists are doubly linked,
with the tail behind the head's `prev`. `Stands(item, tree)` says what tree an item reads as, `Shows(tree, value)`
what value the printer makes of it. The main results: a text is accepted exactly when its tokens are those of the
tree, and parsing fails where a token machine stops; printing and parsing are inverse exactly up to 1000 nested
containers; a preallocated buffer suffices exactly from two bytes more than the text; unescaping never leaves its
buffer, whatever the literal; escapes become the unique UTF-8 encoding; minify is idempotent and keeps the tree
exactly of the texts it does no harm to; the list operations are the sequence operations; comparing decides equality
of what trees denote, and a duplicate is new and compares equal exactly for steady trees.

**uthash** (Uthash, UthashRun, MergeSpec, UthashSort, UthashInorder). Every item is threaded through its bucket's chain
and the application order. The invariant contains what HASH_FSCK checks. Over every run of replacements (at the
end or in order), deletions and sorts the table agrees with a plain map and a plain sequence; doubling the buckets
loses nothing and its counters mean what they should; the merge sort is a stable sort in place; adding in order is sorting.

**The forwarding plan** (ForwardPlan), **the packet split-copy** (SplitSpec, SplitCopy) and **the flow generator**
(Checksum, FlowGen) follow config.c, csumonly.c and flowgen.c: tiling and bijection of the plan, conservation of bytes
and of mbufs in the copy, the checksum's algebra, and the flow numbers over whole runs.

Bits and Sequences hold the arithmetic and the equations the others use. A module named ...Spec holds the functions
that the imperative module of the same part is proved against; a reference tells what these functions compute in other
words, by tables, tokens or automata of its own. C integers are unbounded unless a width is written out;
the C operators for and, or and shifts are defined on naturals in Bits. Ghost parameters of methods name the sequence
or the value that a pointer structure stands for.

Where the code does less than one would expect, the condition for it is proved, and an input that shows it is given:

- minify takes the closing quote of a literal that ends in an escaped backslash for an escaped quote
  (MinifyParse.TrailingBackslashBreaks), and drops blanks and slashes from later ones; the tree is kept if it drops none,
  and, when those have one spelling only, just then (MinifyKeepsTree, MinifyKeepsExactly);
- an object with a repeated name may differ from its own duplicate (CompareSpec.CopyCompares, RepeatedNameDiffers);
- the check of an mbuf's room is without effect for the first segment (SplitCopy.WithinRoom, FirstRoomUnchecked);
- a packet in several segments may be refused although there is room for it (SplitSpec.TwoSegmentsRefused; FitsExactly
  says when);
- with more lcores than streams the lcore intervals of setup_fwd_config_of_each_lcore reach beyond the streams
  (ForwardPlan.TilesExactly); its callers in config.c (1205, 1255, 1390) cut the number of lcores first;
- with more RX queues than TX queues some RX queues are polled by no stream, with more TX queues than RX queues some TX
  queues are sent to by none, and some of both kinds when queues in use times ports does not fit 16 bits; otherwise each
  queue has exactly one stream (ForwardPlan.QueuesServed, UnevenQueues).

## Model

| member | source | states |
|---|---|---|
| Unicode.ParseHex4 | platform-tyq2/src/CaptureDpdk/cJSON.c:612-645 | the loop over four digits computes Hex4: the value of the digits, and 0 for a group with a wrong digit |
| Unicode.LiteralIsScalar | platform-tyq2/src/CaptureDpdk/cJSON.c:649-767 | every accepted `\uXXXX` or surrogate pair stands for a scalar value: at most 0x10FFFF, never a lone surrogate, twelve characters exactly for code points from 0x10000; so the branch for an invalid code point is never taken |
| Unicode.Utf8Correct | platform-tyq2/src/CaptureDpdk/cJSON.c:712-761 | the bytes emitted for a scalar value are its UTF-8 encoding as section 3 of RFC 3629 tabulates it |
| Unicode.Utf8Unique | platform-tyq2/src/CaptureDpdk/cJSON.c:712-761 | that encoding is unique: equal bytes exactly for equal code points |
| Unicode.PairsOneToOne | platform-tyq2/src/CaptureDpdk/cJSON.c:674-704 | different surrogate pairs stand for different code points, all in 0x10000..0x10FFFF (section 2.2 of RFC 2781) |
| Unicode.PairsOnto | platform-tyq2/src/CaptureDpdk/cJSON.c:674-704 | every code point in 0x10000..0x10FFFF is written by some surrogate pair |
| Unicode.TrailByte | platform-tyq2/src/CaptureDpdk/cJSON.c:744-750 | setting bit 7 and clearing bit 6 of c gives the trail byte of the six low bits, for every code point |
| Unicode.LeadByte | platform-tyq2/src/CaptureDpdk/cJSON.c:751-755 | joining c with the mark gives the lead byte when the code point has been shifted down to the bits the mark leaves free |
| Unicode.EncodeUtf8 | platform-tyq2/src/CaptureDpdk/cJSON.c:712-761 | the in-place loop from the last byte to the first writes exactly the encoding and nothing before or behind it |
| Unicode.Utf16LiteralToUtf8 | platform-tyq2/src/CaptureDpdk/cJSON.c:649-767 | a refused literal leaves the output alone and returns 0; an accepted one appends its encoding and returns its length, 6 or 12 |
| Spellings.UnitRead | platform-tyq2/src/CaptureDpdk/cJSON.c:612-767 | the six characters of a code point below 0x10000 that is no surrogate, digits in upper or lower case and the most significant first, are read as that code point |
| Spellings.PairRead | platform-tyq2/src/CaptureDpdk/cJSON.c:674-704 | for every code point from 0x10000: the twelve characters that spell 0xD800 plus its high ten bits and 0xDC00 plus its low ten bits are read as that code point |
| Spellings.LoneSurrogate | platform-tyq2/src/CaptureDpdk/cJSON.c:663-696 | a low surrogate alone is refused, and so is a high one that no low one follows |
| Spellings.NoDigits | platform-tyq2/src/CaptureDpdk/cJSON.c:612-645 | four characters that are not all digits count as the code point 0 |
| Spellings.EscapeTable | platform-tyq2/src/CaptureDpdk/cJSON.c:829-871 | the eight two-byte escapes stand for what section 7 of RFC 8259 says, and no other letter is an escape |
| Spellings.LiteralMeans | platform-tyq2/src/CaptureDpdk/cJSON.c:770-896 | every literal that is a row of plain bytes, two-byte escapes, code points and surrogate pairs is read as what these mean by tables of their own, one by one, up to the first NUL |
| Spellings.LiteralFails | platform-tyq2/src/CaptureDpdk/cJSON.c:770-896 | a closed literal fails at its first bad escape, one that is not closed behind its opening quote |
| Spellings.RowSkips | platform-tyq2/src/CaptureDpdk/cJSON.c:783-809 | the first pass counts the escapes, a pair as two, and what is reserved is the length of the literal less one byte for each escape |
| Spellings.PrintedForm | platform-tyq2/src/CaptureDpdk/cJSON.c:899-1018 | a byte is written as itself exactly if it is no control character, no quote and no backslash; those with a letter with it, the others with four digits in lower case |
| StringParser.FindEnd | platform-tyq2/src/CaptureDpdk/cJSON.c:783-805 | the first pass finds the closing quote the escapes allow, and counts the backslashes that hide a byte |
| StringParser.SkipsGrow | platform-tyq2/src/CaptureDpdk/cJSON.c:785-801 | over any k bytes at most every other one is a hiding backslash, so the count lags the bytes by at least half |
| StringParser.BudgetAtEnd | platform-tyq2/src/CaptureDpdk/cJSON.c:784-809 | whatever the second pass has written, in step with the first pass or not, is within the size reserved from the first |
| StringParser.EscapeBudget | platform-tyq2/src/CaptureDpdk/cJSON.c:817-871 | two bytes of input pay for one byte of output, six for three and twelve for four, wherever the hiding backslashes stand |
| StringParser.UnescapeInto | platform-tyq2/src/CaptureDpdk/cJSON.c:807-874 | for every literal content the second pass stays inside a buffer of exactly `allocation_length + 1` bytes, terminator included, and computes Unescape: the text, or the place where it went wrong |
| StringParser.UnescapeOne | platform-tyq2/src/CaptureDpdk/cJSON.c:818-871 | each round advances the input, keeps the output inside the buffer, and keeps it a prefix of the final text |
| StringSpec.EscapeReads | platform-tyq2/src/CaptureDpdk/cJSON.c:770-1018 | the escaped form of any NUL-free text reads back as that text, and both passes agree where it ends |
| StringSpec.QuotedParses | platform-tyq2/src/CaptureDpdk/cJSON.c:770-1018 | parse_string undoes print_string_ptr on every NUL-free byte string, whatever follows the closing quote |
| StringSpec.NoEscapes | platform-tyq2/src/CaptureDpdk/cJSON.c:958-967 | a text whose escaped length is its own length is its own escaped form, so it may be copied as it is |
| NumberSpec.CopyNumber | platform-tyq2/src/CaptureDpdk/cJSON.c:302-345 | the loop copies the longest run of number characters that fits 63 bytes, and terminates it |
| NumberSpec.IntParses | platform-tyq2/src/CaptureDpdk/cJSON.c:302-376 | the "%d" text of an int32 is parsed back to the same double and int, whatever non-number character follows |
| NumberSpec.DecimalValue | platform-tyq2/src/CaptureDpdk/cJSON.c:542-611 | the printed digits stand for the number |
| NumberReading.DigitsByPosition | platform-tyq2/src/CaptureDpdk/cJSON.c:302-376 | a digit weighs ten to the number of digits behind it |
| NumberReading.OneDigit | platform-tyq2/src/CaptureDpdk/cJSON.c:302-376 | and a single digit stands for its value |
| NumberReading.StrtodReads | platform-tyq2/src/CaptureDpdk/cJSON.c:302-376 | a numeral made of a sign, digits, a point with decimals and an exponent is used whole when nothing behind it continues it, and the value is the one it denotes, told without division: times ten to the decimals, times ten to a negative exponent, it is the digits times ten to a positive exponent |
| NumberReading.NumeralParses | platform-tyq2/src/CaptureDpdk/cJSON.c:302-376 | parse_number on such a numeral of at most 63 characters |
| NumberReading.SaturateIs | platform-tyq2/src/CaptureDpdk/cJSON.c:355-367 | the int beside the double: the fraction cut off inside the int range, the nearer limit outside |
| NumberReading.DecimalShort | platform-tyq2/src/CaptureDpdk/cJSON.c:542-611 | printed numbers have no leading zero |
| NumberReading.IntTextShort | platform-tyq2/src/CaptureDpdk/cJSON.c:542-611 | and a minus sign exactly if they are negative |
| Parser.ParseBuffer.SkipWhitespace | platform-tyq2/src/CaptureDpdk/cJSON.c:1035-1058 | skips bytes up to 32; at the end of the buffer it steps back onto the last byte, so the cursor stays readable |
| Parser.ParseBuffer.SkipUtf8Bom | platform-tyq2/src/CaptureDpdk/cJSON.c:1061-1074 | skips a byte order mark at offset 0 of a buffer of more than four bytes |
| Parser.ParseBuffer.ReadString | platform-tyq2/src/CaptureDpdk/cJSON.c:770-896 | reads the literal at the cursor as StringSpec.ParseString says; on failure the cursor is where the code leaves it |
| Parser.ParseBuffer.ParseString | platform-tyq2/src/CaptureDpdk/cJSON.c:770-896 | on success the item is a string with that text |
| Parser.ParseBuffer.ParseNumber | platform-tyq2/src/CaptureDpdk/cJSON.c:302-376 | on success the item is the number denoted by the longest decimal prefix of the copied characters, its int saturated, and the cursor is behind that prefix |
| Parser.ParseBuffer.ParseValue | platform-tyq2/src/CaptureDpdk/cJSON.c:1309-1361 | terminates and reads only below the buffer length; on success the cursor has advanced, the depth is restored, and the item is the root of a tree of new nodes that reads as the value |
| Parser.ParseBuffer.ParseArray | platform-tyq2/src/CaptureDpdk/cJSON.c:1438-1533 | refuses at depth 1000, else parses the elements despite the step back in front of the first; the child list is closed with the tail behind the head |
| Parser.ParseBuffer.ParseElement | platform-tyq2/src/CaptureDpdk/cJSON.c:1475-1503 | a new node is linked behind the last one before it is filled; the list under construction stays linked and its nodes stay apart |
| Parser.ParseBuffer.ParseNextValue | platform-tyq2/src/CaptureDpdk/cJSON.c:1496-1503 | steps over the mark in front, skips whitespace, and parses the value there into the node given |
| Parser.ParseBuffer.TurnElements | platform-tyq2/src/CaptureDpdk/cJSON.c:1471-1506 | one turn of the loop: on success what is left of the text and the elements so far are what the grammar function would go on with, and the turn says whether a comma follows |
| Parser.ParseBuffer.FillArray | platform-tyq2/src/CaptureDpdk/cJSON.c:1461-1520 | the loop behind the bracket and the check of the closing one; the list is handed to the item |
| Parser.ParseBuffer.ParseElements | platform-tyq2/src/CaptureDpdk/cJSON.c:1471-1510 | the loop accepts exactly what the grammar function accepts and builds one node per element, in order |
| Parser.ParseBuffer.ParseObject | platform-tyq2/src/CaptureDpdk/cJSON.c:1598-1708 | the same for objects |
| Parser.ParseBuffer.ReadName | platform-tyq2/src/CaptureDpdk/cJSON.c:1654-1675 | reads a name and its colon as the grammar does, in front of the value; on failure the cursor is where the code leaves it |
| Parser.ParseBuffer.ParseName | platform-tyq2/src/CaptureDpdk/cJSON.c:1654-1675 | the name is parsed as a string value, moved to its place, and must be followed by a colon |
| Parser.ParseBuffer.ParseMember | platform-tyq2/src/CaptureDpdk/cJSON.c:1654-1679 | name and value of one member end up in one node |
| Parser.ParseBuffer.TurnMembers | platform-tyq2/src/CaptureDpdk/cJSON.c:1629-1682 | one turn of the loop over members, like that over elements |
| Parser.ParseBuffer.FillObject | platform-tyq2/src/CaptureDpdk/cJSON.c:1619-1695 | the loop behind the brace and the check of the closing one |
| Parser.ParseBuffer.ParseMembers | platform-tyq2/src/CaptureDpdk/cJSON.c:1629-1686 | the loop accepts exactly what the grammar function accepts and builds one named node per member, in order |
| Parser.Finish | platform-tyq2/src/CaptureDpdk/cJSON.c:1512-1524 | on success the finished list is closed and the item stands for the whole container |
| Parser.ParseBuffer.ParseWhole | platform-tyq2/src/CaptureDpdk/cJSON.c:1092-1138 | with `require_null_terminated` only whitespace may stand between the value and the NUL |
| Parser.ParseAll | platform-tyq2/src/CaptureDpdk/cJSON.c:1092-1170 | the parse of a whole buffer, and the position it keeps: where parsing stopped or failed, never behind the last byte |
| Parser.ParseWithOpts | platform-tyq2/src/CaptureDpdk/cJSON.c:1076-1170 | for every C string: an item is returned exactly when the text is accepted, with the place where parsing stopped; otherwise the kept error position is where parsing failed, or the NUL when it ran off the end |
| Tokens.ValueTokens | platform-tyq2/src/CaptureDpdk/cJSON.c:1309-1708 | a value is accepted, with this behind it, if and only if reading token after token, with any whitespace between, gives the tokens of the tree, and the nesting is not too deep |
| Tokens.TextTokens | platform-tyq2/src/CaptureDpdk/cJSON.c:1076-1170 | a text is accepted whole as a tree if and only if its tokens are those of the tree, at most 1000 brackets are open at a time while they are read, and only whitespace follows; so no comma too many, no missing colon, and nothing else is accepted |
| Tokens.PrefixTokens | platform-tyq2/src/CaptureDpdk/cJSON.c:1076-1170 | the same without `require_null_terminated`, whatever follows |
| Tokens.DeepestIs | platform-tyq2/src/CaptureDpdk/cJSON.c:1443-1448 | the nesting of a tree is the greatest number of brackets open at a time in its tokens |
| Tokens.WordsRead | platform-tyq2/src/CaptureDpdk/cJSON.c:1317-1336 | the bytes of null, true and false are read as these values |
| Tokens.MarkSkipped | platform-tyq2/src/CaptureDpdk/cJSON.c:1061-1074 | a byte order mark in front of two bytes at least is skipped, and nothing else |
| ErrorPlace.TextRuns | platform-tyq2/src/CaptureDpdk/cJSON.c:1076-1170 | where parsing stops and where it fails, for every text: at the place where a machine stops that reads token after token, keeps the open brackets and knows what may come next; for a name that does not begin with a quote one byte behind |
| ErrorPlace.ValueRuns | platform-tyq2/src/CaptureDpdk/cJSON.c:1309-1708 | the same for a value under any open brackets |
| ParserSpec.SkipSpacesTwice | platform-tyq2/src/CaptureDpdk/cJSON.c:1035-1058 | skipping whitespace twice is skipping it once, which makes the step back in front of the first element harmless |
| ParserSpec.ValueStart | platform-tyq2/src/CaptureDpdk/cJSON.c:1309-1361 | no accepted value starts with whitespace or a slash |
| ParsedTrees.ParsedValue | platform-tyq2/src/CaptureDpdk/cJSON.c:1438-1533 | an accepted tree never has more than 1000 containers open, and all its strings and names are C strings |
| ParsedTrees.ParsePrintParse | platform-tyq2/src/CaptureDpdk/cJSON.c:1309-1822 | every accepted text, printed and parsed again, gives the same tree, if its numbers are int32 |
| Printer.PrintBuffer.Ensure | platform-tyq2/src/CaptureDpdk/cJSON.c:436-519 | room is made exactly when `offset + needed + 1` fits what the buffer may become; what was written stays; a buffer that is replaced gets twice the room needed, or INT_MAX; a fixed buffer is never replaced |
| Printer.PrintBuffer.UpdateOffset | platform-tyq2/src/CaptureDpdk/cJSON.c:522-532 | the cursor moves to the first NUL behind it |
| Printer.PrintBuffer.CountEscapes | platform-tyq2/src/CaptureDpdk/cJSON.c:926-950 | the counting loop predicts exactly how much longer the escaped text is |
| Printer.PrintBuffer.WriteEscaped | platform-tyq2/src/CaptureDpdk/cJSON.c:969-1015 | the writing loop ends exactly where the count said, with the escaped text in between |
| Printer.PrintBuffer.PrintCString | platform-tyq2/src/CaptureDpdk/cJSON.c:920-1018 | succeeds exactly when the quoted text and two more bytes fit, and then appends it with its NUL |
| Printer.PrintBuffer.PrintStringPtr | platform-tyq2/src/CaptureDpdk/cJSON.c:899-1018 | the same, and a missing string is printed as the empty one |
| Printer.PrintBuffer.PrintNumber | platform-tyq2/src/CaptureDpdk/cJSON.c:542-611 | the same for the "%d" text of a number |
| Printer.PrintBuffer.PrintValue | platform-tyq2/src/CaptureDpdk/cJSON.c:1364-1435 | printing any tree of nodes that shows the value (that agrees with it in what the printer reads: kinds, numbers, strings, member names, children) succeeds exactly when its text and two more bytes fit, and then appends the text PrinterSpec gives, so neither the starting capacity nor the way the buffer grew shows in it |
| Printer.PrintBuffer.PrintArray | platform-tyq2/src/CaptureDpdk/cJSON.c:1536-1595 | the same for an array, whatever names its elements carry |
| Printer.PrintBuffer.PrintItem | platform-tyq2/src/CaptureDpdk/cJSON.c:1559-1583 | one element, and a separator with its NUL exactly if a next one is linked |
| Printer.PrintBuffer.PrintItems | platform-tyq2/src/CaptureDpdk/cJSON.c:1559-1583 | the walk along `next` prints the elements in order; when it fails the text would not have fitted |
| Printer.PrintBuffer.PrintObject | platform-tyq2/src/CaptureDpdk/cJSON.c:1711-1822 | the same for an object |
| Printer.PrintBuffer.PrintMember | platform-tyq2/src/CaptureDpdk/cJSON.c:1738-1801 | one line: tabs, name, colon, value, comma unless last, line end, and its NUL; success exactly when it fits |
| Printer.PrintBuffer.PrintNameAndValue | platform-tyq2/src/CaptureDpdk/cJSON.c:1754-1776 | name, colon and value of one line |
| Printer.PrintBuffer.PrintMembers | platform-tyq2/src/CaptureDpdk/cJSON.c:1738-1801 | the walk along `next` prints the members in order |
| Printer.TextNulFree | platform-tyq2/src/CaptureDpdk/cJSON.c:1364-1435 | the text of a well-formed tree holds no NUL, so finding the end by the first NUL is right |
| Layout.TextLaidOut | platform-tyq2/src/CaptureDpdk/cJSON.c:1536-1822 | printed text is laid out as a scanner of its bytes demands that knows only literals and open brackets. Formatted: behind a comma of an array one space, behind a colon one tab, behind an opening brace and a comma of an object a line end and a tab for each open bracket, in front of a closing brace a line end and one tab less, nowhere else a blank. Unformatted: no byte up to 32 outside literals |
| Printer.EmptyQuoted | platform-tyq2/src/CaptureDpdk/cJSON.c:912-924 | a missing string is printed as two quotes |
| Printer.Print | platform-tyq2/src/CaptureDpdk/cJSON.c:1184-1257 | succeeds exactly when the text stays two bytes below INT_MAX, and returns the text and its NUL only |
| Printer.PrintBuffered | platform-tyq2/src/CaptureDpdk/cJSON.c:1259-1287 | for every prebuffer size from 1 the same text, or nothing for a negative one |
| Printer.PrintPreallocated | platform-tyq2/src/CaptureDpdk/cJSON.c:1289-1306 | succeeds if and only if the buffer has two bytes more than the text, so the five spare bytes the header asks for always suffice |
| RoundTrip.PrintThenParse | platform-tyq2/src/CaptureDpdk/cJSON.c:1309-1822 | for every tree of null, booleans, int32, strings, arrays and objects with C strings, formatted or not: parsing the printed text gives back the tree if and only if at most 1000 containers are nested |
| RoundTrip.ValueParses | platform-tyq2/src/CaptureDpdk/cJSON.c:1309-1822 | the same at any indentation, at any depth and in front of any text a value may stand in front of |
| ItemRoundTrip.PrintParseCompare | platform-tyq2/src/CaptureDpdk/cJSON.c:1184-3101 | an item that shows a value, printed and parsed again, is a tree of new nodes that reads as the value; cJSON_Compare finds it equal to the original exactly if the original is steady, that is if it compares equal to its own duplicate; so always when no string is missing and no object repeats a name |
| JsonTree.TreeOfShows | platform-tyq2/src/CaptureDpdk/cJSON.c:1309-1435 | the tree the parser builds for a value is one the printer prints as that value |
| JsonTree.KindNumbers | platform-tyq2/include/CaptureDpdk/cJSON.h:80-90 | the type of the item built for each value, as cJSON.h numbers them, and its valueint, valuedouble and valuestring |
| JsonTree.ReadBackSteady | platform-tyq2/src/CaptureDpdk/cJSON.c:1309-3101 | a tree compares equal to the parser's tree of the value it shows exactly if it compares equal to its own copy: comparing sees no field that printing loses, but for missing strings and repeated names |
| CompareSpec.AlikeCompare | platform-tyq2/src/CaptureDpdk/cJSON.c:2978-3101 | trees alike in kind, number, string, member names and children compare alike with every tree |
| CompareSpec.EqualNoGaps | platform-tyq2/src/CaptureDpdk/cJSON.c:2978-3101 | a tree with a missing string or an unknown kind in it compares equal to nothing |
| ItemRoundTrip.PrintAndParse | platform-tyq2/src/CaptureDpdk/cJSON.c:1076-1257 | print composed with parse on items that show a value: refused exactly when more than 1000 containers are nested |
| ItemRoundTrip.WellFormedProper | platform-tyq2/src/CaptureDpdk/cJSON.c:2978-3101 | values with C strings, int32 numbers and no repeated names are trees on which comparing decides equality |
| Minify.Minify | platform-tyq2/src/CaptureDpdk/cJSON.c:2830-2876 | in place, with the write cursor never ahead of the read cursor: the C string becomes Minified of the old one, and bytes behind the old terminator are untouched; what Minified keeps is said by MinifyStretches.MinifiedIs |
| MinifyStretches.RowMinified | platform-tyq2/src/CaptureDpdk/cJSON.c:2781-2876 | of any row of blanks, line comments, block comments, lone slashes, literals and other bytes exactly the literals and the other bytes are kept, whatever follows the row |
| MinifyStretches.MinifiedIs | platform-tyq2/src/CaptureDpdk/cJSON.c:2781-2876 | every text is such a row with at most one unfinished comment or literal behind it; of an unfinished comment nothing is kept, an unfinished literal is kept whole |
| MinifyStretches.LineMinified | platform-tyq2/src/CaptureDpdk/cJSON.c:2781-2792 | a line comment goes, with the line end, whatever follows |
| MinifyStretches.BlockMinified | platform-tyq2/src/CaptureDpdk/cJSON.c:2794-2806 | a block comment goes, with its end, whatever follows |
| Minify.MinifyString | platform-tyq2/src/CaptureDpdk/cJSON.c:2808-2828 | a literal is copied whole, quotes included, up to the quote minify_string takes for its end |
| Minify.MinifyIdempotent | platform-tyq2/src/CaptureDpdk/cJSON.c:2781-2876 | minifying twice is minifying once, for every text |
| Minify.MinifiedNulFree | platform-tyq2/src/CaptureDpdk/cJSON.c:2781-2876 | the result is a C string |
| MinifyParse.MinifyKeepsTree | platform-tyq2/src/CaptureDpdk/cJSON.c:2781-2876 | a text accepted with `require_null_terminated` parses to the same tree after minifying if it is harmless: no blank and no slash that the parser reads in a literal is read by cJSON_Minify outside literals |
| MinifyParse.MinifyKeepsExactly | platform-tyq2/src/CaptureDpdk/cJSON.c:2781-2876 | it parses to the same tree if and only if it is harmless, for every accepted text whose literals hold no control character, and no escape of which stands for a space, a slash or NUL |
| MinifyModes.OnlyTrailingBackslashes | platform-tyq2/src/CaptureDpdk/cJSON.c:2808-2828 | only a literal that ends in an escaped backslash can do harm |
| MinifyModes.StepKept | platform-tyq2/src/CaptureDpdk/cJSON.c:2830-2876 | outside literals, inside one, or behind a backslash in one: a byte that is no blank and no slash outside literals is kept, and where cJSON_Minify stands next follows from that byte |
| MinifyLiterals.LiteralDiffers | platform-tyq2/src/CaptureDpdk/cJSON.c:2830-2876 | a literal of which a blank or a slash is dropped is read as a different string, if it is read at all |
| MinifyParse.TrailingBackslashBreaks | platform-tyq2/src/CaptureDpdk/cJSON.c:2808-2828 | ["\\","a b"] is accepted and not harmless, and minified it parses to a different tree |
| ChildList.GetArrayItem | platform-tyq2/src/CaptureDpdk/cJSON.c:1848-1865 | the index-th child, or null behind the end |
| ChildList.AddItemToArray | platform-tyq2/src/CaptureDpdk/cJSON.c:1925-1984 | succeeds exactly for two different non-null items; the child sequence gets the item at its end and keeps its invariant: `next` in order, null at the end, `prev` inverse, the tail behind the head |
| ChildList.InsertItemInArray | platform-tyq2/src/CaptureDpdk/cJSON.c:2260-2287 | inserts at the index, or at the end behind it; a negative index is refused and nothing changes |
| ChildList.DetachItemViaPointer | platform-tyq2/src/CaptureDpdk/cJSON.c:2184-2218 | the child is taken out of the sequence, first, inner, last or only, and is left linked to nothing |
| ChildList.ReplaceItemViaPointer | platform-tyq2/src/CaptureDpdk/cJSON.c:2289-2336 | the child is replaced at its index, first, inner, last or only, and is left linked to nothing; replacing an item by itself changes nothing |
| ChildList.DetachItemFromArray | platform-tyq2/src/CaptureDpdk/cJSON.c:2220-2228 | by index: null and no change outside the list |
| ChildList.ReplaceItemInArray | platform-tyq2/src/CaptureDpdk/cJSON.c:2338-2346 | by index: succeeds exactly inside the list |
| ChildList.InsertUndone | platform-tyq2/src/CaptureDpdk/cJSON.c:2184-2287 | detaching undoes inserting, and inserting undoes detaching |
| ChildList.OneReading | platform-tyq2/src/CaptureDpdk/cJSON.c:1848-1865 | the links determine the sequence of children: no two sequences describe one list |
| CompareSpec.CompareSymmetric | platform-tyq2/src/CaptureDpdk/cJSON.c:2978-3101 | comparing is symmetric on all trees, malformed ones included |
| CompareSpec.CompareDecides | platform-tyq2/src/CaptureDpdk/cJSON.c:2978-3101 | on trees with known kinds, int32 numbers, strings present and pairwise different names, comparing decides equality of what they denote, where objects denote maps from names |
| CompareSpec.HalfDecides | platform-tyq2/src/CaptureDpdk/cJSON.c:3060-3093 | one loop over members decides that one map is a part of the other |
| CompareSpec.MemberDecides | platform-tyq2/src/CaptureDpdk/cJSON.c:3064-3077 | a member is matched exactly when the other map agrees under its name |
| CompareSpec.Int32Compare | platform-tyq2/src/CaptureDpdk/cJSON.c:535-539 | int32 doubles are within the tolerance exactly when they are equal |
| CompareSpec.DoublesNear | platform-tyq2/src/CaptureDpdk/cJSON.c:535-539 | two reals are equal exactly if they have one sign and the smaller in magnitude is at least 1 - 2^-52 of the other |
| CompareSpec.SameNameIs | platform-tyq2/src/CaptureDpdk/cJSON.c:130-149 | ignoring case, two names are the same exactly if they are equal but for the capital and the small letters of ASCII |
| CompareSpec.LookupFirst | platform-tyq2/src/CaptureDpdk/cJSON.c:1877-1907 | the search gives the first member with the name; case-sensitively only if no member in front of it is without a name |
| CompareSpec.KindsCompared | platform-tyq2/src/CaptureDpdk/cJSON.c:2985-3000 | the eight types of cJSON.h are compared, a tree of any other type equals nothing |
| CompareSpec.LookupFinds | platform-tyq2/src/CaptureDpdk/cJSON.c:1877-1907 | among named members the search fails only when the name is not there |
| CompareSpec.CopyCompares | platform-tyq2/src/CaptureDpdk/cJSON.c:2698-2767 | a tree compares equal to its copy if and only if it is steady: no unknown kind, no missing string, every member found by its name, and equal to the first member of that name |
| CompareSpec.ProperCompares | platform-tyq2/src/CaptureDpdk/cJSON.c:2698-2767 | in particular when names differ pairwise |
| CompareSpec.RepeatedNameDiffers | platform-tyq2/src/CaptureDpdk/cJSON.c:2978-3101 | the object {"a":1,"a":2} does not compare equal to its own copy, so the condition is needed |
| Items.AttachItem | platform-tyq2/src/CaptureDpdk/cJSON.c:1475-1494 | linking a blank node at the end of a list under construction |
| Items.Duplicate | platform-tyq2/src/CaptureDpdk/cJSON.c:2698-2767 | the duplicate reads as the same tree (without children if not recursive), is made of new nodes only, and is linked to nothing outside |
| Items.GetObjectItem | platform-tyq2/src/CaptureDpdk/cJSON.c:1877-1907 | returns the first member whose name is the same, byte by byte or but for ASCII letter case, or null if there is none; case-sensitively a nameless member ends the search |
| Items.CompareItems | platform-tyq2/src/CaptureDpdk/cJSON.c:2978-3101 | on trees that share no node the pointer walk computes Compare of what they read as; an item of known kind equals itself; null equals nothing |
| Items.CompareArrays | platform-tyq2/src/CaptureDpdk/cJSON.c:3036-3058 | the walk along two lists, which must end together |
| Items.CompareHalf | platform-tyq2/src/CaptureDpdk/cJSON.c:3064-3077 | one of the two loops over members |
| Items.CompareWithCopy | platform-tyq2/src/CaptureDpdk/cJSON.c:2698-3101 | comparing an item with its duplicate gives true exactly for steady trees |
| Uthash.HashTable.BucketOf | platform-tyq2/include/CaptureDpdk/uthash.h:431-434 | `hashv & (num_buckets - 1)` is the remainder, because the bucket count is a power of two |
| Uthash.HashTable.AppendList | platform-tyq2/include/CaptureDpdk/uthash.h:279-285 | the order gets the item at its end; links and tail stay right |
| Uthash.HashTable.UnlinkFromList | platform-tyq2/include/CaptureDpdk/uthash.h:451-476 | the order loses the item, wherever it stands; head, tail and links stay right |
| Uthash.HashTable.PushToBucket | platform-tyq2/include/CaptureDpdk/uthash.h:768-777 | the item becomes the head of its chain; no other bucket changes |
| Uthash.HashTable.DelInBucket | platform-tyq2/include/CaptureDpdk/uthash.h:790-803 | the item leaves its chain, wherever it stands; no other bucket changes |
| Uthash.HashTable.Find | platform-tyq2/include/CaptureDpdk/uthash.h:154-174 | returns exactly the item stored under the key, or null |
| Uthash.HashTable.CountItem | platform-tyq2/include/CaptureDpdk/uthash.h:854-859 | one more item in a new bucket: `nonideal_items` grows by what the excess over the ideal length grows, and `expand_mult` stays right |
| Uthash.HashTable.LinkItem | platform-tyq2/include/CaptureDpdk/uthash.h:860-865 | the item becomes the head of its new chain |
| Uthash.HashTable.MoveItem | platform-tyq2/include/CaptureDpdk/uthash.h:852-865 | both for one item, while the items not moved yet keep their links |
| Uthash.HashTable.DrainBucket | platform-tyq2/include/CaptureDpdk/uthash.h:849-867 | one old bucket, front to back |
| Uthash.HashTable.Redistribute | platform-tyq2/include/CaptureDpdk/uthash.h:848-868 | every new chain is what pushing the old chain item by item gives; none is lost, none is duplicated |
| Uthash.HashTable.ExpandBuckets | platform-tyq2/include/CaptureDpdk/uthash.h:834-884 | twice the buckets and the same items; `ideal_chain_maxlen` is the rounded-up quotient, `nonideal_items` the sum of the excesses, and two ineffective expansions in a row switch expansion off |
| Uthash.IdealLength | platform-tyq2/include/CaptureDpdk/uthash.h:845-847 | the shift and mask compute ceil(items / 2n) |
| Uthash.Split | platform-tyq2/include/CaptureDpdk/uthash.h:852-853 | an item of old bucket i goes to new bucket i or i + n |
| Uthash.PushAllKeeps | platform-tyq2/include/CaptureDpdk/uthash.h:849-867 | every item of the old chain that belongs to a new bucket is in its new chain |
| Uthash.PushAllReverses | platform-tyq2/include/CaptureDpdk/uthash.h:849-867 | a new chain is the old one without the items that belong elsewhere, in reverse |
| Uthash.MultBound | platform-tyq2/include/CaptureDpdk/uthash.h:854-859 | `expand_mult` is ceil(count / ideal) for a chain longer than ideal, but one less for the first item beyond it and where ideal is 1 |
| Uthash.ExcessIs | platform-tyq2/include/CaptureDpdk/uthash.h:854-855 | `nonideal_items` is the number of items that stand behind the first `ideal` items of their chain |
| Uthash.CeilDivIs | platform-tyq2/include/CaptureDpdk/uthash.h:845-847 | that quotient is the least number of ideal lengths that hold the items |
| Uthash.HashTable.MakeTable | platform-tyq2/include/CaptureDpdk/uthash.h:213-243 | 32 empty buckets, counters zero |
| Uthash.HashTable.AddToTable | platform-tyq2/include/CaptureDpdk/uthash.h:338-346 | counts and places the item, and doubles the buckets exactly when the chain reaches ten times `expand_mult + 1` and expansion is on |
| Uthash.HashTable.Add | platform-tyq2/include/CaptureDpdk/uthash.h:397-423 | the map gets the key, the order gets the item at its end, and the whole invariant of HASH_FSCK holds again |
| Uthash.HashTable.Delete | platform-tyq2/include/CaptureDpdk/uthash.h:451-478 | the map loses the key, the order loses the item; the last item takes the table with it |
| Uthash.HashTable.Replace | platform-tyq2/include/CaptureDpdk/uthash.h:255-270 | returns the item stored under the key before, or null; the map has the new item, which is last in the order; an item may replace itself |
| Uthash.StoredWithout | platform-tyq2/include/CaptureDpdk/uthash.h:451-478 | with distinct keys, taking an item out of the order takes exactly its key out of the map |
| UthashRun.Step | platform-tyq2/include/CaptureDpdk/uthash.h:154-478 | one replacement, replacement in order, deletion by key or sort, against the same step on a plain map and a plain sequence |
| UthashRun.Run | platform-tyq2/include/CaptureDpdk/uthash.h:154-973 | over every run of them, items put back after they were removed or replaced included, the table agrees with the plain map and the plain sequence, and its invariant holds; a run ends early only when a 32-bit counter is used up |
| UthashSort.MergeRuns | platform-tyq2/include/CaptureDpdk/uthash.h:917-956 | the merge of a run and of at most `insize` items behind it, relinked in place, is the merge of the two sequences |
| UthashSort.StepOver | platform-tyq2/include/CaptureDpdk/uthash.h:907-916 | the first run is as long as `insize`, or the rest of the list |
| UthashSort.RunPass | platform-tyq2/include/CaptureDpdk/uthash.h:900-963 | one pass merges neighbouring runs; at most one merge happened exactly when the list is no longer than two runs |
| UthashSort.SortList | platform-tyq2/include/CaptureDpdk/uthash.h:895-968 | terminates with the merge-sorted list, correct `prev` links, head and tail; the run length never wraps around while it is used |
| UthashSort.Sort | platform-tyq2/include/CaptureDpdk/uthash.h:890-973 | the order becomes SortFrom of the old one; chains, buckets and counters are not touched, and every lookup is unchanged |
| MergeSpec.SortCorrect | platform-tyq2/include/CaptureDpdk/uthash.h:890-973 | under any total preorder SortFrom gives a permutation that is sorted and keeps tied elements in their old order |
| MergeSpec.MergeStable | platform-tyq2/include/CaptureDpdk/uthash.h:918-946 | a merge keeps the order among tied elements, the first run before the second |
| MergeSpec.PassDoubles | platform-tyq2/include/CaptureDpdk/uthash.h:901-957 | a pass turns sorted runs of w into sorted runs of 2w |
| UthashInorder.FirstGreater | platform-tyq2/include/CaptureDpdk/uthash.h:287-294 | the scan stops at the first item that compares greater |
| UthashInorder.AddInorder | platform-tyq2/include/CaptureDpdk/uthash.h:351-389 | the order becomes the merge of the old one with the new item, the map gets the key, and the invariant holds |
| UthashInorder.ReplaceInorder | platform-tyq2/include/CaptureDpdk/uthash.h:245-253 | returns the item stored under the key before, or null; the map has the new item, which is merged into the order of the others; an item may replace itself |
| UthashInorder.MergeOne | platform-tyq2/include/CaptureDpdk/uthash.h:365-378 | inserting in front of the first greater element is merging with a list of one |
| UthashInorder.OneStableOrder | platform-tyq2/include/CaptureDpdk/uthash.h:890-973 | there is only one sorted order that keeps ties |
| UthashInorder.InOrderIsSort | platform-tyq2/include/CaptureDpdk/uthash.h:351-973 | adding everything in order gives the order that appending everything and sorting gives |
| ForwardPlan.SetupFwdConfigOfEachLcore | platform-tyq2/src/CaptureDpdk/config.c:1105-1143 | each lcore gets its Start and its Share, in 8 and 16 bit arithmetic |
| ForwardPlan.TilesExactly | platform-tyq2/src/CaptureDpdk/config.c:1105-1143 | the lcores run exactly the configured streams if and only if there are no more lcores than streams; the callers see to that first |
| ForwardPlan.RunOnce | platform-tyq2/src/CaptureDpdk/config.c:1105-1143 | no stream is run by two lcores |
| ForwardPlan.SharesEven | platform-tyq2/src/CaptureDpdk/config.c:1114-1142 | shares differ by at most one, the larger ones last |
| ForwardPlan.SharesAddUp | platform-tyq2/src/CaptureDpdk/config.c:1114-1142 | the shares add up to all streams, or to one per lcore when there are fewer streams |
| ForwardPlan.PairedInvolution | platform-tyq2/src/CaptureDpdk/config.c:1145-1166 | paired ports answer each other; only an odd last port has itself for a peer |
| ForwardPlan.NeighboursPaired | platform-tyq2/src/CaptureDpdk/config.c:1145-1173 | ports are paired two by two, 0 with 1, 2 with 3 and so on; a looped port is its own exit |
| ForwardPlan.ExitOnce | platform-tyq2/src/CaptureDpdk/config.c:1145-1173 | only one port is the exit of a port, told by pairs, by the round, or by itself |
| ForwardPlan.PlanForwards | platform-tyq2/src/CaptureDpdk/config.c:1264-1284 | in port ids: stream nbQ * p + q polls queue q of port p and sends to queue q of the port at the exit of p, which is the other port of the pair, the next port round, or p itself |
| ForwardPlan.ChainedCycle | platform-tyq2/src/CaptureDpdk/config.c:1168-1169 | chained ports form one cycle through all ports |
| ForwardPlan.TxPortOnce | platform-tyq2/src/CaptureDpdk/config.c:1145-1173 | in every topology each port is the exit of exactly one port |
| ForwardPlan.FillStreams | platform-tyq2/src/CaptureDpdk/config.c:1264-1284 | stream s polls queue s mod q of port s / q and sends by that port's exit, on the same queue |
| ForwardPlan.RssFwdConfigSetup | platform-tyq2/src/CaptureDpdk/config.c:1238-1285 | queue, stream and lcore counts with their truncations, and the plan of lcores and streams they lead to; stream nbQ * p + q polls queue q of port p and sends to queue q of its exit, in port ids; with distinct port ids that plan is complete for the queues in use if nothing overflows, all RX queues that are set up are polled exactly if besides there are no more of them than TX queues, and all TX queues are sent to exactly if besides there are no more of them than RX queues |
| ForwardPlan.QueuesServed | platform-tyq2/src/CaptureDpdk/config.c:1238-1285 | for any numbers of RX and TX queues and at least one port: every RX queue of every port is polled by exactly one stream if and only if there are no more RX than TX queues and all streams are there; every TX queue is sent to by exactly one if and only if there are no more TX than RX queues and all streams are there |
| ForwardPlan.UnevenQueues | platform-tyq2/src/CaptureDpdk/config.c:1247-1284 | four RX queues and two TX queues, or two and four, on two ports: no stream polls, or sends to, the third queue of a port |
| ForwardPlan.PlanComplete | platform-tyq2/src/CaptureDpdk/config.c:1105-1285 | complete, for as many queues of each kind as the smaller of the two counts says: each such RX queue of every port is polled by exactly one stream, each such TX queue is sent to by exactly one, each stream is run by exactly one lcore, and no lcore runs a stream that is not there |
| ForwardPlan.RoutesDiffer | platform-tyq2/src/CaptureDpdk/config.c:1264-1284 | no two streams poll one RX queue or send to one TX queue |
| ForwardPlan.AllServed | platform-tyq2/src/CaptureDpdk/config.c:1247-1284 | the routes of the streams that are counted reach every TX queue of every port if and only if there are no more TX than RX queues and the number of queues in use times ports fits 16 bits |
| SplitCopy.ComputePlan | platform-tyq2/src/CaptureDpdk/csumonly.c:562-577 | the planning loop and the enlargement compute Plan |
| SplitSpec.PlanFits | platform-tyq2/src/CaptureDpdk/csumonly.c:562-577 | the planned segments before the last do not reach the end of the packet; all together do, for packets below 64 KiB |
| SplitSpec.PlanConfigured | platform-tyq2/src/CaptureDpdk/csumonly.c:562-577 | the plan is the shortest row of configured lengths that holds the packet, as they are; if all of them are too short, all are used and the last is enlarged to the packet's length |
| SplitCopy.CopyPiece | platform-tyq2/src/CaptureDpdk/csumonly.c:499-523 | one turn of the loop fills one destination segment with the next bytes of one source segment |
| SplitCopy.MbufCopySplit | platform-tyq2/src/CaptureDpdk/csumonly.c:478-538 | the destination holds Fill of the source; the result is the segment count, -ENOBUFS exactly if the planned lengths cannot be cut for those of the source, -EINVAL exactly if the packet length was wrong |
| SplitCopy.AllocSegments | platform-tyq2/src/CaptureDpdk/csumonly.c:578-598 | all segments are allocated, last first, exactly when the pool has them and each but the first has the room; otherwise the loop stops early |
| SplitCopy.PktCopySplit | platform-tyq2/src/CaptureDpdk/csumonly.c:544-619 | a copy is a chain of exactly the planned segments, none longer than planned, whose data is the packet's; without one every mbuf allocated has been freed; a copy is made exactly if the pool has the mbufs, the planned segments behind the first have room, the plan can be cut for the lengths of the source segments, and the packet length is right |
| SplitSpec.SplitConserves | platform-tyq2/src/CaptureDpdk/csumonly.c:496-523 | what the segments hold followed by what is left is the packet, for every source and plan |
| SplitSpec.FillWithin | platform-tyq2/src/CaptureDpdk/csumonly.c:504-506 | no segment exceeds its planned length |
| SplitSpec.PieceFull | platform-tyq2/src/CaptureDpdk/csumonly.c:496-523 | a piece shorter than planned ends its source segment |
| SplitSpec.PieceInside | platform-tyq2/src/CaptureDpdk/csumonly.c:496-523 | no piece takes bytes of two source segments |
| SplitSpec.FillStops | platform-tyq2/src/CaptureDpdk/csumonly.c:496-523 | copying stops only when the source or the plan is used up |
| SplitSpec.AllUsed | platform-tyq2/src/CaptureDpdk/csumonly.c:496-523 | a packet copied whole uses all planned segments |
| SplitSpec.FitsExactly | platform-tyq2/src/CaptureDpdk/csumonly.c:478-538 | nothing is left exactly if the plan can be cut: there are as many runs of neighbouring planned segments, one behind the other, as source segments, and each run is long enough for its source segment; filling greedily is as good as any other way |
| SplitSpec.OneSegmentFits | platform-tyq2/src/CaptureDpdk/csumonly.c:478-538 | so a packet in one segment fits every plan that is long enough |
| SplitSpec.TwoSegmentsRefused | platform-tyq2/src/CaptureDpdk/csumonly.c:525-526 | a packet in two segments may be refused although all its bytes would fit: two segments of one byte and the plan of one segment of two |
| SplitCopy.OneSegmentCopied | platform-tyq2/src/CaptureDpdk/csumonly.c:544-619 | so a packet in one segment is always copied, given the mbufs and the room |
| SplitCopy.WithinRoom | platform-tyq2/src/CaptureDpdk/csumonly.c:588-597 | given the checks made, all segments fit their mbufs if and only if the first, unchecked piece does |
| SplitCopy.FirstRoomUnchecked | platform-tyq2/src/CaptureDpdk/csumonly.c:588-601 | a packet of one byte more than the room, planned for one segment, passes every check |
| Checksum.IpSum | platform-tyq2/src/CaptureDpdk/flowgen.c:90-107 | the accumulator stays below 32 bits and the result is Check of the words |
| Checksum.FoldAll | platform-tyq2/src/CaptureDpdk/flowgen.c:103-104 | folding ends with the one's complement representative of the sum |
| Checksum.Check | platform-tyq2/src/CaptureDpdk/flowgen.c:90-107 | congruent to minus the sum of the words modulo 65535 |
| Checksum.CheckEnds | platform-tyq2/src/CaptureDpdk/flowgen.c:90-107 | 0 for a sum that is a positive multiple of 65535, 0xFFFF only for words that are all zero |
| Checksum.StoredChecks | platform-tyq2/src/CaptureDpdk/flowgen.c:90-107 | a header with the result stored in its zeroed checksum word checks to 0 (section 3.1 of RFC 791) |
| Checksum.SwapCommutes | platform-tyq2/src/CaptureDpdk/flowgen.c:90-107 | swapping the bytes of all words swaps the bytes of the checksum (section 2(B) of RFC 1071) |
| FlowGen.MakeHeader | platform-tyq2/src/CaptureDpdk/flowgen.c:170-187 | every generated header is version 4 with five words, has the packet size less the Ethernet header as its length, no service type, identification or fragment, 64 hops, UDP, the source address and the destination address plus the flow in network order, and checks to 0 on a little-endian machine and in network order |
| FlowGen.Generator.Generate | platform-tyq2/src/CaptureDpdk/flowgen.c:158-206 | a burst carries consecutive flows, as many as asked for or as there are mbufs |
| FlowGen.Generator.BackOut | platform-tyq2/src/CaptureDpdk/flowgen.c:225-229 | the counter goes back by the packets not sent, modulo the number of flows, however small that is |
| FlowGen.Generator.Discard | platform-tyq2/src/CaptureDpdk/flowgen.c:231-233 | the packets not sent are freed, each once |
| FlowGen.Generator.Burst | platform-tyq2/src/CaptureDpdk/flowgen.c:116-240 | for any prefix the driver accepts: the packets sent so far and the next one have consecutive flows, and the forwarder holds no mbuf it did not hold before |
| FlowGen.Generator.Run | platform-tyq2/src/CaptureDpdk/flowgen.c:116-240 | over every run of bursts the k-th packet ever sent has flow k mod the number of flows, and exactly what the driver accepted of what could be made is sent |

## Left out

- Printer.PrintBuffer.PrintNumber: models the "%d" path for int32 numbers only; "%1.15g", "%1.17g" and the text for NaN and infinity are foreign calls.
- NumberSpec.Strtod: gives the exact real value of the decimal text, without rounding to a double, and knows no locale, hexadecimal, infinity or NaN forms.
- Parser.ParseBuffer.ParseNumber: takes the exact value for the double, so rounding before the saturation to int is not covered.
- CompareSpec.CompareDouble: is stated over real numbers, so not for NaN and infinity.
- Printer.PrintBuffered: leaves out a prebuffer of 0, where the result of malloc(0) is up to the platform.
- Minify.Minify: leaves out a null argument.
- MinifyParse.MinifyKeepsTree: goes one way for texts with control characters in literals, or with an escape that stands for a space, a slash or NUL (MinifyParse.MinifyKeepsExactly goes both ways for all others). There a byte may be lost without effect: in ["\\","\u0000 a"] the blank stands behind the end of the C string, and a lost blank or slash may be made good by an escape that spells it.
- ChildList.InsertItemInArray: asks for a new item that is not null when the index is inside the list; the code (cJSON.c:2276) dereferences it there without a test. The new item's `next` must be null and it must not be in the list.
- Items.CompareItems: says nothing of two different items that share nodes below them.
- Items.Duplicate: does not model failing allocation, nor that a name marked as constant is shared instead of copied.
- ChildList.AddItemToArray: asks for an item whose `next` is null and that is not in the list already, as the code silently does.
- Uthash.HashTable.Add: asks for a key that is not stored, as HASH_ADD does, and for less than 2^31 buckets when the table is not empty, so that `num_buckets` does not wrap around; UthashRun.Step tests that bound.
- UthashInorder.AddInorder: asks for the same.
- Uthash.HashTable.AddToTable: does not model that `num_items` wraps around at 2^32.
- SplitCopy.MbufCopySplit: the bytes of an mbuf are a sequence that grows as it is written, so that a copy beyond the room can be described and not only forbidden.
- SplitCopy.PktCopySplit: asks for a packet length and a segment count above 0, without which the code would reach in front of its array; how many of the configured segments are used is a parameter, so the random choice is covered.
- ForwardPlan.RssFwdConfigSetup: takes the streams as given that init_fwd_streams allocates, and asks for one lcore at least.
- FlowGen.Generator.Burst: the retry loop, which compares with the receive count, is not part of this model; the driver may accept any prefix.
- FlowGen.MakeHeader: builds the header as a sequence of bytes, not in the mbuf, and only the IPv4 header.
- Null arguments of the parse, print and minify entry points, which are refused first.
- Failing memory allocation in cJSON and the freeing of half-built trees (cJSON_Delete).
- Buffers without a trailing NUL (cJSON_ParseWithLength).
- cJSON_Raw in printing, and reference items.
- Aliasing of C strings: names and texts are values.
- Bloom filter, HASH_SELECT, the non-fatal out-of-memory variants and the hash functions of uthash; the hash is an arbitrary function of the key.
- simple_fwd_config_setup and dcb_fwd_config_setup in config.c, and the warning about an odd number of paired ports.
- Header parsing, checksum offload and burst statistics in csumonly.c and flowgen.c.
- choice.c, structure.c, cmdline.c, tools.c and the display functions are not part of this model.
