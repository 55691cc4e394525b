# Proofs about the Modbus proxy

The proxy polls an inverter and other devices over Modbus TCP, caches the registers, serves them to
Modbus clients, logs measurements to a data base, and reads and writes its configuration as JSON.
This project models the parts with the most state and arithmetic, and proves what they promise.

**The JSON engine** (`components/cJSON/cJSON.c`)

- `Bytes`, `JsonTree`: bytes, trees and `Render`, the text of a tree as a function of its value.
- `Utf16`, `StringRoom`, `ParseSpec`: escapes, code points and UTF-8, and what the parser makes of a
  buffer, as functions of the buffer and an offset.
- `Spelling`, `SpellingParses`, `SpellingFound`: the grammar, written down without the parser (white space
  anywhere between tokens, every spelling of strings and numbers), and that the parser accepts exactly the
  texts that spell a tree, and gives that tree.
- `RoundTrip`, `Reparse`: a printed text is one of those spellings, so parsing it gives the tree back; any
  tree that was parsed from any buffer prints to a text that parses to the same tree.
- `PrintedText`: what a printed text looks like: which bytes stand for which, and where lines, tabs and
  blanks are.
- `Items`, `ItemDelete`, `ItemBuild`: nodes on the heap, the allocator, and lists under construction. A
  ghost `Shape` says which objects make up a tree; `Tree` says that the pointers are right (acyclic
  `next` chains, every `prev` the predecessor, the head's `prev` the tail), `Separate` that no object
  occurs twice, `Denotes` which value the tree stands for. `Hooks.live` is the set of objects handed
  out and not yet freed.
- `ParseBuffer`: the parser with its moving offset, filling nodes, proved against `ParseSpec`.
- `PrintBuffer`: the printer, which walks the nodes and writes into a fixed or a growing buffer, proved
  against `Render` of the value that the nodes stand for.
- `Minify`, `MinifyTokens`, `MinifyPrinted`: the in-place minifier, what it does to each token of any text,
  and exactly when it turns the formatted text of a tree into the compact one.
- `ItemList`, `ItemEdit`: the operations that relink a list of children, on the sequence of its nodes and
  on whole trees.
- `ItemCopy`, `Comparison`, `ItemCompare`: deep copy, and comparison as a predicate and on nodes.
- `ItemLife`: a tree is parsed, printed, copied, compared and freed; the text comes back byte for byte,
  and nothing stays allocated.

**The upload ring** (`components/solar_logger/solar_logger.c`): `UploadRing` is the ring of 12352 slots;
`Fifo` is the bounded queue that drops its oldest record, which the ring refines.

**The poll cache and the frames** (`modbus_tcp_poll.c`, `modbus_tcp_client.c`, `modbus_tcp_server.c`,
`system.c`, `huawei_modbus_converter.c`): `PollCache`, `ModbusFrames`, `ModbusServer`, `ByteOrder`,
`HuaweiMeter`, and `MeterRead`, the read of the energy meter from the cache into its struct.

Where the code and what is said about it differ, the model follows the code:

- The parser accepts more than RFC 8259 does, and `Spelling` says how much: every byte up to 32 counts as
  white space; a number may have leading zeros, a bare point at its end or, behind a minus, at its
  beginning; it is read from its first 63 bytes at most; strings may hold control characters. Behind an
  escape with a digit that is none, a string may end in `\"` (`EndsInEscape`); strings of RFC 8259 never do
  (`Spelling.StrictIsProper`).
- `components/cJSON/include/cJSON.h:168` advises five bytes more than needed for `cJSON_PrintPreallocated`;
  the length of the text plus two is enough, and less is not (`PrintPreallocated`).
- `cJSON_Minify` looks only at `\"` inside strings, not at `\\`. It compacts a formatted text exactly when
  no string or key ends in a backslash, except where nothing that could be dropped follows
  (`MinifyFormatted`; `BackslashKeepsSpace` is a tree for which it does not).
- The raw lookup of polled registers takes a length in bytes for a number of registers, so the window of
  a block is twice the block. `RawAnswersFromBlock` says when a request is answered from the right block;
  `HuaweiRawAnswers` says what that means for the blocks of the inverter: requests in the block at 37100
  that end at or before 37123 are not.
- `cJSON_AddItemToArray` leaves a well-formed list exactly when the new item has no `next`, except that
  the first item of a list may have one (`AddItemToArray`).
- `cJSON_Compare` is an equivalence on integers but not on all numbers, and a tree with a key that occurs
  twice with different values is not equal to a copy of itself (`CompareMeaning`,
  `FractionsAreNotTransitive`, `RepeatedKeysAreNotReflexive`).

Allocation may be refused at any point; `hooks.refused` and `Printer.refused` record that it was.
Network, clock and data base are parameters or choices: a reply is any sequence of bytes, a send may
fail, the time may be up after any chunk.

## Model

| member | source | states |
|---|---|---|
| `SpellingFound.AcceptedDocuments` | components/cJSON/cJSON.c:1099-1192 | for every buffer and every tree: the parser accepts the buffer and gives the tree if and only if the buffer, up to its last byte, which is a NUL, spells that tree in the grammar of `Spelling`, nested at most 1000 deep |
| `SpellingParses.DocumentParses` | components/cJSON/cJSON.c:1099-1192 | every spelling parses to its tree, with white space anywhere between tokens and with or without a byte order mark, and the end of the value or of the text is found |
| `SpellingParses.ValueParses` | components/cJSON/cJSON.c:1336-1388 | the same for a value in the middle of a buffer, in front of a byte that cannot continue a number |
| `SpellingParses.ArrayParses` | components/cJSON/cJSON.c:1465-1560 | the same for arrays, whatever white space stands around brackets, commas and elements |
| `SpellingParses.ObjectParses` | components/cJSON/cJSON.c:1625-1740 | the same for objects, whatever white space stands around braces, keys, colons, values and commas |
| `SpellingParses.StringParses` | components/cJSON/cJSON.c:792-919 | the same for strings, in every spelling of every character: bytes, the eight short escapes, escapes of four digits in either case, surrogate pairs |
| `SpellingParses.NumeralParses` | components/cJSON/cJSON.c:307-381 | the same for numbers: sign, digits, point, fraction and exponent count by their places, and `valueint` is the number cut off or the end of the range |
| `SpellingFound.ValueFound` | components/cJSON/cJSON.c:1336-1388 | whatever is accepted as a value is a spelling of the value returned, up to the offset returned, and nested no deeper than the limit leaves |
| `SpellingFound.StringFound` | components/cJSON/cJSON.c:792-919 | the same for strings |
| `SpellingFound.NumberFound` | components/cJSON/cJSON.c:307-381 | the same for numbers |
| `SpellingFound.LeadingValueParses` | components/cJSON/cJSON.c:1115-1192 | without `require_null_terminated`, a spelling at the front of a buffer is read whatever stands behind it |
| `SpellingFound.LeadingValueFound` | components/cJSON/cJSON.c:1115-1192 | and nothing but a spelling is |
| `Spelling.StrictIsProper` | components/cJSON/cJSON.c:792-919 | every string of RFC 8259, section 7, is one of the strings of the grammar, with its text between two quotes |
| `ParseBuffer.ParseSpelled` | components/cJSON/cJSON.c:1099-1192 | for every text that spells a tree the parser builds nodes that stand for that tree, or an allocation was refused |
| `RoundTrip.RenderSpells` | components/cJSON/cJSON.c:1391-1462 | the printed text of every printable tree, formatted or compact, is a spelling of that tree |
| `RoundTrip.DocumentRoundTrip` | components/cJSON/cJSON.c:1099-1192 | for every tree of null, booleans, integers, NUL-free strings, arrays and objects nested at most 1000 deep, parsing its text, formatted or compact, succeeds, ends on the terminating NUL and gives the tree |
| `RoundTrip.ValueRoundTrip` | components/cJSON/cJSON.c:1336-1388 | the same for a value in the middle of a buffer, at any depth that the nesting limit leaves |
| `RoundTrip.ArrayRoundTrip` | components/cJSON/cJSON.c:1465-1560 | the text of an array parses to its items, and the parser stops behind the bracket |
| `RoundTrip.ObjectRoundTrip` | components/cJSON/cJSON.c:1625-1740 | the text of an object, with or without tabs and line ends, parses to its members in order |
| `RoundTrip.StringRoundTrip` | components/cJSON/cJSON.c:792-1041 | unescaping undoes escaping for every NUL-free string, and the closing quote is found |
| `RoundTrip.IntRoundTrip` | components/cJSON/cJSON.c:307-381 | the decimal text of every `int` parses to that `int`, both as a double and as `valueint` |
| `Reparse.ReparsePrinted` | components/cJSON/cJSON.c:1115-1192 | whatever buffer a tree was parsed from, if its numbers are integers in range, its printed text parses to the same tree |
| `Reparse.ValueIsCanonical` | components/cJSON/cJSON.c:1336-1388 | from any buffer only values within the nesting limit, with NUL-free strings and saturated integers, are parsed |
| `Utf16.AcceptedLiterals` | components/cJSON/cJSON.c:671-744 | for valid hex digits an escape is accepted exactly when it spells a Unicode scalar value, as one unit or as a surrogate pair in the right order; lone and reversed surrogates are refused |
| `Utf16.AcceptedIsSpelled` | components/cJSON/cJSON.c:671-744 | what is accepted decodes to the code point that its code units spell in UTF-16 (section 2.2 of RFC 2781) |
| `Utf16.SpelledIsAccepted` | components/cJSON/cJSON.c:671-744 | every spelling of a scalar value in front of the closing quote is accepted and read in full |
| `Utf16.ParseHex4` | components/cJSON/cJSON.c:634-667 | the number of four hex digits, and 0 when one of them is none |
| `Utf16.Utf16LiteralToUtf8` | components/cJSON/cJSON.c:671-789 | writes the UTF-8 form of the decoded code point at the output position and nothing else; returns the length of the escape, or 0 and no change |
| `Utf16.EncodeUtf8` | components/cJSON/cJSON.c:746-781 | the loop that writes the bytes from the last to the first produces the UTF-8 form |
| `Utf16.Utf8Decodes` | components/cJSON/cJSON.c:746-781 | the bytes follow the patterns of section 3 of RFC 3629 and decode to the same code point |
| `Utf16.Utf8IsTheShortest` | components/cJSON/cJSON.c:746-781 | no shorter byte sequence has the same value |
| `Utf16.EncodingTable` | components/cJSON/cJSON.c:746-781 | the bytes of each range of code points, as in section 3 of RFC 3629 |
| `Utf16.HexTable` | components/cJSON/cJSON.c:634-667 | the digits are those from `0` to `9` and from `a` to `f` in either case, each with its value, and no others |
| `StringRoom.EscapeStep` | components/cJSON/cJSON.c:818-862 | an escape of the second pass uses no more room than the first pass has left for it, even when the two passes disagree about where escapes start |
| `StringRoom.ByteStep` | components/cJSON/cJSON.c:848-852 | the same for a byte that is copied |
| `StringRoom.RoomIsLeft` | components/cJSON/cJSON.c:818-846 | the room that is left is never negative |
| `ParseBuffer.ParseBuffer.FindClosingQuote` | components/cJSON/cJSON.c:805-833 | the first pass: the closing quote and the number of escapes, or that there is no end |
| `ParseBuffer.ParseBuffer.FillOutput` | components/cJSON/cJSON.c:844-896 | for every input the second pass stays inside the measured buffer and writes exactly the unescaped bytes, or stops at the escape that it refuses |
| `ParseBuffer.ParseBuffer.Escape` | components/cJSON/cJSON.c:853-893 | one escape: its length, the bytes written, and that the bytes in front are kept |
| `ParseBuffer.ParseBuffer.ParseString` | components/cJSON/cJSON.c:792-919 | the node gets the unescaped C string in a new buffer and the offset moves behind the quote; on failure nothing stays allocated and the offset is that of the error |
| `ParseBuffer.ParseBuffer.ParseNumber` | components/cJSON/cJSON.c:307-381 | value, saturated `valueint` and offset as in `ParseSpec`; on failure nothing changes |
| `ParseBuffer.ParseBuffer.BufferSkipWhitespace` | components/cJSON/cJSON.c:1058-1081 | stops at the first byte above 32 or steps back to the last byte of the buffer |
| `ParseBuffer.ParseBuffer.ParseValue` | components/cJSON/cJSON.c:1336-1388 | terminates on every buffer; builds a separate tree of new objects that stands for the value, with exactly its objects allocated, the offset behind the value and the depth restored; or leaves nothing allocated and the offset at the error |
| `ParseBuffer.ParseBuffer.ParseItems` | components/cJSON/cJSON.c:1503-1537 | the loop over elements: a well-formed growing list that stands for the elements read; on failure the list is deleted |
| `ParseBuffer.ParseBuffer.ParseArray` | components/cJSON/cJSON.c:1465-1560 | as `ParseValue`, for arrays |
| `ParseBuffer.ParseBuffer.ParseMembers` | components/cJSON/cJSON.c:1663-1716 | the loop over members, as `ParseItems` |
| `ParseBuffer.ParseBuffer.ParseName` | components/cJSON/cJSON.c:1690-1704 | the string read becomes the name of the node, and the colon must follow |
| `ParseBuffer.ParseBuffer.ParseObject` | components/cJSON/cJSON.c:1625-1740 | as `ParseValue`, for objects |
| `ParseBuffer.ParseWithLengthOpts` | components/cJSON/cJSON.c:1115-1192 | a separate tree for the document and the end of the text, or NULL with nothing allocated and the error position, which lies inside the buffer; absent a refused allocation, NULL exactly when `ParseDocument` fails |
| `ParseBuffer.ParsePrinted` | components/cJSON/cJSON.c:1099-1192 | on the printed text of a tree the parser builds nodes that stand for that tree, or an allocation was refused |
| `ParseSpec.ParseValue` | components/cJSON/cJSON.c:1336-1388 | a value that is read takes at least one byte, and no offset lies behind the buffer |
| `ParseSpec.SkipWhitespace` | components/cJSON/cJSON.c:1058-1081 | never moves back, and stays inside a buffer that it starts in |
| `ItemDelete.Delete` | components/cJSON/cJSON.c:253-276 | frees every node and string of a list of trees, each once, and nothing else |
| `ItemDelete.DeleteNode` | components/cJSON/cJSON.c:256-275 | the body of the loop: children, strings and node of one tree |
| `ItemBuild.CloseList` | components/cJSON/cJSON.c:1540-1544 | with the head's `prev` set to the tail, a growing list is a finished one, and nothing below it changes |
| `Items.LinkTree` | components/cJSON/cJSON.c:1513-1525 | linking a node behind the last keeps the list well formed and the trees in it untouched |
| `PrintBuffer.PrintPreallocated` | components/cJSON/cJSON.c:1316-1333 | succeeds if and only if the length is at least that of the text plus two; the buffer then holds the text and a NUL, and no byte at or behind `length` ever changes |
| `PrintBuffer.Print` | components/cJSON/cJSON.c:1207-1272 | the growing buffer gives the same text, and fails only when that is too long for an `int` or the allocator refuses |
| `PrintBuffer.Printer.Ensure` | components/cJSON/cJSON.c:458-541 | keeps what was printed and makes room for the request and one byte more; fails only when the capacity is exceeded or the allocator refuses |
| `PrintBuffer.Printer.UpdateOffset` | components/cJSON/cJSON.c:544-554 | moves to the NUL behind the value just printed |
| `PrintBuffer.Printer.CountEscapes` | components/cJSON/cJSON.c:945-973 | the first pass over a string counts exactly the bytes that escaping adds |
| `PrintBuffer.Printer.WriteEscaped` | components/cJSON/cJSON.c:992-1036 | the second pass writes exactly the escaped string |
| `PrintBuffer.Printer.PrintString` | components/cJSON/cJSON.c:922-1041 | writes the quoted string and a NUL, or there is no room |
| `PrintBuffer.Printer.PrintNumber` | components/cJSON/cJSON.c:564-631 | writes the decimal text of an integer |
| `PrintBuffer.Printer.PrintValue` | components/cJSON/cJSON.c:1391-1462 | walks the nodes of a tree and writes the text of its value behind what was printed, or there is no room; keeps the depth |
| `PrintBuffer.Printer.PrintArray` | components/cJSON/cJSON.c:1563-1622 | as `PrintValue`, for arrays |
| `PrintBuffer.Printer.PrintObject` | components/cJSON/cJSON.c:1743-1854 | as `PrintValue`, for objects, with tabs and line ends when formatted |
| `PrintBuffer.Printer.PrintItems` | components/cJSON/cJSON.c:1586-1610 | the loop over the children writes the texts of the elements with their commas |
| `PrintBuffer.Printer.PrintMember` | components/cJSON/cJSON.c:1770-1833 | tabs, key, colon, value, comma and line end of one member |
| `PrintBuffer.TextIsCString` | components/cJSON/cJSON.c:1391-1462 | there is no NUL in the text of a tree, so that `strlen` finds its end |
| `PrintedText.PrintedByte` | components/cJSON/cJSON.c:922-1041 | quote, backslash and the five named control characters are printed as their escapes of two bytes, other controls as `\u00` and two digits in lower case, every other byte as it is |
| `PrintedText.PrintedParts` | components/cJSON/cJSON.c:922-1041 | the text of a string is that of its parts, one behind the other, between two quotes |
| `PrintedText.PlainString` | components/cJSON/cJSON.c:922-1041 | a string without quotes, backslashes and controls is printed as it is between two quotes |
| `PrintedText.PrintedInteger` | components/cJSON/cJSON.c:564-631 | an integer is printed in decimal digits without leading zeros, which count by their places, behind a minus when it is negative |
| `PrintedText.LaidOut` | components/cJSON/cJSON.c:1563-1854 | at every depth, read from the left with a stack of open brackets: in a formatted text every member and every closing brace begins its own line behind as many tabs as brackets are open around it, a blank follows each comma of an array and a tab each colon; no other white space stands outside of literals |
| `PrintedText.LinesOfFormatted` | components/cJSON/cJSON.c:1743-1854 | wherever a line begins in a formatted text, there are tabs and then a member as deep as there are tabs, or the brace that closes an object as deep |
| `PrintedText.CompactHasNoSpace` | components/cJSON/cJSON.c:1563-1854 | in a compact text, bytes up to 32 stand in literals only |
| `Minify.Minify` | components/cJSON/cJSON.c:2882-2928 | rewrites the array in place to the minified text and a NUL, whatever the text is |
| `Minify.MinifyString` | components/cJSON/cJSON.c:2860-2880 | copies a literal down without overwriting what is still to be read |
| `Minify.SkipMultilineComment` | components/cJSON/cJSON.c:2846-2858 | stops behind the end of the comment or at the NUL |
| `Minify.SkipOnelineComment` | components/cJSON/cJSON.c:2833-2844 | stops behind the line end or at the NUL |
| `MinifyTokens.LineCommentDropped` | components/cJSON/cJSON.c:2833-2844 | a comment between `//` and a line end is dropped, and only that, whatever text follows |
| `MinifyTokens.BlockCommentDropped` | components/cJSON/cJSON.c:2846-2858 | the same for a comment between `/*` and the first `*/` behind it |
| `MinifyTokens.LiteralStays` | components/cJSON/cJSON.c:2860-2880 | a literal up to the first quote without a backslash in front of it keeps its bytes |
| `MinifyTokens.MinifiedTokens` | components/cJSON/cJSON.c:2882-2928 | of any sequence of tokens, blanks, tabs, carriage returns, line ends, comments and lone slashes are dropped, literals and all other bytes kept in order; an open comment at the end is dropped, an open literal kept |
| `MinifyTokens.EveryTextIsTokens` | components/cJSON/cJSON.c:2882-2928 | every text is such a sequence of tokens, so that this says what becomes of any text |
| `MinifyPrinted.MinifyFormatted` | components/cJSON/cJSON.c:2882-2928 | minifying the formatted text of a tree gives its compact text if and only if no string or key in it ends in a backslash, or the only one that does is the very last thing of the tree |
| `MinifyPrinted.ValueMinifies` | components/cJSON/cJSON.c:2882-2928 | the same for a value with any text behind it |
| `MinifyPrinted.BackslashKeepsSpace` | components/cJSON/cJSON.c:2860-2880 | a tree whose formatted text is not compacted |
| `ItemList.GetArrayItem` | components/cJSON/cJSON.c:1880-1907 | the item at the index, or NULL |
| `ItemList.AddItemToArray` | components/cJSON/cJSON.c:1985-2016 | refuses NULL and the array itself; otherwise the list is well formed with the item at its end if and only if the item had no `next` or the list was empty |
| `ItemList.DetachItemViaPointer` | components/cJSON/cJSON.c:2216-2250 | the list without the item is well formed, and the item points nowhere |
| `ItemList.DetachItemFromArray` | components/cJSON/cJSON.c:2252-2260 | detaches the item at the index, or returns NULL and changes nothing |
| `ItemList.InsertItemInArray` | components/cJSON/cJSON.c:2292-2324 | inserts in front of the item at the index, or adds at the end |
| `ItemList.ReplaceItemViaPointer` | components/cJSON/cJSON.c:2326-2373 | the replacement stands in the item's place, and the item's tree is freed, each object once |
| `ItemEdit.AddTree` | components/cJSON/cJSON.c:1985-2016 | adding a separate tree gives a separate tree, and as a value the array with one item more |
| `ItemEdit.InsertTree` | components/cJSON/cJSON.c:2292-2324 | the same for inserting, which fails only for a negative index |
| `ItemEdit.DetachTree` | components/cJSON/cJSON.c:2216-2260 | detaching gives two separate trees that share nothing: the array without the item, and the item |
| `ItemEdit.ReplaceTree` | components/cJSON/cJSON.c:2326-2373 | the array with the item exchanged; the replaced tree is freed, each object once |
| `ItemList.InsertAndDetach` | components/cJSON/cJSON.c:2216-2324 | detaching undoes inserting and the other way round |
| `ItemCopy.Duplicate` | components/cJSON/cJSON.c:2742-2745 | the copy is a separate tree of new objects that stands for the same values as the original, which is unchanged; NULL, with nothing allocated, only when the tree is deeper than 10000 or an allocation was refused |
| `ItemCopy.DuplicateRec` | components/cJSON/cJSON.c:2747-2831 | the same at any depth of the recursion; a deeper tree always fails |
| `ItemCopy.CopyChildren` | components/cJSON/cJSON.c:2787-2811 | the loop over children: a growing list of copies, one for each child so far |
| `ItemCopy.CopiesDenote` | components/cJSON/cJSON.c:2747-2831 | a copy stands for every value that the original stands for |
| `ItemCopy.Strdup` | components/cJSON/cJSON.c:188-207 | a new buffer with the same C string |
| `ItemCopy.WithinLimit` | components/cJSON/cJSON.c:2791-2794 | all children can be copied exactly when the tree is within the limit |
| `Comparison.CompareMeaning` | components/cJSON/cJSON.c:3030-3153 | on trees with integer numbers, two different trees compare equal if and only if their values are equal up to the order of members and neither has a key twice with different values |
| `Comparison.CompareUniqueKeys` | components/cJSON/cJSON.c:3030-3153 | without repeated keys, comparing decides equality up to the order of members |
| `Comparison.CompareDecidesSame` | components/cJSON/cJSON.c:3030-3153 | without repeated keys, two trees compare equal if and only if one becomes the other by reordering the members of objects |
| `Comparison.SameMeaning` | components/cJSON/cJSON.c:3112-3147 | equal values, as `CompareMeaning` and `CompareUniqueKeys` have them, are equal trees up to such reorderings |
| `Comparison.CompareIsSymmetric` | components/cJSON/cJSON.c:3030-3153 | the order of the arguments does not matter |
| `Comparison.CompareIsTransitive` | components/cJSON/cJSON.c:3030-3153 | comparing is transitive |
| `Comparison.CompareIsReflexive` | components/cJSON/cJSON.c:3030-3153 | a tree equals a copy of itself exactly when repeated keys have equal values |
| `Comparison.RepeatedKeysAreNotReflexive` | components/cJSON/cJSON.c:3112-3147 | a tree that does not |
| `Comparison.MemberOrderDoesNotMatter` | components/cJSON/cJSON.c:3112-3147 | objects with the same members in any order compare equal |
| `Comparison.IntegersCompare` | components/cJSON/cJSON.c:557-561 | the tolerance never confuses two integers of the width of `int` |
| `Comparison.FractionsAreNotTransitive` | components/cJSON/cJSON.c:557-561 | the comparison of doubles is not transitive |
| `ItemCompare.CompareItems` | components/cJSON/cJSON.c:3030-3153 | on the nodes of two disjoint trees the code computes `Compare` of their values; a node equals itself |
| `ItemCompare.CoversMembers` | components/cJSON/cJSON.c:3112-3147 | one of the two loops over members |
| `ItemCompare.CoversMember` | components/cJSON/cJSON.c:3115-3128 | the body of the loop: the member with the same name, and its comparison |
| `ItemCompare.GetObjectItem` | components/cJSON/cJSON.c:1909-1939 | the first member with the name, or NULL |
| `ItemCompare.SameString` | components/cJSON/cJSON.c:3081-3084 | `strcmp` gives 0 exactly for equal C strings |
| `ItemLife.ParseAndPrint` | components/cJSON/cJSON.c:1099-1272 | parsing a printed text into nodes and printing the nodes gives the text back byte for byte, or in the other format when that is asked for; the nodes are freed again |
| `ItemLife.ParseCopyCompare` | components/cJSON/cJSON.c:2742-2831 | from printed text to a tree, its copy and their comparison: absent a refused allocation all steps succeed, the copy compares equal if and only if no key occurs twice with different values, and once both are deleted exactly what was allocated before is allocated |
| `ItemLife.HeightIsNesting` | components/cJSON/cJSON.c:2791-2794 | a tree is at most as high as its value is nested, so that whatever the parser accepts can be copied |
| `UploadRing.SolarLogger.PostData` | components/solar_logger/solar_logger.c:209-425 | a call is a run of the bounded queue: one append, then, exactly when it is forced, catching up or the thirtieth since the last upload, sends of 1 to 30 records each, all of 30 while records remain; the data base stays in step with the queue, an upload stops early only for a failed send or the time limit, and nothing happens when the clock cannot be read |
| `UploadRing.SolarLogger.Upload` | components/solar_logger/solar_logger.c:222-422 | the loop terminates whatever the sends do, every chunk ends at or before the newest record, every line that is freed was written, and the next call catches up exactly when the time limit left records behind |
| `UploadRing.SolarLogger.NextLine` | components/solar_logger/solar_logger.c:231-376 | one round: the line of the next pending record; the chunk is complete at 30 records or at the newest, and the text is that of the pending records in order |
| `UploadRing.SolarLogger.ChunkSent` | components/solar_logger/solar_logger.c:379-390 | flags and upload index move over exactly the records sent |
| `UploadRing.SolarLogger.MarkUploaded` | components/solar_logger/solar_logger.c:379-386 | sets the flags of the circular range and no others |
| `UploadRing.SolarLogger.UpdateCachedValues` | components/solar_logger/solar_logger.c:171-206 | the ring after an append is the bounded queue after an append; the upload index moves exactly when the ring was full |
| `UploadRing.SolarLogger.MoveUploadIndex` | components/solar_logger/solar_logger.c:180-184 | the test on indices and flag is true exactly when the ring was full |
| `UploadRing.SolarLogger.UpdateInfo` | components/solar_logger/solar_logger.c:178-205 | the metadata gives the number of records and the oldest and newest time stamps |
| `UploadRing.SolarLogger.InfoDescribes` | components/solar_logger/solar_logger.c:178-205 | the count is that of the records still in the ring, the stamps are those of the oldest and the newest of them, and the index is the slot of the oldest |
| `UploadRing.SolarLogger.PendingRange` | components/solar_logger/solar_logger.c:173-184 | among the written slots, those not uploaded are the circular range from the upload index: none when nothing is pending, all when the ring is full |
| `UploadRing.SolarLogger.PendingSlot` | components/solar_logger/solar_logger.c:231-240 | the slot of the k-th pending record holds it and is not flagged, so a full ring is told from an empty one |
| `UploadRing.SolarLogger.Drained` | components/solar_logger/solar_logger.c:393-396 | when the ring is not full, equal indices mean that nothing is pending |
| `UploadRing.ConcatenatedChunk` | components/solar_logger/solar_logger.c:356-375 | the text sent is that of the lines written, without the empty rest |
| `UploadRing.SolarLogger.Reinit` | components/solar_logger/solar_logger.c:428-444 | shutting down and starting again gives an empty ring |
| `Fifo.EveryRunIsSound` | components/solar_logger/solar_logger.c:171-425 | over every run, records are delivered in the order of their appends and at most once, a record is lost only to an append on a full ring, and delivered, dropped and pending records add up to those appended |
| `Fifo.RunsCompose` | components/solar_logger/solar_logger.c:209-425 | the runs of consecutive calls make one run |
| `Fifo.AppendSound` | components/solar_logger/solar_logger.c:171-184 | an append keeps these properties |
| `Fifo.DeliverSound` | components/solar_logger/solar_logger.c:377-390 | a successful send keeps them |
| `Fifo.DeliverDelivers` | components/solar_logger/solar_logger.c:377-390 | what is delivered next are the oldest pending records |
| `PollCache.PollingClient.PollBlock` | components/modbus_tcp_poll/modbus_tcp_poll.c:230-254 | one poll: counter and cache follow the history of outcomes, with the counter in 8 bits |
| `PollCache.PollingClient.PollOutcomes` | components/modbus_tcp_poll/modbus_tcp_poll.c:230-236 | an answer with all registers is a good outcome with its data; an exception, or a request that could not be sent, is a failed one |
| `PollCache.PollingClient.PollEntry` | components/modbus_tcp_poll/modbus_tcp_poll.c:229-256 | the invariant of the client survives every outcome, and no other block changes |
| `PollCache.PollingClient.PollAll` | components/modbus_tcp_poll/modbus_tcp_poll.c:229-256 | a round over all blocks adds one outcome to each history |
| `PollCache.PollingClient.SavePollData` | components/modbus_tcp_poll/modbus_tcp_poll.c:79-100 | the block at the address gets a copy of the data, and no other changes |
| `PollCache.CachedAfterGood` | components/modbus_tcp_poll/modbus_tcp_poll.c:237-252 | after a good response and k failures the response is cached if k < 5, zeros otherwise, for every k (so also when the counter has wrapped) |
| `PollCache.CachedWithoutGood` | components/modbus_tcp_poll/modbus_tcp_poll.c:237-252 | before any good response nothing is cached until the fifth failure |
| `PollCache.EveryHistory` | components/modbus_tcp_poll/modbus_tcp_poll.c:237-252 | these are all histories |
| `PollCache.OneMorePoll` | components/modbus_tcp_poll/modbus_tcp_poll.c:237-252 | what one more outcome does to the cache |
| `PollCache.PollingClient.GetPollData` | components/modbus_tcp_poll/modbus_tcp_poll.c:130-160 | the cached registers, reversed as a whole or with the bytes of each exchanged; zeros when no block covers the request or nothing is cached; bytes behind the request are kept |
| `PollCache.PollingClient.FindBlock` | components/modbus_tcp_poll/modbus_tcp_poll.c:134-137 | the first block that covers the request |
| `PollCache.PollingClient.BlockAnswers` | components/modbus_tcp_poll/modbus_tcp_poll.c:130-160 | a request from any register of a cached block up to and including its last one, which no block in front of it has in full, is answered with the cached bytes from twice the distance of the addresses on; nothing is answered before the block is cached |
| `PollCache.PollingClient.NoBlockAnswers` | components/modbus_tcp_poll/modbus_tcp_poll.c:134-160 | a request that reaches beyond every block is not answered |
| `PollCache.HuaweiAnswers` | components/modbus_tcp_poll/modbus_tcp_poll.c:52-61 | in the table of the inverter every request inside a block is answered from that block |
| `MeterRead.ReadMeter` | components/huawei_modbus_converter/huawei_modbus_converter.c:170-170 | after this read through the cache, each member of the energy meter struct holds the number that the last good response had in its registers |
| `PollCache.PollingClient.GetPollDataRaw` | components/modbus_tcp_poll/modbus_tcp_poll.c:103-127 | for a request that fits into the block that the lookup takes: a copy of its cached bytes, or NULL |
| `PollCache.PollingClient.RawBlockAnswers` | components/modbus_tcp_poll/modbus_tcp_poll.c:103-127 | the same for raw requests, in inequalities on addresses: which bytes of which block are the answer |
| `PollCache.PollingClient.RawAnswersFromBlock` | components/modbus_tcp_poll/modbus_tcp_poll.c:107-110 | a request to a cached block is answered from that block if and only if no earlier block has it in its doubled window |
| `PollCache.HuaweiRawAnswers` | components/modbus_tcp_poll/modbus_tcp_poll.c:52-61 | for the table of the inverter, that fails exactly for requests in the block at 37100 that end at or before register 37123 |
| `PollCache.PollingClient.constructor` | components/modbus_tcp_poll/modbus_tcp_poll.c:295-319 | a new client satisfies the invariant, with no history |
| `ModbusServer.ReadThrough` | components/modbus_tcp_server/modbus_tcp_server.c:45-129 | end to end, for 1 to 123 registers: a client reading through the server gets exactly the cached bytes, or an error that leaves its data alone |
| `ModbusServer.HandleModbusRequest` | components/modbus_tcp_server/modbus_tcp_server.c:45-129 | no answer to a message that is too short, of another protocol or function; else the success or the exception frame |
| `ModbusFrames.BuildModbusRequest` | components/modbus_tcp_client/modbus_tcp_client.c:43-56 | the twelve bytes are the request as section 6.3 of MODBUS Application Protocol V1.1b3 lays it out, behind its TCP header |
| `ModbusFrames.SendRegisterRequest` | components/modbus_tcp_client/modbus_tcp_client.c:59-77 | the request for the registers, with its length field |
| `ModbusFrames.RequestLayout` | components/modbus_tcp_client/modbus_tcp_client.c:43-56 | byte by byte: transaction, zero, length field, unit, function, first register and number of registers |
| `ModbusFrames.ReadRequestLayout` | components/modbus_tcp_client/modbus_tcp_client.c:59-77 | the client's requests have transaction 0 and a length field that counts the bytes behind it |
| `ModbusFrames.BuildResponse` | components/modbus_tcp_server/modbus_tcp_server.c:89-128 | the success frame with the data, or the exception frame |
| `ModbusFrames.GetRegisterValues` | components/modbus_tcp_client/modbus_tcp_client.c:80-108 | which replies are accepted, and that the buffer then holds the reply |
| `ModbusFrames.AcceptedReplies` | components/modbus_tcp_client/modbus_tcp_client.c:80-108 | a reply is accepted if and only if it has nine bytes and the registers, at most 256 in all, and no error bit; the data are the bytes behind the first nine |
| `ModbusFrames.ReadRaw` | components/modbus_tcp_client/modbus_tcp_client.c:190-211 | copies out the register bytes of an accepted reply, and leaves everything else alone |
| `ModbusFrames.Read` | components/modbus_tcp_client/modbus_tcp_client.c:162-187 | the same, reversed or with the bytes of each register exchanged |
| `ModbusFrames.ServerDecodesRequest` | components/modbus_tcp_server/modbus_tcp_server.c:75-87 | the server decodes the client's request to the same unit, start and count, and ignores other function codes |
| `ModbusFrames.DecodeLayout` | components/modbus_tcp_server/modbus_tcp_server.c:62-87 | a message is ignored if and only if it is shorter than twelve bytes, of another protocol or another function; otherwise unit, start and count are at their places |
| `ModbusFrames.SuccessIsAccepted` | components/modbus_tcp_client/modbus_tcp_client.c:86-107 | the client accepts the success frame if and only if it has at most 123 registers, and finds the supplied bytes in it |
| `ModbusFrames.ExceptionIsRejected` | components/modbus_tcp_client/modbus_tcp_client.c:97-101 | the client never takes an exception frame for data |
| `ModbusFrames.AnswerLayout` | components/modbus_tcp_server/modbus_tcp_server.c:96-127 | the header of an answer echoes transaction, unit and function and counts the bytes behind it, as in sections 6.3 and 7 of the same standard |
| `ByteOrder.MemcpyReverse` | components/system/system.c:6-15 | the destination gets the bytes in reverse order; the size counts modulo 256 |
| `ByteOrder.SwappedRegister` | components/modbus_tcp_poll/modbus_tcp_poll.c:146-151 | with the bytes of each register exchanged, a little-endian machine reads each register as it was sent |
| `ByteOrder.FourBytes` | components/system/system.c:6-15 | a number of two registers is sent with its high register first, and each register with its high byte first |
| `ByteOrder.ReversedBlock` | components/system/system.c:6-15 | for fields of any widths, reversing big-endian fields that follow each other gives little-endian fields in reverse order |
| `ByteOrder.FieldInMemory` | components/huawei_modbus_converter/huawei_modbus_converter.c:10-31 | a packed struct read little-endian gives each field its value |
| `HuaweiMeter.MeterMemberRead` | components/huawei_modbus_converter/huawei_modbus_converter.c:10-31 | after the reversed read of 37 registers each member of the struct holds the number that was sent in its own registers |
| `HuaweiMeter.MeterLayout` | components/huawei_modbus_converter/huawei_modbus_converter.c:170-170 | the members fill the 37 registers exactly, and the register of each follows from its offset |

## Left out

- JSON numbers that are not integers in the range of `int`: `%1.15g` and the second try with 17 digits are not modelled. `strtod` is a function over the reals without rounding.
- `cJSON_Raw`, references, constant keys, custom hooks (and with them `ensure` without `realloc`), case-insensitive lookup, `NULL` strings in string nodes: more cases of the same.
- ItemDelete.Hooks.Free: a use of a freed object is not excluded by the type system; what is proved is that only objects handed out are freed, and each once.
- ParseBuffer.ParseWithLengthOpts: the error position is that of `ParseSpec` and lies inside the buffer; which byte it names is not characterised in terms of the grammar.
- `cJSON_PrintBuffered`, `cJSON_GetArraySize`, the `Create` and `Is` functions, adding to and replacing in objects by name: easy given the rest.
- ItemList.ReplaceItemViaPointer: the caller owns the item's tree and keeps parent, siblings and replacement outside of it.
- Comparison.CompareMeaning: on integer numbers only, as `FractionsAreNotTransitive` shows that it fails on others.
- The fields of a logged record, their clamps and their text: a record is its time stamp and opaque fields. The allocation of lines and of the chunk is assumed to succeed.
- UploadRing.SolarLogger.Reinit: starting without having shut down, which would keep the write index, is not modelled.
- PollCache.PollingClient.PollBlock: allocation in the polling thread is assumed to succeed.
- PollCache.PollingClient.constructor: a client that is started a second time, with the counters of its table kept, is not modelled.
- PollCache.PollingClient.GetPollDataRaw: requests that the lookup takes to a block that does not cover them would read behind the cached data; the contract requires `Answerable`.
- ModbusFrames.GetRegisterValues: a reply arrives in one `recv`; a failed one is like an empty reply. Replies split over several segments are not modelled.
- Requests for no registers at all, for which `malloc(0)` decides between an empty answer and an exception.
- `modbus_tcp_get_poll_str` and `modbus_tcp_client_read_str`, the table of clients and stopping one of them.
- Sockets, threads, sleeps, curl, the data base protocol, logging, signals, the HTTP server, the Fronius API and the other converters. A section under a mutex is one step.
- Shifts and masks are written as division and remainder.
