# parson in Dafny

A verified model of the core of parson, a small JSON library written in C (`parson.c`). The model covers these parts:

- **The keyed table behind `JSON_Object`.** It is an open-addressing hash table. A power-of-two ring of cells holds item indices. Four dense item buffers (names, values, hashes, cell indices) are kept in insertion order. The load factor is 70%, and a full table doubles its ring with a full rehash. Removal uses backward-shift deletion and moves the last item into the freed slot (module `KeyedTable`, a class, with the ring reasoning in `Probing` and the sequence facts in `Members`).
- **The growable item buffer behind `JSON_Array`.** It supports append, replace, remove-with-shift and clear (module `DynArray`, a class over an array).
- **The string codecs:**
  - the UTF-8 checker (`Utf8`);
  - the `\uXXXX` decoder with surrogate pairs (`Utf16`);
  - `skip_quotes`, `process_string` and `json_serialize_string` (`Escapes`).
- **The comment stripper `remove_comments`** (`Comments`). It blanks comments in place.
- **The recursive-descent parser and `is_decimal`** (`Parser`, with properties in `ParserProperties`). The parser works over a NUL-terminated byte text with an explicit nesting limit of 2048.
- **The two-pass serializer** (`Serializer`, with the output-buffer primitives in `Output`). The same routine counts the bytes when it has no buffer and writes them when it has one.
- **The tree algorithms:** `json_validate`, `json_value_equals`, `json_value_deep_copy`, and the dot-path get, set and remove (`Tree`). These work over the value datatype of `Values`.
- **A round trip** (`RoundTrip`, with the text positions in `TextLayout`). It proves that `json_parse_string` reads back the value `json_serialize_to_string` wrote.

Each part takes the source's own form:

- **Pure functions of the source** are Dafny functions.
- **Loops** are methods with loop invariants, proved against specification functions:
  - the probing and shift loops;
  - `process_string`;
  - `is_valid_utf8`;
  - `remove_comments`;
  - the parser's member and item loops;
  - the serializer.
- **Structures the source updates in place** are classes with `modifies` clauses:
  - the object table;
  - the array buffer;
  - the output buffer.

Strings and keys are byte sequences. A missing (`nullptr`) argument is `None`.

## Model

| member | source | states |
|---|---|---|
| Utf8.NumBytesInSequence | parson.c:357-370 | A lead byte announces at most 4 bytes. It announces 0 exactly for 0xC0, 0xC1, bytes above 0xF4 and continuation bytes. It announces 1 exactly for ASCII. |
| Utf8.VerifySequence | parson.c:372-414 | An accepted sequence is 1 to 4 bytes long, the length its lead byte announces. |
| Utf8.VerifySequenceSound | parson.c:372-414 | Every accepted sequence lies within the text, assembles to a Unicode scalar value, and is exactly that value's RFC 3629 encoding. Overlong forms, surrogate halves, values above U+10FFFF and stray continuation bytes are therefore rejected. |
| Utf8.VerifySequenceComplete | parson.c:372-414 | The encoding of every scalar value is accepted with its own length, whatever follows it, and assembles back to that value. |
| Utf8.ValidIsEncoding | parson.c:416-427 | Every byte string the checker accepts is the concatenated encoding of a sequence of scalar values. |
| Utf8.EncodingIsValid | parson.c:416-427 | Every concatenated encoding of scalar values is accepted, so the checker accepts exactly the UTF-8 strings. |
| Utf8.IsValidUtf8 | parson.c:416-427 | The loop over the sequences of the caller's buffer returns true exactly when the first `len` bytes are valid UTF-8. Its test that each sequence ends within `len` is the correction (see Findings). |
| Utf8.VerifyWithinLength | parson.c:416-427 | A sequence that ends within the length reads the same in the buffer cut at the length. One that runs past the length fails there, because the cut ends in NUL. |
| Utf8.ValidPrefixAsWritten | parson.c:416-427 | The loop as written accepts every buffer whose first `len` bytes are valid UTF-8. It is only too lenient, never too strict. |
| Utf8.TruncatedSequenceAccepted | parson.c:416-427 | The loop as written accepts a length-1 prefix of `C3 A9`, although the lone byte `C3` is not valid UTF-8. |
| Utf8.AsWrittenAgreesOnCStrings | parson.c:416-427 | When the buffer ends exactly at the length, the loop as written and the corrected loop agree. |
| Utf16.HexCharToInt | parson.c:330-339 | Returns -1 exactly for a byte that is not a hex digit, and a digit value below 16 otherwise. |
| Utf16.ParseUtf16Hex | parson.c:341-355 | Succeeds exactly when the four bytes at the cursor are hex digits, and then yields a value below 0x10000. |
| Utf16.ParseHexValue | parson.c:341-355 | A successful parse yields the numeric value of the four digits. |
| Utf16.HexDigits4 | parson.c:341-355 | Four hex digits written for a 16-bit value parse back to that value. |
| Utf16.Utf8BytesIsEncode | parson.c:852-881 | The shifts and masks `parse_utf16` uses to emit a code point produce its RFC 3629 encoding. |
| Utf16.CombineInRange | parson.c:864-877 | A lead surrogate combined with a trail surrogate gives a supplementary-plane scalar value in 0x10000..0x10FFFF. |
| Utf16.DecodeUtf16Accepted | parson.c:842-890 | An accepted escape is one of two kinds. A non-surrogate value below 0xD800 or above 0xDFFF consumes 5 bytes and emits its 1- to 3-byte encoding. A lead surrogate followed by `\u` and a trail in 0xDC00..0xDFFF consumes 11 bytes and emits the 4-byte encoding of the combined code point. |
| Utf16.DecodeUtf16Rejected | parson.c:842-890 | A rejected escape has one of three causes: a missing hex digit, a lone trail surrogate, or a lead surrogate without a following `\u` and trail. |
| Utf16.DecodeUtf16Valid | parson.c:842-890 | Whatever an escape decodes to is valid UTF-8. |
| Utf16.DecodeEscapeOf | parson.c:842-890 | Every scalar value written as `\u` escapes, with a surrogate pair above the BMP, decodes back to its UTF-8 encoding and consumes exactly the escape. |
| Utf16.ParseUtf16 | parson.c:842-890 | The method succeeds exactly when the escape decodes. It then writes the decoded bytes at the output cursor and leaves every later byte alone. The returned input and output cursors sit on the last byte consumed and the last byte written. |
| Escapes.SkipQuotes | parson.c:822-840 | On success, the literal starts with a quote at the cursor and ends with a quote, at least 2 bytes later. |
| Escapes.FindClosingQuote | parson.c:822-840 | The byte-by-byte loop, which steps over a backslash pair at a time, ends where `SkipQuotes` says. |
| Escapes.DecodeStep | parson.c:906-949 | One decoding step consumes at least one byte and yields no more bytes than it consumes. |
| Escapes.UnescapeShrinks | parson.c:894-965 | Decoding never lengthens a string, so the output fits in a buffer of the input's size. |
| Escapes.ProcessString | parson.c:894-965 | The loop writing through the output cursor returns exactly the decoding of the input. Decoding stops at the end of the input or at a NUL, and fails on an unknown escape, a bad `\u` escape, or a raw byte below 0x20. |
| Escapes.EscapedBytes | parson.c:1382-1502 | A byte is written as itself exactly when it is not one of these: a quote, a backslash, a byte below 0x20, or a slash while slash-escaping is on. |
| Escapes.EscapeBodyPrintable | parson.c:1382-1502 | The escaped text contains no byte below 0x20. |
| Escapes.UnescapeEscapeBody | parson.c:894-965 | Decoding the escaped body of a string gives the string back, embedded NULs and control bytes included. |
| Escapes.StringRoundTrip | parson.c:894-965 | In any text that starts with a serialized string literal, `skip_quotes` finds exactly its end. Decoding the bytes between the quotes restores the original string. |
| Escapes.SkipQuotesOfQuoted | parson.c:822-840 | A serialized string is delimited by `skip_quotes` exactly, whatever follows it. |
| Escapes.EscapeBody | parson.c:1382-1502 | The escaped body is at least as long as the input and at most 6 times as long. |
| Escapes.SerializeString | parson.c:1374-1505 | The method returns the length of the quoted literal. With a buffer, it writes the literal at the cursor followed by NUL; without one, it only counts. |
| Comments.FindFrom | parson.c:269-304 | A `strstr` hit is an occurrence of the token at or after the start. |
| Comments.FindFromFirst | parson.c:269-304 | The hit is the first occurrence. In a text without NUL, a miss means there is no occurrence at all. |
| Comments.StripKeepsOrBlanks | parson.c:269-304 | Stripping keeps the text's length and changes bytes only into spaces. |
| Comments.NoCommentNoChange | parson.c:269-304 | A text in which the start token never occurs comes back unchanged. |
| Comments.LeadingCommentBlanked | parson.c:269-304 | A comment that opens at the front of the text and is closed becomes spaces, up to and including its end token. |
| Comments.RemoveComments | parson.c:269-304 | The in-place loop leaves in the buffer exactly the stripped text. That text tracks string and escape state, blanks each comment and its end token, and blanks only the start token of an unclosed comment. |
| Members.IndexOf | parson.c:584-616 | Gives the first position holding the name. |
| Members.LookupIsMap | parson.c:655-672 | With distinct names, first-match lookup in the dense arrays is lookup in the map they stand for. |
| Members.AppendMap | parson.c:618-653 | Appending a new name and its value keeps the names distinct and adds exactly that binding to the map. |
| Members.ReplaceMap | parson.c:2264-2287 | Overwriting a value in place rebinds its name and nothing else. |
| Members.PutMap | parson.c:2264-2307 | Setting a member keeps the names distinct and binds the name to the value in the map, leaving every other name as it was. |
| Members.PutLookup | parson.c:2264-2307 | After a set, looking up the name finds the new value. Any other name finds what it found before. |
| Members.MoveLastMultiset | parson.c:706-715 | Moving the last item into the freed slot leaves every other item exactly once. |
| Members.MoveLastNames | parson.c:706-715 | A name is still present after removal exactly when it was present before and is not the removed name. |
| Members.MoveLastMap | parson.c:674-733 | Removal keeps the names distinct and removes exactly the removed name from the map. |
| Probing.MissMeansAbsent | parson.c:584-616 | A probe that meets an empty cell has passed every cell the key could occupy, so the key is absent. |
| Probing.InsertPlaced | parson.c:636-649 | Filling the empty cell at the end of a key's occupied probe path keeps every item reachable from its home cell, and keeps the ring and `cell_ixs` in agreement. |
| Probing.Pigeonhole | parson.c:584-616 | More values than slots repeat one. The probe loop therefore always finds an empty cell in a table that is not full. |
| Probing.SomeFree | parson.c:584-616 | A ring with fewer items than cells has a free cell. |
| Probing.MayMoveOutside | parson.c:724-725 | The wrap-around test on line 725 holds exactly when the item's home cell is not in the cyclic interval from the hole to the item's cell. |
| Probing.ShiftBegins | parson.c:706-718 | After the removed item's cell is freed and the last item is renumbered into its index, the backward-shift loop's invariant holds. |
| Probing.ShiftMoves | parson.c:717-730 | Moving an item back into the hole, under the test of line 725, keeps the loop invariant with the hole advanced. |
| Probing.ShiftKeeps | parson.c:717-730 | Leaving an item whose home lies between the hole and its cell keeps the loop invariant. |
| Probing.ShiftEnds | parson.c:719-731 | When the loop reaches a free cell, clearing the hole restores every placement fact. |
| KeyedTable.NextCapacityGrows | parson.c:554-582 | Growth keeps the cell capacity a power of two of at least 16, and gives more item capacity than before. |
| KeyedTable.FindCell | parson.c:584-616 | The probe loop finds the name exactly when it is stored, and then returns its cell. Otherwise it returns the empty cell that ends the name's probe path, or `object_invalid_ix` for a table without cells. |
| KeyedTable.BackShift | parson.c:717-731 | The backward-shift loop leaves every remaining item in a cell reachable from its home with no empty cell on the way, and the ring in agreement with `cell_ixs`. |
| KeyedTable.RemoveFromRing | parson.c:674-733 | After a removal, the ring, hashes and `cell_ixs` describe the item arrays with the last item moved into the freed slot. |
| KeyedTable.Table.constructor | parson.c:465-478 | A new object table is valid, empty and without cells. |
| KeyedTable.Table.Init | parson.c:480-523 | Initialising with a capacity gives a valid empty table with that many cells, all empty. |
| KeyedTable.Table.GetCellIx | parson.c:584-616 | The same as `FindCell`, on the table's fields. |
| KeyedTable.Table.Add | parson.c:618-653 | The add fails, changing nothing, on a missing name or value and on a name already present. Otherwise it appends the name and value in insertion order. A full table first grows to `max(2*cap, 16)` cells. The table invariants hold afterwards. |
| KeyedTable.Table.GrowAndRehash | parson.c:554-582 | Rehashing into the larger ring keeps every (name, value) pair in the same dense order and keeps the invariants. |
| KeyedTable.Table.GrowAndFind | parson.c:636-641 | After growth, the table has room for one more item, and the free cell for the new name ends its probe path. |
| KeyedTable.Table.GetValue | parson.c:655-672 | Lookup by name gives the value the map binds to it, or nothing when the name is absent or missing. |
| KeyedTable.Table.GetCount | parson.c:1631-1633 | Returns the number of members. |
| KeyedTable.Table.GetName | parson.c:1635-1640 | Returns the name at a dense index, or nothing past the end. |
| KeyedTable.Table.GetValueAt | parson.c:1642-1647 | Returns the value at a dense index, or nothing past the end. |
| KeyedTable.Table.RemoveAt | parson.c:699-733 | Removing the item found at index `t` moves the last item into its slot in the names, values and hashes. The invariants hold afterwards. |
| KeyedTable.Table.Remove | parson.c:674-733 | The remove succeeds exactly when the name is present. The map then loses exactly that name and every other name keeps its value. An absent name changes nothing. |
| KeyedTable.Table.SetValue | parson.c:2264-2307 | The set fails, changing nothing, on a missing name or value and on a value that already has a parent. A present name has its value replaced in place with the count unchanged; a new name is appended. Either way the map binds the name to the value. |
| KeyedTable.Table.Clear | parson.c:2485-2502 | Clearing leaves a valid empty table with the same capacity. |
| DynArray.GrownCapacity | parson.c:767-778 | A full buffer grows to `2*cap`, or to 16 when that is larger. The result is always more than the old capacity. |
| DynArray.WithoutKeepsOrder | parson.c:2096-2106 | Removal drops exactly the item at `ix`. Earlier items stay put and later items move down one place, in order. |
| DynArray.RemoveMiddle | tests.c:601-604 | `[1,2,3,4,5]` without the item at 2 is `[1,2,4,5]`. |
| DynArray.ItemBuffer.constructor | parson.c:758-765 | A new array is empty and has no buffer. |
| DynArray.ItemBuffer.Resize | parson.c:780-796 | Resizing refuses capacity 0. Otherwise it moves the items unchanged to a fresh buffer of the new capacity. |
| DynArray.ItemBuffer.Add | parson.c:767-778 | The value is appended, and a full buffer first grows to `GrownCapacity`. |
| DynArray.ItemBuffer.AppendValue | parson.c:2196-2201 | The append succeeds exactly for a present value without a parent and appends it. Otherwise nothing changes. |
| DynArray.ItemBuffer.ReplaceValue | parson.c:2108-2118 | The replace succeeds exactly for a present, unowned value and an index below the count, and replaces that item only. |
| DynArray.ItemBuffer.Remove | parson.c:2096-2106 | The remove succeeds exactly for an index below the count. It then leaves the items without the one at `ix`, in their order. Otherwise nothing changes. |
| DynArray.ItemBuffer.Clear | parson.c:2184-2194 | No items are left and the buffer is kept. |
| DynArray.ItemBuffer.GetValue | parson.c:1677-1682 | Returns the item at an index, or nothing past the end. |
| DynArray.ItemBuffer.GetCount | parson.c:1708-1710 | Returns the number of items. |
| Values.TypeOf | parson.c:1720-1722 | A missing value has the error type. Objects and arrays, and only they, have the object and array types. |
| Values.GetString | parson.c:1733-1741 | Gives characters exactly for a string value, and they are that string's own characters. |
| Values.GetStringLen | parson.c:1743-1746 | Gives the length of a string value's characters, and 0 for anything else. |
| Values.GetNumber | parson.c:1748-1750 | Gives the number a number value holds, and 0 for anything that is not a number. |
| Values.GetBoolean | parson.c:1752-1757 | Returns -1 exactly for a non-boolean, 1 exactly for `true` and 0 exactly for `false`. |
| Values.GetObject | parson.c:1724-1727 | Gives the members exactly for an object value. |
| Values.GetArray | parson.c:1729-1732 | Gives the items exactly for an array value. |
| Values.InitStringWithLen | parson.c:1817-1835 | Gives a string value exactly when the buffer is present and its first `len` bytes are valid UTF-8. The value then holds those bytes. The UTF-8 check is the corrected one (see Findings). |
| Parser.SkipWs | parson.c:81-85 | The result is the first position from the cursor that is not C whitespace. Everything skipped is whitespace. |
| Parser.SkipWhitespaces | parson.c:81-85 | The loop stops where `SkipWs` says. |
| Parser.GetQuotedString | parson.c:969-979 | The method finds the closing quote, then decodes the bytes between the quotes, as `QuotedString` says. |
| Parser.QuotedString | parson.c:969-979 | A literal read advances the cursor past at least its two quotes and stays within the text. |
| Parser.StringAt | parson.c:1141-1154 | A string read advances the cursor within the text and yields a string value. |
| Parser.BooleanAt | parson.c:1156-1167 | A literal read advances the cursor within the text. |
| Parser.NullAt | parson.c:1184-1191 | A literal read advances the cursor within the text. |
| Parser.IsDecimal | parson.c:429-442 | A lexeme it accepts holds no `x` or `X`, so no hexadecimal number is read. |
| Parser.NumberAtAsWritten | parson.c:1169-1182 | As written, a number read is a number and stays within the text, but it may end where it started (see `ParserProperties.LoneMinus`). |
| Parser.NumberAt | parson.c:1169-1182 | A number consumes at least one byte, and otherwise agrees with the code as written. This is the corrected form (see Findings). |
| Parser.ValueAt | parson.c:981-1014 | Every value read advances the cursor within the text and is well formed: no duplicate names, and no NUL in a name. Numbers are read by the corrected `NumberAt` (see Findings); the as-written rule does not always advance. |
| Parser.ObjectAt | parson.c:1016-1088 | An object read advances the cursor within the text and is a well-formed object. |
| Parser.ArrayAt | parson.c:1090-1139 | An array read advances the cursor within the text and is a well-formed array. |
| Parser.ParseValue | parson.c:981-1014 | The nesting check, whitespace skip and dispatch on the next byte yield what `ValueAt` says, numbers included by the corrected rule. |
| Parser.ParseObjectValue | parson.c:1016-1088 | The member loop reads the members in order, refuses a duplicate name, an unquoted name or a missing colon, allows one trailing comma, and then requires the closing brace, all as `ObjectAt` says. |
| Parser.ParseArrayValue | parson.c:1090-1139 | The item loop reads the items in order, allows one trailing comma, and then requires the closing bracket, as `ArrayAt` says. |
| Parser.ParseStringValue | parson.c:1141-1154 | Yields what `StringAt` says. |
| Parser.StartOf | parson.c:1530-1538 | The start lies within the text: past the three bytes of a UTF-8 byte order mark when one is there, 0 otherwise. |
| Parser.TopValue | parson.c:1530-1538 | The top-level value read is well formed. Numbers are read by the corrected rule. |
| Parser.JsonParseString | parson.c:1530-1538 | A missing text gives nothing. Otherwise a UTF-8 byte order mark is skipped and one value is read from the start, numbers by the corrected rule. |
| Parser.JsonParseStringWithComments | parson.c:1540-1553 | The text parsed is the input with block comments, then line comments, blanked by `remove_comments`. |
| ParserProperties.NestingLimit | parson.c:981-985 | `d` arrays nested around `null` parse exactly when `d` is at most 2048. |
| ParserProperties.NestedDepth | parson.c:981-1014 | Nested arrays read at nesting `n` succeed exactly when `n + d` stays within the limit, and then the whole text is consumed. |
| ParserProperties.TrailingCommaInArray | parson.c:1120-1128 | A comma followed by the closing bracket ends an array. |
| ParserProperties.TrailingCommaInObject | parson.c:1071-1079 | A comma followed by the closing brace ends an object. |
| ParserProperties.LeadingWhitespaceIgnored | parson.c:981-1014 | Whitespace before a value changes nothing. |
| ParserProperties.NoSlashNoComments | parson.c:1540-1553 | A text without a slash has no comment to strip, so parsing it with comments allowed is the same as parsing it plainly. |
| ParserProperties.RejectedExamples | tests.c:391-399 | The empty text, `]` and `[,]` are refused. |
| ParserProperties.IsDecimalRejects | parson.c:429-442 | The lexemes `0x2`, `0X2`, `07`, `0070`, `07.0`, `-07`, `-007` and `-07.0` are refused. |
| ParserProperties.IsDecimalKeeps | parson.c:429-442 | The lexemes `123`, `0`, `0.5` and `-0.5` are accepted. |
| ParserProperties.IsDecimalIntegers | parson.c:429-442 | On a run of digits, with or without a leading minus, `is_decimal` accepts exactly the integers of section 6 of RFC 8259: no leading zero unless the integer is 0. |
| ParserProperties.NumberLexemeDecimal | parson.c:429-442 | Every number the parser reads has a non-empty lexeme with no `x` or `X` and no leading zero, after a minus or not, before anything but a dot. A lexeme of digits is a JSON integer. |
| ParserProperties.LoneMinus | parson.c:1169-1182 | As written, the number parser accepts the lone `-` as 0 without consuming anything. The corrected parser refuses the text `-`. |
| Output.AppendLiteral | parson.c:1200-1209 | With a buffer, the literal is written at the cursor followed by NUL; without one, only counted. |
| Output.AppendIndent | parson.c:1211-1215 | Writes or counts `level` copies of four spaces. |
| Serializer.SerializeValue | parson.c:1217-1372 | Returns the length of the value's text. With a buffer, it writes exactly that text at the cursor followed by NUL; without one, it writes nothing. The counting pass and the writing pass therefore agree. |
| Serializer.SerializeArray | parson.c:1234-1266 | The array case writes the opening bracket, the items in order, and the closing bracket, with the same length in both modes. |
| Serializer.SerializeObject | parson.c:1267-1316 | The object case writes the members in item order, each as a quoted name, a colon and the value, with the same length in both modes. |
| Serializer.SerializationSize | parson.c:1965-1971 | Returns 0 for a missing value. Otherwise it returns the length of the text plus one for the terminator. The `_pretty` variant (parson.c:2029-2035) is the same with `pretty` set. |
| Serializer.SerializeToBuffer | parson.c:1973-1985 | Succeeds exactly when the value is present and the buffer holds its text and terminator. The buffer then starts with exactly those bytes. On failure it is untouched. |
| Serializer.SerializeToString | parson.c:2010-2027 | Gives the value's text, or nothing for a missing value. The `_pretty` variant (parson.c:2074-2092) is the same with `pretty` set. |
| RoundTrip.SerializedParses | parson.c:1530-1538 | Parsing the serialized text of a well-formed, number-free value within the nesting limit gives back that value, compact or pretty, whatever follows the text. This is the property parson's test suite checks on whole files (tests.c:155-160). |
| RoundTrip.TextParses | parson.c:981-1014 | From any position and nesting where the value fits, `parse_value` reads the text of a value back as that value and stops right after it. |
| RoundTrip.ArrayParses | parson.c:1090-1139 | The same for an array's text, item by item. |
| RoundTrip.ObjectParses | parson.c:1016-1088 | The same for an object's text, member by member. |
| RoundTrip.StringParses | parson.c:1141-1154 | The same for a string's text. |
| RoundTrip.BooleanParses | parson.c:1156-1167 | The same for `true` and `false`. |
| RoundTrip.NullParses | parson.c:1184-1191 | The same for `null`. |
| Tree.Validate | parson.c:2504-2568 | Validation succeeds exactly when schema and value are present and the value conforms to the schema. |
| Tree.ValidateValue | parson.c:2504-2568 | The recursive check with its loops decides `Conforms`. |
| Tree.ExtraMemberConforms | parson.c:2537-2558 | An object keeps conforming when it gains a member, because a schema only asks for the names it lists. |
| Tree.Equals | parson.c:2570-2634 | Two missing values are equal, a missing and a present one are not, and two present values are equal exactly when `Same` holds. |
| Tree.EqualValues | parson.c:2570-2634 | The recursive comparison with its loops decides `Same`. |
| Tree.SameReflexive | parson.c:2570-2634 | Every value equals itself. |
| Tree.SameSymmetric | parson.c:2570-2634 | Equality is symmetric, although it only looks the first object's names up in the second. |
| Tree.DeepCopy | parson.c:1873-1963 | The copy of a present value is equal to it, and a missing value has no copy. |
| Tree.CopyValue | parson.c:1873-1963 | Copying item by item and member by member rebuilds the same value. |
| Tree.CopySame | parson.c:1873-1963 | A copy equals its original under `json_value_equals`, both ways round. |
| Tree.FindDot | parson.c:1593 | Gives the first dot in the path, or nothing when the path holds no dot. |
| Tree.DotGet | parson.c:1591-1600 | A path without a dot finds a value exactly when it names a member. A dotted path finds a value only through an existing member named before the dot. Every value found is well formed. |
| Tree.DotSet | parson.c:2359-2410 | A missing value and a value that already has a parent are refused. On success the existing names keep their places, and at most one new name is appended. |
| Tree.DotSetThenGet | parson.c:2359-2410 | After a successful dot-path set, the object is still well formed and the same path finds the value set. |
| Tree.DotSetOwnedFails | parson.c:2359-2410 | A value that already has a parent is refused along any path. |
| Tree.DotSetWellFormed | parson.c:2359-2410 | Setting along a path keeps the object well formed. |
| Tree.DotRemove | parson.c:735-750 | A path without a dot removes a member exactly when it names one, leaving one member fewer. A removal further down the path keeps the outer object's member count. `json_object_dotremove` (parson.c:2481-2483) calls this. |
| Tree.DotRemoveIffGet | parson.c:735-750 | A dot-path remove succeeds exactly when the same path finds a value. |
| Tree.DotRemoveThenGet | parson.c:735-750 | After a successful remove, the object is still well formed and the path finds nothing. |
| Tree.DotRemoveWellFormed | parson.c:735-750 | Removing along a path keeps the object well formed. |

## Left out

- **File I/O** is not modelled: `read_file`, `json_parse_file*` and `json_serialize_to_file*` are thin wrappers around `fopen`/`fread`.
- **Floating point** is not modelled. Numbers are reals.
  - `strtod` is a parameter that reports the number, where it stopped and whether the result is finite; the `ERANGE` and NaN/Inf handling is folded into that flag.
  - Printing numbers (`%1.17g`, the custom serialization hook) is a parameter `num`.
  - `json_value_equals` compares numbers with the source's 1e-6 tolerance over reals, without rounding.
- RoundTrip.SerializedParses: values holding numbers are not covered, because their text and their reading come from the two floating-point parameters.
- **Global configuration** is not modelled: the allocator swap and the float format. The slash-escaping setting is the parameter `slash`. Allocation failure is not modelled: every allocation succeeds, and the `calloc` overflow guard is absent.
- **The `parent` back-reference** is not modelled as a reference. A value that already has a parent is passed with a flag, which the operations that refuse such values take. `json_object_add` setting the parent is not modelled, and neither is object identity or freeing.
- **`hash_string`** is any function of the key bytes, a parameter of the table. A constant function covers the forced-collision build.
- **Masking.** The table masks with `h % cap`, which equals `h & (cap - 1)` for a power of two. The table's item buffers are sequences holding their used part, with the capacities kept as numbers beside them. They are not fixed-size arrays.
- **Null objects and arrays.** Calls on a null object or array are not modelled: a class method always has a receiver. Null names and values are modelled as `None`.
- **Typed convenience wrappers** are not modelled separately: `json_object_set_string`, `json_array_append_number`, `json_object_dotget_string`, and so on. They compose an initialiser with the operations above.
- KeyedTable.Table.Add: the parent back-reference set on success is not stated (see above).
- Parser.QuotedString, Parser.StringAt, Parser.BooleanAt, Parser.NullAt, Parser.ObjectAt, Parser.ArrayAt, Parser.TopValue: their ensures state only bounds and well-formedness. What each one reads is the function itself, and the round-trip and parser-property lemmas above state it.
- Parser.StringAt: a parsed string's UTF-8 validity is not checked, as in the source. The model does not state that `\u` escapes always produce valid UTF-8, except through `Utf16.DecodeUtf16Valid`.
- Values.InitStringWithLen: uses the corrected UTF-8 check `Utf8.IsValidUtf8` (see Findings), so it refuses `("\xC3\xA9", 1)`, which the code as written accepts. `Utf8.ValidPrefixAsWritten` models the code as written.
- Parser.ValueAt: reads numbers with the corrected `Parser.NumberAt` (see Findings), which refuses a number that consumes no input. `Parser.NumberAtAsWritten` models the code as written.
- Parser.ParseValue: reads numbers with the corrected `Parser.NumberAt`, as `Parser.ValueAt` does.
- Parser.TopValue: reads numbers with the corrected `Parser.NumberAt`, so it refuses the text `-`, which the code as written reads as 0.
- Parser.JsonParseString: reads numbers with the corrected `Parser.NumberAt`, so it refuses the text `-`, which the code as written reads as 0.
- Parser.JsonParseStringWithComments: reads numbers with the corrected `Parser.NumberAt` through `Parser.TopValue`, so a commented text whose value is a lone `-` is refused.
- **Where the code differs from the library's own description, the model follows the code, except for the two defects under "## Findings", where the rest of the model uses the corrected forms:**
  - Removing an object member moves the last member into the freed slot, so insertion order is not preserved for that member.
  - A dot path with a leading dot looks up the empty name.
  - `json_parse_string` ignores whatever follows the first value, so `123abc` reads as 123.
  - The nesting limit is checked in `parse_value` only. The innermost `[]` of 2049 nested empty arrays never calls it, so that text is accepted, while 2049 arrays around `null` are refused.

## Findings

| source | as written | input that shows it | evidently intended | confidence | as-written member | corrected member |
|---|---|---|---|---|---|---|
| parson.c:416-427 | `is_valid_utf8` checks each sequence with `verify_utf8_sequence` but never checks that the sequence ends within `string_len`, so it reads continuation bytes beyond the length | `json_value_init_string_with_len("\xC3\xA9", 1)` accepts and stores the lone byte `C3` | accept exactly the first `string_len` bytes as UTF-8, refusing a sequence that runs past the length | not executed | Utf8.TruncatedSequenceAccepted | Utf8.IsValidUtf8 |
| parson.c:1169-1182 | `parse_number_value` accepts a `strtod` that converted nothing, because the empty lexeme passes `is_decimal` | `json_parse_string("-")` yields the number 0 without consuming any input | refuse a number that consumes no input, so `-` is rejected | not executed | ParserProperties.LoneMinus | Parser.NumberAt |
