# Verified model of the gateway firmware's core algorithms

The firmware collects device data, wraps it as JSON, sends it to a broker, draws on a small panel, keeps scripts in an
EEPROM and talks Modbus. This project models the parts of it that carry an algorithm and proves what they are for.
`dafny verify dfyconfig.toml` verifies the project.

| files | models |
|---|---|
| `CStrings`, `Words` | bytes, C strings, little-endian words |
| `Entries`, `ObjectTable` | the JSON object: an open-addressing hash table over five arrays, refining a finite map |
| `Utf8`, `JsonStrings` | UTF-8 checking, string escapes, surrogate pairs |
| `JsonValues`, `JsonGrammar`, `JsonRoundTrip` | values, printed form, grammar, and that parsing undoes printing |
| `JsonLayouts`, `JsonPrinted` | every way to write a value, that the parser accepts exactly these, and which one the printer chooses |
| `JsonSerializer`, `JsonParser` | the two-pass serializer and the recursive-descent parser as imperative code |
| `DotPath` | dotted names over nested objects |
| `Calendar`, `Iso8601`, `IsoStamps` | civil dates, day numbers, ISO 8601 text, and which texts are timestamps |
| `JsonDocument` | a hash table printed and read back |
| `Pixels`, `Divisors`, `Lines`, `Circles`, `Raster` | lines, boxes and circles in 16-bit arithmetic |
| `Md5` | streaming, bit counter, padding |
| `Windows`, `Telemetry`, `UploadQueue` | sample medians, change-gated reports, the upload ring |
| `Eeprom` | paged writes and script slots |
| `ModbusBits`, `ModbusMaster` | coil packing, bounded frames, checked replies |

Imperative code is proved against functions (`Print`, `ParseValue`, `Unescape`, `Absorb`, `RunAll`, ...); the laws are
lemmas about those functions. Allocation succeeds. Checksums, the MD5 rounds, the bus, the broker and the EEPROM's
faults are parameters, so every result holds for all of them.

## Where the code does not do what one might expect

- The UTF-8 check accepts a range that cuts its last sequence, as long as the missing bytes follow in memory
  (`Utf8.CutSequencePasses`, exact condition in `Utf8.ValidIffCompletable`).
- A value nested more than 2048 deep is printed but not accepted back (`JsonRoundTrip.RoundTrip`).
- A comma too many at the end of a container is accepted, and a minus sign without digits is taken for 0 and left where
  it is (`JsonLayouts.AcceptedIffWritten`).
- A sloped line can leave its track, because `2 * error` no longer fits 16 bits: all lines up to a longer span of 10923
  are right, and for every larger span along either axis some line is wrong (`Lines.LinesAreRightIffSafe`; for one line,
  `Lines.LineIsRightIffFits`). Beyond the limit the loop need not end at all (`Lines.LineNeverEnds`).
- Circles of radius 1 to 32767 are wrong but for the radii 1 to 16556 and 16641 to 16643 (`Circles.CircleIsRightIffFits`; the smallest
  wrong one, `Circles.FirstWrongCircle`).
- A box whose far edge leaves 16 bits is not drawn at all (`Raster.Panel.FillIsRightIffFits`,
  `Raster.DrawnIsRequestedIff`). The panel is far smaller than all these limits.
- An MD5 update never ends for the very longest inputs (`Md5.LoopEndsIffFits`).
- A median can leave the range of its samples when the sum of the two middle ones overflows 32 bits
  (`Windows.MedianIsRobustIffFits`); 16-bit device data never does (`Windows.SmallSamplesFit`). In C the overflow is
  undefined; the model wraps.
- A report or publication at tick 0 counts as none for the 60-second interval: the next one can follow at any distance,
  and after any other tick it cannot (`Telemetry.CloseReportsIff`, `UploadQueue.ClosePublicationsIff`).
- A script write that breaks off in its header can leave the new text under the old size and checksum (`Eeprom.BrokenHeaderIsJudged`).
- A timestamp without a zone, and an offset without minutes or without a colon, are accepted (`IsoStamps.ParsedIffStamp`).
- Times outside the years 0 to 9999 print as text that the parser refuses (`Iso8601.TimeRoundTrip`).

## Model

| member | source | states |
|---|---|---|
| `ObjectTable.HashString` | src/ThirdParty/Parson/parson.c:419-436 | The hash stops at an embedded NUL and equals the recursive `Hash` of the key, in 32-bit wrap-around. |
| `ObjectTable.HashIsPolynomial` | src/ThirdParty/Parson/parson.c:419-436 | The hash is 5381 * 33^n plus the characters weighted by falling powers of 33, reduced once modulo 2^32, for every C string. |
| `CStrings.MaskIsModulo` | src/ThirdParty/Parson/parson.c:558 | `hash & (cell_capacity - 1)` is reduction modulo the capacity, for every power of two. |
| `ObjectTable.EmptyCellExists` | src/ThirdParty/Parson/parson.c:466 | A table whose items are fewer than its cells has an empty cell: every probe ends. |
| `ObjectTable.ProbeIsComplete` | src/ThirdParty/Parson/parson.c:555-583 | Reaching an empty cell proves the key is nowhere in the table. |
| `ObjectTable.Table.CellIx` | src/ThirdParty/Parson/parson.c:555-583 | The probe finds the key's cell if and only if the object has the name; otherwise it ends at the empty cell where the name belongs. |
| `ObjectTable.AppendKeepsChains` | src/ThirdParty/Parson/parson.c:602-617 | Filling the empty cell that ended a probe leaves every probe chain unbroken, the new one included. |
| `ObjectTable.Table.Append` | src/ThirdParty/Parson/parson.c:602-617 | The new item goes behind the last one; all five arrays stay mutually consistent. |
| `ObjectTable.Table.GrowAndRehash` | src/ThirdParty/Parson/parson.c:525-553 | Growing changes neither pairs nor their order, makes room for 11 items at first and doubles the cells later, and always leaves room, so re-adding never grows again (`decreases`). |
| `ObjectTable.Table.Add` | src/ThirdParty/Parson/parson.c:586-620 | Adds exactly when the name is new; the pairs grow by one at the end, or nothing changes. |
| `ObjectTable.Table.Set` | src/ThirdParty/Parson/parson.c:2084-2125 | Replaces a known name's value in place or appends the pair, growing the table when it is full. |
| `ObjectTable.Table.GetValue` | src/ThirdParty/Parson/parson.c:622-638 | Returns what the pairs say, for every name. |
| `ObjectTable.SkipKeepsChains` | src/ThirdParty/Parson/parson.c:675-683 | An item whose home lies behind the hole may stay where it is. |
| `ObjectTable.MoveKeepsChains` | src/ThirdParty/Parson/parson.c:684-693 | An item whose home does not lie behind the hole may be moved into it, across the wrap-around too. |
| `ObjectTable.StopKeepsChains` | src/ThirdParty/Parson/parson.c:671-674 | At the first empty cell the hole may stay: no probe chain crosses it. |
| `ObjectTable.Table.Remove` | src/ThirdParty/Parson/parson.c:640-698 | Succeeds exactly on a known name; the last item takes the removed one's place; the back-shift closes the hole and keeps every chain. |
| `ObjectTable.Table.ShiftBack` | src/ThirdParty/Parson/parson.c:669-695 | The back-shift loop ends, and leaves a consistent table with exactly one cell fewer in use. |
| `ObjectTable.Table.Clear` | src/ThirdParty/Parson/parson.c:2291-2308 | Empties the object, keeping its capacity. |
| `ObjectTable.Apply` | src/ThirdParty/Parson/parson.c:525-698 | Each operation does to the pairs what the run semantics says, so every run of operations on the arrays ends in `Run`. |
| `ObjectTable.Replay` | src/ThirdParty/Parson/parson.c:525-698 | A whole run on one table, from the empty object on, ends with exactly the finite map that run builds. |
| `ObjectTable.RunRefinesMap` | src/ThirdParty/Parson/parson.c:525-698 | After every run of set, add, remove and clear, the pairs have distinct names and stand for exactly what a plain finite map would hold. |
| `ObjectTable.LookupAfterRun` | src/ThirdParty/Parson/parson.c:622-638 | After every run, every lookup answers as the plain finite map would. |
| `Entries.LookupAfterPut` | src/ThirdParty/Parson/parson.c:2084-2125 | A set name reads the new value; every other name reads as before. |
| `Entries.LookupAfterDelete` | src/ThirdParty/Parson/parson.c:640-698 | A removed name reads nothing; every other name reads as before, although the last item has moved. |
| `Entries.PutKeepsOrder` | src/ThirdParty/Parson/parson.c:2084-2125 | A known name keeps its place in the order, a new one goes last. |
| `Entries.DeleteSwapsLast` | src/ThirdParty/Parson/parson.c:640-698 | The last pair takes the removed one's place; all others keep their order. |
| `Utf8.CheckerMatchesGrammar` | src/ThirdParty/Parson/parson.c:350-390 | The sequence checker accepts exactly the UTF8-char grammar of section 4 of RFC 3629, with the same length. |
| `Utf8.IsValidUtf8` | src/ThirdParty/Parson/parson.c:392-402 | The loop over a byte range computes `ValidUpTo`. |
| `Utf8.ValidIffCompletable` | src/ThirdParty/Parson/parson.c:392-402 | A range is accepted if and only if at most three continuation bytes directly behind it complete it to a well-formed string. |
| `Utf8.ValidIffWellFormed` | src/ThirdParty/Parson/parson.c:392-402 | On every range no continuation byte follows (so on every C string) accepted means well-formed. |
| `Utf8.CutSequencePasses` | src/ThirdParty/Parson/parson.c:392-402 | Counterexample: a range that cuts a two-byte sequence is accepted although it is not well-formed. |
| `Utf8.EncodeIsChecked` | src/ThirdParty/Parson/parson.c:829-846 | The encoding of every scalar value passes the checker as one sequence and decodes to that value. |
| `Utf8.CheckedIsEncoded` | src/ThirdParty/Parson/parson.c:350-390 | Every accepted sequence is the encoding of the scalar value it decodes to. |
| `Utf8.DecodeWeighs` | src/ThirdParty/Parson/parson.c:350-390 | What a well-formed sequence stands for, as weights of its bytes less their markers. |
| `JsonStrings.SkipQuotes` | src/ThirdParty/Parson/parson.c:787-805 | The scan ends behind the literal's closing quote, or fails when there is none. |
| `JsonStrings.EscapeIffSpelled` | src/ThirdParty/Parson/parson.c:807-828 | A \u escape is accepted if and only if hexadecimal digits spell the UTF-16 units of a scalar value: a lone or swapped surrogate never is. |
| `JsonStrings.Hex4IffSpelled` | src/ThirdParty/Parson/parson.c:308-333 | Four characters read as u if and only if they spell u, the digits being those of 0123456789abcdef or 0123456789ABCDEF, the first weighing 4096; otherwise the read fails. |
| `JsonStrings.PieceIsRead` | src/ThirdParty/Parson/parson.c:862-902 | Every character and every escape of section 7 of RFC 8259 is read as what that section says it stands for. |
| `JsonStrings.OnlyPiecesAreRead` | src/ThirdParty/Parson/parson.c:862-902 | And nothing else is accepted. |
| `JsonStrings.EscapesAre` | src/ThirdParty/Parson/parson.c:1290-1355 | The escaper writes a short escape where section 7 of RFC 8259 has one (for the slash on request), six characters for other control characters, and every other byte as it is. |
| `JsonStrings.EscapeBecomesUtf8` | src/ThirdParty/Parson/parson.c:829-851 | What an accepted escape writes passes the UTF-8 checker and decodes to the same code point. |
| `JsonStrings.EscapedIsSkipped` | src/ThirdParty/Parson/parson.c:787-805 | A quote written behind escaped text is its closing quote, for every byte string. |
| `JsonStrings.UnescapeEscaped` | src/ThirdParty/Parson/parson.c:856-911 | Unescaping undoes escaping for every byte string, NUL bytes included, with slash escaping on or off. |
| `JsonStrings.UnescapeShrinks` | src/ThirdParty/Parson/parson.c:856-911 | The unescaped text is never longer than the input. |
| `JsonStrings.EscapeStaysInside` | src/ThirdParty/Parson/parson.c:807-828 | A \u escape is decided by the characters in front of the closing quote, though the code may look at that quote. |
| `JsonStrings.ParseUtf16` | src/ThirdParty/Parson/parson.c:807-851 | Both cursors advance as the escape demands, and its encoding is what lands in the output. |
| `JsonStrings.ProcessEscape` | src/ThirdParty/Parson/parson.c:862-894 | One escape: the output grows by no more than the input consumed, so the buffer is never overrun. |
| `JsonStrings.ProcessString` | src/ThirdParty/Parson/parson.c:856-911 | The in-place unescaper computes `Unescape` inside a buffer of input length plus one. |
| `JsonRoundTrip.NumberIsParsed` | src/ThirdParty/Parson/parson.c:404-417 | Decimal text of every exact integer is read back as that integer and nothing behind it is consumed. |
| `JsonRoundTrip.ParsePrinted` | src/ThirdParty/Parson/parson.c:924-1069 | Parsing printed text at any depth, in any style, returns the same value and consumes exactly that text, if and only if nesting stays within 2048. |
| `JsonRoundTrip.ItemsAreParsed` | src/ThirdParty/Parson/parson.c:1022-1069 | The array loop reads back the printed items in order. |
| `JsonRoundTrip.MembersAreParsed` | src/ThirdParty/Parson/parson.c:949-1020 | The member loop reads back the printed members in order; no name is taken for a duplicate. |
| `JsonRoundTrip.RoundTrip` | src/ThirdParty/Parson/parson.c:1383-1391 | For every storable value and both styles the whole text parses to the value, if and only if it is nested at most 2048 deep; a deeper one is printed but rejected. |
| `JsonRoundTrip.AcceptedIsStorable` | src/ThirdParty/Parson/parson.c:924-1069 | Whatever the parser accepts has distinct NUL-free names, exact numbers and bounded depth. |
| `JsonRoundTrip.ReprintedParsesAlike` | src/ThirdParty/Parson/parson.c:1383-1391 | Printing an accepted value and parsing it again changes nothing, whatever the layout of the first text. |
| `JsonLayouts.LayoutIsParsed` | src/ThirdParty/Parson/parson.c:924-1069 | However a value is laid out (any of the six white-space characters around every token, any spelling of strings, a comma too many at the end of a container), the text is parsed to it and what follows is left, if and only if nesting allows. |
| `JsonLayouts.AcceptedIsWritten` | src/ThirdParty/Parson/parson.c:924-1069 | Whatever the parser accepts at any nesting is such a layout, or a lone minus sign. |
| `JsonLayouts.AcceptedIffWritten` | src/ThirdParty/Parson/parson.c:924-1069 | The parser accepts a text with a value and a rest if and only if the text is white space, a layout of that value nested at most 2048 deep, and that rest; the one exception is a minus sign without digits. |
| `JsonPrinted.PrintedIsLaid` | src/ThirdParty/Parson/parson.c:1146-1288 | The printed text is the layout with nothing between the tokens, or in pretty form a line feed and four blanks a level and one blank behind each colon. |
| `JsonPrinted.DigitsIff` | src/ThirdParty/Parson/parson.c:1261-1276 | The digits printed for a number are its one decimal text without a leading zero. |
| `JsonPrinted.TextIffWritten` | src/ThirdParty/Parson/parson.c:1383-1391 | A whole text is accepted exactly as above, behind a byte order mark if it starts with one. |
| `JsonParser.Parser.ParseValue` | src/ThirdParty/Parson/parson.c:924-947 | The recursive-descent parser, moving one cursor, agrees with the grammar on value, failure and position. |
| `JsonParser.Parser.ParseArray` | src/ThirdParty/Parson/parson.c:1022-1069 | The array loop agrees with the grammar for any text, malformed ones included. |
| `JsonParser.Parser.ParseObject` | src/ThirdParty/Parson/parson.c:949-1020 | The object loop, adding to a real hash table, agrees with the grammar; a duplicate name makes it fail. |
| `JsonParser.Parser.ParseNumber` | src/ThirdParty/Parson/parson.c:1099-1112 | The number scanner agrees with the grammar. |
| `JsonParser.Parser.GetQuotedString` | src/ThirdParty/Parson/parson.c:913-922 | A quoted literal is unescaped and passed over, or the cursor's owner fails. |
| `JsonSerializer.SerializeString` | src/ThirdParty/Parson/parson.c:1290-1355 | Writes the escaped literal, or only counts it; the same number either way. |
| `JsonSerializer.Serialize` | src/ThirdParty/Parson/parson.c:1146-1288 | Both passes advance by exactly the printed length; the writing pass, interim NULs included, changes nothing outside it and leaves it terminated. |
| `JsonSerializer.SerializeItems` | src/ThirdParty/Parson/parson.c:1162-1195 | The array loop emits exactly the printed items. |
| `JsonSerializer.SerializeMembers` | src/ThirdParty/Parson/parson.c:1196-1248 | The member loop emits exactly the printed members. |
| `JsonSerializer.SerializationSize` | src/ThirdParty/Parson/parson.c:1799-1803 | The sizing pass returns the printed length plus one. |
| `JsonSerializer.SerializeToBuffer` | src/ThirdParty/Parson/parson.c:1805-1816 | Writes the text and its NUL exactly when they fit, leaves every other byte alone, and touches nothing on failure. |
| `JsonSerializer.SerializeToString` | src/ThirdParty/Parson/parson.c:1840-1857 | A buffer of the size the sizing pass asked for holds the text and its NUL. |
| `JsonDocument.Reload` | src/ThirdParty/Parson/parson.c:1196-1248 | Printing an object from the hash table's arrays and parsing the text gives its pairs back, in order, if and only if they are not nested too deep. |
| `DotPath.DotsFollowSegments` | src/ThirdParty/Parson/parson.c:700-713 | The three recursive dotted operations are the operations on the path of segments between the dots. |
| `DotPath.SegmentsIffJoined` | src/ThirdParty/Parson/parson.c:700-713 | The segments of a name are exactly the dot-free names that, joined by dots, give it back. |
| `DotPath.SetKeepsTree` | src/ThirdParty/Parson/parson.c:2172-2221 | A set keeps names distinct in every nested object. |
| `DotPath.SetFailsIffBlocked` | src/ThirdParty/Parson/parson.c:2172-2221 | A set fails if and only if a proper prefix of the path holds a value that is not an object. |
| `DotPath.ReadAfterSet` | src/ThirdParty/Parson/parson.c:2172-2221 | What every path reads after a set: the new value at and below, changed objects above, everything else as before. |
| `DotPath.RemoveNeedsValue` | src/ThirdParty/Parson/parson.c:700-713 | A remove succeeds if and only if the path reads a value. |
| `DotPath.ReadAfterRemove` | src/ThirdParty/Parson/parson.c:700-713 | What every path reads after a remove: nothing at or below, changed objects above, everything else as before. |
| `DotPath.DotGetAfterDotSet` | src/ThirdParty/Parson/parson.c:1441-1448 | The same for dotted names: the set name reads the new value, and what any other name reads. |
| `DotPath.DotGetAfterDotRemove` | src/ThirdParty/Parson/parson.c:700-713 | A dotted remove succeeds exactly on a name that reads a value, which is then gone; what any other name reads. |
| `DotPath.DotSetValue` | src/ThirdParty/Parson/parson.c:2172-2221 | On the hash table: success and pairs are those of the law; a failed set leaves the pairs as they were. |
| `DotPath.DotRemoveValue` | src/ThirdParty/Parson/parson.c:700-713 | On the hash table: success and pairs are those of the law. |
| `Calendar.DaysAreNaiveDays` | src/ThirdParty/Parson/parson_ex.c:230-244 | The era formula, unsigned month shift included, equals summing year and month lengths under the leap-year rule, for all integer years. |
| `Calendar.EpochIsZero` | src/ThirdParty/Parson/parson_ex.c:230-244 | 1970-01-01 is day 0. |
| `Calendar.LaterIsLarger` | src/ThirdParty/Parson/parson_ex.c:230-244 | Later dates have strictly larger day numbers. |
| `Calendar.CivilUndoesDays` | src/ThirdParty/Parson/parson_ex.c:246-266 | Converting a valid date to its day number and back gives the date, negative eras included. |
| `Calendar.DaysUndoCivil` | src/ThirdParty/Parson/parson_ex.c:246-266 | Every day number converts to a valid date that converts back to it. |
| `Iso8601.NormalizeIsFloor` | src/ThirdParty/Parson/parson_ex.c:445-454 | C's truncating steps make floor division: microseconds end in 0..999999 and the instant is kept. |
| `Iso8601.SplitDayIsFloor` | src/ThirdParty/Parson/parson_ex.c:456-461 | The second of the day ends in 0..86399, negative seconds included. |
| `Iso8601.TimeRoundTrip` | src/ThirdParty/Parson/parson_ex.c:347-475 | Every timeval printed and parsed back gives its normalised seconds and microseconds, if and only if its year is 0..9999. |
| `Iso8601.OffsetShifts` | src/ThirdParty/Parson/parson_ex.c:301-345 | Putting a numeric offset for Z, in any of its spellings, shifts the instant by exactly that offset, plus meaning ahead. |
| `Iso8601.OffsetIsParsed` | src/ThirdParty/Parson/parson_ex.c:301-345 | Every offset text is read as hours and minutes in seconds, positive behind a plus and negative behind a minus. |
| `IsoStamps.ParsedIffStamp` | src/ThirdParty/Parson/parson_ex.c:301-424 | A text is accepted as an instant if and only if it is a timestamp of that instant: digits and separators in their 19 places, valid date and time, any fraction read to six digits, and Z, an offset or nothing. |
| `IsoStamps.PrintedIsStamp` | src/ThirdParty/Parson/parson_ex.c:426-475 | In the years 0..9999 the printed text is such a timestamp of the normalised instant, with capital T and Z and six digits. |
| `Iso8601.TextFits` | src/ThirdParty/Parson/parson_ex.c:469-472 | In the years 0..9999 the text has 27 characters. |
| `Iso8601.ScanFraction` | src/ThirdParty/Parson/parson_ex.c:388-407 | The two digit loops read the fraction as microseconds and drop digits behind the sixth. |
| `Iso8601.ParseTimezoneAt` | src/ThirdParty/Parson/parson_ex.c:301-345 | The moving cursor agrees with the zone grammar. |
| `Iso8601.Iso8601ToTimeval` | src/ThirdParty/Parson/parson_ex.c:347-424 | The moving cursor agrees with the whole grammar, failures included. |
| `Iso8601.FormatTimeval` | src/ThirdParty/Parson/parson_ex.c:426-475 | Prints the normalised time with its NUL, or answers -1 exactly when they do not fit; never writes behind the given size. |
| `Lines.TurnSteps` | src/Display/Src/display_st7789.c:342-350 | Whatever the casts, a turn keeps the error term equal to the deviation from the ideal line up to whole turns of 2^16, and steps by its double alone. |
| `Lines.LineStaysOnTrack` | src/Display/Src/display_st7789.c:327-353 | On every fitting line the pen stays within half a pixel of the ideal line, overshoots neither axis and is at the end exactly after the longer span's steps. |
| `Lines.TurnLeavesTrack` | src/Display/Src/display_st7789.c:341-350 | The first doubled error that does not fit 16 bits puts the very next pen off the line. |
| `Lines.LineIsRightIffFits` | src/Display/Src/display_st7789.c:327-353 | For all spans 1 to 32767: every pen is near the ideal line if and only if g * (n / 2g) + n - m stays within 16383 (16384 for steep lines), n and m being the longer and shorter span and g their greatest common divisor. |
| `Lines.LinesAreRightIffSafe` | src/Display/Src/display_st7789.c:327-353 | All lines of longer span n are right if and only if n is at most 10923, along x and along y alike. |
| `Lines.LineNeverEnds` | src/Display/Src/display_st7789.c:333-351 | Counterexample to termination: from (0, 0) the loop never comes to (10924, 1). |
| `Lines.CursorFollowsPen` | src/Display/Src/display_st7789.c:327-350 | The coordinates follow the steps up to whole turns of 2^16, for every line. |
| `Lines.TrailIsLine` | src/Display/Src/display_st7789.c:333-351 | The points of a fitting line: one for each step of the longer axis and the start, from start to end, each within half a pixel, none wrapped. |
| `Raster.Panel.DrawSlopedLine` | src/Display/Src/display_st7789.c:327-353 | On a fitting line the loop ends and paints exactly its points that are on the panel. |
| `Raster.Panel.FillRect` | src/Display/Src/display_st7789.c:586-630 | Clipping paints exactly the part of the requested box that is on the panel, or nothing at all when a far edge leaves 16 bits. |
| `Raster.Panel.FillIsRightIffFits` | src/Display/Src/display_st7789.c:602-607 | The panel shows the requested box if and only if its far edges fit 16 bits or none of it is on the panel. |
| `Raster.RequestedIs` | src/Display/Src/display_st7789.c:294-325 | What a filled, framed or axis-parallel request asks for, point by point. |
| `Raster.Panel.DrawRect` | src/Display/Src/display_st7789.c:754-769 | The four edges, each with its length as cast. |
| `Raster.DrawnIsRequestedIff` | src/Display/Src/display_st7789.c:308-325 | Filled boxes, frames and axis-parallel lines come out as requested if and only if both spans are at most 32766. |
| `Raster.Panel.DrawLine` | src/Display/Src/display_st7789.c:294-354 | Every kind of request paints what is drawn for it; only a sloped line has to fit. |
| `Circles.DecisionFits` | src/Display/Src/display_st7789.c:380-385 | For the radii 1 to 16556 and 16641 to 16643 no decision leaves 16 bits. |
| `Circles.ArcTurnKeepsCircle` | src/Display/Src/display_st7789.c:366-387 | As long as the decision fits, at every loop head it is x^2 - x + (y+1)^2 - r^2 and x is the nearest integer to the true half-width. |
| `Circles.NearestIsUnique` | src/Display/Src/display_st7789.c:366-387 | The bounds single out one integer. |
| `Circles.CircleIsRightIffFits` | src/Display/Src/display_st7789.c:366-387 | For all radii 1 to 32767: the loop draws exactly the points whose longer offset is the nearest integer to the true one at their shorter offset, if and only if the radius is one of those. |
| `Circles.FirstWrongCircle` | src/Display/Src/display_st7789.c:366-387 | Counterexample: radius 16557 is the smallest wrong one, and draws (16555, 130), which is not on its circle. |
| `Circles.HeightStaysFit` | src/Display/Src/display_st7789.c:378-386 | For every radius y stays within 16 bits. |
| `Raster.Panel.DrawCirclePoints` | src/Display/Src/display_st7789.c:782-803 | The eight reflections are painted where they are on the panel. |
| `Raster.Panel.DrawCircle` | src/Display/Src/display_st7789.c:356-390 | Refuses radii above 32767; otherwise ends and paints exactly the points of the loop. |
| `Words.DecodeUndoesEncode` | src/Common/Src/md5.c:73-91 | Little-endian decoding undoes encoding. |
| `Words.EncodeUndoesDecode` | src/Common/Src/md5.c:73-91 | And the other way round. |
| `Md5.Encode` | src/Common/Src/md5.c:73-83 | The shift loop writes the little-endian bytes. |
| `Md5.Decode` | src/Common/Src/md5.c:84-91 | The loop reads the little-endian words. |
| `Md5.CounterCounts` | src/Common/Src/md5.c:47-50 | The two words with their carry test count the bits modulo 2^64. |
| `Md5.IndexIsRest` | src/Common/Src/md5.c:45 | The counter's low word says how full the buffer is, wrap-around included. |
| `Md5.AbsorbMore` | src/Common/Src/md5.c:52-61 | Absorbing a longer message continues from the state and the buffered rest. |
| `Md5.LoopEndsIffFits` | src/Common/Src/md5.c:56-57 | The block loop of a call ends if and only if its 32-bit index does not wrap: the length is below 2^32 less the bytes buffered, or less 64 when none are. |
| `Md5.Context.Update` | src/Common/Src/md5.c:43-62 | After any call whose loop ends the context holds the message fed so far, extended by the input. |
| `Md5.Context.TakeBytes` | src/Common/Src/md5.c:52-61 | The buffered block is completed, whole blocks run from the input, the rest is buffered. |
| `Md5.PaddedIsBlocks` | src/Common/Src/md5.c:66-70 | The padded message of RFC 1321 is whole blocks, and no shorter padding would do. |
| `Md5.PaddedBits` | src/Common/Src/md5.c:63-72 | The padded message byte by byte: the message, 0x80, zeros, and the number of its bits in eight bytes, lowest first. |
| `Md5.InitBytes` | src/Common/Src/md5.c:35-42 | The start value is the byte sequence of section 3.3 of RFC 1321. |
| `Md5.PaddingIsInjective` | src/Common/Src/md5.c:66-70 | Messages below 2^64 bits stay different when padded. |
| `Md5.Context.Final` | src/Common/Src/md5.c:63-72 | The digest is that of exactly the padded message of sections 3.1 to 3.4 of RFC 1321. |
| `Md5.HashPieces` | src/Common/Src/md5.c:35-72 | However a message is cut into pieces, the digest is that of the whole. |
| `Windows.SortedIsPermutation` | src/Devices/Src/telemetry_reporter.c:384-392 | The sort gives an ascending permutation. |
| `Windows.SortInPlace` | src/Devices/Src/telemetry_reporter.c:384-392 | The in-place insertion sort computes it. |
| `Windows.MedianI32` | src/Devices/Src/telemetry_reporter.c:375-397 | The median, with the sum of the middle pair wrapping in 32 bits and halved towards zero. |
| `Windows.MedianIs` | src/Devices/Src/telemetry_reporter.c:393-396 | The middle sample, or the middle pair's 32-bit sum halved with rounding towards zero. |
| `Windows.SixAreAMajority` | src/Devices/Src/telemetry_reporter.c:375-397 | A range that holds six of the ten samples holds the median, when the middle sum fits 32 bits. |
| `Windows.MedianIsRobustIffFits` | src/Devices/Src/telemetry_reporter.c:393-395 | That holds for all ranges if and only if the middle sum fits 32 bits. |
| `Windows.SmallSamplesFit` | src/Devices/Src/telemetry_reporter.c:393-395 | Samples of 16 bits, all the devices have, always fit. |
| `Telemetry.ReportsFollowHistory` | src/Devices/Src/telemetry_reporter.c:325-358 | In every run a sample makes its metric report exactly when it ends a window of ten of its own samples and the rule on value and time calls for it. |
| `Telemetry.MetricsAreIndependent` | src/Devices/Src/telemetry_reporter.c:299-323 | In every run each tracked metric is where its own samples alone would have brought it; an untracked one found the table full. |
| `Telemetry.AtMostCapacity` | src/Devices/Src/telemetry_reporter.c:302-315 | No run tracks more than 48 metrics. |
| `Telemetry.CacheRemembers` | src/Devices/Src/telemetry_reporter.c:332-357 | The ring and counters of a cache hold the open window and the last report. |
| `Telemetry.ReportsEndWindows` | src/Devices/Src/telemetry_reporter.c:335-345 | Every report stands at the end of a tenth sample and gives that window's value. |
| `Telemetry.ReportIsRobust` | src/Devices/Src/telemetry_reporter.c:367-373 | Every reported analog value lies in each range that holds six of its window's samples, when the middle sum fits 32 bits. |
| `Telemetry.ConsecutiveReports` | src/Devices/Src/telemetry_reporter.c:346-353 | Consecutive reports really differ, by at least the threshold for analog values, and, unless the earlier tick is 0, lie at least 60 s apart modulo 2^32. |
| `Telemetry.CloseReportsIff` | src/Devices/Src/telemetry_reporter.c:350-352 | Consecutive reports can be closer than 60 s if and only if the earlier one is at tick 0. |
| `Telemetry.ChangedIff` | src/Devices/Src/telemetry_reporter.c:399-414 | In unbounded integers: a state has changed if and only if it is another one; an analog value if and only if it is at least the threshold away in either direction, with the exact condition for gaps of 2^31 and more. |
| `Telemetry.ReportedIffDue` | src/Devices/Src/telemetry_reporter.c:335-357 | A sample appends a report if and only if it ends a full window and nothing was reported before, or the value has changed enough and the last tick is 0 or 60000 ticks back; the report is the window's value and tick. |
| `Telemetry.DueIsReported` | src/Devices/Src/telemetry_reporter.c:325-358 | In every run: whenever a tracked metric's full window differs by the threshold from its last report, up or down (gaps below 2^31), and ends 60000 ticks later, it is reported. |
| `Telemetry.ChangedDiffers` | src/Devices/Src/telemetry_reporter.c:399-414 | What the 32-bit test takes for changed differs by the threshold at least, for all 32-bit values and thresholds. |
| `Telemetry.DistanceIsDistance` | src/Devices/Src/telemetry_reporter.c:409-413 | The 32-bit difference is the distance when it does not overflow. |
| `Telemetry.ViewSet` | src/Devices/Src/telemetry_reporter.c:316-322 | Writing one cell is one map update and keeps the keys unique. |
| `Telemetry.Reporter.FindMetricCache` | src/Devices/Src/telemetry_reporter.c:299-323 | Finds the metric's cell or takes the first free one; fails only when the table is full. |
| `Telemetry.Reporter.TrackMetric` | src/Devices/Src/telemetry_reporter.c:325-358 | The table follows the run semantics, keys stay unique, and the device flag is set exactly on a report. |
| `Telemetry.ResolveWindowValue` | src/Devices/Src/telemetry_reporter.c:360-373 | The window's last state or its median. |
| `UploadQueue.RunIsFaithful` | src/Devices/Src/telemetry_reporter.c:278-293 | In every run what was published since the last reset, followed by the queue, is what was accepted, in order; publications are 60 s apart unless the earlier tick is 0; at most eight wait. |
| `UploadQueue.ClosePublicationsIff` | src/Devices/Src/telemetry_reporter.c:282-284 | Consecutive publications can be closer than 60 s if and only if the earlier one is at tick 0. |
| `UploadQueue.AcceptedIsReadable` | src/Devices/Src/telemetry_reporter.c:422-433 | Every queued payload of a storable value parses back to that value. |
| `UploadQueue.TextHasNoNul` | src/ThirdParty/Parson/parson.c:1290-1355 | Printed text holds no NUL, so reading a payload as a C string reads all of it. |
| `UploadQueue.DepthTakesRoom` | src/ThirdParty/Parson/parson.c:1146-1288 | Every level of nesting takes a character of the text. |
| `UploadQueue.Ring.EnqueuePayload` | src/Devices/Src/telemetry_reporter.c:416-438 | Accepts exactly when a cell is free and text and NUL fit 768 bytes; drops the newest otherwise. |
| `UploadQueue.Ring.FlushOne` | src/Devices/Src/telemetry_reporter.c:278-293 | Offers the head's whole text when the broker is ready and the interval is over; gives it up only once delivered. |
| `UploadQueue.Ring.Reset` | src/Devices/Src/telemetry_reporter.c:119-126 | Empties the queue and forgets the last tick. |
| `Eeprom.FlatIffWithinPage` | src/Storage/Src/app_eeprom.c:194-204 | Page writes of a length store flat if and only if they stay inside the page. |
| `Eeprom.Device.WriteBytes` | src/Storage/Src/app_eeprom.c:184-213 | Success is a flat overwrite of the target range; a failure, wherever it breaks off, leaves the first bytes of one; refused arguments change nothing. |
| `Eeprom.Device.WritePages` | src/Storage/Src/app_eeprom.c:192-212 | Each chunk stays inside its page and continues the last one. |
| `Eeprom.Device.ReadBytes` | src/Storage/Src/app_eeprom.c:169-182 | Reads the range or fails. |
| `Eeprom.HeaderSurvives` | src/Storage/Src/app_eeprom.c:230-240 | Every header field is read back as written. |
| `Eeprom.ScriptSurvives` | src/Storage/Src/app_eeprom.c:77-104 | A written script is read back whole by every buffer with room for it and a NUL, and by no smaller one. |
| `Eeprom.SlotsAreApart` | src/Storage/Src/app_eeprom.c:219-221 | Writing, even when it breaks off, changes nothing outside the 4096 bytes of its slot at 0x2000 or 0x3000; the other slot reads the same. |
| `Eeprom.SlotImage` | src/Storage/Src/app_eeprom.c:54-75 | A written slot byte by byte: magic, version, header size, the leaf of the name cut to 15 characters, size, checksum, script. |
| `Eeprom.ReadIffHeld` | src/Storage/Src/app_eeprom.c:77-104 | A text is read out of a slot if and only if the slot's bytes hold that header and text and the buffer has room for it and a NUL. |
| `Eeprom.LeafIsBehindSeparator` | src/Storage/Src/app_eeprom.c:242-251 | The leaf holds no slash or backslash and is the whole name or stands right behind one. |
| `Eeprom.BrokenWriteIsJudged` | src/Storage/Src/app_eeprom.c:66-75 | A write that breaks off in the payload leaves the old header in charge: only a text of its size and checksum, starting with what was stored, is ever read. |
| `Eeprom.BrokenHeaderIsJudged` | src/Storage/Src/app_eeprom.c:66-75 | A write that breaks off in the header: up to byte 24 the old size and checksum judge the new payload, from byte 28 on only the whole new script can be read, from byte 30 on it is. |
| `Eeprom.Device.WriteScript` | src/Storage/Src/app_eeprom.c:54-75 | Payload first, header last; where a failure stopped is one of the two stages. |
| `Eeprom.Device.ReadScript` | src/Storage/Src/app_eeprom.c:77-104 | Returns exactly what the slot holds, terminated in the caller's buffer, or nothing. |
| `Eeprom.LeafName` | src/Storage/Src/app_eeprom.c:242-251 | The part of a path behind its last separator. |
| `ModbusBits.PackedBits` | src/Interpreter/Src/basic_modbus.c:527-541 | Every bit is read back as packed, and the bits that fill the last byte are clear. |
| `ModbusBits.PackedOctet` | src/Interpreter/Src/basic_modbus.c:527-541 | Each byte is the sum of its eight bits, the first one weighing 1 and the last one 128. |
| `ModbusBits.UnpackUndoesPack` | src/Interpreter/Src/basic_modbus.c:491-541 | Unpacking undoes packing for every bit sequence. |
| `ModbusBits.PackUndoesUnpack` | src/Interpreter/Src/basic_modbus.c:491-541 | Packing undoes unpacking for every byte string. |
| `ModbusBits.OrAdds` | src/Interpreter/Src/basic_modbus.c:534-536 | OR-ing a bit above all set ones adds its weight. |
| `ModbusBits.WholeIff` | src/Interpreter/Src/basic_modbus.c:606-655 | A cell stands for an integer if and only if it holds it, as an integer or as a real without a fraction. |
| `ModbusMaster.CellsAreSent` | src/Interpreter/Src/basic_modbus.c:586-655 | A coil is set by any cell but zero; the bytes sent are the cells' numbers. |
| `ModbusBits.PackBits` | src/Interpreter/Src/basic_modbus.c:507-545 | Packs the cells into ceil(n/8) bytes; fails when the buffer is too small or a cell is no whole number. |
| `ModbusBits.UnpackBits` | src/Interpreter/Src/basic_modbus.c:491-505 | Writes each bit as a cell 0 or 1 and leaves the others alone. |
| `ModbusMaster.CoilRequestIsUnderstood` | src/Interpreter/Src/basic_modbus.c:399-407 | A slave reading the frame by section 6.11 of the protocol finds exactly the coils that went in; the frame has at most 110 bytes. |
| `ModbusMaster.RegisterRequestIsUnderstood` | src/Interpreter/Src/basic_modbus.c:423-435 | The same for registers and section 6.12. |
| `ModbusMaster.DataIffReply` | src/Interpreter/Src/basic_modbus.c:188-198 | Data is taken from exactly the replies a slave should give, and from no other frame. |
| `ModbusMaster.ExceptionIsSeen` | src/Interpreter/Src/basic_modbus.c:770-773 | An exception reply leaves its code as the last error. |
| `ModbusMaster.CoilsArrive` | src/Interpreter/Src/basic_modbus.c:185-203 | For every accepted count the reply fits 110 bytes and its coils are what the script gets. |
| `ModbusMaster.ConfirmedIffEcho` | src/Interpreter/Src/basic_modbus.c:781-791 | A write succeeds if and only if the reply repeats the first six bytes of the request under a checksum of their own. |
| `ModbusMaster.SimpleRequestIff` | src/Interpreter/Src/basic_modbus.c:663-680 | A frame is the one built for slave, function, address and value if and only if a slave reads exactly these out of it, high bytes first, under a fitting checksum. |
| `ModbusMaster.OtherAnswers` | src/Interpreter/Src/basic_modbus.c:752-779 | Any other answer to a read leaves 0xF1 when nothing came, 0xF3 when the checksum does not fit, 0xF2 otherwise. |
| `ModbusMaster.OtherConfirmations` | src/Interpreter/Src/basic_modbus.c:752-791 | The same for a write that is not confirmed, or the code of an exception reply. |
| `ModbusMaster.Master.ReadBits` | src/Interpreter/Src/basic_modbus.c:141-208 | What a slave reads out of the frame sent is the script's address and count; argument errors, too small an array, failed exchanges and success: the result, the last error and the cells in each case. |
| `ModbusMaster.Master.ReadRegisters` | src/Interpreter/Src/basic_modbus.c:210-277 | The same for registers. |
| `ModbusMaster.Master.WriteCoils` | src/Interpreter/Src/basic_modbus.c:325-440 | What a slave reads out of the sent frame are the script's cells, nonzero being set; success is the confirmed echo. |
| `ModbusMaster.Master.WriteRegisters` | src/Interpreter/Src/basic_modbus.c:325-440 | The same for registers, whose cells must be bytes. |
| `ModbusMaster.Master.WriteSingle` | src/Interpreter/Src/basic_modbus.c:279-323 | What a slave reads out of the frame sent is the script's address and value, 0xFF00 for a set coil; it succeeds if and only if the frame itself comes back. |
| `ModbusMaster.Master.ValidateResponse` | src/Interpreter/Src/basic_modbus.c:752-779 | Accepts or leaves the error of the first check that fails. |
| `ModbusMaster.VerdictIff` | src/Interpreter/Src/basic_modbus.c:752-779 | A reply passes if and only if it has 5 to 110 bytes, a fitting checksum, the slave's address and the function's code. |

## Left out

- Numbers with a fraction, an exponent or more than 53 bits: a JSON number is an integer printed in decimal, and the
  grammar refuses the others, and any integer directly followed by `.`, `e`, `E`, `x` or `X`. `strtod` on a lone minus
  sign (value 0, nothing consumed) is modelled.
- JsonParser.Parser.ParseNumber: agrees with that grammar, so it says nothing about the numbers the grammar leaves out.
- JsonRoundTrip.AcceptedIsStorable: numbers are exact because the grammar leaves the others out.
- Allocation failures, `free`, and parent pointers beyond whether a value already has an owner.
- Widths of `size_t` and `int` lengths: lengths, years and seconds are unbounded.
- DotPath.DotSetValue: nested objects are values and only the top-level object is a hash table, because the nested calls
  are the same recursion; sharing of nested objects in memory is not modelled.
- JsonSerializer.Serialize: walks member sequences; `JsonDocument.PrintTable` takes them from the arrays of the table for the
  outermost object.
- Deep copy, equality, validation, comment stripping, array replace and remove, and file access of the JSON library.
- Raster.Panel.DrawSlopedLine: requires the line to fit, since beyond that the loop need not end; spans above 32767, whose
  16-bit differences wrap, are not described.
- Raster.Panel.FillRect: the panel is 1 to 32767 pixels wide and high, so that its size is an `int16_t`.
- Circles.CircleIsRightIffFits: for circles whose coordinates stay within 16 bits; a circle of radius 0 is its centre.
- Filled circles, text cells, and errors of the display bus: every transfer to the panel succeeds.
- Md5.Context.Update: requires an input for which the block loop ends.
- The 64 MD5 rounds: `transform` is any function of state and block. Hexadecimal output of the digest.
- Telemetry: which fields each device contributes, the six-second sampling gate, and the JSON names of the payloads.
- Eeprom: the search for a slot by package name; a page write that fails may store any prefix of its chunk, nothing else.
- ModbusMaster: the bus lock, port setup, which ports speak Modbus, and timeouts; casts of reals beyond the integer range.
- The BASIC interpreter, shell, configuration, network, modem and board code.
