# oreno front end: a verified model of the reading pipeline

oreno reads a markup source in three stages. This project models each stage in
Dafny and proves what each stage promises.

1. **Characters.** Two snapshots of the character reader:
   - `CharStream` (src/build/step1.rs) reads decoded characters and tracks the 1-based line and column.
   - `SourceCodeReader` (src/build/source_code_reader.rs) reads bytes and has `pointer` and `seek`.

   Both skip a leading byte-order mark. Both turn `\r\n` and a lone `\r` into one line feed.
2. **Units.** Two snapshots of the indentation lexer:
   - `UnitStream` (src/build/step2.rs);
   - `SourceUnitReader` (src/build/source_unit_reader.rs), a four-mode state machine.

   Both turn characters into `Char`, `NewLine`, `Indent`/`UnIndent` and `Eof` units. Both are
   proved equal to one line-by-line reference, module `Layout`:
   - the depth of a line is its leading spaces divided by four;
   - spaces beyond the depth are re-emitted;
   - trailing spaces are dropped;
   - a blank line is a single `NewLine` and never changes the depth;
   - every open level is closed before `Eof`.

   For every `n`, the first `n` units read equal the first `n` units of that reference. The
   reference is padded with `Eof` after the end. Mark and reset restore the whole lexer state.
3. **Parsing.** The backtracking recursive-descent parser of src/build/step3.rs and src/build/step3/.
   It covers:
   - the `try_parse` harness and the `call_parser` wrapper;
   - symbols;
   - tags with the abbreviation table;
   - attribute lists with `""` escaping and first-wins names;
   - block-tag headers;
   - paragraphs;
   - blocks with deferred blank lines;
   - block tags with raw bodies and `:a:b` nesting.

   The parser runs over an abstract unit stream. Its cursor is a plain value: a mark is a copy
   and a reset is an assignment. The next unit may depend on the indent-check flag.
   Inline tags are an oracle of that stream.

Modules follow the program:
- `LineEndings` and `CharStream` (step1.rs);
- `SourceCodeReader`;
- `Layout`;
- `UnitStream` (step2.rs);
- `SourceUnitReader`;
- `ParseStream` (the abstract stream), `Harness` (step3.rs) and `Content` (the result trees);
- `Symbol`, `Tag`, `Attribute`, `BlockTagHeader` and `Paragraph`;
- `Blocks`, which holds `parse_block` and `parse_block_tag` together because they are mutually recursive.

Every operation returns its result together with the rest of the stream. A parser's reply carries:
- an outcome: parsed, mismatched (the source's `Ok(None)`), or fatal (the source's `Err`);
- the warnings it raised.

Warnings are not undone by backtracking. In the source they go into a shared list, so callers
concatenate them.

## Model

| member | source | states |
|---|---|---|
| `LineEndings.NormalizeStep` | src/build/step1.rs:27-38 | One read's worth of normalization: `\r\n` yields one line feed and uses two characters; any other `\r` yields a line feed; any other character is itself. |
| `LineEndings.CrLfBetween` | src/build/step1.rs:31-38 | A `\r\n` between two texts without `\r` becomes exactly one line feed and nothing else changes. |
| `LineEndings.LoneCrBetween` | src/build/step1.rs:31-37 | A `\r` not followed by `\n` becomes one line feed and nothing else changes. |
| `LineEndings.NoCrLeft` | src/build/step1.rs:27-38 | No carriage return survives normalization. |
| `CharStream.New` | src/build/step1.rs:10-20 | The reader starts at pointer 0 and position (1,1). It drops exactly one leading U+FEFF when the text starts with one and drops nothing otherwise. |
| `CharStream.Read` | src/build/step1.rs:22-52 | `None` exactly at or past the end, and then nothing changes. Otherwise the character is never `\r`, the reported position is the one before reading, and the pointer advances but stays within the text. The position advances by a line feed (next line, column 1) or by one column. |
| `CharStream.ReadAllNormalizes` | src/build/step1.rs:22-52 | Reading until `None` delivers exactly the line-ending normalization of the unread characters. |
| `CharStream.NoCarriageReturn` | src/build/step1.rs:27-38 | No delivered character is `\r`. |
| `CharStream.PositionAfterSnoc` | src/build/step1.rs:40-46 | The line/column step of `read` agrees with counting line feeds and the characters since the last one. |
| `CharStream.PositionsFollowText` | src/build/step1.rs:40-46 | Each delivered character's position is the line and column reached after the characters delivered before it. |
| `CharStream.PositionsFromStart` | src/build/step1.rs:118-149 | From a new reader, the i-th character is reported at (1 + line feeds before it, 1 + characters since the last line feed). |
| `CharStream.BomSkipped` | src/build/step1.rs:151-161 | After a leading BOM, the first real character is reported at (1,1). |
| `CharStream.MarkThenReset` | src/build/step1.rs:54-64 | Resetting to a mark restores pointer and position exactly, so the same characters and positions are read again. |
| `CharStream.MarkAfterCrLf` | src/build/step1.rs:163-182 | In `"abc\r\nxyz"` the fourth read is a line feed at (1,4), after which the mark is pointer 5 at (2,1). |
| `CharStream.CrLfFolded` | src/build/step1.rs:31-38 | Reading `a + "\r\n" + b` (no other `\r`, no BOM) delivers `a + "\n" + b`. |
| `CharStream.LoneCrFolded` | src/build/step1.rs:31-37 | Reading `a + "\r" + b` with `b` not starting with `\n` delivers `a + "\n" + b`. |
| `SourceCodeReader.New` | src/build/source_code_reader.rs:9-19 | The pointer starts at 3 exactly when the bytes start with EF BB BF, else at 0; the bytes are kept. |
| `SourceCodeReader.NewAsWritten` | src/build/source_code_reader.rs:10 | As written, the constructor panics exactly when the source has at least three bytes and byte 3 is inside a UTF-8 character; otherwise it agrees with `New`. |
| `SourceCodeReader.BomCheckPanicsInsideCharacter` | src/build/source_code_reader.rs:10 | For the bytes of `"a日"` (61 E6 97 A5), the constructor as written panics, but the intended one starts at pointer 0. |
| `SourceCodeReader.Read` | src/build/source_code_reader.rs:21-34 | `None` exactly at the end, and the pointer is unchanged. Otherwise the byte is never CR. A CR yields LF and advances by 2 when LF follows, by 1 otherwise. Any other byte is returned as is and advances by 1. |
| `SourceCodeReader.Seek` | src/build/source_code_reader.rs:40-42 | Seeking keeps the bytes and sets the pointer to exactly the given value. |
| `SourceCodeReader.ReadAllNormalizes` | src/build/source_code_reader.rs:21-34 | Reading until `None` delivers exactly the line-ending normalization of the unread bytes. |
| `SourceCodeReader.NeverCarriageReturn` | src/build/source_code_reader.rs:24-29 | No delivered byte is CR. |
| `SourceCodeReader.ReadsNormalizedText` | src/build/source_code_reader.rs:49-64 | `a + CR LF + b` (no other CR) reads as `a + LF + b`, then `None`. |
| `SourceCodeReader.BomIsSkipped` | src/build/source_code_reader.rs:66-74 | After a leading EF BB BF, reading yields the normalization of what follows it. |
| `SourceCodeReader.PointerAfterCrLf` | src/build/source_code_reader.rs:76-86 | After four reads of `"abc\r\nxyz"` the last byte is LF and the pointer is 5. |
| `SourceCodeReader.SeekThenRead` | src/build/source_code_reader.rs:88-94 | After `seek(p)`, the next read returns the byte at `p` (when it is not CR) and moves the pointer to `p + 1`. |
| `Layout.LinesBlank` | src/build/step2.rs:49-51 | A line of only spaces yields a single `NewLine` and the depth is unchanged for what follows. |
| `Layout.LinesContent` | src/build/step2.rs:58-70 | A line with `n` leading spaces and a character: `Indent`/`UnIndent` from the depth to `n/4`, then the `n%4` extra spaces, then the character, then the rest of the line at depth `n/4`. |
| `Layout.TextContent` | src/build/step2.rs:86-95 | Spaces inside a line are re-emitted in order when a later character appears. |
| `Layout.TextNewLine` | src/build/step2.rs:82-85 | Trailing spaces before a line feed are dropped; the line feed is one `NewLine`. |
| `Layout.TextAtEnd` | src/build/step2.rs:96-99 | Trailing spaces before the end are dropped; every level is closed, then `Eof`. |
| `Layout.LinesAtEnd` | src/build/step2.rs:53-56 | At the end of input (after at most spaces), `UnIndent`s bring the depth to 0, then `Eof`. |
| `Layout.LinesTerminated` | src/build/step2.rs:41-103 | The units of any text end with exactly one `Eof`, at the end. |
| `Layout.LinesBalanced` | src/build/step2.rs:117-126 | Counting `Indent` up and `UnIndent` down from the stored depth never goes negative and ends at 0. |
| `Layout.ShiftDepth` | src/build/step2.rs:117-126 | The run of `Indent`s or `UnIndent`s moves a depth from its value to the target, never below 0. |
| `Layout.PaddedBalanced` | src/build/step2.rs:34-38 | Reading a balanced unit sequence, with `Eof` repeated after its end, never takes the depth below zero, and leaves it at zero once the sequence is used up. |
| `UnitStream.PushFront` | src/build/step2.rs:31-38 | `push_front` followed by `pop_back` is first in, first out: the pushed unit is handed out after everything already queued. |
| `UnitStream.MoveIndentDepth` | src/build/step2.rs:117-126 | The stored depth becomes the target, and exactly the `Indent`s or `UnIndent`s between the two depths are queued. |
| `UnitStream.PushChars` | src/build/step2.rs:63-68 | The held-back spaces are queued as `Char` units in their order; the depth is unchanged. |
| `UnitStream.NewLineFollowsLayout` | src/build/step2.rs:49-51 | A blank line queues only `NewLine`, and the stream still delivers the reference layout. |
| `UnitStream.AtEndFollowsLayout` | src/build/step2.rs:53-56 | At the end the lexer queues the closing `UnIndent`s and `Eof`, as the reference layout does. |
| `UnitStream.LineStartLayout` | src/build/step2.rs:58-70 | The units queued at a line's first character are the reference layout's start of that line. |
| `UnitStream.MiddleFollowsLayout` | src/build/step2.rs:89-95 | Queuing held spaces and a character in mid-line agrees with the reference layout. |
| `UnitStream.LeadingFollowsLayout` | src/build/step2.rs:41-75 | The leading-space loop of `read_line` leaves a stream whose future units are the reference layout of the spaces and the unread characters. |
| `UnitStream.TrailingFollowsLayout` | src/build/step2.rs:77-102 | The mid-line loop of `read_line` leaves a stream whose future units are the reference layout of the rest of the line. |
| `UnitStream.Refill` | src/build/step2.rs:30-33 | Refilling an empty queue with `read_line` leaves the future units unchanged and the queue non-empty. |
| `UnitStream.Pop` | src/build/step2.rs:34-38 | `pop_back` hands out the next future unit. After `Eof` the future stays `Eof`, so later reads keep returning it. |
| `UnitStream.ReadStep` | src/build/step2.rs:30-39 | Each `read` returns the first future unit and keeps the invariant that `Eof`, once queued, is last. |
| `UnitStream.FutureTerminated` | src/build/step2.rs:34-38 | What the stream will still deliver ends with exactly one `Eof`. |
| `UnitStream.ReadsFollowFuture` | src/build/step2.rs:30-39 | `n` reads return the first `n` future units, padded with `Eof`. |
| `UnitStream.ReadsFollowLayout` | src/build/step2.rs:22-39 | From a new stream, `n` reads return the first `n` units of the reference layout of the characters, padded with `Eof`. |
| `UnitStream.DepthBalanced` | src/build/step2.rs:117-126 | Counting `Indent` up and `UnIndent` down over the units read from a new stream never goes below zero, and is zero again once every unit up to `Eof` has been read. |
| `UnitStream.MarkThenReset` | src/build/step2.rs:105-115 | Resetting to a mark restores the characters, the queue and the depth, so the same units are read again. |
| `SourceUnitReader.MoveDepth` | src/build/source_unit_reader.rs:68-76 | The two depth loops queue exactly the `Indent`s or `Unindent`s from the stored depth to the target. |
| `SourceUnitReader.InitFollowsLayout` | src/build/source_unit_reader.rs:46-60 | At a line start, a space begins the indent count, a line feed is one `NewLine`, and any other byte unindents to 0 and is queued. All three follow the reference. |
| `SourceUnitReader.IndentSpace` | src/build/source_unit_reader.rs:62 | In the indentation, another space only counts. |
| `SourceUnitReader.IndentBlank` | src/build/source_unit_reader.rs:63-66 | A line of only spaces yields one `NewLine`; the depth stays. |
| `SourceUnitReader.IndentContent` | src/build/source_unit_reader.rs:67-85 | `n` spaces then a byte: shift to depth `n/4`, then `n%4` space `Char`s, then the byte. |
| `SourceUnitReader.IndentLayout` | src/build/source_unit_reader.rs:67-82 | The reference layout of `n` spaces and a byte is the shift to `n/4`, the `n%4` spaces, the byte, then the rest of the line at depth `n/4`. |
| `SourceUnitReader.IndentFollowsLayout` | src/build/source_unit_reader.rs:61-86 | The indentation mode follows the reference for every byte. |
| `SourceUnitReader.TextLineEnd` | src/build/source_unit_reader.rs:92-95 | In text, a line feed is one `NewLine` and the next line starts fresh. |
| `SourceUnitReader.TextChar` | src/build/source_unit_reader.rs:96-98 | In text, a byte that is neither a space nor a line feed is queued as itself. |
| `SourceUnitReader.TextFollowsLayout` | src/build/source_unit_reader.rs:87-99 | The text mode follows the reference for every byte. |
| `SourceUnitReader.SpacesContent` | src/build/source_unit_reader.rs:106-112 | A run of interior spaces is re-emitted intact when a later byte appears. |
| `SourceUnitReader.SpacesFollowLayout` | src/build/source_unit_reader.rs:100-113 | Trailing spaces before a line feed are dropped. Interior spaces are kept. The space mode follows the reference. |
| `SourceUnitReader.ConsumeFollowsLayout` | src/build/source_unit_reader.rs:45-114 | In every mode, one byte through the state machine keeps "queued units + reference layout of the rest" unchanged. |
| `SourceUnitReader.AheadAtEnd` | src/build/source_unit_reader.rs:34-40 | At the end, in any mode, the reference is the closing `Unindent`s and `Eof`. |
| `SourceUnitReader.AtEndSettles` | src/build/source_unit_reader.rs:34-40 | At the end the reader queues `Unindent` to depth 0, then `Eof`, as the reference does. |
| `SourceUnitReader.QueueLoop` | src/build/source_unit_reader.rs:31-115 | The byte loop stops with a non-empty queue. |
| `SourceUnitReader.QueueLoopFollowsLayout` | src/build/source_unit_reader.rs:26-116 | The units queued by one call, followed by what the reader will produce later, are the reference layout of the unread bytes. |
| `SourceUnitReader.ReversedBatch` | src/build/source_unit_reader.rs:117-119 | Reversing a batch of more than one unit makes `pop` hand the units out in the order they were queued. |
| `SourceUnitReader.Refill` | src/build/source_unit_reader.rs:18-22 | Queuing a batch keeps the future units and the invariant. |
| `SourceUnitReader.Pop` | src/build/source_unit_reader.rs:23 | `pop` hands out the next future unit. After `Eof` the future stays `Eof`. |
| `SourceUnitReader.ReadStep` | src/build/source_unit_reader.rs:18-24 | Each `read_unit` returns the first future unit and keeps the invariant. |
| `SourceUnitReader.FutureTerminated` | src/build/source_unit_reader.rs:34-40 | What the reader will still deliver ends with exactly one `Eof`. |
| `SourceUnitReader.ReadsFollowFuture` | src/build/source_unit_reader.rs:18-24 | `n` calls of `read_unit` return the first `n` future units, padded with `Eof`. |
| `SourceUnitReader.ReadsFollowLayout` | src/build/source_unit_reader.rs:10-24 | From a new reader, `n` calls return the reference layout of the normalized bytes, padded with `Eof`. |
| `SourceUnitReader.DepthBalanced` | src/build/source_unit_reader.rs:35-38 | Counting `Indent` up and `Unindent` down over the units read from a new reader never goes below zero, and is zero again once every unit up to `Eof` has been read. |
| `SourceUnitReader.MarkThenReset` | src/build/source_unit_reader.rs:122-131 | After `mark`, any reads, and `reset`, the next `n` units are the ones read after the mark, whatever the reading mode. |
| `Harness.TryParse` | src/build/step3.rs:65-82 | The result is the production's, unchanged. On anything but `Parsed` the cursor is back at the mark. On `Parsed` the production's consumption is kept. The indent-check mode is on afterwards. |
| `Harness.CallParser` | src/build/step3.rs:70-76 | Modelled on the reset in `try_parse` (step3.rs:70-76), since `call_parser` is not part of this model. The outcome and warnings pass through. On a non-success the stream is back where it started. The indent-check flag is the caller's. |
| `Harness.WrappersAgree` | src/build/step3.rs:65-82 | With the flag on, `try_parse` and the wrapper leave the stream at the same place. |
| `Symbol.Run` | src/build/step3/symbol.rs:17-29 | The loop takes the longest run of ASCII letters, digits and `-`, and stops before the first unit that cannot extend it. |
| `Symbol.ParseSymbol` | src/build/step3/symbol.rs:8-37 | A symbol is parsed exactly when the next unit is a symbol character. It is then the non-empty longest run, consumed and no more. Never a warning, never an error. |
| `Symbol.RunStarts` | src/build/step3/symbol.rs:19-27 | The longest run is empty exactly when the next unit is not a symbol character, and otherwise starts with it. |
| `Symbol.LongestRunUnique` | src/build/step3/symbol.rs:17-29 | At a given place there is only one longest run. |
| `Symbol.ParsesLongestRun` | src/build/step3/symbol.rs:32-36 | Any non-empty longest run is what the parser returns, with the stream right after it. |
| `Tag.Abbreviation` | src/build/step3/tag.rs:48-62 | The twelve abbreviations each name a non-empty symbol, and `:` is not one of them. |
| `Tag.AbbreviationInjective` | src/build/step3/tag.rs:48-62 | No two abbreviation characters name the same tag. |
| `Tag.AbbreviationsDistinct` | src/build/step3/tag.rs:48-62 | Two abbreviations parse to the same tag exactly when they are the same character. |
| `Tag.ParseTag` | src/build/step3/tag.rs:45-80 | A tag is parsed exactly when the next unit is `:` or an abbreviation character. It then advances, without warnings or errors. |
| `Tag.ParseAbbreviation` | src/build/step3/tag.rs:64-66 | An abbreviation character yields its table name flagged as abbreviated, after one unit. |
| `Tag.ParseLongForm` | src/build/step3/tag.rs:68-73 | `:` followed by the longest symbol yields that name, not abbreviated. When the symbol is empty, the name is `""`. |
| `Tag.LongFormAgrees` | src/build/step3/tag.rs:48-73 | An abbreviation and its long form name the same tag and differ only in the flag. |
| `Tag.OptionalAttributes` | src/build/step3/tag.rs:91-98 | An absent or rejected attribute list is an empty map with no nameless values, not a failure. The stream is left where it was and the list's warnings are kept. A parsed list or an error passes through unchanged. |
| `Tag.ParseTagAndAttributes` | src/build/step3/tag.rs:82-101 | Mismatched exactly when the tag does not start here, and then nothing is consumed. On success the stream has advanced. |
| `Tag.TagThenAttributes` | src/build/step3/tag.rs:86-100 | The name is the tag's. The attributes are the list that follows, or empty when the list is absent. The result fails only when the list is an error. |
| `Attribute.QuotedLoopParsed` | src/build/step3/attribute.rs:199-236 | The quoted loop's result is the decoded text it read. It warns "not closed" only when it gives up. Its only error is a block marker. |
| `Attribute.QuotedLoopSteps` | src/build/step3/attribute.rs:200-216 | An ordinary character is kept; `""` becomes `"`; a `"` followed by anything else ends the value. |
| `Attribute.ParseQuoted` | src/build/step3/attribute.rs:186-239 | Without a leading `"` the result is mismatched, with nothing consumed and no warning. A parsed value advances the stream. |
| `Attribute.QuotedParsed` | src/build/step3/attribute.rs:186-239 | A parsed value is exactly what was written between the quotes, with `""` decoded. The stream is right after the closing quote. An unclosed value warns "A quoted attribute value is not closed.". |
| `Attribute.QuotedRoundTrip` | src/build/step3/attribute.rs:186-239 | Quoting any value (doubling its quotes) and parsing it back gives the value: `"xx""""zz"` reads as `xx""zz`. |
| `Attribute.SimpleLoop` | src/build/step3/attribute.rs:248-277 | The unquoted loop reads plain characters up to a space, `]`, a line break or the end. A `"` or `=` warns and gives no value. A block marker is an error. |
| `Attribute.ParseSimple` | src/build/step3/attribute.rs:242-280 | An unquoted value is the run of plain characters ahead, possibly empty, and ends before its terminator. The `"`/`=` warning and the block-marker error are as in the loop. |
| `Attribute.SimpleRoundTrip` | src/build/step3/attribute.rs:248-268 | Any plain text followed by a terminator is parsed back exactly. |
| `Attribute.NamedValue` | src/build/step3/attribute.rs:166-182 | After a name: no `=` means no entry and no new warning. Otherwise the entry carries the name. Its value `v` is written right after the `=`, either quoted (with `""` for each `"`) or as plain characters, and is closed there. The stream is right after it. |
| `Attribute.ParseAttribute` | src/build/step3/attribute.rs:136-183 | An entry that starts with a character other than a space or `]` consumes input. |
| `Attribute.SimpleLoopStops` | src/build/step3/attribute.rs:248-266 | Plain characters that run into a `"` or `=` give no value. They warn about that character where it stands. |
| `Attribute.NamedValueRoundTrip` | src/build/step3/attribute.rs:166-182 | A name followed by `=` and a well-written value, quoted or plain, reads back as that name and value. There is no warning. |
| `Attribute.EntryRoundTrip` | src/build/step3/attribute.rs:136-183 | Any well-written entry is parsed back exactly, with no warning. This covers `name="v"`, `name=v`, `"v"` and `v`. The stream is right after the entry. |
| `Attribute.BareRoundTrip` | src/build/step3/attribute.rs:140-152 | A bare value, quoted or plain, is taken by the first probe that matches it and read back exactly. |
| `Attribute.NamedRoundTrip` | src/build/step3/attribute.rs:154-182 | A written name, `=` and value: both value probes decline, the symbol is read, then the value after the `=`. |
| `Attribute.EntryReads` | src/build/step3/attribute.rs:136-183 | Conversely, every parsed entry is what was written there: an optional symbol name and `=`, then a quoted or plain value that is properly closed. |
| `Attribute.AttributeNamed` | src/build/step3/attribute.rs:154-170 | A named entry's name is the longest symbol at the start, and `=` follows it. |
| `Attribute.AttributeNoName` | src/build/step3/attribute.rs:140-163 | The nameless probes run with warnings off, so where no name can start, the only warning is "There is no attribute name.". |
| `Attribute.GatherKeeps` | src/build/step3/attribute.rs:96-109 | A new name is added with its value. A name already present leaves the map and the nameless values unchanged. A nameless value is appended in source order. The set of names grows by exactly the entry's name. |
| `Attribute.GatherAllFirstWins` | src/build/step3/attribute.rs:95-110 | Over a list of entries: a name is present if it was before or is named in the list. Its value is the earlier one, otherwise the first given in the list. The nameless values are appended in order. |
| `Attribute.SeparatorsSkipped` | src/build/step3/attribute.rs:92-94 | A space between entries is skipped, and so is a line break (attribute.rs:116-118). |
| `Attribute.EntriesAdjacent` | src/build/step3/attribute.rs:95-110 | Entries need no separator. After a new name or a nameless value, the next entry is read right where this one ends, so `[a="x"b=y]` holds two entries. |
| `Attribute.DuplicateWarns` | src/build/step3/attribute.rs:97-102 | A name given twice leaves the list unchanged and warns "The attributes are duplicated.". |
| `Attribute.AttributeLoop` | src/build/step3/attribute.rs:85-131 | A closed list has advanced the stream. |
| `Attribute.AttributeLoopKeeps` | src/build/step3/attribute.rs:85-131 | Over the whole list, each name keeps its first value and nameless values are only appended. A block beginning or end inside the brackets is an error. The end of input warns "']' is required." and gives no list. |
| `Attribute.GapSkipped` | src/build/step3/attribute.rs:92-94 | Any run of spaces and line breaks between entries is skipped without changing the list. |
| `Attribute.EntryStep` | src/build/step3/attribute.rs:95-110 | One well-written entry is read and gathered. The loop goes on right after it, with one "The attributes are duplicated." warning when its name is already present. |
| `Attribute.ListParsed` | src/build/step3/attribute.rs:85-131 | Well-written entries separated by spaces or line breaks and closed by `]` are parsed to the first-wins gathering of those entries. The stream is right after the `]`. There is one duplicate warning per repeated name. |
| `Attribute.ParseAttributes` | src/build/step3/attribute.rs:69-134 | Without a leading `[` the result is mismatched, with nothing consumed and no warning. A parsed list advances the stream with the indent check off. |
| `Attribute.AttributesRoundTrip` | src/build/step3/attribute.rs:69-134 | A written list `[...]` of well-written entries is the first-wins gathering of its entries, with one duplicate warning per repeated name. |
| `Attribute.AttributesExample` | src/build/step3/attribute.rs:69-134 | Parsing the written list `[a=x b="y""z" c a=w]` gives the map a=x and b=`y"z` and the nameless value `c`. With warnings on, it warns once about the repeated `a`. The stream is right after the `]`. |
| `Attribute.ExampleGathering` | src/build/step3/attribute.rs:95-110 | The first-wins gathering of the entries a=x, b=`y"z`, c, a=w is that map and nameless value, with one repeated name. |
| `Content.FlushNormal` | src/build/step3/block_tag_header.rs:76-78 | Flushing keeps contents free of empty text and of adjacent texts. |
| `Content.FlushTagSettled` | src/build/step3/block_tag_header.rs:47-52 | Text is flushed before each inline tag, so the contents stay normal. |
| `BlockTagHeader.HeaderLoop` | src/build/step3/block_tag_header.rs:43-74 | The loop never mismatches. It stops before a line break, block end or end of input. A block beginning is the error "Unexpected block beginning.", with the stream where it was and no warning. |
| `BlockTagHeader.HeaderTagStep` | src/build/step3/block_tag_header.rs:46-57 | At a `:` whose inline tag parses, pending text is flushed, the tag is appended, and the loop goes on after the tag. An inline-tag error ends the header with that error. |
| `BlockTagHeader.HeaderCharStep` | src/build/step3/block_tag_header.rs:46-61 | Any other character, or a `:` whose inline tag does not match, is appended to the pending text. |
| `BlockTagHeader.HeaderChars` | src/build/step3/block_tag_header.rs:45-61 | A run of such characters is appended to the pending text in order. |
| `BlockTagHeader.HeaderTagRoundTrip` | src/build/step3/block_tag_header.rs:36-85 | Text, an inline tag, then more text up to the end of the line is the header `a`, tag, `b`, with empty text left out. |
| `BlockTagHeader.ParseHeader` | src/build/step3/block_tag_header.rs:36-85 | A header is non-empty, advances the stream and stops before the end of its line. An empty line is no header. A block beginning is an error. |
| `BlockTagHeader.HeaderNormal` | src/build/step3/block_tag_header.rs:48-78 | Adjacent text forms one string, text is flushed before each inline tag, and no empty string is pushed. |
| `BlockTagHeader.HeaderLoopReads` | src/build/step3/block_tag_header.rs:45-65 | Text whose colons open no inline tag, including each such `:`, accumulates as literal text up to the end of the line. |
| `BlockTagHeader.HeaderRoundTrip` | src/build/step3/block_tag_header.rs:36-85 | A line of such text is the header holding exactly that text. |
| `Paragraph.ParagraphLoop` | src/build/step3/paragraph.rs:10-46 | The loop never mismatches and, with tags off, never fails. It stops before a non-character unit. |
| `Paragraph.ParagraphLoopContent` | src/build/step3/paragraph.rs:13-52 | The contents are normal, and with tag parsing off they hold only text. |
| `Paragraph.ParseParagraph` | src/build/step3/paragraph.rs:5-53 | At a character a paragraph always parses (unless an inline tag is an error) and consumes it. Its contents are normal. |
| `Paragraph.ParagraphCharStep` | src/build/step3/paragraph.rs:12-29 | A character, or a `:` whose inline tag does not match, is appended as text. |
| `Paragraph.ParagraphTagStep` | src/build/step3/paragraph.rs:13-25 | With tags on, at a `:` whose inline tag parses, pending text is flushed, the tag is appended, and the loop goes on after the tag. An inline-tag error ends the paragraph with that error. |
| `Paragraph.ParagraphChars` | src/build/step3/paragraph.rs:12-29 | A run of characters whose colons open no inline tag is appended to the pending text in order. |
| `Paragraph.ParagraphLineStep` | src/build/step3/paragraph.rs:30-40 | A line break is consumed as `\n`. The paragraph ends there when a blank line, block beginning or block end follows. |
| `Paragraph.ParagraphLastBreak` | src/build/step3/paragraph.rs:34-37 | A final line break before a blank line or block marker closes the paragraph after it. |
| `Paragraph.ParagraphLoopReads` | src/build/step3/paragraph.rs:10-46 | Text without a blank line, whose colons open no inline tag, is read into the paragraph exactly. |
| `Paragraph.ParagraphRoundTrip` | src/build/step3/paragraph.rs:5-53 | Such text is the paragraph holding exactly that text, with the stream right after it. |
| `Paragraph.ParagraphTagRoundTrip` | src/build/step3/paragraph.rs:5-53 | Text, an inline tag, then more text is the paragraph `a`, tag, `b`, with empty text left out. The tag's warnings are kept. |
| `Blocks.ParseBlock` | src/build/step3/block.rs:58-131 | Not at a block beginning: mismatched, nothing consumed. A parsed block advances the stream. |
| `Blocks.BlockLoop` | src/build/step3/block.rs:70-131 | A closed block leaves the stream no earlier than the first pending blank line. |
| `Blocks.BlockChar` | src/build/step3/block.rs:85-96 | At a character, the block tag (when tags are on) or paragraph consumes input. |
| `Blocks.TaggedChild` | src/build/step3/block.rs:85-96 | With tags on, at a `:` that starts a block tag, that tag is appended to the block as a child and the loop goes on after it. Otherwise the paragraph read there is appended. |
| `Blocks.BlockNested` | src/build/step3/block.rs:105-108 | A nested block beginning consumes input. |
| `Blocks.NestedChild` | src/build/step3/block.rs:105-108 | A parsed nested block is appended as a child and the loop goes on after it. A nested block with nothing in it is an error. |
| `Blocks.BlockShape` | src/build/step3/block.rs:105-130 | A parsed block is non-empty, every nested block is non-empty, and with tag parsing off it holds no tag. |
| `Blocks.BlockLoopShape` | src/build/step3/block.rs:70-130 | The loop keeps every gathered item non-empty and, with tags off, literal. |
| `Blocks.BlankRun` | src/build/step3/block.rs:97-104 | A run of `k` line breaks is counted, and the mark is taken at the first of them. |
| `Blocks.BlankLinesKept` | src/build/step3/block.rs:71-82 | A run of blank lines followed by a character or block beginning becomes one blank line per line, in order. |
| `Blocks.BlankLinesLeft` | src/build/step3/block.rs:123-127 | Blank lines before the closing block end are not kept. The block returns with the stream reset to the first of them. |
| `Blocks.BlockEnds` | src/build/step3/block.rs:110-119 | A block end is consumed and closes the block. A block with nothing in it is no block. The end of input inside a block is the error "Although there is a block beginning, there is no block end.". |
| `Blocks.EmptyBlock` | src/build/step3/block.rs:123-130 | A block beginning directly followed by a block end gives no block. |
| `Blocks.BlockRoundTrip` | src/build/step3/block.rs:58-131 | A block of one paragraph of plain text is parsed as exactly that paragraph, and its block end is consumed. |
| `Blocks.NestedBlock` | src/build/step3/block.rs:58-131 | A block whose only content is a nested block is parsed as the block holding that nested block. |
| `Blocks.TaggedBlock` | src/build/step3/block.rs:58-131 | A block whose only content is a block tag is parsed as the block holding that tag. |
| `Blocks.ParseBlockTag` | src/build/step3/block_tag.rs:56-126 | A parsed block tag advances the stream. |
| `Blocks.TagAccepted` | src/build/step3/block_tag.rs:63-67 | A step lemma: once the tag is accepted, it unfolds `ParseBlockTag` into `AfterTag` on the unit after the tag, keeping the tag's warnings. |
| `Blocks.AfterTag` | src/build/step3/block_tag.rs:69-125 | What follows the tag keeps the name, attributes and nameless values unchanged. |
| `Blocks.TagBody` | src/build/step3/block_tag.rs:101-125 | The header and body keep the name, attributes and nameless values unchanged. |
| `Blocks.BlockTagKeeps` | src/build/step3/block_tag.rs:119-125 | A parsed block tag carries the parsed name, attributes and nameless values unchanged. |
| `Blocks.BlockTagShape` | src/build/step3/block_tag.rs:108-117 | A body is a non-empty block. The body of `code-block` or `raw-html` holds no tag, so `:b{bold}` stays literal. |
| `Blocks.BlockTagAtEnd` | src/build/step3/block_tag.rs:71-98 | A block beginning right after the attributes is an error. A block end or the end of input gives a tag with no header and no body. |
| `Blocks.BlockTagIllegal` | src/build/step3/block_tag.rs:86-90 | Any other following character warns "There is an illegal character. '<c>'" and gives no tag. This includes `:` after a raw or abbreviated tag. |
| `Blocks.BlockTagChild` | src/build/step3/block_tag.rs:73-83 | `:` after a plain tag parses a nested block tag as the only child of a block, with no header. When the nested tag does not parse, the `:` is illegal. |
| `Blocks.AfterTagChild` | src/build/step3/block_tag.rs:73-90 | Proof helper for `Blocks.BlockTagChild`: the same statement about `AfterTag`, from the unit after the attributes. |
| `Blocks.BlockTagBody` | src/build/step3/block_tag.rs:108-117 | After a line break, the body is the following block, parsed with tags off for raw tags. Without a block the tag has no body. |
| `Blocks.BlockTagHeaderThenBody` | src/build/step3/block_tag.rs:101-117 | A space, a header and the line break that ends it make a tag with that header. Its body is the following block, parsed with tags off for raw tags, or absent when no block follows. The warnings are the tag's, the header's and the body's in order. This is the case of the test at block_tag.rs:306-330. |
| `Blocks.BlockTagHeaderAfterSpace` | src/build/step3/block_tag.rs:101-106 | A header is present only after a consumed space, and after a space it is whatever the header parser gives. |
| `Blocks.AfterTagHeader` | src/build/step3/block_tag.rs:101-106 | Proof helper for `Blocks.BlockTagHeaderAfterSpace`: the same statement about `AfterTag`, from the unit after the attributes. |

## Left out

- The inline tag parsers (src/build/step3/inline_tag.rs and src/build/step3/inline_tag_contents.rs) are an oracle of the stream.
  - The oracle may parse (and then advances), mismatch or fail.
  - inline_tag.rs delegates to functions whose code is not part of this model.
  - inline_tag_contents.rs is not valid Rust.
- src/build/step3/blank_line.rs is not modelled. Nothing calls it, and block.rs handles blank lines itself.
- src/main.rs has no logic and is not modelled.
- UTF-8 decoding is not modelled. `CharStream.New` takes the decoded characters. The `FromUtf8Error` of step1.rs:11 is outside the model.
- The JSON serialisers and fixture-file readers of the tests are not modelled: `to_json`, `sort_keys`, `to_tokens`, and `fs::read`.
- Several pieces of the newer stream and context have code that is not part of this model:
  - `call_parser`;
  - `peek`, `set_indent_check_mode` and `file_position`;
  - `ParseContext` (its parser name, and the warning and tag-parsing switches).

  They are modelled as follows:
  - The stream is a cursor over an abstract lexer. The lexer makes progress on every non-`Eof` unit.
  - A warning records the cursor and the message.
  - An error records the message.
- Attributes are a Dafny `map`, so `HashMap` iteration order is not modelled.
- Integer widths (`usize`, `u64`) are unbounded naturals. No counter in these files can overflow for an input that fits in memory.
- The parser does not track line and column.
- `Paragraph.ParseParagraph` (src/build/step3/paragraph.rs:44) differs from the older snapshot in three ways:
  - The older snapshot panics at a block beginning or end not preceded by a line break. The model ends the paragraph there without consuming it. The newer block-tag test at src/build/step3/block_tag.rs:286-304 needs this.
  - The older snapshot has no tag-parsing switch. The model tries inline tags only when tag parsing is on, as raw bodies need (src/build/step3/block_tag.rs:231-258).
  - The missing `;` at paragraph.rs:20 is taken as a typo.
- `Blocks.BlockNested`: the `unwrap` at src/build/step3/block.rs:107 of an empty nested block is modelled as a fatal error, because the panic aborts the parse. The paragraph `unwrap` at block.rs:94 cannot fail, because a paragraph never mismatches (`Paragraph.ParseParagraph`).
- `Harness.CallParser` puts the caller's indent-check flag back rather than switching it on, because `call_parser` itself is not part of this model. `Harness.WrappersAgree` relates it to `try_parse` when the flag is on.
- `Paragraph.ParagraphLoop` tries an inline tag through the same wrapper, `Harness.CallParser`. The older snapshot's paragraph.rs:14 calls `try_parse` there, which also switches the indent check on afterwards. When the check is on before the attempt, the two leave the same stream (`Harness.WrappersAgree`).
- The following recursive functions state in their own contracts only progress and what they keep. The lemmas listed after each in "## Model" state their behaviour.
- Blocks.ParseBlockTag: states progress; its behaviour is in `Blocks.BlockTagAtEnd`, `Blocks.BlockTagIllegal`, `Blocks.BlockTagChild`, `Blocks.BlockTagBody`, `Blocks.BlockTagHeaderAfterSpace` and `Blocks.BlockTagHeaderThenBody`.
- Blocks.AfterTag: states what it keeps; its behaviour is in `Blocks.AfterTagChild` and `Blocks.AfterTagHeader`.
- Blocks.TagBody: states what it keeps; its behaviour is in `Blocks.BlockTagBody`.
- Blocks.BlockLoop: states where it may leave the stream; its behaviour is in `Blocks.BlankLinesKept`, `Blocks.BlankLinesLeft`, `Blocks.BlockEnds` and `Blocks.BlockLoopShape`.
- Blocks.BlockChar: states progress; its shape is in `Blocks.BlockCharShape`, the child it appends is in `Blocks.TaggedChild`, and whole blocks are in `Blocks.BlockRoundTrip` and `Blocks.TaggedBlock`.
- Blocks.BlockNested: states progress; its shape is in `Blocks.BlockShape`, the child it appends is in `Blocks.NestedChild`, and a whole block is in `Blocks.NestedBlock`.
- Attribute.ParseAttribute: states progress; its behaviour is in `Attribute.AttributeNamed`, `Attribute.AttributeNoName`, `Attribute.NamedValue`, `Attribute.EntryRoundTrip` and `Attribute.EntryReads`.
- Attribute.AttributeLoop: states progress; its behaviour is in `Attribute.AttributeLoopKeeps`, `Attribute.SeparatorsSkipped`, `Attribute.EntriesAdjacent`, `Attribute.DuplicateWarns`, `Attribute.EntryStep` and `Attribute.ListParsed`.
- Paragraph.ParagraphLoop: states how it ends; its behaviour is in `Paragraph.ParagraphCharStep`, `Paragraph.ParagraphTagStep`, `Paragraph.ParagraphLineStep`, `Paragraph.ParagraphLoopReads` and `Paragraph.ParagraphTagRoundTrip`.
- SourceUnitReader.QueueLoop: states that it stops with units queued; what it queues is in `SourceUnitReader.QueueLoopFollowsLayout`.
- Tag.Abbreviation: states the shape of the table. The twelve entries are its body, read back by `Tag.ParseAbbreviation`.
- The older `try_parse` harness (src/build/step3.rs) has a `Warning` result variant. It is modelled in `Harness.TryParse` only; the newer parsers report warnings through the context.

## Findings

| source | as written | input that shows it | evidently intended | confidence | as-written member | corrected member |
|---|---|---|---|---|---|---|
| src/build/source_code_reader.rs:10 | `s[0..3]` slices the string at byte 3 before comparing with the BOM, and slicing a `String` inside a character panics | the bytes 61 E6 97 A5 (`"a日"`): byte 3 is inside `日` | compare the first three bytes (`s.as_bytes()[0..3]`), so that any text without a BOM starts at pointer 0 | not executed | `SourceCodeReader.NewAsWritten`, shown by `SourceCodeReader.BomCheckPanicsInsideCharacter` | `SourceCodeReader.New` |
