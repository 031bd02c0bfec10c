# Simple NEM12 parser, modelled and verified in Dafny

This project models the line parser of the Simple NEM12 reader
(`SimpleNem12ParserImpl`). Simple NEM12 is a comma-separated meter-data
format with four record types:

- `100`: file start;
- `900`: file end;
- `200`: meter block, holding a meter identifier (NMI) and the energy unit `KWH`;
- `300`: meter volume, holding a date (`yyyyMMdd`), a decimal volume and a quality (`A` actual, `E` estimated).

The parser reads a file line by line. It skips blank lines. It splits every other line on `,` and checks it against a cursor (`ParserCurrentParams`) with four parts:

- the meter reads built so far;
- the currently open read;
- a line index;
- a flag saying whether a file end was seen.

An accepted line updates the cursor in place. The first rejected line aborts the whole parse.

Layout:

- `wrappers.dfy` (`Wrappers`): `Option` and `Result`.
- `fields.dfy` (`Fields`): Java's `String.trim` blank test and `String.split(",")`.
  - `split` drops trailing empty fields.
  - A line made only of commas has no fields.
- `primitives.dfy` (`Primitives`): stand-ins for `LocalDate.parse(…, "yyyyMMdd")` and `new BigDecimal(…)`, each with a formatter and a round trip.
- `records.dfy` (`Records`): the record types and the values the parser builds, plus the parser's behaviour as pure functions over a cursor value.
  - `Step` is one line.
  - `Run`/`Parse` is the whole loop.
- `parser.dfy` (`Parser`): the parser as objects.
  - `MeterRead` has an in-place `AppendVolume`.
  - `ParserCurrentParams` holds the four cursor fields.
  - `SimpleNem12ParserImpl` holds the methods and the `while` loop.
  - Each method is proved to change the cursor exactly as the functions in `Records` say, and to change nothing when it rejects a line.
- `properties.dfy` (`Properties`): what the parser guarantees.
  - The effect of each record type.
  - Blank lines have no effect.
  - The line count.
  - At most one file start, and only as the first record.
  - At most one file end.
  - Every volume follows a meter block.
- `roundtrip.dfy` (`RoundTrip`): writing and reading back.
  - A file written from some meter reads parses back to exactly those reads. Where several volume lines give the same date, the last one wins.
  - Every parse result can be written back as a file that parses to the same result.

Exceptions are modelled as values. Every `IllegalArgumentException` is a `ParseError` constructor. The `ArrayIndexOutOfBoundsException` thrown by `lineParams[0]` on a line of only commas is `NoFields`. A parse result of `Failure(e)` stands for the exception that escapes `parseSimpleNem12`.

Where the code and the format's description disagree, the model follows the code:

- A file with no `100` is accepted (`RoundTrip.ParseOfBodyLines`).
- A file with no `900` is accepted (`RoundTrip.ParseOfBodyLines`).
- The cursor is a field initialised once per parser object, so a second parse on the same object starts from where the first left off. A second file's `100` is therefore rejected (`RoundTrip.SecondFileRejected`).

## Model

| member | source | states |
|---|---|---|
| Records.RecordTypeOf | simplenem12/src/simplenem12/SimpleNem12ParserImpl.java:111-123 | A code maps to a record type whose code it is. No record type has a code that maps to nothing. |
| Records.QualityOf | simplenem12/src/simplenem12/SimpleNem12ParserImpl.java:97-101 | A quality name maps to a quality with that name. A name that maps to nothing names no quality. |
| Records.ValidateRecordTypes | simplenem12/src/simplenem12/SimpleNem12ParserImpl.java:52-66 | Acceptance means a first field exists and is a known code. The only change is that the end flag is set by a `900`. A known code is rejected only for `100` or `900`. |
| Records.MeterBlock | simplenem12/src/simplenem12/SimpleNem12ParserImpl.java:85-92 | An accepted block appends one new read after all earlier ones and makes it the open read. Earlier reads, the index and the end flag are kept. |
| Records.MeterVolumeRecord | simplenem12/src/simplenem12/SimpleNem12ParserImpl.java:94-102 | An accepted volume needs an open read. It keeps the closed reads, the index and the end flag. |
| Records.Assemble | simplenem12/src/simplenem12/SimpleNem12ParserImpl.java:85-102 | Assembly never removes a read and never closes an open read. It leaves the index and the end flag alone. |
| Records.ProcessRecord | simplenem12/src/simplenem12/SimpleNem12ParserImpl.java:81-103 | An accepted record advances the index by exactly one. It never loses a closed read or closes the open one. |
| Records.Step | simplenem12/src/simplenem12/SimpleNem12ParserImpl.java:77-104 | A blank line leaves the cursor unchanged. An accepted non-blank line advances the index by one. No accepted line drops a closed read or closes the open one. |
| Records.Fold | simplenem12/src/simplenem12/SimpleNem12ParserImpl.java:36 | The fail-fast `forEach`: no lines complete at the starting cursor, and only a non-empty input can abort. `FoldAppend`, `FoldPrefix` and `FoldAborts` state how it composes and where it stops. |
| Records.Run | simplenem12/src/simplenem12/SimpleNem12ParserImpl.java:36 | No contract of its own: `Fold` applied with `Step`. What it guarantees is stated by `Records.RunKeepsWellFormed` and the `Properties` lemmas (`RunIgnoresBlank`, `RunCounts`, `AtMostOneFileStart`, …). |
| Records.FoldPreserves | simplenem12/src/simplenem12/SimpleNem12ParserImpl.java:36 | A property of the cursor that every accepted line keeps holds at the end of a run, whether it completed or aborted. |
| Records.StepKeepsWellFormed | simplenem12/src/simplenem12/SimpleNem12ParserImpl.java:85-101 | No accepted line makes a read ill formed. A block's identifier is a split field, so it holds no delimiter; its unit is KWH; a volume's date is a parsed calendar date. |
| Records.RunKeepsWellFormed | simplenem12/src/simplenem12/SimpleNem12ParserImpl.java:36 | Every read a run holds at its end is well formed if every read it started with was. |
| Records.Parse | simplenem12/src/simplenem12/SimpleNem12ParserImpl.java:25-37 | A fresh parser's parse succeeds exactly when its run completes, and every read it returns is well formed. |
| Records.FoldAppend | simplenem12/src/simplenem12/SimpleNem12ParserImpl.java:36 | Running two stretches of lines is running the first, then the second from where the first stopped. An abort in the first stretch ends the run. |
| Records.FoldPrefix | simplenem12/src/simplenem12/SimpleNem12ParserImpl.java:36 | A completed run got through every prefix and accepted the line after it. |
| Records.FoldAborts | simplenem12/src/simplenem12/SimpleNem12ParserImpl.java:36 | An aborted run stopped at some line k. The lines before k were accepted and brought the cursor to the reported state, and line k was rejected with the reported error. |
| Records.FoldOpenOrigin | simplenem12/src/simplenem12/SimpleNem12ParserImpl.java:36 | If reads can only be opened by lines of one kind, then a run that ends with a read open started with one open or met a line of that kind. |
| Parser.MeterRead.constructor | simplenem12/src/simplenem12/SimpleNem12ParserImpl.java:89 | A new read has the given identifier and unit and no volumes. |
| Parser.MeterRead.AppendVolume | simplenem12/src/simplenem12/SimpleNem12ParserImpl.java:100-101 | The day's volume is recorded in place, replacing any earlier volume for that day. Nothing else in the read changes. |
| Parser.ValuesOfValidReads | simplenem12/src/simplenem12/SimpleNem12ParserImpl.java:89-91 | The closed reads followed by the open one are exactly the output collection. |
| Parser.ParserCurrentParams.constructor | simplenem12/src/simplenem12/SimpleNem12ParserImpl.java:130-135 | A fresh cursor has no reads, no open read, index 0 and no file end. |
| Parser.ParserCurrentParams.CountLine | simplenem12/src/simplenem12/SimpleNem12ParserImpl.java:103 | The index goes up by one and nothing else changes. |
| Parser.SimpleNem12ParserImpl.constructor | simplenem12/src/simplenem12/SimpleNem12ParserImpl.java:25 | A new parser owns a fresh, initial cursor. |
| Parser.SimpleNem12ParserImpl.ValidateRecordTypes | simplenem12/src/simplenem12/SimpleNem12ParserImpl.java:52-66 | Throws exactly when `Records.ValidateRecordTypes` fails, with the same error. On success the cursor is left as that function says. |
| Parser.SimpleNem12ParserImpl.MeterBlock | simplenem12/src/simplenem12/SimpleNem12ParserImpl.java:85-92 | Mirrors `Records.MeterBlock` exactly: it throws the same error, or creates the new read and appends it in place. |
| Parser.SimpleNem12ParserImpl.MeterVolumeRecord | simplenem12/src/simplenem12/SimpleNem12ParserImpl.java:94-102 | Mirrors `Records.MeterVolumeRecord` exactly. All checks precede the in-place update of the open read. |
| Parser.SimpleNem12ParserImpl.AssembleRecord | simplenem12/src/simplenem12/SimpleNem12ParserImpl.java:85-102 | Mirrors `Records.Assemble`: the block and volume branches chosen by the first field. |
| Parser.SimpleNem12ParserImpl.ProcessRecord | simplenem12/src/simplenem12/SimpleNem12ParserImpl.java:83-103 | Mirrors `Records.ProcessRecord`: validation, then assembly, then the index increment. A rejection changes nothing. |
| Parser.SimpleNem12ParserImpl.ProcessLineSimpleNem12 | simplenem12/src/simplenem12/SimpleNem12ParserImpl.java:77-104 | Mirrors `Records.Step` on the object cursor. It throws exactly when Step fails, and a rejection changes nothing. |
| Parser.SimpleNem12ParserImpl.ProcessNextLine | simplenem12/src/simplenem12/SimpleNem12ParserImpl.java:36 | One turn of the loop. Either the run gets through one more line, or it aborts at this line with the cursor as it was. |
| Parser.SimpleNem12ParserImpl.ParseSimpleNem12 | simplenem12/src/simplenem12/SimpleNem12ParserImpl.java:34-37 | The loop ends with the cursor `Run` computes from the parser's current cursor. It succeeds exactly when the run completes, and then returns the cursor's sequence of read objects at that moment, whose values are the run's reads. Otherwise it fails with the run's error. |
| Fields.Trim | simplenem12/src/simplenem12/SimpleNem12ParserImpl.java:78 | `trim()` never lengthens the line, and what it leaves neither starts nor ends with a character at most a space. |
| Fields.IsBlank | simplenem12/src/simplenem12/SimpleNem12ParserImpl.java:78-79 | No contract of its own: every character is at most a space. `Fields.TrimEmptyIffBlank` proves that this is exactly the source's `"".equals(line.trim())` test. |
| Fields.TrimEmptyIffBlank | simplenem12/src/simplenem12/SimpleNem12ParserImpl.java:78-79 | `line.trim()` is empty exactly when every character is at most a space. |
| Fields.Split | simplenem12/src/simplenem12/SimpleNem12ParserImpl.java:81 | `split(",")`: no field holds a delimiter, and a line without a delimiter is one field. Otherwise the fields are the line's delimiter-separated pieces with trailing empty pieces dropped, and the last field kept is not empty. |
| Fields.JoinOfPieces | simplenem12/src/simplenem12/SimpleNem12ParserImpl.java:81 | Joining the split pieces with the delimiter gives the line back: the split loses nothing but the delimiters. |
| Fields.SplitOfJoin | simplenem12/src/simplenem12/SimpleNem12ParserImpl.java:81 | Joining fields that hold no delimiter, the last of them non-empty, and splitting the line on `,` gives exactly those fields back. |
| Fields.NoFieldsIffOnlyDelimiters | simplenem12/src/simplenem12/SimpleNem12ParserImpl.java:81-83 | `split` yields no fields exactly for a non-empty line of only commas. |
| Primitives.ParseDate | simplenem12/src/simplenem12/SimpleNem12ParserImpl.java:99 | Only texts of eight digits are accepted, and the result is always a valid calendar date. A day past the month's end (`20230231`) is moved back to the month's last day, as the SMART resolver does. |
| Primitives.DateRoundTrip | simplenem12/src/simplenem12/SimpleNem12ParserImpl.java:99 | Every valid date, written as `yyyyMMdd`, parses back to itself. |
| Primitives.DateCanonical | simplenem12/src/simplenem12/SimpleNem12ParserImpl.java:99 | A parsed date writes back to its text exactly when no day past the month's end was moved back. |
| Primitives.ParseDecimal | simplenem12/src/simplenem12/SimpleNem12ParserImpl.java:101 | An accepted number is non-empty, its scale is less than its length, and it is negative only behind a leading `-`. |
| Primitives.DecimalAccepts | simplenem12/src/simplenem12/SimpleNem12ParserImpl.java:101 | The texts read as numbers are exactly the plain literals: digits with at most one point and at least one digit, optionally behind one `+` or `-`. |
| Primitives.DecimalRoundTrip | simplenem12/src/simplenem12/SimpleNem12ParserImpl.java:101 | Every decimal written in plain notation parses back to the same value and scale. |
| Properties.StepOfLine | simplenem12/src/simplenem12/SimpleNem12ParserImpl.java:78-83 | A blank line has no effect, the index included. Any other line is processed by its split fields. |
| Properties.RecordUnknownCode | simplenem12/src/simplenem12/SimpleNem12ParserImpl.java:54-55 | A line with no fields, or whose first field is not one of the four codes, is rejected. |
| Properties.RecordFileStart | simplenem12/src/simplenem12/SimpleNem12ParserImpl.java:58-60 | A `100` is accepted iff it is a lone field at index 0. When accepted, it is only counted. |
| Properties.RecordFileEnd | simplenem12/src/simplenem12/SimpleNem12ParserImpl.java:61-64 | A `900` is accepted iff it is a lone field and no `900` was seen. When accepted, it sets the end flag and is counted. |
| Properties.RecordMeterBlock | simplenem12/src/simplenem12/SimpleNem12ParserImpl.java:85-91 | A `200` is accepted iff it has three fields and unit `KWH`, with the matching error otherwise. It appends an empty read named by field 1 and opens it. Earlier reads are unchanged. |
| Properties.RecordMeterVolumeChecks | simplenem12/src/simplenem12/SimpleNem12ParserImpl.java:95-101 | The `300` checks, each with its error and in source order: field count, open read, quality, date, number. A `300` is accepted iff all of them pass. |
| Properties.RecordMeterVolumeEffect | simplenem12/src/simplenem12/SimpleNem12ParserImpl.java:99-101 | An accepted `300` changes only the open read's entry for the parsed date, setting it to (number, quality) whatever it held before. Other dates and other reads are unchanged. |
| Properties.RecordOpensOnlyByBlock | simplenem12/src/simplenem12/SimpleNem12ParserImpl.java:85-92 | Only a `200` opens a read when none is open. |
| Properties.NonBlankAppend | simplenem12/src/simplenem12/SimpleNem12ParserImpl.java:78-79 | Filtering out blank lines distributes over concatenation. |
| Properties.RunIgnoresBlank | simplenem12/src/simplenem12/SimpleNem12ParserImpl.java:78-79 | A run over the lines has the same outcome as a run over the non-blank lines alone. |
| Properties.BlankInsertion | simplenem12/src/simplenem12/SimpleNem12ParserImpl.java:78-79 | Inserting a blank line anywhere does not change the outcome. |
| Properties.RecordFileFlag | simplenem12/src/simplenem12/SimpleNem12ParserImpl.java:61-64 | An accepted record sets the end flag exactly when it is a `900`, and never clears it. |
| Properties.RunCounts | simplenem12/src/simplenem12/SimpleNem12ParserImpl.java:83-103 | The index never decreases and the end flag stays set. After a completed run, the index has grown by the number of non-blank lines. |
| Properties.FileStartOnlyFirst | simplenem12/src/simplenem12/SimpleNem12ParserImpl.java:58-60 | An accepted `100` is read at index 0 and is preceded only by blank lines. |
| Properties.AtMostOneFileStart | simplenem12/src/simplenem12/SimpleNem12ParserImpl.java:58-60 | A completed run holds no second `100`. |
| Properties.FileEndCloses | simplenem12/src/simplenem12/SimpleNem12ParserImpl.java:64 | After an accepted `900`, the end flag is set. |
| Properties.StaysClosed | simplenem12/src/simplenem12/SimpleNem12ParserImpl.java:62-64 | Once set, the end flag stays set for the rest of the run. |
| Properties.AtMostOneFileEnd | simplenem12/src/simplenem12/SimpleNem12ParserImpl.java:61-64 | A completed run holds no second `900`. |
| Properties.StepOpensOnlyByBlock | simplenem12/src/simplenem12/SimpleNem12ParserImpl.java:85-92 | For every cursor and line, only a `200` line opens a read when none is open. |
| Properties.OpenReadOrigin | simplenem12/src/simplenem12/SimpleNem12ParserImpl.java:89-90 | A read open after a run was open before it, or the run met a `200`. |
| Properties.VolumeNeedsOpenRead | simplenem12/src/simplenem12/SimpleNem12ParserImpl.java:96 | A `300` line is accepted only while a read is open. |
| Properties.VolumeFollowsBlock | simplenem12/src/simplenem12/SimpleNem12ParserImpl.java:96 | In a completed run, every `300` comes after some `200`, unless a read was already open at the start. |
| RoundTrip.ApplyLast | simplenem12/src/simplenem12/SimpleNem12ParserImpl.java:100-101 | Over a sequence of volumes, the last one for a date decides that date, overwriting the earlier ones. |
| RoundTrip.DecimalText | simplenem12/src/simplenem12/SimpleNem12ParserImpl.java:101 | Written numbers are never empty and hold no delimiter, so they survive the split. |
| RoundTrip.VolumeLineFields | simplenem12/src/simplenem12/SimpleNem12ParserImpl.java:81 | A written volume line is not blank and splits back into its four fields. |
| RoundTrip.FoldVolumes | simplenem12/src/simplenem12/SimpleNem12ParserImpl.java:94-103 | Written volume lines fill the open read's map one date after another. Each line counts once. |
| RoundTrip.FoldRead | simplenem12/src/simplenem12/SimpleNem12ParserImpl.java:85-103 | The lines of one written read add exactly that read after the earlier ones. |
| RoundTrip.AfterReadsValue | simplenem12/src/simplenem12/SimpleNem12ParserImpl.java:89-91 | After several written reads, the collection holds the earlier reads followed by exactly those reads, in order. |
| RoundTrip.ParseOfFileLines | simplenem12/src/simplenem12/SimpleNem12ParserImpl.java:34-104 | A file written from reads with delimiter-free identifiers and valid dates parses back to exactly those reads. |
| RoundTrip.ParseOfBodyLines | simplenem12/src/simplenem12/SimpleNem12ParserImpl.java:58-64 | Neither a `100` nor a `900` is demanded: the written reads' lines alone parse to the same reads. |
| RoundTrip.ApplyEntriesOf | simplenem12/src/simplenem12/SimpleNem12ParserImpl.java:100-101 | Applying one entry per date of a map, in any order, overlays the map on the volumes already there. |
| RoundTrip.SourceOfRead | simplenem12/src/simplenem12/SimpleNem12ParserImpl.java:89-101 | Every read is `ReadOf` of the source that lists its identifier and its map's entries, and a well-formed read's source can be written. |
| RoundTrip.ReadsOfSources | simplenem12/src/simplenem12/SimpleNem12ParserImpl.java:89-101 | Reading back the sources of some reads gives those reads, in order. |
| RoundTrip.ReparseOfParse | simplenem12/src/simplenem12/SimpleNem12ParserImpl.java:34-104 | Whatever a fresh parser accepts can be written out again as a file with a `100`, the reads' blocks and volumes, and a `900`. That file parses to the same reads. |
| RoundTrip.SecondFileRejected | simplenem12/src/simplenem12/SimpleNem12ParserImpl.java:25 | The cursor outlives a parse. After a whole file, any further input starting with `100` is rejected and leaves the cursor alone. |

## Left out

- Opening the file (`Files.lines`, `Paths.get`), the `System.err` message, and the swallowed `IOException` that makes `parseSimpleNem12` return `null` (lines 35-42) are I/O. The input is modelled as the sequence of the file's lines.
- `null` lines (line 78): `Files.lines` never yields one, and a `seq<string>` cannot hold one.
- `HashSet` semantics of the output collection (line 131): `MeterRead.equals` and `hashCode` are not part of this model.
  - The output is the sequence of read objects in creation order, and the reads are never deduplicated by meter identifier.
- Parser.SimpleNem12ParserImpl.ParseSimpleNem12: does not model the aliasing of the returned collection. In the source (line 37), the caller receives the cursor's own `HashSet`, so a later parse by the same object grows the collection already returned. In the model, the result is a `seq` value, and a later parse assigns the cursor a new sequence, so a result already returned never changes.
- Primitives.ParseDate: a simplified stand-in for `LocalDate.parse` with pattern `yyyyMMdd`.
  - It accepts exactly eight ASCII digits and a year of era from 1 to 9999.
  - It clamps a day from 29 to 31 past the month's end to the last day, as the SMART resolver does.
  - It does not model the exact range and sign rules of `yyyy` (such as a leading `+` on a year of more than four digits), or other resolver styles. The formatter reads ASCII digits only, as the model does.
- Primitives.ParseDecimal: a simplified stand-in for `new BigDecimal(String)`.
  - It accepts an optional sign and digits with at most one point.
  - It does not accept exponent notation, which `BigDecimal` does.
  - It reads ASCII digits only, where `BigDecimal` accepts any character that `Character.isDigit` accepts.
- currentIndex: modelled as an unbounded `nat`. The source's `long` could only wrap after 2^63 lines.
- Exceptions: the types are mapped to `ParseError` constructors and the messages are not modelled.
- The `DateTimeParseException` of an invalid date and the `NumberFormatException` of an invalid number (lines 99, 101) appear as the errors `InvalidDate` and `InvalidNumber`.
- Logging and the `SimpleNem12Parser` interface are not part of this model.
