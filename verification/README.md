# GlareDB readers and parsers in Dafny

Models of the parts of GlareDB that turn bytes, polls and tokens into rows and
statements, and proofs that they agree with a simple sequential meaning however
the input is cut, polled or nested.

| files | what they model |
|---|---|
| `CsvParse`, `CsvText`, `CsvRuns`, `CsvDecoder`, `CsvReader`, `CsvScan`, `CsvSchema` | the CSV scan: flat record buffers, the chunk decoder, the pull loop, scans of files in sequence, schema inference |
| `HttpHandle`, `HttpList`, `Files` | a file read by HTTP range requests, the paged listing of an object store, and the plain file the readers poll |
| `WasmRuntime` | the wake and run protocol of the Wasm task scheduler |
| `ThriftVarint`, `ThriftProtocol`, `ThriftStructs`, `ThriftRoundTrip`, `ThriftPrefix`, `ThriftReader`, `ParquetFormat` | the Thrift compact reader and the Parquet metadata structs |
| `ParquetReader`, `Plain`, `Lz4Hadoop` | the row-group scan, the PLAIN encoding and the Hadoop LZ4 framing |
| `Tokens`, `Tokenizer`, `Parser` | the SQL tokenizer and the parser's token cursor |
| `Basics` | folds and sequence facts they share |

`dafny verify dfyconfig.toml` checks the whole project.

## How to read it

Stateful code is a class whose methods are specified by functions on values, and
the theorems are lemmas about those functions. Where several results belong
together:

- **CSV.** `Records` is the list of terminator-ended records of a file, read by a
  byte automaton. `EveryFile` says what that is without the automaton: lines of bare
  and quoted cells (section 2 of RFC 4180). `Decode` refines that automaton on flat
  buffers, `PollPull` refines runs of decodes and clears, and `AllRunsFaithfulIff`
  says for which files every such run gives the file's records. `ScanFiles` puts
  them together, from the contracts of the reader alone.
- **Polling.** Files and servers count how often they were pending and failed. A
  reader answers so exactly if they did, so it cannot wait for nothing, and with
  enough pulls on a source that always answers it reaches the end (`ScanFile` of
  `CsvScan` and of `ParquetReader`, `Reads`, `ListAll`).
- **HTTP.** Buffered chunk plus remaining stream is always the content behind the
  position, so reads and seeks are those of a plain cursor. Ranges follow section
  14.1.2, the 206 answer section 15.3.7 of RFC 9110.
- **Thrift.** The generated struct readers differ only in their fields, so they are
  one reader over a type description; `RoundTrip` is proved for every type and the
  concrete structs are instances. The writer follows the Apache Thrift compact
  protocol specification, since it belongs to the `thrift` crate; which member has
  which field number is stated on the wire trees and on the bytes.
- **Tokenizer.** A token is described by its spelling and by what must not follow
  it, independently of the code; operators are spelled as their documentation says
  (`FixedIff`). Every text has at most one tokenization in that
  sense, and the code finds it or there is none.

## What the code does not do

Each is proved as an exact condition, with a lemma at a concrete input.

- Compacting the CSV buffers looks at bytes only. A pending record of empty fields
  loses its fields, so a record like `,b` can come out as `b` when a flush falls
  behind its first comma (`CompactionCommutesIff`, `AllRunsFaithfulIff`; input:
  `EmptyFieldLost`).
- A last CSV record without a line end is never emitted (`LastRecordLostIff`; input:
  `UnterminatedField`).
- Preparing a CSV reader for another file does not reset its decoder. A record that
  is open goes on in the next file (`ReadyForNextFileIff`), but the bytes read of it
  are gone from the buffers while its field ends still count them. Writing it panics
  where a projected field ends behind the bytes that are there, as the last one
  always does (`ColumnPanicsIff`, `BatchPanicsIff`, `ShownLast`; input for both:
  `UnterminatedField`).
- A CSV column of Booleans followed by numbers becomes a number column, which then
  refuses the Booleans (`AcceptsAllIff`; input: `BooleanBeforeInteger`).
- Listing an object store takes the continuation token out before it makes the
  request, so a request that cannot be made lists the first pages again
  (`ListOnce`, `ListedOnceIff`; input: `ListedTwice`).
- The Hadoop LZ4 decoder is documented for any number of frames, but refuses frames
  followed by too short a rest (`AcceptsIffGuarded`; input: `EmptyFrameRejected`).
- Skipping PLAIN byte arrays does not notice a cut-off payload, decoding does
  (`SkipLikeDecodeIff`; input: `SkipPastTheEnd`).
- A Wasm pipeline that returned an error is not completed, and is polled again
  after a wake (`RepollAfterErrorIffWoken`; input: `PolledAgainAfterError`).
- The tokenizer has tokens for braces but never produces one: a brace is an
  unhandled character (`UnhandledIff`, `NoBraceTokens`, `BraceStops`; input:
  `BraceAlone`).

## What is taken for granted

- Futures, streams, files and servers are nondeterministic: at every poll they may
  be pending, fail, or answer with any non-empty part of what is left.
- A server answers a range request with a non-empty initial part of the range, in
  non-empty chunks, or with an error; the HTTP handle is not read behind the end of
  the file, where the source's subtraction is not defined.
- A request future that has answered with an error is not polled again to any effect:
  in the source that poll is one of a finished future.
- Parquet column chunks lie inside the file; otherwise the source's fetch loop reads
  nothing for ever.
- The raw LZ4 codec, the LZ4 frame fallback, number parsers, UTF-8 validation,
  Unicode letter classes, the keyword table, page parsing and statement parsing are
  parameters. What is used of them is written as a predicate (`RoundTrips`, `Nested`,
  `Sound`, `Progresses`).
- The host is little-endian, as the source assumes when it writes lengths and raw
  values in native order.

## Model

| member | source | states |
|---|---|---|
| `CsvParse.FeedChunks` | crates/glaredb_ext_csv/src/decoder.rs:222-258 | decoding two chunks one after the other gives the same parse as decoding their concatenation, from any state |
| `CsvParse.ChunkingIndependence` | crates/glaredb_ext_csv/src/decoder.rs:222-258 | so does any list of chunks: only the bytes matter, not where they are split |
| `CsvParse.FeedKeepsDone` | crates/glaredb_ext_csv/src/decoder.rs:222-258 | completed records are never revised by later bytes |
| `CsvParse.RecordsOfPrefix` | crates/glaredb_ext_csv/src/reader.rs:123-218 | the records of an initial part of a file are an initial part of the file's records, however the decoder started it |
| `CsvParse.FeedNonEmptyRecords` | crates/glaredb_ext_csv/src/decoder.rs:236-245 | every completed record has at least one field, so its boundary can point at a last field end |
| `CsvParse.FeedPrepend` | crates/glaredb_ext_csv/src/decoder.rs:222-258 | the automaton looks neither at completed records nor at completed fields |
| `CsvParse.ClosingEndsRecord` | crates/glaredb_ext_csv/src/dialect.rs:94-99 | from any open record some bytes complete exactly that record, whatever the delimiter and quote are (as long as they can be told apart) |
| `CsvParse.AfterRecordIsStart` | crates/glaredb_ext_csv/src/dialect.rs:94-99 | the two states without an open record cannot be told apart by any input |
| `CsvParse.IdleIff` | crates/glaredb_ext_csv/src/dialect.rs:94-99 | after any bytes no record is open if and only if the last byte is a line end outside quotes (or there are none and none was open) |
| `CsvParse.ClosedWithoutQuotesIff` | crates/glaredb_ext_csv/src/dialect.rs:94-99 | for a file without quotes: it leaves no record open if and only if it is empty or ends with a line end |
| `CsvParse.IdleIsFresh` | crates/glaredb_ext_csv/src/reader.rs:113-120 | starting a file without an open record is starting it fresh |
| `CsvParse.AllClosed` | crates/glaredb_ext_csv/src/reader.rs:113-120 | files that are all empty or end with a line end outside quotes leave no record open, read one after the other |
| `CsvParse.ReuseIsFreshIff` | crates/glaredb_ext_csv/src/reader.rs:113-120 | a decoder that starts a file in some state, with any bytes of an open record, yields the file's records behind the header for every file if and only if no record is open |
| `CsvText.CellFed` | crates/glaredb_ext_csv/src/dialect.rs:94-99 | a cell is read as its field, from wherever a field may start: a bare cell as itself, a quoted one as what is between its quotes with doubled quotes taken once, and any text behind the closing quote |
| `CsvText.LineFed` | crates/glaredb_ext_csv/src/decoder.rs:222-258 | a line of cells with delimiters between them, and one or more line ends, is one record of the cells' fields |
| `CsvText.OpenFed` | crates/glaredb_ext_csv/src/decoder.rs:222-258 | text that breaks off completes no record and leaves the fields so far, and in quotes exactly if the quote is not closed |
| `CsvText.WrittenIsRead` | crates/glaredb_ext_csv/src/decoder.rs:222-258 | round trip: any records, written with their fields bare or quoted with doubled quotes, with any line ends and blank lines, are decoded as they were written |
| `CsvText.EveryFile` | crates/glaredb_ext_csv/src/decoder.rs:222-258 | every byte sequence reads as lines of such cells and perhaps a record that it breaks off in; its records are the fields of these lines, and it is closed if and only if it does not break off |
| `CsvRuns.FeedReachable` | crates/glaredb_ext_csv/src/decoder.rs:222-258 | feeding keeps the reachable parses: without an open record nothing is pending, and completed records have fields |
| `CsvRuns.RunReachable` | crates/glaredb_ext_csv/src/reader.rs:123-218 | whatever is read and compacted, and however the decoder started, the buffers hold a reachable parse |
| `CsvRuns.CompactionCommutesIff` | crates/glaredb_ext_csv/src/decoder.rs:77-109 | clearing the completed records commutes with all later decoding if and only if the pending tail has a byte or no completed field |
| `CsvRuns.TracksTrace` | crates/glaredb_ext_csv/src/reader.rs:123-218 | over any interleaving of chunks and clears of a file whose records allow it, the records so far and the pending record match the parse of all bytes |
| `CsvRuns.LosingRun` | crates/glaredb_ext_csv/src/decoder.rs:77-109 | for any file with a record, after the first, that opens with an empty field followed by another field, there is a run of the reader that changes the file's records |
| `CsvRuns.EmptyFieldLost` | crates/glaredb_ext_csv/src/decoder.rs:77-109 | `a`, line end, comma, flush, `b`, line end: the second record comes out as `b` without its empty first field |
| `CsvRuns.AllRunsFaithfulIff` | crates/glaredb_ext_csv/src/reader.rs:123-218 | all runs, however chunked and flushed, give the file's records if and only if no record after the first opens with an empty field that another field follows |
| `CsvRuns.CleanRunIsFaithful` | crates/glaredb_ext_csv/src/reader.rs:123-218 | for any file, a run in which no clear met a tail of empty fields gives the file's records, and the same pending record |
| `CsvRuns.RunState` | crates/glaredb_ext_csv/src/decoder.rs:77-109 | clearing never changes the automaton: after any run it is where the bytes alone put it |
| `CsvDecoder.FieldSlice` | crates/glaredb_ext_csv/src/decoder.rs:159-169 | field i of a record lies between the previous end and its own in the flat bytes |
| `CsvDecoder.FlatTake` | crates/glaredb_ext_csv/src/decoder.rs:111-131 | the first k records occupy an initial part of both flat buffers |
| `CsvDecoder.BoundaryAt` | crates/glaredb_ext_csv/src/decoder.rs:111-131 | boundary k names the last field end and the end of the bytes of record k, also where the first bytes are absent from the buffer |
| `CsvDecoder.RecordSlices` | crates/glaredb_ext_csv/src/decoder.rs:111-131 | the slices between neighbouring boundaries are exactly the bytes and the ends of record k |
| `CsvDecoder.RecordAt` | crates/glaredb_ext_csv/src/decoder.rs:111-131 | the slices that get_record cuts show exactly record k, without the absent bytes if it is the first |
| `CsvDecoder.ShownWhole` | crates/glaredb_ext_csv/src/decoder.rs:159-169 | with nothing absent a lookup gives the field |
| `CsvDecoder.ShownLast` | crates/glaredb_ext_csv/src/decoder.rs:159-169 | with bytes absent the last field is out of range |
| `CsvDecoder.ByteRecord.Field` | crates/glaredb_ext_csv/src/decoder.rs:159-169 | the field at an index, none if the record has fewer, or out of range where the record's first bytes are absent from the buffer but counted in its ends |
| `CsvDecoder.ByteRecord.Fields` | crates/glaredb_ext_csv/src/decoder.rs:171-201 | iterating gives the record's fields in order, and runs out of range exactly if bytes are absent |
| `CsvDecoder.ByteRecords.constructor` | crates/glaredb_ext_csv/src/decoder.rs:53-61 | empty buffers hold no record and no pending field |
| `CsvDecoder.ByteRecords.ClearAll` | crates/glaredb_ext_csv/src/decoder.rs:68-72 | nothing is held any more; what the decoder had of an open record is absent from then on |
| `CsvDecoder.ByteRecords.ClearCompleted` | crates/glaredb_ext_csv/src/decoder.rs:77-109 | the buffers, shifted in place, hold the compacted parse: completed records gone, the pending record kept unless it has no byte |
| `CsvDecoder.ByteRecords.GetRecord` | crates/glaredb_ext_csv/src/decoder.rs:111-131 | the view of record idx shows that record, for every completed record, without the absent bytes if it is the first |
| `CsvDecoder.ByteRecords.ExpandBuf` | crates/glaredb_ext_csv/src/decoder.rs:137-140 | the byte buffer doubles and still holds the same records |
| `CsvDecoder.ByteRecords.ExpandEnds` | crates/glaredb_ext_csv/src/decoder.rs:142-145 | the ends buffer doubles and still holds the same records |
| `CsvDecoder.ByteRecords.Append` | crates/glaredb_ext_csv/src/decoder.rs:229-245 | what the reader wrote behind the used parts extends the pending record, or completes it with a boundary |
| `CsvDecoder.CsvDecoder.Scan` | crates/glaredb_ext_csv/src/decoder.rs:226-228 | one call of the foreign reader takes input as long as there is room, stops behind a record, and writes what the automaton says |
| `CsvDecoder.CsvDecoder.ReadRecord` | crates/glaredb_ext_csv/src/decoder.rs:226-234 | its answers: which of the five results, how much input was taken, and what was written for it; empty input ends an open record |
| `CsvDecoder.CsvDecoder.Grow` | crates/glaredb_ext_csv/src/decoder.rs:238-246 | the buffer that had no room grows, the other stays |
| `CsvDecoder.CsvDecoder.DecodeStep` | crates/glaredb_ext_csv/src/decoder.rs:222-258 | one turn either takes input or makes room where there was none |
| `CsvDecoder.CsvDecoder.Decode` | crates/glaredb_ext_csv/src/decoder.rs:222-258 | whatever the capacities and however often the buffers grow, they end up holding the parse of old content plus input (what that is in terms of written cells: `CsvText.EveryFile`); the loop terminates; the result says whether it stopped at a record boundary |
| `CsvReader.CsvReader.constructor` | crates/glaredb_ext_csv/src/reader.rs:89-108 | a valid reader without a file, with the given shape, buffer length and dialect, a fresh decoder and nothing read before |
| `CsvReader.CsvReader.Prepare` | crates/glaredb_ext_csv/src/reader.rs:113-120 | opens another file, always validly: rows restart at 0, the records are cleared, and the decoder goes on where it was, with what it had of an open record |
| `CsvReader.CsvReader.WriteCell` | crates/glaredb_ext_csv/src/reader.rs:292-341 | a record with another number of columns or a value the column does not take is refused, any other value is written (`ColumnWrittenIff`); a field out of range panics |
| `CsvReader.CsvReader.WriteColumn` | crates/glaredb_ext_csv/src/reader.rs:292-381 | one column of the records, up to the first cell that cannot be written |
| `CsvReader.CsvReader.WriteBatch` | crates/glaredb_ext_csv/src/reader.rs:220-290 | column by column, the projected cells of the records; the first cell that cannot be written decides whether it fails or panics |
| `CsvReader.BatchHolds` | crates/glaredb_ext_csv/src/reader.rs:220-290 | with nothing absent a batch never panics, and if written holds exactly the projected fields of its records |
| `CsvReader.ColumnWrittenIff` | crates/glaredb_ext_csv/src/reader.rs:292-341 | with nothing absent a column is written if and only if every record has the expected number of fields and the column takes its value |
| `CsvReader.BatchWrittenIff` | crates/glaredb_ext_csv/src/reader.rs:220-290 | with nothing absent a batch is written if and only if every record has the expected number of fields and every projected column takes its value, and is refused otherwise |
| `CsvReader.LastColumnUnreadable` | crates/glaredb_ext_csv/src/reader.rs:292-381 | with bytes absent, a batch that starts at the first record and reads its last column is never written |
| `CsvReader.ColumnPanicsIff` | crates/glaredb_ext_csv/src/reader.rs:292-381 | a column of some records panics if and only if its cell of the first record ends behind the bytes that are there |
| `CsvReader.BatchPanicsIff` | crates/glaredb_ext_csv/src/reader.rs:220-290 | a batch panics if and only if it comes to a projected column whose cell of the first record is out of reach, with all columns before it written |
| `CsvReader.CsvReader.Answer` | crates/glaredb_ext_csv/src/reader.rs:190-216 | more rows, a failure or a panic exactly as writing the batch comes to columns, a refusal or a panic |
| `CsvReader.CsvReader.ReadMore` | crates/glaredb_ext_csv/src/reader.rs:126-167 | one poll of the file: the bytes it gave are decoded, none means the stream is exhausted; pending or failed exactly if the file was; how the file was started and what was read before it stay as they were |
| `CsvReader.CsvReader.Received` | crates/glaredb_ext_csv/src/reader.rs:138-166 | bytes are decoded, and flushing starts exactly if there are at least as many records as the batch has room for; no bytes means flushing to the end |
| `CsvReader.CsvReader.EndFlush` | crates/glaredb_ext_csv/src/reader.rs:169-218 | with nothing left to write the records are compacted once and reading goes on, or the reader is exhausted |
| `CsvReader.CsvReader.Emit` | crates/glaredb_ext_csv/src/reader.rs:169-218 | writes the next records in the buffer, as many as there are or there is room for, with consecutive row ids, or fails or panics and changes nothing |
| `CsvReader.CsvReader.Turn` | crates/glaredb_ext_csv/src/reader.rs:123-218 | every turn without an answer takes bytes from the file or moves to a later state, in the same file |
| `CsvReader.CsvReader.PollPull` | crates/glaredb_ext_csv/src/reader.rs:123-218 | for any read sizes, pendings and failures of the file, any positive capacity and any state in which the decoder started it, which it keeps: pending exactly if the file was; otherwise the next decoded rows, as many as there are or there is room for, decide: columns with row ids that count on from the rows before, a failure if a value of them is refused, a panic only for a file started with bytes of an open record; exhausted exactly in the last state, when all bytes were decoded and all records of the run were emitted, and then for ever |
| `CsvReader.CsvReader.AnswerHoldsRows` | crates/glaredb_ext_csv/src/reader.rs:220-290 | the columns of an answer hold exactly the projected fields of the rows emitted with it, unless bytes of the first are absent |
| `CsvReader.CsvReader.FailsOnlyWithFile` | crates/glaredb_ext_csv/src/reader.rs:123-218 | on a file all of whose values the projected columns take, a pull fails only if the file does |
| `CsvReader.EmittedIsPrefix` | crates/glaredb_ext_csv/src/reader.rs:123-218 | at any moment the rows emitted are an initial part of the records that the decoder reads in the file, behind the header |
| `CsvReader.CsvReader.EmitsTheFile` | crates/glaredb_ext_csv/src/reader.rs:123-218 | for a file on which no run can go wrong, however the decoder started it: emitted rows are always an initial part of its records without the header, and all of them once exhausted |
| `CsvReader.CsvReader.CleanRunEmitsTheFile` | crates/glaredb_ext_csv/src/reader.rs:123-218 | for any file and any exhausted run that never compacted a tail of empty fields: the emitted rows are the file's records without the header |
| `CsvReader.CsvReader.CompactionHereIff` | crates/glaredb_ext_csv/src/reader.rs:169-218 | at any moment of any run of the reader, compacting commutes with all later decoding if and only if the pending record is not one of empty fields only |
| `CsvReader.CsvReader.OpenAfterFileIff` | crates/glaredb_ext_csv/src/reader.rs:123-218 | an exhausted reader has no record open if and only if its file is empty or ends with a line end outside quotes (given that none was open before) |
| `CsvReader.CsvReader.LastRecordLostIff` | crates/glaredb_ext_csv/src/reader.rs:139-148 | an exhausted reader has emitted what one would that ends open records at the end of the file, if and only if none is open there or the open one is the header |
| `CsvReader.CsvReader.FilesInSequence` | crates/glaredb_ext_csv/src/reader.rs:113-218 | files one after the other: if what was read of all earlier files ends with line ends, no bytes are absent and the reader emits the file's own records without the header, numbered from 0, for robust files and for clean runs of any file |
| `CsvReader.CsvReader.ReadyForNextFileIff` | crates/glaredb_ext_csv/src/reader.rs:113-120 | whatever file comes next, the reader will read that file's own records behind the header, if and only if its decoder has no record open |
| `CsvReader.UnterminatedField` | crates/glaredb_ext_csv/src/reader.rs:113-148 | a file of one unterminated field gives no record; a line end at the start of the next file ends one that is not in it, and reading that panics |
| `CsvScan.Pulls` | crates/glaredb_ext_csv/src/reader.rs:123-218 | any number of pulls with any positive capacities: the answers put together are the rows emitted, under the numbers from 0 on; none panics, behind the end there is only the end, there is a pending one exactly if the file was pending, and a failed one only if the file failed or a value was refused |
| `CsvScan.ScanFile` | crates/glaredb_ext_csv/src/reader.rs:113-218 | a file behind files that ended with line ends: the answers are that file's own records without the header, an initial part of them before the end; with more pulls than records, on a file that is never pending, never fails and whose values are taken, the end is reached |
| `CsvScan.ScanFiles` | crates/glaredb_ext_csv/src/reader.rs:113-218 | any sequence of files that end with line ends: for every file that its pulls exhaust, the answers are that file's own records, and no scan panics |
| `CsvScan.WrittenFile` | crates/glaredb_ext_csv/src/reader.rs:113-218 | for a file written as lines of cells these own records are the fields of the cells |
| `CsvSchema.Update` | crates/glaredb_ext_csv/src/schema.rs:138-169 | an empty value changes nothing; any other gives the narrowest type, no narrower than before, that accepts it |
| `CsvSchema.ColumnOnlyWidens` | crates/glaredb_ext_csv/src/schema.rs:138-169 | over any values a column's type only widens and is never Timestamp at the end |
| `CsvSchema.ColumnIsTypeOf` | crates/glaredb_ext_csv/src/schema.rs:138-169 | closed form: leading Booleans are ignored unless there is nothing else; the rest are Int64 if all integers, Float64 if all floats, else Utf8 |
| `CsvSchema.AcceptsAfterLead` | crates/glaredb_ext_csv/src/schema.rs:138-169 | from the first non-Boolean on, the final type accepts every non-empty value |
| `CsvSchema.AcceptsAllIff` | crates/glaredb_ext_csv/src/schema.rs:127-169 | the final type accepts every non-empty value seen if and only if no Boolean came before values that are all numbers |
| `CsvSchema.BooleanBeforeInteger` | crates/glaredb_ext_csv/src/schema.rs:138-169 | the values `true` and `1` give Int64, which refuses `true` |
| `CsvSchema.ColumnsAreHandled` | crates/glaredb_ext_csv/src/reader.rs:230-262 | every inferred type is one that a scan can write |
| `CsvSchema.IsBoolIff` | crates/glaredb_core/src/functions/cast/parse.rs:25-34 | the Booleans are four words, all in lower case or all in upper case |
| `CsvSchema.HeaderIff` | crates/glaredb_ext_csv/src/schema.rs:53-60 | the first record is a header if and only if it would widen the type of a column, or is empty in one whose type does not take that; a file of text columns has none |
| `CsvSchema.UpdateRow` | crates/glaredb_ext_csv/src/schema.rs:42-46 | a record's fields update the columns they stand in, extra fields and missing ones are ignored, and text that is not UTF-8 is an error |
| `CsvSchema.UpdateAll` | crates/glaredb_ext_csv/src/schema.rs:41-47 | the nested loops give each column the type of its values in all records but the first |
| `CsvSchema.InferFromRecords` | crates/glaredb_ext_csv/src/schema.rs:33-94 | an error exactly when there are no records or a field looked at is no text; else each column's type, and a header exactly when some column refuses its first field, with names from the header or from the position |
| `HttpHandle.HttpFileHandle.PollRead` | crates/glaredb_http/src/handle.rs:62-196 | for any chunk sizes, pendings and failures: the bytes read are the file's next ones, the rest of the buffer is untouched, nothing is read only at the end of the file or into an empty buffer, what was read since the last seek is one slice of the file; pending or failed exactly if the server was, or the request failed before |
| `HttpHandle.HttpFileHandle.PollSeek` | crates/glaredb_http/src/handle.rs:203-240 | drops the request and moves to the asked position, also behind the end; backwards from the end exactly that many bytes are left to read; before the start is an error that keeps position and history |
| `HttpHandle.HttpFileHandle.SendRequest` | crates/glaredb_http/src/handle.rs:67-92 | the inclusive range header asks for the bytes from the position on |
| `HttpHandle.HttpFileHandle.PollResponse` | crates/glaredb_http/src/handle.rs:94-112 | a 206 answer is streamed from the position on; any error uses the request up |
| `HttpHandle.HttpFileHandle.PollChunk` | crates/glaredb_http/src/handle.rs:114-153 | the buffered chunk and what is still to be streamed stay the bytes that follow the position; an ended stream leads to a new request |
| `HttpHandle.HttpFileHandle.CopyOut` | crates/glaredb_http/src/handle.rs:155-193 | copying delivers what is buffered, as much as there is room for, as file bytes, and moves the position by as many |
| `HttpHandle.HttpFileHandle.Turn` | crates/glaredb_http/src/handle.rs:65-153 | every turn without a chunk leads to an answer or closer to one; a request asks for the whole buffer or up to the end of the file |
| `HttpHandle.TakeFromChunk` | crates/glaredb_http/src/handle.rs:155-193 | delivering some bytes of a chunk leaves the bytes behind them, in chunk and stream together |
| `HttpHandle.Reads` | crates/glaredb_http/src/handle.rs:62-196 | any number of reads with any buffer sizes: what they deliver, put together, is the slice of the file the position moved over, and with as many reads as bytes it is all up to the end, unless the server was pending or failed |
| `HttpHandle.ReadTail` | crates/glaredb_ext_parquet/src/metadata/loader.rs:33-37 | seeking to k bytes before the end works exactly if the file has them, and reading from there gives an initial part of the last k bytes, all of them with enough reads on a server that always answers |
| `HttpList.ObjectStoreList.constructor` | crates/glaredb_http/src/list.rs:76-82 | nothing is listed yet, for any chain of pages a server may hold, the last of which may not parse |
| `HttpList.ObjectStoreList.CreateRequest` | crates/glaredb_http/src/list.rs:87-94 | a request that cannot be made forgets the token, so that the listing starts again at the first page |
| `HttpList.ListedOnceIff` | crates/glaredb_http/src/list.rs:87-94 | every entry is listed once if and only if no token was lost behind an entry |
| `HttpList.ListedTwice` | crates/glaredb_http/src/list.rs:84-171 | two pages of one entry, the first listed: if the request for the second cannot be made and nothing fails behind that, the listing ends with the first entry twice |
| `HttpList.ObjectStoreList.Parsed` | crates/glaredb_http/src/list.rs:138-151 | a complete body adds its entries and moves to the page its token names, or stops; one that does not parse changes nothing |
| `HttpList.ObjectStoreList.Turn` | crates/glaredb_http/src/list.rs:85-171 | every turn adds a page's entries, is closer to that, or answers; only a failure in front of a request can lose a token; a used-up request and a broken body stay so |
| `HttpList.ObjectStoreList.PollList` | crates/glaredb_http/src/list.rs:84-171 | for any pendings, failures and chunkings: the new entries are appended behind the old ones, the count is their number, zero means the end for ever, and at the end all entries of all pages were listed in order, behind those of rounds that lost their token; a poll that does not fail loses none, one that fails at most one; pending or failed only if the server was, or the request is used up or the body broken |
| `HttpList.ListAll` | crates/glaredb_http/src/list.rs:84-171 | any number of polls: the counts add up to the entries appended, without a failure no token is lost, and more polls than pages reach the end unless the server was pending or failed or the listing is stuck |
| `HttpList.ListOnce` | crates/glaredb_http/src/list.rs:84-171 | a listing from the beginning that ends without a failure gives all entries of all pages in order and once each; with failures it does if and only if no token was lost behind an entry |
| `WasmRuntime.StepKeepsInvariant` | crates/glaredb_wasm/src/runtime.rs:136-199 | every step of any interleaving keeps the scheduling invariant |
| `WasmRuntime.RunsKeepInvariant` | crates/glaredb_wasm/src/runtime.rs:136-199 | so it holds in every reachable state |
| `WasmRuntime.OneRunLoop` | crates/glaredb_wasm/src/runtime.rs:146-172 | at every moment at most one run loop is active for a task |
| `WasmRuntime.NoPollAfterOk` | crates/glaredb_wasm/src/runtime.rs:154-166 | after a poll returned Ok no poll can begin any more |
| `WasmRuntime.NoLostWakeup` | crates/glaredb_wasm/src/runtime.rs:136-172 | a wake since the last poll began is remembered, or the loop is about to poll, or the pipeline is done |
| `WasmRuntime.PendingMeansRepoll` | crates/glaredb_wasm/src/runtime.rs:157-165 | a remembered wake makes the loop poll again, and is then used up |
| `WasmRuntime.PollsNeedWakes` | crates/glaredb_wasm/src/runtime.rs:136-172 | there are never more polls than wakes; with as many, nothing is left to do |
| `WasmRuntime.WakeLeadsToPoll` | crates/glaredb_wasm/src/runtime.rs:136-172 | a woken task that is not done reaches another poll by its own steps |
| `WasmRuntime.RepollAfterErrorIffWoken` | crates/glaredb_wasm/src/runtime.rs:136-199 | however a run goes on behind a failed poll, until another poll begins: the task can get to one by its own steps if and only if a wake came since its loop started or last went on; without one it settles to rest, where only a wake is possible |
| `WasmRuntime.PendingIffWoken` | crates/glaredb_wasm/src/runtime.rs:146-171 | while a loop is active the pending flag says whether a wake came since it started or last went on |
| `WasmRuntime.RepollNeedsWake` | crates/glaredb_wasm/src/runtime.rs:136-199 | the next poll behind a failed one has such a wake before it |
| `WasmRuntime.PolledAgainAfterError` | crates/glaredb_wasm/src/runtime.rs:182-197 | two wakes, a poll that fails: the loop is about to poll again |
| `WasmRuntime.WasmTaskState.Schedule` | crates/glaredb_wasm/src/runtime.rs:136-152 | the flags change as the step of the protocol says; an error is reported exactly for a canceled task that is not completed |
| `WasmRuntime.WasmTaskState.AfterExecute` | crates/glaredb_wasm/src/runtime.rs:157-170 | so do they after a poll, and the loop goes on exactly then |
| `ThriftVarint.VlqRoundTrip` | crates/glaredb_ext_parquet/src/thrift.rs:69-80 | every unsigned 64-bit number is read back from its encoding, and nothing behind it is touched |
| `ThriftVarint.VlqAtMostTenBytes` | crates/glaredb_ext_parquet/src/thrift.rs:69-80 | an encoding takes at most ten bytes |
| `ThriftVarint.ZigZagInverse` | crates/glaredb_ext_parquet/src/thrift.rs:82-85 | zigzag is undone for every integer |
| `ThriftVarint.SpecificationExamples` | crates/glaredb_ext_parquet/src/thrift.rs:69-85 | the example of the protocol's specification and the first signed numbers, as bytes |
| `ThriftVarint.IntRoundTrip` | crates/glaredb_ext_parquet/src/thrift.rs:200-210 | every 16, 32 and 64-bit integer survives zigzag, varint and the narrowing cast |
| `ThriftProtocol.NumberRoundTrip` | crates/glaredb_ext_parquet/src/thrift.rs:200-210 | the same on the protocol state, which otherwise stays as it was |
| `ThriftProtocol.BytesRoundTrip` | crates/glaredb_ext_parquet/src/thrift.rs:189-194 | a length-prefixed byte string is read back, with what follows left |
| `ThriftProtocol.ListHeaderRoundTrip` | crates/glaredb_ext_parquet/src/thrift.rs:87-100 | element type and size are read back, for sizes in the header and behind it |
| `ThriftProtocol.FieldHeaderRoundTrip` | crates/glaredb_ext_parquet/src/thrift.rs:126-166 | type and id of a field are read back for short deltas and for written-out ids of any order, and a boolean's value is kept for the next read |
| `ThriftProtocol.StopRoundTrip` | crates/glaredb_ext_parquet/src/thrift.rs:126-166 | the stop byte is read as the end of a struct |
| `ThriftProtocol.StructEndUndoesBegin` | crates/glaredb_ext_parquet/src/thrift.rs:112-124 | leaving a struct restores the last field id and the stack of the enclosing one |
| `ThriftProtocol.FieldRoundTrip` | crates/glaredb_ext_parquet/src/thrift.rs:126-166 | the header of an encoded field leaves exactly the field's value |
| `ThriftProtocol.SkipsValue` | crates/glaredb_ext_parquet/src/format.rs:5107-5109 | skipping any encoded value, of whatever nesting, leaves exactly what follows and the reader as it was |
| `ThriftProtocol.SkipsFields` | crates/glaredb_ext_parquet/src/format.rs:5107-5109 | skipping a struct's fields stops behind its stop byte |
| `ThriftStructs.ReadsMeaning` | crates/glaredb_ext_parquet/src/format.rs:5171-5215 | for every type and every well-formed encoding that agrees with it: the reader returns its meaning (the last value of each known field, unknown fields skipped, the first alternative of a union) or fails if it has none, and leaves what follows and its own state as it was |
| `ThriftStructs.ReadsFields` | crates/glaredb_ext_parquet/src/format.rs:5083-5123 | the field loop of a struct reader, from any fields already read |
| `ThriftStructs.ReadsAlternatives` | crates/glaredb_ext_parquet/src/format.rs:1749-1810 | the field loop of a union reader: the first known alternative, and how many fields there were |
| `ThriftRoundTrip.WriteIsFaithful` | crates/glaredb_ext_parquet/src/format.rs:5217-5239 | what is written for a value is well formed and means that value |
| `ThriftRoundTrip.FieldsFaithful` | crates/glaredb_ext_parquet/src/format.rs:5124-5139 | the fields written by a version of a struct with more fields fill exactly the slots a reader knows |
| `ThriftRoundTrip.RoundTrip` | crates/glaredb_ext_parquet/src/format.rs:5171-5239 | for every type built from integers, booleans, byte strings, enums, lists, structs and unions: reading what was written, followed by anything, returns the value, leaves what follows, and restores field-id stack and last field id |
| `ThriftRoundTrip.WriteIsInjective` | crates/glaredb_ext_parquet/src/format.rs:5217-5239 | values with the same bytes are the same value |
| `ThriftRoundTrip.OldReaderIgnoresNewFields` | crates/glaredb_ext_parquet/src/format.rs:5107-5109 | an older reader reads a newer writer's struct as if it had only the fields it knows |
| `ThriftPrefix.SkipMore` | crates/glaredb_ext_parquet/src/format.rs:5398-5400 | skipping a value of any type looks at nothing behind it |
| `ThriftPrefix.ReadMore` | crates/glaredb_ext_parquet/src/format.rs:5083-5123 | whatever a reader of any type accepts it accepts with anything behind it, and leaves that |
| `ThriftPrefix.TruncatedFails` | crates/glaredb_ext_parquet/src/format.rs:5083-5123 | a written value of any type that is cut off anywhere is an error |
| `ThriftPrefix.MissingFieldFails` | crates/glaredb_ext_parquet/src/format.rs:5404-5407 | a struct without one of its required fields is an error, whatever else it has |
| `ThriftPrefix.UnionIff` | crates/glaredb_ext_parquet/src/format.rs:1749-1810 | a union is read if and only if it has exactly one field, which is an alternative whose value can be read, and it is that alternative |
| `ThriftReader.TCompactSliceInputProtocol.ReadVlq` | crates/glaredb_ext_parquet/src/thrift.rs:69-80 | the loop reads exactly the number the encoding stands for, and the state moves behind it |
| `ThriftReader.TCompactSliceInputProtocol.ReadNumber` | crates/glaredb_ext_parquet/src/thrift.rs:200-210 | the state and result are those of reading an integer of the width |
| `ThriftReader.TCompactSliceInputProtocol.ReadListSetBegin` | crates/glaredb_ext_parquet/src/thrift.rs:87-100 | the state and result are those of reading a list header |
| `ThriftReader.TCompactSliceInputProtocol.ReadStructBegin` | crates/glaredb_ext_parquet/src/thrift.rs:112-116 | the last field id is pushed and starts again at 0 |
| `ThriftReader.TCompactSliceInputProtocol.ReadStructEnd` | crates/glaredb_ext_parquet/src/thrift.rs:118-124 | the last field id is popped, an empty stack is an error |
| `ThriftReader.TCompactSliceInputProtocol.ReadFieldBegin` | crates/glaredb_ext_parquet/src/thrift.rs:126-166 | the state and result are those of reading a field header |
| `ThriftReader.TCompactSliceInputProtocol.ReadBool` | crates/glaredb_ext_parquet/src/thrift.rs:172-187 | a boolean kept from a field header is used up, otherwise one byte is read |
| `ThriftReader.TCompactSliceInputProtocol.ReadBytes` | crates/glaredb_ext_parquet/src/thrift.rs:189-194 | the state and result are those of reading a byte string |
| `ThriftReader.TCompactSliceInputProtocol.SkipValue` | crates/glaredb_ext_parquet/src/format.rs:5107-5109 | the recursive skip does what skipping a value means, and terminates |
| `ThriftReader.TCompactSliceInputProtocol.ReadFromInProtocol` | crates/glaredb_ext_parquet/src/format.rs:5083-5123 | the generated readers do what reading the type means |
| `ThriftReader.TCompactSliceInputProtocol.ReadBack` | crates/glaredb_ext_parquet/src/format.rs:5083-5139 | on the reader itself: if the buffer holds what was written for a value and anything behind it, the result is that value, the buffer is what is behind, and field-id stack, last id and pending boolean are as before |
| `ThriftReader.TCompactSliceInputProtocol.ReadCutOff` | crates/glaredb_ext_parquet/src/format.rs:5083-5123 | on the reader itself: a written value that is cut off is an error |
| `ThriftReader.TCompactSliceInputProtocol.ReadListItems` | crates/glaredb_ext_parquet/src/format.rs:5181-5194 | the list loop reads the announced number of elements in order |
| `ThriftReader.TCompactSliceInputProtocol.ReadStructFields` | crates/glaredb_ext_parquet/src/format.rs:5083-5123 | the field loop assigns known fields, skips others and stops at the stop byte |
| `ThriftReader.TCompactSliceInputProtocol.ReadUnionFields` | crates/glaredb_ext_parquet/src/format.rs:1749-1810 | the union loop keeps the first alternative and counts all fields |
| `ParquetFormat.PageLocationRoundTrip` | crates/glaredb_ext_parquet/src/format.rs:5082-5139 | round trip for every page location: three required integers |
| `ParquetFormat.OffsetIndexRoundTrip` | crates/glaredb_ext_parquet/src/format.rs:5171-5239 | round trip for every offset index: a list of structs and an optional list |
| `ParquetFormat.ColumnIndexRoundTrip` | crates/glaredb_ext_parquet/src/format.rs:5316-5476 | round trip for every column index: lists of booleans and byte strings, an enum and optional lists |
| `ParquetFormat.ColumnIndexVInjective` | crates/glaredb_ext_parquet/src/format.rs:5316-5476 | column indexes with the same generic value are equal, so the round trip is one of the struct itself |
| `ParquetFormat.SortingColumnRoundTrip` | crates/glaredb_ext_parquet/src/format.rs:3925-3982 | round trip for every sorting column: booleans that travel in field headers |
| `ParquetFormat.TimeUnitRoundTrip` | crates/glaredb_ext_parquet/src/format.rs:1748-1834 | round trip for every alternative of a union of empty structs |
| `ParquetFormat.PageLocationOnWire` | crates/glaredb_ext_parquet/src/format.rs:5124-5138 | field 1 is the offset, 2 the compressed size and 3 the first row, of 64, 32 and 64 bits |
| `ParquetFormat.OffsetIndexOnWire` | crates/glaredb_ext_parquet/src/format.rs:5217-5238 | field 1 is the list of page locations, item by item, and field 2 the unencoded sizes if there are any |
| `ParquetFormat.ColumnIndexOnWire` | crates/glaredb_ext_parquet/src/format.rs:5418-5476 | fields 1 to 4 are the null pages, the minima, the maxima and the boundary order, and 5 to 7 the null counts and the two histograms if there are any |
| `ParquetFormat.SortingColumnOnWire` | crates/glaredb_ext_parquet/src/format.rs:3967-3981 | field 1 is the column, field 2 whether it descends and field 3 whether nulls come first |
| `ParquetFormat.TimeUnitOnWire` | crates/glaredb_ext_parquet/src/format.rs:1811-1833 | milliseconds, microseconds and nanoseconds are the alternatives 1, 2 and 3 |
| `ParquetFormat.PageLocationBytes` | crates/glaredb_ext_parquet/src/format.rs:5124-5138 | the bytes of a page location, headers included |
| `ParquetFormat.SortingColumnBytes` | crates/glaredb_ext_parquet/src/format.rs:3967-3981 | the bytes of a sorting column, with the booleans in the headers |
| `ParquetFormat.TimeUnitBytes` | crates/glaredb_ext_parquet/src/format.rs:1811-1833 | the three bytes of a time unit |
| `ParquetFormat.ByteStringsBytes` | crates/glaredb_ext_parquet/src/format.rs:5427-5433 | the bytes of a list of byte strings: field header, type and count of the items, items |
| `ParquetFormat.BoolItemsBytes` | crates/glaredb_ext_parquet/src/format.rs:5421-5425 | booleans in a list are a byte each, 1 or 2 |
| `ParquetReader.FromMetadata` | crates/glaredb_ext_parquet/src/reader.rs:30-46 | each row group gets the number of rows before it in the file |
| `ParquetReader.PlanOfFile` | crates/glaredb_ext_parquet/src/reader.rs:30-46 | scanning all groups gives exactly the rows of the groups not pruned, by their number in the file, strictly increasing |
| `ParquetReader.Reader.constructor` | crates/glaredb_ext_parquet/src/reader.rs:157-174 | a reader over a queue of groups has the rows of the unpruned ones as its plan |
| `ParquetReader.Reader.BeginColumn` | crates/glaredb_ext_parquet/src/reader.rs:289-312 | the column's buffer is sized for its chunk; without columns there is nothing to fetch |
| `ParquetReader.Reader.ReadSome` | crates/glaredb_ext_parquet/src/reader.rs:323-364 | one read extends the part of the buffer that holds the chunk, or completes the column |
| `ParquetReader.Reader.PollFetch` | crates/glaredb_ext_parquet/src/reader.rs:283-368 | for any pendings and short reads: when ready, every projected column holds exactly its chunk of the file, the columns were fetched in order and each once; any other answer is the file's own; the loop terminates |
| `ParquetReader.Reader.NextGroup` | crates/glaredb_ext_parquet/src/reader.rs:184-212 | the next group that is not pruned, with its first row's number, or none |
| `ParquetReader.Reader.TakeNext` | crates/glaredb_ext_parquet/src/reader.rs:184-212 | takes the first group off the queue and makes it current unless it is pruned |
| `ParquetReader.Reader.EmitRows` | crates/glaredb_ext_parquet/src/reader.rs:229-268 | at most the capacity of rows, numbered on from the last |
| `ParquetReader.Reader.PollPull` | crates/glaredb_ext_parquet/src/reader.rs:179-270 | the rows emitted so far are always an initial part of the plan, rows are emitted only with all columns fetched, as many of the group as are left or there is room for; pending or failed exactly if the file was; exhausted means the whole plan was emitted |
| `ParquetReader.Pulls` | crates/glaredb_ext_parquet/src/reader.rs:179-270 | any number of pulls with any capacities: the row ids put together are an initial part of the plan, and all of it once exhausted; some answer is pending or failed exactly if the file was; with more pulls than rows and groups one of these happens |
| `ParquetReader.ScanFile` | crates/glaredb_ext_parquet/src/reader.rs:30-270 | a whole scan of a file: once exhausted, the row ids are strictly increasing and are exactly the rows of the groups not pruned, by their number in the file; with enough pulls, on a file that is never pending and never fails, it is exhausted |
| `ParquetReader.Stored` | crates/glaredb_ext_parquet/src/reader.rs:323-364 | a short read extends the part of the buffer that holds the file's bytes |
| `Lz4Hadoop.AcceptsIffGuarded` | crates/glaredb_ext_parquet/src/compression.rs:506-559 | a concatenation of frames is accepted if and only if there is room for the payloads and before each further frame more input is left than the compressed size of the current one, and then decodes to the payloads in order |
| `Lz4Hadoop.AcceptedIsFrames` | crates/glaredb_ext_parquet/src/compression.rs:506-559 | whatever is accepted is exactly such a concatenation, and the output is that of the payloads |
| `Lz4Hadoop.SmallTailRejected` | crates/glaredb_ext_parquet/src/compression.rs:545-551 | two well-formed frames of which the second is no longer than the first one's compressed part are refused |
| `Lz4Hadoop.EmptyFrameRejected` | crates/glaredb_ext_parquet/src/compression.rs:545-551 | a frame of nine bytes followed by an empty frame is refused |
| `Lz4Hadoop.FrameIsFrame` | crates/glaredb_ext_parquet/src/compression.rs:582-600 | what compress writes is a frame of its input |
| `Lz4Hadoop.CodecRoundTrip` | crates/glaredb_ext_parquet/src/compression.rs:562-600 | decompress undoes compress for sizes below 2^32, with or without the fallback |
| `Lz4Hadoop.FramesAreFinal` | crates/glaredb_ext_parquet/src/compression.rs:562-571 | accepted frames decide the result with either setting: their payloads, or an error if these are fewer bytes than expected |
| `Lz4Hadoop.OtherFormats` | crates/glaredb_ext_parquet/src/compression.rs:572-579 | any other input is an error without the fallback; with it, what the LZ4 frame format makes of it and, if that fails, the raw format |
| `Lz4Hadoop.Compress` | crates/glaredb_ext_parquet/src/compression.rs:582-600 | the frame is appended behind what was in the output |
| `Lz4Hadoop.TryDecompressHadoop` | crates/glaredb_ext_parquet/src/compression.rs:506-559 | the loop writes the payloads to the front of the output and leaves the rest, or fails exactly when the input is not accepted |
| `Plain.WordRoundTrip` | crates/glaredb_ext_parquet/src/data_type.rs:930-936 | four bytes are the little-endian form of a number if and only if they are read as that number |
| `Plain.FixedWalk` | crates/glaredb_ext_parquet/src/data_type.rs:754-765 | values of one size all fit exactly if the product of count and size does |
| `Plain.SkipLikeDecodeIff` | crates/glaredb_ext_parquet/src/data_type.rs:930-970 | for any bytes and state, skipping leaves the same state and outcome as decoding and throwing away, if and only if not a byte array whose payload is cut off |
| `Plain.SkipPastTheEnd` | crates/glaredb_ext_parquet/src/data_type.rs:930-970 | on a cut-off byte array decode fails while skip succeeds and moves behind the end of the data |
| `Plain.DecodesWhatWasEncoded` | crates/glaredb_ext_parquet/src/data_type.rs:754-1056 | any run of decodes and skips of any sizes over encoded values, followed by anything, gives the matching slices of the values |
| `Plain.CutOffFails` | crates/glaredb_ext_parquet/src/data_type.rs:754-1034 | encoded values that are cut off anywhere are never decoded to the last one |
| `Plain.Int96RoundTrip` | crates/glaredb_ext_parquet/src/data_type.rs:843-891 | twelve bytes are those of three words if and only if they are read as those words |
| `Plain.Int96Words` | crates/glaredb_ext_parquet/src/data_type.rs:843-873 | the three words of twelve bytes, each with its low byte first |
| `Plain.EncodeValues` | crates/glaredb_ext_parquet/src/data_type.rs:908-921 | writing values one by one gives their encoding |
| `Plain.PlainDecoder.SetData` | crates/glaredb_ext_parquet/src/data_type.rs:747-751 | reading starts at the first byte of the new data |
| `Plain.PlainDecoder.DecodeRaw` | crates/glaredb_ext_parquet/src/data_type.rs:754-775 | all asked values or an error that changes nothing; the rest of the buffer is untouched |
| `Plain.PlainDecoder.SkipRaw` | crates/glaredb_ext_parquet/src/data_type.rs:778-792 | moves over the values or fails without moving |
| `Plain.PlainDecoder.DecodeInt96` | crates/glaredb_ext_parquet/src/data_type.rs:843-873 | the words of all asked values, or an error that changes nothing |
| `Plain.PlainDecoder.DecodeByteArrays` | crates/glaredb_ext_parquet/src/data_type.rs:930-953 | the values up to the first that is cut off; a cut-off payload is an error, a cut-off length a panic |
| `Plain.PlainDecoder.SkipByteArrays` | crates/glaredb_ext_parquet/src/data_type.rs:955-970 | follows the lengths without a look at where the data ends |
| `Plain.PlainDecoder.DecodeFixedLen` | crates/glaredb_ext_parquet/src/data_type.rs:1012-1034 | the values up to the first that is cut off, which is an error |
| `Plain.PlainDecoder.SkipFixedLen` | crates/glaredb_ext_parquet/src/data_type.rs:1036-1056 | moves over the values up to the first that is cut off, which is an error |
| `Tokens.TokenLenOf` | crates/glaredb_parser/src/tokens.rs:265-482 | how a token starts and what follows determines its length |
| `Tokens.TokenUnique` | crates/glaredb_parser/src/tokens.rs:265-482 | at every place of every text at most one token can be read: longest operators, numbers, words, comments and quoted texts |
| `Tokens.UnhandledIff` | crates/glaredb_parser/src/tokens.rs:265-482 | the ASCII characters no token starts with are the braces, five others and the control characters |
| `Tokens.FixedIff` | crates/glaredb_parser/src/tokens.rs:14-93 | a text is read as an operator or as punctuation if and only if it spells that, and together with the next character it spells nothing longer, nor the start of a comment |
| `Tokens.PeriodIff` | crates/glaredb_parser/src/tokens.rs:448-454 | a period is a token if and only if no digit follows |
| `Tokens.NumeralIff` | crates/glaredb_parser/src/tokens.rs:432-446 | a numeral is digits and at most one period, in any place |
| `Tokenizer.TokenizationUnique` | crates/glaredb_parser/src/tokens.rs:249-263 | every query has at most one tokenization |
| `Tokenizer.TokenizationLossless` | crates/glaredb_parser/src/tokens.rs:249-263 | the slices between the starts of consecutive tokens concatenate to the query |
| `Tokenizer.SpellingTokenizes` | crates/glaredb_parser/src/tokens.rs:14-93 | every operator and punctuation, as it is documented, tokenizes to just that token |
| `Tokenizer.NameTokenizes` | crates/glaredb_parser/src/tokens.rs:503-510 | letters, digits and underscores, with no digit first, tokenize to one word |
| `Tokenizer.NumberTokenizes` | crates/glaredb_parser/src/tokens.rs:432-446 | digits with at most one period, and not a period alone, tokenize to one number |
| `Tokenizer.QuotedTokenizes` | crates/glaredb_parser/src/tokens.rs:488-501 | text in single quotes tokenizes to one string and in double quotes to one name, with the closing quote or without |
| `Tokenizer.BlanksTokenize` | crates/glaredb_parser/src/tokens.rs:272-275 | two dashes and the rest of a line tokenize to one comment, a blank or a line end to whitespace |
| `Tokenizer.NoBraceTokens` | crates/glaredb_parser/src/tokens.rs:265-482 | no tokenization of any query has a brace token in it |
| `Tokenizer.BraceStops` | crates/glaredb_parser/src/tokens.rs:249-263 | a query with a brace behind a part that tokenizes has no tokenization, so tokenizing it fails |
| `Tokenizer.BraceAlone` | crates/glaredb_parser/src/tokens.rs:249-263 | a brace alone has no tokenization |
| `Tokenizer.CharsFromOffset` | crates/glaredb_parser/src/tokens.rs:174-177 | the byte offset of a character is a character boundary, and what follows it is the rest of the query |
| `Tokenizer.OffsetIsUtf8` | crates/glaredb_parser/src/tokens.rs:180-200 | the offset of a character is the length, in UTF-8, of what precedes it |
| `Tokenizer.State.Peek` | crates/glaredb_parser/src/tokens.rs:174-177 | the character at the index, if there is one |
| `Tokenizer.State.Next` | crates/glaredb_parser/src/tokens.rs:180-200 | moves over one character and stays on a character boundary |
| `Tokenizer.State.TakeWhile` | crates/glaredb_parser/src/tokens.rs:203-227 | takes exactly the longest run of characters that pass |
| `Tokenizer.State.TakeNumeral` | crates/glaredb_parser/src/tokens.rs:432-446 | takes the longest run of digits with at most one period |
| `Tokenizer.State.TakeFixed` | crates/glaredb_parser/src/tokens.rs:276-430 | reads the operator, punctuation or comment that stands there |
| `Tokenizer.State.TakeQuoted` | crates/glaredb_parser/src/tokens.rs:488-500 | the text up to the next quote or the end of the query |
| `Tokenizer.State.NextToken` | crates/glaredb_parser/src/tokens.rs:265-482 | the token that stands at the index, at least one character long; an error exactly where no token can start |
| `Tokenizer.Tokenize` | crates/glaredb_parser/src/tokens.rs:249-263 | succeeds with the only tokenization, each token with the byte offset of its first character, strictly increasing from 0; fails at the first character that would have to start a token and cannot, and only if there is no tokenization |
| `Parser.SigBetween` | crates/glaredb_parser/src/parser.rs:405-420 | the significant tokens from one index on are those up to another and those from there |
| `Parser.SigKeeps` | crates/glaredb_parser/src/parser.rs:405-420 | the significant tokens are exactly the tokens that are neither whitespace nor comments |
| `Parser.Parser.Next` | crates/glaredb_parser/src/parser.rs:405-420 | takes the first significant token, if any, off the remaining ones |
| `Parser.Parser.PeekNth` | crates/glaredb_parser/src/parser.rs:440-459 | gives the token that the (n+1)-th call of next would give, and changes nothing |
| `Parser.Parser.ConsumeToken` | crates/glaredb_parser/src/parser.rs:360-370 | takes the next token if and only if it is the expected one, otherwise nothing moves |
| `Parser.Parser.ExpectToken` | crates/glaredb_parser/src/parser.rs:322-330 | an error exactly if another token, or none, comes next, and then nothing moves |
| `Parser.Parser.NextKeyword` | crates/glaredb_parser/src/parser.rs:376-400 | takes the next token if and only if it is a keyword |
| `Parser.Parser.ParseKeyword` | crates/glaredb_parser/src/parser.rs:270-281 | takes the next token if and only if it is the keyword, otherwise nothing moves |
| `Parser.Parser.ParseKeywordSequence` | crates/glaredb_parser/src/parser.rs:287-301 | takes all keywords in order, or gives back what was read |
| `Parser.Parser.ParseOneOfKeywords` | crates/glaredb_parser/src/parser.rs:304-318 | takes the next token if and only if it is one of the keywords; otherwise the significant tokens left are the same, even where the index moved over trailing whitespace |
| `Parser.Parser.MaybeParse` | crates/glaredb_parser/src/parser.rs:255-267 | a failed attempt leaves the cursor where it was |
| `Parser.Parser.ParseCommaSeparated` | crates/glaredb_parser/src/parser.rs:202-236 | the tokens taken are the items with one comma between neighbours, and perhaps one behind the last if the input ends there or a closing parenthesis, brace or bracket, a semicolon or a reserved keyword follows; fails only at the start or behind a comma where none of these follows, and the item's parser refuses |
| `Parser.Parser.SkipSemis` | crates/glaredb_parser/src/parser.rs:57-59 | takes all semicolons in front of the next statement |
| `Parser.Parser.ParseStatements` | crates/glaredb_parser/src/parser.rs:52-84 | succeeds only if the significant tokens are the statements with semicolons around them, at least one between neighbours, and nothing is left; fails only in front of a token where a semicolon is missing or the statement parser refuses; terminates |

## Left out

- The byte-order mark that the `csv_core` reader skips at the start of a file, and its separate state between carriage return and line feed, which acts like the start of a record.
- Quote escapes, comments and other options of `csv_core` that GlareDB does not set.
- Dialect inference: it decodes a sample with each dialect and compares scores.
- Turning CSV fields into array values: a batch is the bytes of its cells.
- CsvReader.CsvReader.WriteBatch: does not model the cells that a batch holds when it fails half-way, because the pull then answers with the error.
- CsvReader.CsvReader.WriteCell: does not model the parsers and the UTF-8 check, because their code is not part of this model; which bytes a column takes is a parameter.
- Thrift sets, maps, UUIDs and messages, the UTF-8 check on strings, and the nesting limit of the foreign skip function.
- ThriftReader.TCompactSliceInputProtocol.ReadVlq: more than ten bytes are an error here, because the shift in the source is then wider than the number.
- ThriftReader.TCompactSliceInputProtocol.ReadListSetBegin: a count that the cast makes negative is an error here, because the source hands it on and the generated loop then asks for a capacity of that size, which is not defined.
- The rest of `format.rs`: more structs of the same kinds, of which the five here cover every case.
- Row-group pruning, column decoding and the page readers of Parquet: pruning is a parameter, a fetched chunk is its bytes.
- The other compression codecs, the bit-packed Boolean layout of PLAIN, dictionary and delta encodings.
- Line and column numbers of tokens; the statement and expression grammar behind the cursor.
- Canceling Wasm queries: the flag is modelled, but nothing in the source sets it.
- Request signing, retries, URLs and error messages.
- Planner, optimizer, execution operators, catalogs, shells and language bindings.
