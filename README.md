# font-finder's SFNT parser in Dafny

This project models the binary core of font-finder, `src/parse.ts`. The core
works out what metadata a font file holds. It reads the file front to back
through a forward-only byte reader, and it runs these steps:

- It classifies the 4-byte signature (`parseTag`).
- For a single font, it reads the offset table's table count and skips the
  rest of the offset table.
- It walks the table directory (`findTableRecords`). It keeps the offset and
  length of the five tracked tables (`name`, `ltag`, `OS/2`, `head`, `post`)
  and stops early once `name`, `ltag` and `OS/2` have all been seen.
- It fetches the tracked tables in ascending file offset.
- It hands the table bytes to the table decoders (`parseTrueTypeFont`).
- For a TrueType collection (`ttcf`), it reads the font count and the font
  offsets. It then parses each font with a fresh reader positioned 4 bytes
  past that font's offset.

The files:

- `bytes.dfy` (module `Bytes`): bytes and big-endian 16- and 32-bit fields
  (Node's `readUInt16BE` / `readUInt32BE`), with their encoders and
  round-trip lemmas.
- `cursor.dfy` (module `Stream`): the parse errors, `Result`/`Option`, and the
  class `Cursor`. `Cursor` is the forward-only reader, with `Read(n)` and
  `Skip(n)` updating its position in place.
- `directory.dfy` (module `Directory`): the tracked tables and their tags, the
  directory record layout, and the walk. `Walk` and `ReadDirectory` are its
  specification, `Collect`/`LastRecord` describe its result independently,
  and `FindTableRecords` is the imperative loop proved against it.
- `font.dfy` (module `Font`): the stable sort by offset, the fetch of the
  tables (`Fetch` as specification, `FetchTables` as the loop), the
  assembly of `FontData`, and `ParseTrueTypeFont`.
- `parse.dfy` (module `Parse`): the signature, the collection header, the
  per-font loop `ParseFonts`, `ParseCollection`, and the entry point
  `ParseFont`.

Each method that changes the cursor is proved equal to a ghost specification
function of the file bytes and the start position. The lemmas state what the
source promises about those functions.

## Model

| member | source | states |
|---|---|---|
| Bytes.U16At | src/parse.ts:122 | the table count is the big-endian value of two bytes, below 2^16 |
| Bytes.U32At | src/parse.ts:79 | a 32-bit field is the big-endian value of four bytes, below 2^32 |
| Bytes.U16RoundTrip | src/parse.ts:122 | decoding the two-byte encoding of a count gives the count back |
| Bytes.U16Fields | src/parse.ts:122 | any two bytes are the encoding of the value read from them, so the reading loses nothing |
| Bytes.U32RoundTrip | src/parse.ts:213-216 | decoding the four-byte encoding of an offset or length gives it back |
| Bytes.U32Fields | src/parse.ts:213-216 | any four bytes are the encoding of the value read from them |
| Bytes.U32AtSlice | src/parse.ts:213-216 | reading at index 4 or 8 of the 12 bytes after the tag reads the record's bytes 8 or 12 of the file |
| Stream.Cursor.constructor | src/parse.ts:88-90 | a fresh reader over the file stands at offset 0 |
| Stream.Cursor.Read | src/parse.ts:209-210 | a read of n bytes succeeds exactly when n bytes remain, returns exactly them and advances by n; otherwise it fails with end of stream and does not move |
| Stream.Cursor.Skip | src/parse.ts:124 | a skip of n bytes succeeds exactly when n bytes remain and advances by n; otherwise it fails with end of stream and does not move |
| Directory.TagsDistinct | src/parse.ts:17-38 | no two tracked tables share a tag |
| Directory.TableOfTagNames | src/parse.ts:210-211 | a record's tag selects table t exactly when it equals t's tag, in both directions |
| Directory.LookupFinds | src/parse.ts:218 | a lookup finds an entry of the asked table that is in the list, and finds none exactly when no entry is for that table |
| Directory.PutLookup | src/parse.ts:212-215 | assigning a table's entry makes that table map to the new entry and leaves every other table's entry unchanged |
| Directory.PutKeepsDistinct | src/parse.ts:212-215 | after an assignment no table appears twice among the entries |
| Directory.RecordRoundTrip | src/parse.ts:209-216 | a 16-byte record yields its tag, the offset at bytes 8..11 and the length at bytes 12..15, whatever its checksum |
| Directory.NoteLookup | src/parse.ts:211-216 | a record sets the entry of the table whose tag it carries and leaves every other entry alone |
| Directory.NoteKeepsDistinct | src/parse.ts:211-216 | noting a record never lists a table twice |
| Directory.LastRecord | src/parse.ts:208-216 | no record is found for t exactly when no record carries t's tag |
| Directory.LastRecordIsLast | src/parse.ts:208-216 | the record found for t carries t's tag and no later record does |
| Directory.CollectIsLastRecord | src/parse.ts:208-216 | reading records in order locates t exactly when some record carries its tag, and then from the last such record: a later duplicate wins |
| Directory.DirectoryReads | src/parse.ts:206-226 | a successful walk reads c records and stops 16c bytes on: all n, or, if the walk exits early, just the shortest prefix that locates name, ltag and OS/2; its tables are those the records read yield |
| Directory.DirectoryLocates | src/parse.ts:206-226 | the directory's entry for t has the offset and length of the last record carrying t's tag among the records read, and none when none does |
| Directory.WalkFailsAtEnd | src/parse.ts:209-210 | the walk fails only with end of stream, and only when the n records would run past the end of the file |
| Directory.WalkKeepsTablesDistinct | src/parse.ts:207-223 | the directory never lists a table twice |
| Directory.MatchRecord | src/parse.ts:211-222 | comparing the tag against the tracked tables in order updates the entries as one record does, and stops exactly when a tracked tag completed name, ltag and OS/2 |
| Directory.NextRecord | src/parse.ts:209-222 | reading one record (4-byte tag, then 12 bytes) is one step of the walk: it fails as the walk fails, stops as it stops, or leaves n - 1 records to walk |
| Directory.FindTableRecords | src/parse.ts:206-226 | the loop returns the directory walk's result and leaves the reader where the walk ends, or fails with the walk's error |
| Font.InsertCounts | src/parse.ts:131-132 | inserting an entry adds exactly that entry |
| Font.SortSorts | src/parse.ts:131-132 | the ordering sorts the entries by ascending offset and is a permutation of them |
| Font.SortIsStable | src/parse.ts:131-132 | entries sharing an offset keep the order in which the directory found them |
| Font.SortKeepsPairwise | src/parse.ts:131-132 | a symmetric relation between every two entries, such as "different tables", survives the sort |
| Font.Located | src/parse.ts:140 | the bytes of a table are exactly its length long |
| Font.FetchSucceeds | src/parse.ts:136-141 | fetching the ordered tables succeeds exactly when each lies inside the file, the first at or after the reader, and each ends at or before the start of the next |
| Font.FetchFails | src/parse.ts:136-141 | a failed fetch reports a backward skip or end of stream; a backward skip when all tables lie inside the file, end of stream when every table starts at or after the reader and after the end of each earlier one |
| Font.FetchKeys | src/parse.ts:136-141 | the fetch adds a buffer for each table it reads and leaves the reader at the end of the last table |
| Font.FetchLocates | src/parse.ts:136-141 | with no table listed twice, each table's buffer holds exactly the bytes its entry locates |
| Font.FetchKeepsOthers | src/parse.ts:136-141 | a table the fetch does not read keeps its buffer |
| Font.FetchContents | src/parse.ts:136-141 | the buffers, their contents, the untouched buffers and the end position together |
| Font.SeparateIsChained | src/parse.ts:136-141 | tables at distinct, non-overlapping offsets inside the file and after the directory can be fetched once sorted |
| Font.FetchTables | src/parse.ts:136-141 | the loop skips to each table in the given order and reads it, and returns what the fetch specification returns, or its error |
| Font.Assemble | src/parse.ts:145-163 | assembly succeeds exactly when a name buffer exists, fails otherwise with the missing-name error, and yields OS/2, head and post exactly when their buffers exist |
| Font.ParseTrueTypeFont | src/parse.ts:121-164 | reads the 2-byte count, skips 6 bytes, walks the directory from 12 bytes into the font, fetches the sorted tables and assembles them, as the specification `TrueTypeFont` does |
| Font.LookupUnique | src/parse.ts:131 | when no table is listed twice, the entry found for a table is its only entry |
| Font.FontTablesLocated | src/parse.ts:121-141 | a font has a buffer for t exactly when its directory located t, and that buffer holds the located bytes; the reader ends at the end of the last table in offset order |
| Font.TrueTypeFontFromDirectory | src/parse.ts:121-164 | the font parses exactly when the directory located name; name is decoded with the decoded ltag list, or the empty list without ltag; OS/2, head and post are decoded exactly when located |
| Font.FontTablesSucceed | src/parse.ts:129-141 | when the located tables start at distinct offsets, do not overlap and lie in the file after the directory, every one is fetched |
| Parse.ParseTag | src/parse.ts:180-196 | 00 01 00 00, `true` and `typ1` map to TrueType, `OTTO` to CFF, `wOFF` to WOFF and `ttcf` to a collection, each in both directions; every other tag is refused with an error naming it |
| Parse.SignatureRoundTrip | src/parse.ts:166-196 | the signature written for each kind of file is classified as that kind |
| Parse.OffsetsRoundTrip | src/parse.ts:81-84 | reading back the 4-byte big-endian fields that store a list of font offsets yields that list |
| Parse.OffsetsFields | src/parse.ts:81-84 | the offsets read from a collection header are exactly what its fields store, so the reading loses nothing |
| Parse.Rejection | src/parse.ts:105-107 | a WOFF file is refused as unsupported, an unknown signature with an error naming it, so a parse that succeeds read one of the five accepted signatures |
| Parse.SingleFont | src/parse.ts:102-104 | a TrueType or CFF file parses exactly as the one font whose offset table continues at byte 4, with the same error when it fails |
| Parse.FontsInOrder | src/parse.ts:85-100 | the fonts of a collection succeed exactly when each entry does, and then are those entries in the order of their offsets |
| Parse.FontsFail | src/parse.ts:87-95 | a failing collection reports the error of its first failing font; all fonts before it parse |
| Parse.CollectionIsFile | src/parse.ts:73-74 | a file starting with `ttcf` is parsed as a collection |
| Parse.CollectionOutcome | src/parse.ts:74-100 | with a complete header, a collection parses exactly when each of its numFonts fonts does, yields them in offset order, and otherwise reports the first failing font's error |
| Parse.CollectionLayout | src/parse.ts:74-100 | a collection that parses had a complete header and yields exactly numFonts fonts; font i is the single-font parse from 4 bytes past the i-th offset |
| Parse.ParseFonts | src/parse.ts:85-100 | the loop parses each font with a fresh reader skipped to offset + 4, and returns what the specification `Fonts` returns |
| Parse.ParseCollection | src/parse.ts:74-100 | skips the version, reads the count and the offsets, and parses the fonts, as the specification `CollectionFile` does |
| Parse.ParseFont | src/parse.ts:71-108 | reads the signature and dispatches as the specification `FontFile` does: single font, collection, or refusal |

## Left out

- The stream plumbing is not modelled. This covers `fs.createReadStream`, `pipe`/`unpipe`, the `close`/`end`/`error` listeners, `destroy`, and the promise wrapper in `parseFont` (src/parse.ts:54-69, 109-118). The reader is the class `Cursor` over the whole file's bytes. An I/O error of the file stream is not modelled.
- The internals of promise-stream-reader are not part of this model. A read or a skip past the end of the file fails with `EndOfStream`. The library's own message for that case is not modelled.
- A table whose offset lies before the reader would make the source skip a negative amount (src/parse.ts:139). The source has no guard for this, and the library's behaviour on a negative skip is not part of this model. The model reports it as `BackwardSkip`.
- The table decoders (`parseNameTable`, `parseLtagTable`, `parseOS2Table`, `parseHeadTable`, `parsePostTable`) are not part of this model. Each is an arbitrary total function, a field of `Decoders`, over abstract result types, so an exception a decoder might raise is not modelled.
- The file path that `parseTrueTypeFont` puts into its missing-`name` message is not modelled; the error is `MissingNameTable`.
- The `stream.unpipe(pStream2)` and `stream.destroy()` calls inside the collection loop (src/parse.ts:96-97) are not modelled. They touch the outer stream, not the entry's, and have no effect on the parsed result.
- Font.Assemble decodes `ltag` before checking for `name`, as the source does. Because the decoders are total, no observable difference follows from that order.
- The asynchronous, one-font-after-another execution of the collection loop is modelled as a sequential loop.
- src/index.spec.ts and bench/list.js exercise the listing layer above the parser and are not part of this model.
