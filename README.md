# EasyElements: the elements.data decoder

This project models the binary decoding engine of EasyElements,
`ElementsReader`. The engine reads an `elements.data` file through a single
forward `BinaryReader` cursor, steered by a versioned schema of lists
(`ElementsList`). It works in four parts:

1. It reads a 4-byte header: two little-endian `int16` values, the file
   version and the segmentation.
2. It keeps the schema lists whose `Version` is at most the file version, in
   schema order.
3. For each kept list it does two things:
   - unless the list's `Skip` is `"0"`, it preserves a "skip region" as a
     list of byte chunks. The policies are a fixed byte count, `AUTO` (scan
     until an `int32` lands in (0, 10000], then rewind four bytes) and
     `RAW` (a nested count/length-driven record walk);
   - it decodes a table: the columns of that version, a row count and the
     rows, one cell per column, by the column's type tag.
4. It collects the tables, the skip regions and the filtered lists.

The project has eight modules.

- `Bytes` (bytes.dfy): bytes, little-endian `int16`/`int32`,
  `BitConverter.GetBytes`, and C#'s unchecked 32-bit wrap-around.
- `Stream` (stream.dfy): the read result `Read<T>` (a value and the cursor,
  or an exception and the cursor). Each `BinaryReader` read appears twice:
  as a function of (bytes, position), and as a method of the
  `BinaryReader` class.
- `Schema` (schema.dfy): the schema datatypes and the version filter
  `Where(x => x.Version <= version)`.
- `SkipDecoding` (skip.dfy): `ReadSkip` as functions. It also proves that
  every policy is a lossless transcript of the bytes it consumed.
- `SkipLayout` (skip_layout.dfy): the AUTO and RAW layouts written out as
  encoders. Each policy is proved to read back exactly what the encoder laid
  down.
- `TableDecoding` (table.dfy): `NewTable` and `NewRow` as functions, with
  their width and failure properties.
- `Decoding` (decode.dfy): `Read` as a function, with the fold over the
  active lists and a small end-to-end example file.
- `Reader` (reader.dfy): the class `ElementsReader`. Its methods advance a
  `BinaryReader` with the source's own loops, and each is proved to compute
  exactly what the corresponding function says.

Modelling choices:

- `ReadInt16`, `ReadInt32` and `ReadSingle` fail with `EndOfStream` when
  too few bytes remain. The cursor is then left at the end of the stream,
  because `FillBuffer` consumes what is left before it throws.
- `ReadBytes(n)` fails with `NegativeByteCount` for a negative `n`, before
  anything is read. Otherwise it returns `min(n, remaining)` bytes: a short
  read, not an error.
- `l * 2` and `count3 * 136` (ElementsReader.cs:153, 156) wrap around
  modulo 2^32 (`Wrap32`). A length `l` in [-2^30, 0) or at least 2^30 makes
  `ReadBytes` throw. A length below -2^30 wraps to a non-negative count and
  is read (`WrappedDoubleIsNegative`, `RawInnerLengthCheck`).
- The skip dictionary is keyed by the list's index among the active lists
  instead of by the list object. Both identify the same list.

## Model

| member | source | states |
|---|---|---|
| Bytes.Int16LE | EasyElements/EasyElements/ElementsReader.cs:65-66 | the int16 read from two bytes lies in [-2^15, 2^15) and is congruent modulo 2^16 to `lo + 256 * hi` |
| Bytes.Int32LE | EasyElements/EasyElements/ElementsReader.cs:94 | the int32 read from four bytes is an int32 congruent modulo 2^32 to their unsigned little-endian value |
| Bytes.Int32Bytes | EasyElements/EasyElements/ElementsReader.cs:130 | `BitConverter.GetBytes(count)` yields four bytes whose little-endian value is `count` |
| Bytes.Int32BytesOfLE | EasyElements/EasyElements/ElementsReader.cs:129-130 | re-encoding the int32 read from four bytes gives back exactly those bytes |
| Bytes.Wrap32 | EasyElements/EasyElements/ElementsReader.cs:153 | unchecked int arithmetic: the result is congruent to the exact product modulo 2^32, and equal to it when it fits in an int |
| Stream.Iterations | EasyElements/EasyElements/ElementsReader.cs:96 | `for (i = 0; i < bound; i++)` runs `bound` times, and no times when `bound <= 0` |
| Stream.ReadInt16At | EasyElements/EasyElements/ElementsReader.cs:65 | succeeds exactly when two bytes remain, with their int16 value and the cursor two bytes on; otherwise EndOfStream at the end of the stream |
| Stream.ReadInt32At | EasyElements/EasyElements/ElementsReader.cs:94 | succeeds exactly when four bytes remain, with their int32 value and the cursor four bytes on; otherwise EndOfStream at the end of the stream |
| Stream.ReadSingleAt | EasyElements/EasyElements/ElementsReader.cs:112 | succeeds exactly when four bytes remain, with those four bytes; otherwise EndOfStream |
| Stream.ReadBytesAt | EasyElements/EasyElements/ElementsReader.cs:131 | fails exactly for a negative count, before reading; otherwise returns the next `min(n, remaining)` bytes of the stream and moves past them |
| Stream.ReadInt32Bytes | EasyElements/EasyElements/ElementsReader.cs:129-130 | the bytes `GetBytes` gives for an int32 just read are the four bytes read |
| Stream.ReadInt32Of | EasyElements/EasyElements/ElementsReader.cs:129 | reading an int32 where its four bytes are stored yields that value |
| Stream.ReadBytesOf | EasyElements/EasyElements/ElementsReader.cs:131 | reading as many bytes as `b` holds, where `b` is stored, yields `b` |
| Stream.BinaryReader.ReadInt16 | EasyElements/EasyElements/ElementsReader.cs:65 | the method returns `ReadInt16At` of the old cursor and moves the cursor to where that read ends |
| Stream.BinaryReader.ReadInt32 | EasyElements/EasyElements/ElementsReader.cs:94 | the method returns `ReadInt32At` of the old cursor and moves the cursor to where that read ends |
| Stream.BinaryReader.ReadSingle | EasyElements/EasyElements/ElementsReader.cs:112 | the method returns `ReadSingleAt` of the old cursor and moves the cursor to where that read ends |
| Stream.BinaryReader.ReadBytes | EasyElements/EasyElements/ElementsReader.cs:131 | the method returns `ReadBytesAt` of the old cursor and moves the cursor to where that read ends |
| Stream.BinaryReader.MoveBack | EasyElements/EasyElements/ElementsReader.cs:138 | `BaseStream.Position -= 4`: the cursor moves back by exactly n |
| Schema.Where | EasyElements/EasyElements/ElementsReader.cs:69 | the filtered list is never longer than the input |
| Schema.WhereMembers | EasyElements/EasyElements/ElementsReader.cs:69 | an element is kept exactly when it is in the input and satisfies the predicate |
| Schema.KeptIndices | EasyElements/EasyElements/ElementsReader.cs:69 | strictly increasing indices of satisfying elements, covering every satisfying index |
| Schema.WhereIsOrderedSelection | EasyElements/EasyElements/ElementsReader.cs:69 | element k of the filtered list is the input element at the k-th kept index, so schema order is preserved |
| Schema.WhereIdempotent | EasyElements/EasyElements/ElementsReader.cs:86 | filtering twice with the same predicate equals filtering once |
| Schema.WhereWhere | EasyElements/EasyElements/ElementsReader.cs:86 | filtering by p and then by q equals filtering once by "p and q" |
| Schema.ActiveTypes | EasyElements/EasyElements/ElementsReader.cs:86 | the active columns are never more than the schema's |
| Schema.ActiveTypesMembers | EasyElements/EasyElements/ElementsReader.cs:86 | a column is active exactly when it is in the schema and `Version <= version` |
| Schema.ActiveLists | EasyElements/EasyElements/ElementsReader.cs:69 | the active lists are never more than the schema's |
| Schema.ActiveListsMembers | EasyElements/EasyElements/ElementsReader.cs:69 | a list is read exactly when it is in the schema and `Version <= version` |
| Schema.ActiveListsInOrder | EasyElements/EasyElements/ElementsReader.cs:69 | the active lists are the schema lists at the qualifying indices, in increasing index order, and every qualifying index is used |
| Schema.ActiveTypesIdempotent | EasyElements/EasyElements/ElementsReader.cs:86 | reapplying the column filter with the same version changes nothing |
| Schema.ActiveTypesReapplied | EasyElements/EasyElements/ElementsReader.cs:86 | because `list.Types` is overwritten, a later filter with `v2` after one with `v1` gives the columns of `min(v1, v2)` |
| SkipDecoding.FixedSkip | EasyElements/EasyElements/ElementsReader.cs:161 | the default policy fails exactly for a negative count; otherwise it advances by `min(N, remaining)` bytes and returns them as one chunk |
| SkipDecoding.AutoScan | EasyElements/EasyElements/ElementsReader.cs:132-138 | the scan fails only with EndOfStream; on success it stops in front of an int32 in (0, 10000], and chunk j is the j-th rejected value's four bytes, which lie outside the window |
| SkipDecoding.AutoSkip | EasyElements/EasyElements/ElementsReader.cs:127-139 | an AUTO region yields at least three chunks and leaves the cursor on an in-window int32 |
| SkipDecoding.RawInnerEntry | EasyElements/EasyElements/ElementsReader.cs:150-156 | a successful inner entry yields exactly five chunks and moves the cursor forward within the stream |
| SkipDecoding.RawInner | EasyElements/EasyElements/ElementsReader.cs:148-157 | n inner entries in sequence move the cursor forward within the stream; what they return is stated by RawInnerTranscript and RawInnerLayout |
| SkipDecoding.RawOuterEntry | EasyElements/EasyElements/ElementsReader.cs:145-157 | one outer entry moves the cursor forward within the stream; what it returns is stated by RawOuterEntryTranscript and RawOuterEntryLayout |
| SkipDecoding.RawOuter | EasyElements/EasyElements/ElementsReader.cs:143-158 | n outer entries move the cursor forward within the stream; what they return is stated by RawOuterTranscript and RawOuterFold |
| SkipDecoding.SkipRegion | EasyElements/EasyElements/ElementsReader.cs:125-163 | the policy's branch moves the cursor forward within the stream; its transcript is stated by SkipTranscript |
| SkipDecoding.RawSkip | EasyElements/EasyElements/ElementsReader.cs:140-159 | a successful RAW region's first chunk is the four bytes of its outer count |
| SkipDecoding.AutoScanTranscript | EasyElements/EasyElements/ElementsReader.cs:132-138 | the chunks of the scan concatenate to exactly the bytes it consumed |
| SkipDecoding.AutoSkipTranscript | EasyElements/EasyElements/ElementsReader.cs:127-139 | the AUTO chunks concatenate to exactly the bytes between the cursor before and after, the rewind included |
| SkipDecoding.RawInnerEntryTranscript | EasyElements/EasyElements/ElementsReader.cs:150-156 | the five chunks of an inner entry are its consumed bytes |
| SkipDecoding.RawInnerTranscript | EasyElements/EasyElements/ElementsReader.cs:148-157 | the chunks of n inner entries are their consumed bytes |
| SkipDecoding.RawOuterEntryTranscript | EasyElements/EasyElements/ElementsReader.cs:145-157 | the chunks of an outer entry are its consumed bytes |
| SkipDecoding.RawOuterTranscript | EasyElements/EasyElements/ElementsReader.cs:143-158 | the chunks of n outer entries are their consumed bytes |
| SkipDecoding.SkipTranscript | EasyElements/EasyElements/ElementsReader.cs:122-164 | for every policy, the concatenation of the returned chunks equals the bytes between the cursor before and after the call |
| SkipLayout.AutoScanLayout | EasyElements/EasyElements/ElementsReader.cs:132-138 | k stored out-of-window values followed by an in-window one: the scan returns exactly those k values' chunks and stops 4k bytes on, in front of the in-window value |
| SkipLayout.AutoSkipFront | EasyElements/EasyElements/ElementsReader.cs:128-132 | the first three chunks are the four opaque bytes, the length field and the L bytes; the scan starts right after them |
| SkipLayout.AutoSkipLayout | EasyElements/EasyElements/ElementsReader.cs:127-138 | with k rejected values before the first in-window one, AUTO returns 3 + k chunks (front, then one per rejected value) and leaves the cursor on the accepted value |
| SkipLayout.RawInnerEntryLayout | EasyElements/EasyElements/ElementsReader.cs:150-156 | a laid-out inner entry is read as its five fields, each length or count chunk immediately before the bytes it controls, consuming 8 + 4 + 2L + 4 + 136·C3 bytes |
| SkipLayout.RawInnerFold | EasyElements/EasyElements/ElementsReader.cs:148-157 | inner entries each read as given are returned in order, and the loop stops where the last one ends |
| SkipLayout.RawInnerLayout | EasyElements/EasyElements/ElementsReader.cs:148-157 | laid-out inner entries are read as their concatenated chunks, consuming the sum of their sizes |
| SkipLayout.RawOuterEntryLayout | EasyElements/EasyElements/ElementsReader.cs:145-157 | a laid-out outer entry is read as its 132-byte header, its count and its inner entries, consuming 132 + 4 + the inner sizes |
| SkipLayout.RawOuterFold | EasyElements/EasyElements/ElementsReader.cs:143-158 | outer entries each read as given are returned in order, and the loop stops where the last one ends |
| SkipLayout.RawSkipLayout | EasyElements/EasyElements/ElementsReader.cs:140-159 | a laid-out RAW region consumes exactly 4 + Σ(132 + 4 + Σ(8 + 4 + 2L + 4 + 136·C3)) bytes and yields one chunk per field read, in read order |
| SkipLayout.RawSkipNoEntries | EasyElements/EasyElements/ElementsReader.cs:141-143 | with an outer count of zero or less, RAW consumes only the 4-byte count and returns it as its one chunk |
| SkipLayout.WrappedDoubleIsNegative | EasyElements/EasyElements/ElementsReader.cs:153 | the wrapped `l * 2` is negative exactly for l in [-2^30, 0) or [2^30, 2^31); below -2^30 it wraps to `l * 2 + 2^32` |
| SkipLayout.RawInnerLengthCheck | EasyElements/EasyElements/ElementsReader.cs:151-153 | a length whose doubled value wraps negative fails with NegativeByteCount right after the length field; the most negative length reads zero bytes |
| TableDecoding.DecodeColumn | EasyElements/EasyElements/ElementsReader.cs:109-115 | per tag: an int is the stored int32 (4 bytes), a float the four bytes read, a string the next `min(size, remaining)` bytes, tagged with the column's encoding, with the cursor after them; EndOfStream or NegativeByteCount on failure; an unknown tag fails without reading |
| TableDecoding.DecodeRow | EasyElements/EasyElements/ElementsReader.cs:102-120 | a decoded row has one cell per column, in column order, each of its column's shape |
| TableDecoding.DecodeRows | EasyElements/EasyElements/ElementsReader.cs:96-97 | n decoded rows are exactly n rows, each conforming to the columns |
| TableDecoding.Filtered | EasyElements/EasyElements/ElementsReader.cs:86 | the filtered list keeps its name, version and skip policy, and its types become the active ones |
| TableDecoding.DecodeTable | EasyElements/EasyElements/ElementsReader.cs:83-100 | the table has the list's name and the active columns; with no active columns it is empty and reads nothing; otherwise it reads a row count and has max(count, 0) conforming rows |
| TableDecoding.UnknownColumnFailsAtItsStart | EasyElements/EasyElements/ElementsReader.cs:107-115 | an unrecognised tag in column k fails with ArgumentOutOfRange exactly where column k starts, after the columns before it were read |
| TableDecoding.RowReadsItsWidth | EasyElements/EasyElements/ElementsReader.cs:107-118 | with a whole row's bytes available, a row of decodable columns reads exactly the sum of its column widths |
| TableDecoding.RowsReadTheirWidth | EasyElements/EasyElements/ElementsReader.cs:96-97 | n such rows read exactly n times the row width |
| TableDecoding.RowSplitsAt | EasyElements/EasyElements/ElementsReader.cs:105-118 | cell k of a decoded row is column k decoded where the row's first k columns end |
| TableDecoding.RowsSplitAt | EasyElements/EasyElements/ElementsReader.cs:96-97 | row j of the decoded rows is the row decoded where the first j rows end |
| TableDecoding.PrefixWidth | EasyElements/EasyElements/ElementsReader.cs:107-118 | the first k columns and column k fit within the row's width |
| TableDecoding.DecodeRowCellAt | EasyElements/EasyElements/ElementsReader.cs:105-118 | with the row's bytes available, cell k of a row of decodable columns is column k decoded after the widths of the columns before it |
| TableDecoding.DecodeRowsAt | EasyElements/EasyElements/ElementsReader.cs:96-97 | with n rows' bytes available, row j of n rows of decodable columns is the row decoded j row widths after the first |
| TableDecoding.TableReadsItsWidth | EasyElements/EasyElements/ElementsReader.cs:91-97 | a table of decodable columns consumes the 4-byte count and max(count, 0) times the row width |
| TableDecoding.IntRowWidth | EasyElements/EasyElements/ElementsReader.cs:111 | an all-int row is decodable and 4 bytes per column wide |
| TableDecoding.IntRowValues | EasyElements/EasyElements/ElementsReader.cs:107-118 | an all-int row holds in column k the int32 stored 4k bytes after the row start |
| TableDecoding.IntTableWidth | EasyElements/EasyElements/ElementsReader.cs:94-97 | a table of int columns consumes 4 + rows·4·columns bytes (columns = the number of active columns), rows = max(count, 0) |
| TableDecoding.AutoSkipThenTable | EasyElements/EasyElements/ElementsReader.cs:133-138 | after an AUTO region, a table with columns reads the value the scan stopped on as its row count, so it has between 1 and 10000 rows |
| Decoding.SkipEntry | EasyElements/EasyElements/ElementsReader.cs:73-74 | no skip entry and no bytes read for policy "0"; otherwise the skip region's outcome, position and chunks |
| Decoding.DecodeList | EasyElements/EasyElements/ElementsReader.cs:71-77 | one iteration succeeds only if the skip and the table succeed; it appends that table and the filtered list, and records the skip chunks under the list's index exactly when the list has a skip policy |
| Decoding.PassExtends | EasyElements/EasyElements/ElementsReader.cs:71-77 | one more iteration keeps the pass consistent: one table per list with its name and active columns, and skip keys exactly for the lists with `Skip != "0"` |
| Decoding.DecodeLists | EasyElements/EasyElements/ElementsReader.cs:71-78 | a successful pass has one table per active list, in order, with its name and active columns, and skip keys exactly for the lists with `Skip != "0"` |
| Decoding.Decode | EasyElements/EasyElements/ElementsReader.cs:63-81 | version and segmentation are the first two int16 values; the tables and skip map are consistent with the active lists, as above; fewer than 4 bytes fail with EndOfStream |
| Decoding.DecodeListsStep | EasyElements/EasyElements/ElementsReader.cs:71-77 | the pass over n + 1 lists is the pass over n followed by one iteration |
| Decoding.DecodeListsFailurePersists | EasyElements/EasyElements/ElementsReader.cs:71-77 | an exception in an iteration ends the pass with the same exception at the same cursor |
| Decoding.TableFollowsSkip | EasyElements/EasyElements/ElementsReader.cs:73-76 | the k-th table is read right after the k-th skip region, where the previous lists stopped; its skip entry is that region's chunks |
| Decoding.HeaderIsFourBytes | EasyElements/EasyElements/ElementsReader.cs:65-66 | the header takes exactly four bytes: the list pass starts at p + 4, with the version from the first two |
| Decoding.ExampleActiveLists | EasyElements/EasyElements/ElementsReader.cs:69 | on a concrete schema, a list newer than the file is dropped and the others keep their order |
| Decoding.ExampleTable | EasyElements/EasyElements/ElementsReader.cs:94-97 | a one-int-column table with count 1 reads the single row's value and 8 bytes |
| Decoding.TwoListsExample | EasyElements/EasyElements/ElementsReader.cs:63-81 | a concrete 20-byte file decodes completely to version 2, segmentation 0 and the two expected one-row tables |
| Decoding.OneTableRows | EasyElements/EasyElements/ElementsReader.cs:83-100 | a one-int-column table with count 2 starting at byte 4 of that file reads the rows [5] and [-7] and ends at byte 16 |
| Decoding.OneTableExample | EasyElements/EasyElements/ElementsReader.cs:63-81 | a concrete 16-byte file with one list decodes completely to version 2, segmentation 0 and one table holding the rows [5] and [-7] |
| Reader.AutoScanRejects | EasyElements/EasyElements/ElementsReader.cs:133-136 | one rejected value moves its four bytes from the rest of the scan into the collected values |
| Reader.RawOuterNext | EasyElements/EasyElements/ElementsReader.cs:143-158 | one outer iteration either ends the walk with its exception or moves its chunks into the collected values with one entry fewer to go |
| Reader.RawInnerNext | EasyElements/EasyElements/ElementsReader.cs:148-157 | the same for one inner iteration |
| Reader.DecodeRowNext | EasyElements/EasyElements/ElementsReader.cs:107-118 | column j either ends the row with its exception or joins the row, with the columns after it still to go |
| Reader.DecodeRowsNext | EasyElements/EasyElements/ElementsReader.cs:96-97 | one row either ends the table with its exception or joins the rows, with one row fewer to go |
| Reader.PassSkipFails | EasyElements/EasyElements/ElementsReader.cs:71-75 | an exception in the k-th skip region ends the whole pass with that exception at that cursor |
| Reader.PassNext | EasyElements/EasyElements/ElementsReader.cs:71-77 | once the k-th skip region is read, an exception in its table ends the whole pass with it; otherwise the pass over k + 1 lists extends the pass over k by that table, its skip value and its filtered list |
| Reader.DecodeAfterHeader | EasyElements/EasyElements/ElementsReader.cs:63-69 | once the header is read, the decode is the pass over the lists of that version, started right after the header |
| Reader.ElementsReader.constructor | EasyElements/EasyElements/ElementsReader.cs:35-42 | the reader holds the given schema and no data yet |
| Reader.ElementsReader.ReadSkip | EasyElements/EasyElements/ElementsReader.cs:122-165 | the switch returns `SkipRegion` of the old cursor and leaves the cursor where it ends |
| Reader.ElementsReader.ReadAutoSkip | EasyElements/EasyElements/ElementsReader.cs:127-139 | the AUTO loop with its rewind returns `AutoSkip` of the old cursor and leaves the cursor where it ends |
| Reader.ElementsReader.ReadRawSkip | EasyElements/EasyElements/ElementsReader.cs:140-159 | the outer RAW loop returns `RawSkip` of the old cursor and leaves the cursor where it ends |
| Reader.ElementsReader.ReadOuterEntry | EasyElements/EasyElements/ElementsReader.cs:145-157 | one outer iteration returns `RawOuterEntry` of the old cursor |
| Reader.ElementsReader.ReadInnerEntries | EasyElements/EasyElements/ElementsReader.cs:148-157 | the inner loop runs max(count2, 0) times and returns `RawInner` of the old cursor |
| Reader.ElementsReader.ReadInnerEntry | EasyElements/EasyElements/ElementsReader.cs:150-156 | one inner iteration, with unchecked products, returns `RawInnerEntry` of the old cursor |
| Reader.ElementsReader.NewRow | EasyElements/EasyElements/ElementsReader.cs:102-120 | the column loop with its counter returns `DecodeRow` of the old cursor |
| Reader.ElementsReader.NewTable | EasyElements/EasyElements/ElementsReader.cs:83-100 | returns the list with its columns filtered and `DecodeTable` of the old cursor |
| Reader.ElementsReader.ReadRows | EasyElements/EasyElements/ElementsReader.cs:96-97 | the row loop runs max(length, 0) times and returns `DecodeRows` of the old cursor |
| Reader.ElementsReader.ReadSkipEntry | EasyElements/EasyElements/ElementsReader.cs:73-74 | the guarded skip returns `SkipEntry` of the old cursor |
| Reader.ElementsReader.ReadLists | EasyElements/EasyElements/ElementsReader.cs:71-78 | the `foreach` over the active lists returns `DecodeLists` of the old cursor |
| Reader.ElementsReader.Read | EasyElements/EasyElements/ElementsReader.cs:63-81 | returns `Decode` of the old cursor. On success `ElementsData` is set to the result and `version` is the file's version; on an exception `ElementsData` is unchanged |

## Left out

- `Open` (ElementsReader.cs:44-61) is left out: it checks that the file exists, opens and disposes the stream, and times the read. All of it is file I/O and instrumentation. The model starts from the file's bytes.
- The constructors' argument checks and `ConfigReader(...).Open()` are left out; the reader's constructor takes the schema already loaded. The XML configuration loader is not part of this model.
- `DataSet`, `DataTable` and `DataRow` are not modelled. A table is its name, its columns and its rows.
- `GetNormalType()` (the column's .NET type) is not part of this model.
- Float cells keep the four bytes `ReadSingle` read; no IEEE-754 decoding is done.
- Text cells keep the encoding name and the bytes given to `Encoding.GetString`. Text decoding is a foreign codec call.
- `int.Parse` of `Skip` and `SizeString` is not modelled: the datatypes hold the already-parsed integers. A malformed literal, which would throw `FormatException`, has no counterpart.
- `Caption` and `ListType` of `ElementsList` are not modelled, since the decoder never reads them.
- The `ElementsData` constructor is not part of this model; the result is the tuple of what `Read` passes to it.
- The in-place overwrite of `list.Types` (ElementsReader.cs:86) is not modelled on the shared schema objects. The class keeps its schema constant, and `NewTable` returns the filtered list, which `ElementsData` collects. What a later read would see is stated by `Schema.ActiveTypesReapplied` and `Schema.ActiveTypesIdempotent`.
- `Dictionary.Add` throwing on a duplicate key is not modelled. Keys are the indices of distinct active lists, so no key repeats.
- `Encoding.GetEncoding(type.Encoding)` (ElementsReader.cs:113) throws `ArgumentException` (or `NotSupportedException`) for an encoding name the runtime does not know. It runs before `ReadBytes`, so the cursor would stay at the start of the column. Which names are known depends on the runtime and its registered encoding providers, so the model treats every encoding name as known: a string column with a non-negative size never fails because of its encoding.
- `dataSet.Tables.Add` (ElementsReader.cs:76) throws `DuplicateNameException` when two active lists have the same name. It throws after the second list's skip region and table have been read, and `ElementsData` keeps its old value. The model has no such failure: `Decoding.DecodeLists` collects both tables.
- `table.Columns.Add` (ElementsReader.cs:89) throws `DuplicateNameException` when two active columns of a list have the same name, compared case-insensitively. It throws before the row count is read. The model has no such failure: `TableDecoding.DecodeTable` keeps both columns.
- Bytes.Int32Bytes: models `BitConverter.GetBytes` (ElementsReader.cs:130, 135, 142, 147, 152, 155) as little-endian. `GetBytes` follows the host's byte order, while `BinaryReader` always reads little-endian, so the model assumes a little-endian host. `SkipDecoding.SkipTranscript`, `SkipLayout.AutoSkipLayout` and `SkipLayout.RawSkipLayout` rely on that assumption. On a big-endian host the preserved count chunks would be the read bytes reversed.
- Skip policy "0" never reaches `ReadSkip` from `Read`. Called directly with it, the model reads 0 bytes, as `int.Parse("0")` would.
