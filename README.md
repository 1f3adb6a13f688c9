# xsv in Dafny

A model of the struct-to-CSV layer of the Go library `xsv` (shigetaichi/xsv),
with proofs about it. The library reads CSV records into Go structs and writes
Go structs out as CSV records. Struct fields are matched to columns through their tags.

What the model covers:

- **Configuration** (`XsvRead`, `XsvWrite`).
  - The two configuration records and their defaults.
  - The From/To range check.
  - The SortOrder length check.
  - Column selection by name.
- **Encoding helpers** (`Encode`, from `encode.go`).
  - The container and element kind checks.
  - `getInnerField`, which walks an index chain through records, pointers and
    slices. A nil pointer or a short slice gives an empty cell.
  - Field filtering and picking by top-level index.
  - `changeToSequence`, which replaces each column index by its rank among the
    indices.
  - `reorderColumns`, which places cell `k` at position `colIndex[k]`.
  - The whole `writeTo` pipeline.
- **The writer** (`XsvWriter`).
  - `Write` and `WriteFromChan` as a class over a row sink. The row sink stands
    for the `csv.Writer`.
  - These steps in order: selection, the SortOrder check, the column
    reordering, the header row with the HeaderModifier renaming, OnRecord, and
    one row per record. Writing stops at the first field that cannot be
    formatted.
- **The reader** (`XsvReader`).
  - Header normalisation.
  - Header binding, under both duplicate-header policies.
  - The unmatched-field and duplicate-header checks.
  - Row assembly: default values, the error handler, and the 1-based line and
    column of a parse error.
  - `ReadTo`, `ReadEach`, `ReadToWithoutHeaders` and `ReadEachWithoutHeaders`.
    Each is a loop method proved against a function giving the destination
    afterwards and the error returned.
- **The map conveniences** (`Csv`, from `csv.go`): `CSVToMap`, `CSVToMaps`,
  `UnmarshalCSVToMap` and `DefaultNameNormalizer`.

How the Go runtime is represented:

- **Records from the tokenizer.** The records `encoding/csv` yields are a
  sequence of `ReadItem`s: `Row(cells)` or `Broken(reason)`. The end of the
  sequence is `io.EOF`.
- **Values being written.** These are a small `Value` datatype: a record of
  fields, a pointer (possibly nil), a slice, or a leaf.
- **Values being read.** These are of a type parameter `R`.
- **Reflection helpers that are not part of this model.** Each becomes a
  parameter:
  - `getFieldAsString` becomes `asString`;
  - `getCSVFieldPosition` becomes `locate`;
  - `setInnerField` and `setField` become `setter`, `parseKey` and `parseValue`;
  - `getFieldInfos` becomes the `fields` argument;
  - `createNewOutInner` becomes `newInner`, and the slice's zero element is
    `blank`;
  - the destination kind checks `ensureOutType`/`ensureOutInnerType` become
    `typeError`;
  - the element kind `Write` finds by reflection becomes `innerKind` and
    `wasPointer`. `WriteFromChan` follows each received pointer itself, as
    `getConcreteReflectValueAndType` does, and takes the kind from the first
    value it reaches.
- **Panics.** A Go panic that a caller's input can trigger becomes an error
  constructor: `IndexOutOfRange` or `ReflectMisuse`.

## Model

| member | source | states |
|---|---|---|
| XsvRead.NewXsvRead | xsv_read.go:28-41 | the defaults: tag "csv", separator ",", no strict checks, From 1, To -1, no callbacks, identity normaliser |
| XsvRead.CheckFrom | xsv_read.go:43-48 | accepts exactly From >= 0 |
| XsvRead.CheckTo | xsv_read.go:50-55 | accepts exactly To >= -1 |
| XsvRead.CheckFromTo | xsv_read.go:57-71 | accepts exactly From >= 0 and (To == -1 or From <= To); the From error is reported first, then the To error, then the ordering error |
| XsvRead.DefaultRangeAccepted | xsv_read.go:28-41 | the default configuration passes the range check |
| XsvWrite.NewXsvWrite | xsv_write.go:25-36 | the writer defaults: headers on, nothing selected, no sort order, empty header modifier, no OnRecord, identity normaliser |
| XsvWrite.CheckSortOrderSlice | xsv_write.go:38-45 | a non-empty SortOrder must have exactly one entry per output field; the error carries that count |
| XsvWrite.GetSelectedFieldInfos | xsv_write.go:47-59 | the selection loop keeps, in order, the fields whose first key is a selected column, or every field when none is selected |
| XsvWrite.SelectedMembership | xsv_write.go:47-59 | a field is selected iff it is in the schema and its first key is named |
| XsvWrite.SelectedKeepsSchemaOrder | xsv_write.go:50-54 | selection preserves schema order (it distributes over concatenation) |
| XsvWrite.SelectingUnknownColumnIsHarmless | xsv_write.go:51 | naming a column no field has changes nothing |
| XsvWrite.SelectedWellFormed | xsv_write.go:47-59 | every selected field still has a key and an index chain |
| Encode.EnsureStructOrPtr | encode.go:68-76 | accepts exactly struct and pointer kinds |
| Encode.EnsureInType | encode.go:79-87 | accepts exactly slice and array kinds |
| Encode.EnsureInInnerType | encode.go:90-96 | accepts exactly struct kind |
| Encode.GetInnerFieldEdgeCases | encode.go:98-127 | nil top-level pointer, short slice, nil pointer field in mid-chain each give ""; a non-pointer where a pointer was announced, or a leaf or pointer reached where a struct or slice is indexed, is a reflect panic |
| Encode.GetInnerFieldFollowsPath | encode.go:121-126 | along a path without pointers or short slices, the cell is the formatted value found by following the index chain |
| Encode.GetFilteredFields | encode.go:129-141 | the filter loop returns, in order, the fields whose top index is not removed, or all fields when nothing is removed |
| Encode.GetPickedFields | encode.go:143-155 | the pick loop returns, in order, the fields whose top index is picked, or all fields when nothing is picked |
| Encode.FilteredMembership | encode.go:129-141 | a field survives filtering iff its top index is not removed |
| Encode.PickedMembership | encode.go:143-155 | a field is picked iff its top index is listed |
| Encode.FilteredPickedPartition | encode.go:129-155 | for the same index list, filtered and picked fields split the schema as a multiset |
| Encode.FilteredKeepsOrder | encode.go:132-136 | filtering preserves order (distributes over concatenation) |
| Encode.IndexOf | encode.go:167 | slices.Index: -1 iff absent, otherwise the first position holding the value |
| Encode.SortFacts | encode.go:164 | sort.Ints on the copy yields a sorted permutation of it |
| Encode.PositionInSortedCopy | encode.go:161-170 | the first position of a value in the sorted copy is the number of entries below it |
| Encode.Ranks | encode.go:161-170 | the new column indices: as many as the old, each in 0..n-1 |
| Encode.ChangeToSequence | encode.go:161-170 | rewrites the array in place to the ranks of its old contents and returns it |
| Encode.RanksKeepOrder | encode.go:157-170 | ranks keep the relative order and the equalities of the original indices (both directions) |
| Encode.RanksPermutation | encode.go:157-170 | distinct indices become a permutation of 0..n-1 |
| Encode.ChangeToSequenceExample | encode.go:157-160 | [1,2,5,8,0] becomes [1,2,3,4,0] |
| Encode.ReorderColumns | encode.go:172-178 | the new row is the scatter of the row by colIndex with "" elsewhere |
| Encode.ScatterUntargeted | encode.go:172-178 | positions no index targets are blank; targeted positions hold a cell of the row |
| Encode.ScatterAt | encode.go:174-176 | with distinct targets, cell k lands at position colIndex[k] |
| Encode.GatherScatter | encode.go:172-178 | under a permutation, reading back position p[k] recovers cell k (the reordering loses nothing) |
| Encode.GatherThenScatter | encode.go:172-178 | under a permutation, scattering the gathered row gives the row back |
| Encode.RecordCellsAt | encode.go:51-58 | a record's cells succeed iff every field's getInnerField does, and cell j is field j's text |
| Encode.RecordCellsOk | encode.go:51-58 | a record's cells succeed iff getInnerField succeeds for every field |
| Encode.RecordCellsFirstError | encode.go:53-56 | a record fails with the error of its first failing field |
| Encode.FillCells | encode.go:51-58 | the cell loop fills the buffer with the record's cells or returns the first field error |
| Encode.RecordRowsAt | encode.go:50-63 | one row per record until the first record that fails, whose error ends the run |
| Encode.RecordRowsCells | encode.go:50-63 | cell (i, j) of the output is getInnerField of record i along field j's index chain |
| Encode.CollectLabels | encode.go:39-42 | the header loop collects every field's first key in order |
| Encode.WriteRecords | encode.go:49-63 | writes each record's reordered cells and stops at the first error |
| Encode.WriteChecked | encode.go:39-63 | after filtering: the column-count check, the reordered header unless omitted, then the reordered rows, as the writeTo specification says |
| Encode.WriteNormalised | encode.go:27-63 | with colIndex already ranked: the kind checks, the field filter, then the writing, as the writeTo specification says |
| Encode.WriteTo | encode.go:25-66 | ranks colIndex in place, then writes the kind-checked, filtered, reordered header and rows |
| Encode.WriteToBlanksWithoutColIndex | encode.go:43-59 | with an empty colIndex every written cell is "" |
| Encode.WriteToBlankHeaderExample | encode.go:39-48 | one field "Name", no data, empty colIndex: the only row written is [""] |
| Encode.ReorderIntended | xsv_writer.go:143-153 | the corrected reordering keeps the row when there is at most one index |
| Encode.WriteToIntendedKeepsSchemaOrder | encode.go:25-66 | corrected writeTo with no colIndex writes the first keys as header and each record's cells in schema order |
| Encode.WriteToIntendedAgreesWithOrder | encode.go:43-59 | with two or more indices the corrected and the written writeTo agree |
| XsvWriter.ReorderRow | xsv_writer.go:143-153 | the generic reorder loop returns the row itself for at most one index, else the scatter by the sort order |
| XsvWriter.OrderedFrom | xsv_writer.go:143-153 | every reordered cell is a cell of the row or the zero value |
| XsvWriter.OutputColumns | xsv_writer.go:35-40 | the output columns are well formed; a wrong-length SortOrder reports the selected field count; with no SortOrder (or a one-entry one over one field) the columns are the selected fields |
| XsvWriter.BuildHeader | xsv_writer.go:43-50 | the header is each column's first key, renamed through HeaderModifier when it has an entry; a column without keys panics |
| XsvWriter.BuildColumns | xsv_writer.go:35-50 | the columns and header labels, or the error of selection and ordering |
| XsvWriter.WriteRows | xsv_writer.go:56-73 | writes one row per OnRecord-transformed record, stopping at the first field error |
| XsvWriter.Emit | xsv_writer.go:27-76 | writes the header unless omitted, then the rows, as the write specification says |
| XsvWriter.XsvWriter.constructor | xsv_write.go:61-65 | the writer keeps the configuration and writes to the given row sink |
| XsvWriter.XsvWriter.Write | xsv_writer.go:27-76 | appends exactly the rows of the write specification to the writer and returns its error |
| XsvWriter.ChanRows | xsv_writer.go:110-138 | at most one row per received value, and one for each when no error is returned |
| XsvWriter.WriteReceived | xsv_writer.go:110-138 | the receive loop follows each pointer (a nil one panics), applies OnRecord (panicking on a pointer element) and writes the cells, stopping at the first failure |
| XsvWriter.EmitReceived | xsv_writer.go:89-138 | after the kind check: the columns, the header unless omitted, then the received rows |
| XsvWriter.XsvWriter.WriteFromChan | xsv_writer.go:78-141 | appends exactly the rows of the WriteFromChan specification: closed channel, nil or wrongly kinded first value, then the columns, header and rows |
| XsvWriter.WriteOutput | xsv_writer.go:27-76 | the header row first unless omitted, then one row of one cell per column for each record; on error, the rows stop before the failing record, whose error is returned |
| XsvWriter.WriteOutputCells | xsv_writer.go:56-73 | data row k holds, in column order, the getInnerField text of each output column read from the OnRecord-transformed record k |
| XsvWriter.HeaderModifierOnlyRenamesHeader | xsv_writer.go:43-50 | changing HeaderModifier changes at most the header row |
| XsvWriter.OmitHeadersDropsOnlyHeader | xsv_writer.go:51-55 | OmitHeaders drops exactly the first row |
| XsvWriter.SortOrderLengthChecked | xsv_writer.go:37-39 | a SortOrder of the wrong length writes nothing and reports the field count |
| XsvWriter.SortOrderPermutes | xsv_writer.go:40 | with two or more entries the write succeeds iff SortOrder is a permutation, and then selected field k is output at column SortOrder[k] |
| XsvWriter.ClosedChannelWritesNothing | xsv_writer.go:79-83 | a closed channel yields ErrChannelIsClosed and no output |
| XsvWriter.ChanRowsPlain | xsv_writer.go:110-138 | received values that are not pointers give the rows Write gives for the same records after OnRecord |
| XsvWriter.RecordCellsThroughPointer | encode.go:98-105 | reading a record through a non-nil pointer announced as one reads its target |
| XsvWriter.ChanRowsDereferenced | xsv_writer.go:84-138 | received non-nil pointers, without OnRecord, give the rows Write gives for a slice of the same pointers |
| XsvWriter.StreamingMatchesWrite | xsv_writer.go:78-141 | streaming struct values writes exactly what Write writes for a slice of them, OnRecord included |
| XsvWriter.StreamingPointersMatchWrite | xsv_writer.go:78-141 | streaming non-nil pointers to structs without OnRecord writes exactly what Write writes for a slice of them |
| XsvWriter.NilReceivedPanics | xsv_writer.go:84-131 | a nil pointer received is a panic: first, before anything is written; later, with no row for it or after it |
| XsvWriter.OnRecordPointerPanics | xsv_writer.go:110-113 | with OnRecord set, a pointer element panics on the first value, after at most the header |
| Common.ReadAllShape | xsv_reader.go:34-37 | all records when none is broken, otherwise the first error |
| XsvReader.NormaliseHeaders | xsv_reader.go:50-53 | every header cell is passed through NameNormalizer |
| XsvReader.BindColumns | xsv_reader.go:56-68 | the binding loop computes the column-to-field map and the per-name counts |
| XsvReader.BindDefaultPolicy | xsv_reader.go:58-68 | by default counts stay empty, so every occurrence of a name binds to the same field |
| XsvReader.NoErrors | xsv_reader.go:87-117 | with a setter that never fails, a header-bound row reports no error |
| XsvReader.LastCellWins | xsv_reader.go:87-117 | with a setter that overwrites the field, when no later bound column sets the same field, the record holds this column's cell (or the field's default for an empty cell when defaults are on): the last cell wins |
| XsvReader.RepeatedHeaderExample | decode_test.go:521-541 | headers foo,BAR,foo with row f,1,baz: both foo columns bind to one field, which reads baz |
| XsvReader.BindAlignPolicy | xsv_reader.go:58-68 | with alignment, column j is looked up with the number of earlier bound columns of its name, and each count is the number of bound columns of that name |
| XsvReader.SetCell | xsv_reader.go:104-117 | a setter failure is a parse error at the row's line and column j+1 |
| XsvReader.FillRecord | xsv_reader.go:87-118 | the column loop assembles the row's record or its first error |
| XsvReader.ParseErrorPosition | xsv_reader.go:108-116 | a parse error sits at the given line, within the row, in a bound (or schema) column |
| XsvReader.HandlerSuppressesAll | xsv_reader.go:114-116 | a handler that accepts every error means no parse error is returned |
| XsvReader.UnboundColumnIgnored | xsv_reader.go:88 | a cell in an unbound column never affects the record or the result |
| XsvReader.DefaultSubstitution | xsv_reader.go:104-107 | substituting defaults while setting equals setting the cells with the defaults already filled in |
| XsvReader.StreamAt | xsv_reader.go:84-127 | record i comes from row i at line i+base; the error is that of the row after the last record |
| XsvReader.StreamParseErrorLine | xsv_reader.go:84-127 | a parse error is on the line of the row after the last record built, within that row |
| XsvReader.ExtraHeadersHarmless | xsv_reader.go:70-74 | extra header columns never make a field unmatched |
| XsvReader.HeaderCheck | xsv_reader.go:70-79 | passes iff neither enabled check (unmatched fields, duplicate headers) fires |
| XsvReader.EnsureOutCapacity | xsv_reader.go:41-43 | a slice shorter than n becomes n zero entries; a long enough one is kept as it is |
| XsvReader.FillRows | xsv_reader.go:84-127 | stores the assembled rows at their indices, keeping the entries after the last stored one, and returns the run's error |
| XsvReader.SendRows | xsv_reader.go:180-202 | sends the assembled records in order until the first failure |
| XsvReader.ReadTo | xsv_reader.go:24-129 | the destination and error are those of the ReadTo specification |
| XsvReader.ReadEach | xsv_reader.go:131-204 | the records sent and error are those of the ReadEach specification |
| XsvReader.ReadToWithoutHeaders | xsv_reader.go:206-248 | as for ReadTo, with column j bound to field j and lines from 1 |
| XsvReader.ReadEachWithoutHeaders | xsv_reader.go:250-292 | as for ReadEach, with column j bound to field j and lines from 2 as written |
| XsvReader.ReadToFillsEveryRow | xsv_reader.go:41-127 | on success, the slice holds the row assembled at line i+2 at each body index i; an older, longer slice keeps its entries past the body |
| XsvReader.ReadToParseErrorKeepsEarlierRows | xsv_reader.go:41-116 | after a parse error, on the line of the failing row, the earlier rows are stored; the failing and later entries are zero when the slice was remade, else the caller's |
| XsvReader.EmptyInput | xsv_reader.go:38-40 | empty input: the slice reads report ErrEmptyCSVFile, ReadEach io.EOF, ReadEachWithoutHeaders nothing and no error |
| XsvReader.ShiftError | xsv_reader.go:281-285 | moves a parse error one line down and leaves any other result alone |
| XsvReader.AssembleLineShift | xsv_reader.go:108-113 | without a handler, assembling a row one line later changes only a parse error's line |
| XsvReader.StreamLineShift | xsv_reader.go:84-127 | starting the line count one later changes only a parse error's line |
| XsvReader.ReadEachWithoutHeadersOffByOne | xsv_reader.go:281-285 | the written headerless channel read reports each parse error one line below the corrected one |
| XsvReader.ReadEachWithoutHeadersLineExample | xsv_reader.go:281-285 | one row whose cell cannot be set: line 1 from ReadToWithoutHeaders, line 2 from ReadEachWithoutHeaders |
| XsvReader.ReadEachWithoutHeadersIntendedAgrees | xsv_reader.go:232-248 | the corrected headerless channel read gives ReadToWithoutHeaders' error and its leading records |
| XsvReader.StreamDefaults | xsv_reader.go:104-107 | default substitution over a run equals reading the rows with defaults filled in |
| XsvReader.ReadToIsReadEachWithDefaults | xsv_reader.go:84-127 | without a handler, ReadTo is ReadEach on the file with defaults filled in: same error, same leading records |
| Csv.DefaultNameNormalizer | csv.go:46 | the identity |
| Csv.AssocLastWins | csv.go:305 | the map has exactly the pairs' keys, each mapped to its last value |
| Csv.CsvToMap | csv.go:288-308 | the read loop returns the CSVToMap result |
| Csv.CsvToMapSucceeds | csv.go:290-304 | CSVToMap succeeds iff the file reads and its header has two cells |
| Csv.CsvToMapEntries | csv.go:297-306 | the keys are exactly the body rows' first cells (never the header), and each maps to the second cell of its last row |
| Csv.Dict | csv.go:326-330 | the inner loop builds the map of header name to cell |
| Csv.DictEntries | csv.go:327-329 | a row's map has exactly the header names as keys, and a repeated name takes its last column's cell |
| Csv.CsvToMaps | csv.go:311-334 | the read loop returns the CSVToMaps result |
| Csv.CsvToMapsRows | csv.go:315-333 | succeeds iff the file reads; one map per record after the first, none for empty or header-only input, map i pairing the header with record i+1 |
| Csv.UnmarshalCsvToMap | csv.go:77-111 | returns the map and error of the UnmarshalCSVToMap specification: the header, two-column and map checks leave the target as it was, then the body loop runs |
| Csv.ParseBody | csv.go:92-110 | the body loop fills a fresh map with every pair parsed, the last row for a key winning, and stops at the first read or parse failure |
| Csv.ParsePairsVerbatim | csv.go:93-109 | with pass-through parsers the loop reads the pairs CSVToMap reads, or its read error |
| Csv.UnmarshalMatchesCsvToMap | csv.go:77-111 | into a string map, UnmarshalCSVToMap gives CSVToMap's map or its error, checks in the same order |

## Left out

- Channels, goroutines and callbacks are left out: `ReadToCallback`, `UnmarshalToCallback*`, `UnmarshalDecoderToCallback` and `CSVToChanMaps`. `ReadEach*` and `WriteFromChan` become loops over a sequence of received or sent values.
- The `encoding/csv` tokenizer and the I/O setup (`Lazy`, `Comma`, `UseCRLF`, `Set*Reader`, `Set*Writer`) are left out. A read is modelled over the records the tokenizer would yield.
- The CSV map functions assume a record width fixed by the first record. This is what the tokenizer guarantees with `FieldsPerRecord` left at 0. A custom reader that breaks it would make `line[1]` or `record[i]` panic, and that panic is not modelled.
- Writer I/O errors are left out. `Flush`/`Error` and the errors of `writer.Write` are not modelled, and the row sink never fails.
- The reflection helpers not part of this model are parameters: `getFieldInfos`, `getCSVFieldPosition`, `setInnerField`, `setField`, `getFieldAsString`, `createNewOutInner`, `ensureOutType`, `ensureOutInnerType`, and the container side of `getConcreteReflectValueAndType` in `Write`. Nothing beyond their signatures is assumed of them.
- Three helpers that are not part of this model are given a meaning, because the model's results depend on it:
  - `getConcreteReflectValueAndType` on a received value follows a pointer to its target. A nil pointer panics, because its target has no type. This is `XsvWriter.Concrete`.
  - `ensureOutCapacity` remakes the destination slice as `n` zero entries when it is shorter than `n`, and otherwise keeps it. This is `XsvReader.EnsureOutCapacity`. `n` is `len(csvRows)-1` for ReadTo and `len(csvRows)` for ReadToWithoutHeaders. Errors raised before it runs leave the destination as it was.
  - `getConcreteContainerInnerType` reports the element kind and whether the element is a pointer. These become `innerKind` and `wasPointer`.
- XsvReader.SetCell: a setter failure leaves the record as it was before that cell. A partial update that `setInnerField` may make before failing is not modelled.
- XsvReader.ReadTo: the `TypeUnmarshalCSVWithFields` hook (xsv_reader.go:90-103, 121-124) is left out. The model always takes the `setInnerField` path.
- Floating point, time and the concrete string conversions are left to `asString`/`setter`.
- `From`/`To` filtering and the read-side `OnRecord` are left out. They are configured and range-checked, but ReadTo, ReadEach and the headerless reads in xsv_reader.go never apply them.
- The package-level global configuration (csv.go:16-43) is left out. It is superseded by the per-instance configurations.
- data.go `CheckIsStructSlice` and the example program are left out.
- The writer's `OnRecord` is a one-argument transform. It is declared `func(T, *int) T` but called with one argument.
- XsvWriter.OutputColumns: `getFirstKey` is taken to read `keys[0]`. A column left without keys (an unfilled slot of a SortOrder that is not a permutation) therefore panics, and this is modelled as `IndexOutOfRange`.
- `maybeMissingStructFields` and `maybeDoubleHeaderNames` are not part of this model. They are given the meaning their names and their use state: some field has no key among the headers, and some header name occurs twice.

## Findings

| source | as written | input that shows it | evidently intended | confidence | as-written member | corrected member |
|---|---|---|---|---|---|---|
| xsv_reader.go:281-285 | ReadEachWithoutHeaders reports a parse error at line i+2, though there is no header row | one row `x` whose cell cannot be set: reported at line 2, where ReadToWithoutHeaders (xsv_reader.go:237-241) reports line 1 | line i+1, as in ReadToWithoutHeaders | not executed; the comment "account for the header" was copied from the header paths | XsvReader.ReadEachWithoutHeadersOffByOne | XsvReader.ReadEachWithoutHeadersIntendedAgrees |
| encode.go:43-59 | writeTo passes colIndex to reorderColumns even when it is empty, and reorderColumns then returns a row of "" | one field "Name", no records, empty colIndex: the header written is [""] | keep the row for at most one index, as the generic reorderColumns does (xsv_writer.go:143-153) | not executed; writeTo has no caller in xsv_writer.go, xsv_reader.go or csv.go, and encode_test.go's Test_writeTo goes through XsvWrite.SetWriter(...).Write (encode_test.go:36-38) | Encode.WriteToBlanksWithoutColIndex | Encode.WriteToIntendedKeepsSchemaOrder |
