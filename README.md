# Table export operator

A Dafny model of `PhysicalExport`, the operator that writes a table snapshot
to files in four formats. The formats are delimited text (CSV), JSON lines,
FVECS and Parquet.

Every exporter does one pass over the snapshot: segment, then block, then
row. Rows the export transaction cannot see are passed over. The first
`offset` visible rows are skipped. The export stops once `limit` rows are
written (a limit of 0 means no cap). The output rolls over into
`<path>.part1`, `<path>.part2`, ... each time the count of written rows is a
positive multiple of `rowLimit`, just before the next row is written.

The model is laid out as follows.

- `types.dfy` (`Types`): logical types, column descriptors, selected column
  ids (including the three synthetic ids), cells, the configuration and the
  error outcomes.
- `storage.dfy` (`Storage`): the snapshot as segments of blocks, each block
  with per-row visibility and stored column vectors.
  - Defaulting of the column selection.
  - Materialization of a block's column vectors, with the row-id and
    timestamp columns synthesized and the row-count check on stored columns.
  - The stream of visible records (`Records`) as a prefix-recursive
    reference definition.
- `window.dfy` (`Windowing`): two reference definitions and the part-file
  names.
  - `Window` is the emitted part of the visible stream.
  - `Chunk` is the layout of emitted rows into files of `rowLimit` rows.
- `walk.dfy` (`RowWalk`): the segment/block/row loops shared by the three
  row-at-a-time exporters, as imperative methods proved against
  `Chunk(Window(Records(...)))`. `FailsBeforeLimit` says when an export
  raises the row-count mismatch: some block the walk reaches before the
  window is full has a selected stored column of the wrong length.
- `text.dfy` (`DelimitedText`), `jsonl.dfy` (`JsonLines`), `fvecs.dfy`
  (`Fvecs`): the per-row record of each row format, with round-trip lemmas.
- `exporters.dfy` (`Exporters`): `ExportToCSV`, `ExportToJSONL` and
  `ExportToFVECS`.
- `parquet.dfy` (`Parquet`): the columnar exporter.
  - The class `ParquetSink` holds the state captured by `consume_block`.
  - Its methods are the inner batching loop and the deferred file switch.
  - The module also has the block and segment loops and the schema built
    with `GetArrowType`.
  - `Batches` is the reference definition of the record batches: each
    block's emitted rows, cut wherever the count reaches a multiple of
    `rowLimit` (`AddRun`), each piece starting a new part file when the rows
    before it filled one.
- `arrow.dfy` (`Arrow`): the logical-type to Arrow-type mapping, and the
  array builders `BuildArrowArray` makes, written from its own switches
  (scalar builders, sparse index and value builders, vector element
  builders and their list nesting). The lemmas prove the builders' types
  agree with the mapping; the sparse struct as written differs for one case
  (see Findings).

Rendering a cell (`Value::ToString`) and serializing a JSON object (`dump`)
come from libraries. They enter the model as function parameters. Embedding
payloads are opaque byte sequences.

## Model

| member | source | states |
|---|---|---|
| Storage.SelectColumns | src/executor/operator/physical_export.cpp:89-99 | an empty column list selects every schema column in schema order; otherwise the requested ids are kept as given |
| Storage.SelectionValid | src/executor/operator/physical_export.cpp:89-99 | the defaulted selection names only schema columns when the request does |
| Storage.RowIdAt | src/executor/operator/physical_export.cpp:170-175 | the synthetic row id names the segment, and for a row within the block capacity its offset divides back into the block id (quotient) and the row index (remainder) |
| Storage.RowIdsDistinct | src/executor/operator/physical_export.cpp:170-175 | two rows of a segment within their blocks' capacity get distinct row ids unless they are the same row of blocks with the same id |
| Storage.Materialize | src/executor/operator/physical_export.cpp:165-195 | a synthetic column has exactly the block's row count; a stored column fails with the row-count mismatch error exactly when its length differs |
| Storage.MaterializeOutcome | src/executor/operator/physical_export.cpp:165-195 | only a stored column can fail, and only when its length differs from the block's row count; the row-id column holds each row's id (segment id, block id times capacity plus row index) |
| Storage.BlockColumns | src/executor/operator/physical_export.cpp:162-197 | the block's vectors, one per selected column with the block's row count, or the mismatch error |
| Storage.BlockColumnsOutcome | src/executor/operator/physical_export.cpp:162-197 | the vectors exist exactly when every selected column materializes, and then they are those columns in selection order |
| Storage.MaterializeColumns | src/executor/operator/physical_export.cpp:162-197 | the per-block column loop returns exactly `BlockColumns`, stopping at the first failing column |
| Storage.RowValues | src/executor/operator/physical_export.cpp:209-210 | the cells read for a row are column `c`'s cell at that row, for every selected column in order |
| Storage.BlockComplete | src/executor/operator/physical_export.cpp:199-244 | reading every row of a block reads exactly the block's visible records |
| Storage.BlockScanned | src/executor/operator/physical_export.cpp:199-244 | the rows read from a block are a prefix of the block's visible records, and all of them when the block is finished |
| Storage.SegmentComplete | src/executor/operator/physical_export.cpp:154-246 | finishing every block of a segment reads exactly the records up to the end of that segment |
| Storage.SeenPrefix | src/executor/operator/physical_export.cpp:154-246 | the rows read up to any block are a prefix of the table's visible records |
| Windowing.WindowSkip | src/executor/operator/physical_export.cpp:203-206 | a visible row met while the offset is not used up emits nothing |
| Windowing.WindowEmit | src/executor/operator/physical_export.cpp:207-243 | a visible row met after the offset, below the limit, is appended to what is emitted |
| Windowing.WindowSaturated | src/executor/operator/physical_export.cpp:241-243 | once `limit` rows are emitted, no later row changes the emitted rows; this justifies the early exit |
| Windowing.WindowSlice | src/executor/operator/physical_export.cpp:199-244 | the emitted rows are one slice of the visible stream: from `offset`, at most `limit` rows long (to the end when `limit` is 0) |
| Windowing.WindowContents | src/executor/operator/physical_export.cpp:240-249 | the window holds min(limit, max(0, visible - offset)) rows (no cap when `limit` is 0), row `i` being visible row `offset + i` |
| Windowing.ChunkSnoc | src/executor/operator/physical_export.cpp:230-240 | one more emitted row opens a new file exactly when the count so far is a positive multiple of `rowLimit`, and otherwise extends the last file |
| Windowing.ChunkFlatten | src/executor/operator/physical_export.cpp:230-240 | the files, concatenated, hold exactly the emitted rows in order |
| Windowing.ChunkCount | src/executor/operator/physical_export.cpp:230-240 | there are ceil(emitted / rowLimit) files, and a single file when nothing is split |
| Windowing.ChunkSizes | src/executor/operator/physical_export.cpp:230-240 | every file but the last holds exactly `rowLimit` rows; the last holds at most `rowLimit` and is empty only when nothing was emitted |
| Windowing.DecimalString | src/executor/operator/physical_export.cpp:232 | the file number's decimal text is never empty |
| Windowing.DecimalRoundTrip | src/executor/operator/physical_export.cpp:232 | the decimal text of a file number parses back to that number |
| Windowing.FileNamesDistinct | src/executor/operator/physical_export.cpp:231-232 | distinct file numbers give distinct file names, so no part file overwrites another or the primary file |
| Windowing.FileName | src/executor/operator/physical_export.cpp:231-232 | file 0 is the configured path itself; every other file name extends the path and differs from it |
| RowWalk.SkipStep | src/executor/operator/physical_export.cpp:203-206 | skipping a visible row while the offset is left keeps the walk's counters in step with the window of the rows seen |
| RowWalk.EmitStep | src/executor/operator/physical_export.cpp:207-243 | writing a visible row grows the window by one; the layout gains a new file exactly when the count so far is a positive multiple of `rowLimit` |
| RowWalk.EmitRecord | src/executor/operator/physical_export.cpp:230-239 | the check-then-switch-then-append step: a new file named `<path>.part<N+1>` exactly on the switch condition, otherwise an append to the current file; the names stay `FileName(path, i)` |
| RowWalk.WalkRow | src/executor/operator/physical_export.cpp:199-244 | one row of the loop: an invisible row changes nothing; a visible one is skipped or written as the window and layout prescribe; the walk stops exactly when the count reaches `limit` |
| RowWalk.WalkBlock | src/executor/operator/physical_export.cpp:199-244 | the row loop of a block keeps the files equal to the layout of the window of the rows seen, and stops only at the limit |
| RowWalk.WalkBlockAt | src/executor/operator/physical_export.cpp:158-244 | one block: it fails exactly when one of its selected stored columns has the wrong length, and a failing block is one the walk reached; otherwise the files stay the layout of the window of the rows seen, and on stopping the count equals `limit` and the window is full |
| RowWalk.WalkSegment | src/executor/operator/physical_export.cpp:154-246 | the block loop of a segment: a failure means the export fails before the limit; otherwise no block of the segment fails, the layout invariant holds, and the segment's records are read in full unless the limit stops the loop |
| RowWalk.ExportRows | src/executor/operator/physical_export.cpp:147-249 | the whole walk returns the count of the window of the visible records and files equal to that window laid out `rowLimit` to a file, named `<path>`, `<path>.part1`, ...; it fails, with the row-count mismatch, exactly when a block reached before the limit is filled has a selected stored column of the wrong length |
| RowWalk.ExportedCount | src/executor/operator/physical_export.cpp:240-249 | the reported count is min(limit, max(0, visible - offset)), or max(0, visible - offset) when `limit` is 0; invisible rows neither count nor use up the offset |
| RowWalk.FailureNeedsMismatch | src/executor/operator/physical_export.cpp:186-195 | only a table with a selected stored column of the wrong length can make the export fail |
| RowWalk.LaterBlocksUnreached | src/executor/operator/physical_export.cpp:240-246 | once the rows before a block fill the limit, the walk reaches no later block of that segment |
| RowWalk.LaterSegmentsUnreached | src/executor/operator/physical_export.cpp:240-249 | once the rows of the first segments fill the limit, the walk reaches no block of a later segment |
| RowWalk.SegmentPassed | src/executor/operator/physical_export.cpp:154-246 | a segment read without a failure, to its end or until the limit is filled, has no failing block |
| RowWalk.TablePassed | src/executor/operator/physical_export.cpp:147-249 | a walk that read segments without a failure up to the table's end or to a full window does not fail |
| RowWalk.TableFilled | src/executor/operator/physical_export.cpp:147-249 | a walk whose window fills in a segment, after segments that all passed, does not fail |
| RowWalk.SegmentsUpToLength | src/executor/operator/physical_export.cpp:154-200 | the visible records of a table number its visible rows |
| DelimitedText.Labels | src/executor/operator/physical_export.cpp:119-138 | one label per selected column: `_row_id`, `_create_timestamp`, `_delete_timestamp` for the synthetic ids, the schema name otherwise |
| DelimitedText.HeaderStep | src/executor/operator/physical_export.cpp:119-143 | one pass of the header loop appends the label and then the delimiter, or the newline after the last label |
| DelimitedText.BuildHeader | src/executor/operator/physical_export.cpp:116-146 | the header loop builds the labels joined by the delimiter plus one newline (empty for an empty selection) |
| DelimitedText.HeaderFields | src/executor/operator/physical_export.cpp:116-146 | split at the delimiter, the header gives back exactly one label per selected column, with the fixed labels for the synthetic ids |
| DelimitedText.Fields | src/executor/operator/physical_export.cpp:224-228 | splitting a text at the delimiter gives at least one field |
| DelimitedText.JoinSnoc | src/executor/operator/physical_export.cpp:224-228 | joining one more field adds the delimiter and that field |
| DelimitedText.SplitJoin | src/executor/operator/physical_export.cpp:224-228 | fields free of the delimiter, joined and split again, are given back |
| DelimitedText.LineRoundTrip | src/executor/operator/physical_export.cpp:224-228 | a terminated line ends in one newline and splits back into its fields |
| DelimitedText.CsvFields | src/executor/operator/physical_export.cpp:208-223 | one field per selected cell, in order, each the cell's rendering |
| DelimitedText.CsvLine | src/executor/operator/physical_export.cpp:207-228 | a row's line is empty exactly for an empty selection, and otherwise ends in the newline written after the last column |
| DelimitedText.CsvLineFields | src/executor/operator/physical_export.cpp:208-228 | a line holds exactly one field per column and ends in a newline; composite values (embedding, multi-vector, tensor, tensor array, sparse) are wrapped in double quotes and all others are left unquoted |
| JsonLines.Zip | src/executor/operator/physical_export.cpp:345-367 | each label is paired with the cell of the same position |
| JsonLines.JsonObjectKeys | src/executor/operator/physical_export.cpp:345-367 | the object built by the appends has exactly the appended keys |
| JsonLines.JsonObjectValue | src/executor/operator/physical_export.cpp:345-367 | each key holds the value of its last append |
| JsonLines.RowObject | src/executor/operator/physical_export.cpp:345-367 | with distinct labels, a row's object maps every selected column's label to that column's cell and has no other key |
| JsonLines.JsonlRender | src/executor/operator/physical_export.cpp:345-379 | a row's record is the serialized object of its labelled cells followed by one newline |
| Fvecs.FvecsCheck | src/executor/operator/physical_export.cpp:398-424 | the export is accepted exactly when one column is requested and it is an embedding of float elements; otherwise the error says which check failed; on success the result is the dimension |
| Fvecs.I32LE | src/executor/operator/physical_export.cpp:424-485 | the dimension is written as 4 bytes |
| Fvecs.I32RoundTrip | src/executor/operator/physical_export.cpp:424-485 | the 4 bytes read back little-endian give the dimension modulo 2^32 |
| Fvecs.ParseOneRecord | src/executor/operator/physical_export.cpp:485-486 | a record (dimension bytes, then 4 * dimension bytes) at the front of a file is read back as its payload |
| Fvecs.FvecsRecord | src/executor/operator/physical_export.cpp:485-486 | a row's record is 4 bytes that read back little-endian as the dimension, then the embedding's bytes |
| Fvecs.FvecsRecords | src/executor/operator/physical_export.cpp:485-486 | one record per row, in order |
| Fvecs.Payloads | src/executor/operator/physical_export.cpp:482 | one embedding per row, in order |
| Fvecs.FvecsRoundTrip | src/executor/operator/physical_export.cpp:485-486 | records back to back, with no separator, read back as the rows' embeddings in order |
| Exporters.Rendered | src/executor/operator/physical_export.cpp:207-239 | one record per row, each the row's rendering, in row order |
| Exporters.FileRecords | src/executor/operator/physical_export.cpp:230-239 | the records of each file |
| Exporters.FileContents | src/executor/operator/physical_export.cpp:116-146 | each file holds its records back to back; only the primary file starts with the preamble |
| Exporters.FlattenRendered | src/executor/operator/physical_export.cpp:230-239 | rendering file by file and concatenating gives the rendering of all rows |
| Exporters.RecordsLayout | src/executor/operator/physical_export.cpp:230-240 | across the files, the records are those of the emitted rows, one per row and in order; every file but the last holds exactly `rowLimit` records |
| Exporters.ExportToCSV | src/executor/operator/physical_export.cpp:86-250 | the count is that of the window; the header (if requested) starts the primary file only; every file holds the CSV lines of its rows in the `Chunk` layout; it fails, with the row-count mismatch, exactly when a block reached before the limit has a stored column of the wrong length |
| Exporters.CsvExportLines | src/executor/operator/physical_export.cpp:207-240 | the lines across the files are those of the emitted rows in order, `rowLimit` to a file, each with one field per column, quoted for composite values |
| Exporters.ExportToJSONL | src/executor/operator/physical_export.cpp:252-394 | the count is that of the window; every file holds one serialized object plus newline per row, keyed by the selection's labels, laid out `rowLimit` to a file; it fails, with the row-count mismatch, exactly when a block reached before the limit has a stored column of the wrong length |
| Exporters.JsonlExportObjects | src/executor/operator/physical_export.cpp:345-382 | the lines across the files are those of the emitted rows in order; with distinct labels each object maps every label to its column's cell and has no other key |
| Exporters.ExportToFVECS | src/executor/operator/physical_export.cpp:396-498 | a rejected request writes no file and returns the check's error; otherwise the count is that of the window and every file holds one record per row of the requested column; after a passing check it fails, with the row-count mismatch, exactly when a block reached before the limit has a stored column of the wrong length |
| Exporters.FvecsExportReadBack | src/executor/operator/physical_export.cpp:475-491 | every FVECS file reads back as the embeddings of its rows; the files hold the emitted rows in order, `rowLimit` to a file |
| Exporters.FvecsFileReadBack | src/executor/operator/physical_export.cpp:485-486 | one FVECS file reads back as the embeddings of its rows |
| Exporters.ChunkMember | src/executor/operator/physical_export.cpp:475-486 | every row of a file is one of the emitted rows |
| Parquet.FileRows | src/executor/operator/physical_export.cpp:595-600 | the rows of each part file are its record batches concatenated |
| Parquet.ProgressSkip | src/executor/operator/physical_export.cpp:565-568 | a visible row read while the offset is left is skipped and the pending layout is unchanged |
| Parquet.ProgressEmit | src/executor/operator/physical_export.cpp:569-577 | a visible row read after the offset joins the current batch; the batch never straddles a file boundary |
| Parquet.RowTaken | src/executor/operator/physical_export.cpp:569-577 | taking a row keeps the sink's invariant with the row at the end of the batch, and the batch still fits in one file |
| Parquet.PlacedEmit | src/executor/operator/physical_export.cpp:569 | a row added to the batch is added to the layout of the emitted rows, since the batch is cut before the count reaches a file boundary |
| Parquet.ProgressWritten | src/executor/operator/physical_export.cpp:582-600 | once the batch is written, a switch is pending exactly when the count is a positive multiple of `rowLimit` |
| Parquet.PlacedSnoc | src/executor/operator/physical_export.cpp:569 | adding a row to a non-empty batch adds it to the file that batch goes to |
| Parquet.LaidOutNewFile | src/executor/operator/physical_export.cpp:582-599 | writing a batch into the next part file keeps one name per file, no empty batch, and the file rows |
| Parquet.LaidOutSameFile | src/executor/operator/physical_export.cpp:590-599 | writing a batch at the end of the current file keeps the layout |
| Parquet.NamedFilesSnoc | src/executor/operator/physical_export.cpp:586 | the next part file is named `<path>.part<N>` after the N files before it |
| Parquet.PieceFits | src/executor/operator/physical_export.cpp:569-577 | each piece of a run fits in one file, and every piece but the last ends on a file boundary |
| Parquet.AddRunWhole | src/executor/operator/physical_export.cpp:569-600 | a run that fits in one file is written as one batch |
| Parquet.AddRunSnoc | src/executor/operator/physical_export.cpp:558-604 | after rows that end on a file boundary (or none), writing one more batch that fits in one file extends the `AddRun` layout by that batch, in a new file exactly when the count is a positive multiple of `rowLimit` |
| Parquet.ParquetSink.constructor | src/executor/operator/physical_export.cpp:550-555 | a fresh sink has the primary file open and empty, nothing read, counters at zero and no switch pending |
| Parquet.ParquetSink.ReadRow | src/executor/operator/physical_export.cpp:561-577 | one row of the inner loop: invisible rows are passed over; a visible row uses up the offset or is taken; `full` exactly when the count becomes a multiple of `rowLimit`, `reached` exactly when it equals `limit`; a taken row is appended to the batch and the batch still fits in one file |
| Parquet.ParquetSink.SkipRow | src/executor/operator/physical_export.cpp:565-568 | a visible row read while the offset is left uses up one unit of it and keeps the invariant |
| Parquet.ParquetSink.TakeRow | src/executor/operator/physical_export.cpp:569-570 | a visible row read after the offset is counted and joins the batch; the batch still fits in one file |
| Parquet.ParquetSink.CollectBatch | src/executor/operator/physical_export.cpp:559-578 | the inner loop gathers visible post-offset rows in ascending order; the batch fits in one file; a batch that ends before the block does ends right after the count becomes a multiple of `rowLimit` (then `needSwitch`) or equals `limit`; an empty batch means the block is used up |
| Parquet.ParquetSink.WriteBatch | src/executor/operator/physical_export.cpp:582-600 | a non-empty batch goes to a new part file exactly when a switch is pending, and otherwise to the end of the current file; the pending flag becomes the batch's switch flag |
| Parquet.ParquetSink.NextBatch | src/executor/operator/physical_export.cpp:558-604 | one pass of the outer loop: collect, skip an empty batch, write, and stop exactly when the count equals `limit`; a written batch goes to a new file exactly when the count before it is a positive multiple of `rowLimit` |
| Parquet.ParquetSink.ConsumeStep | src/executor/operator/physical_export.cpp:558-604 | one pass of the outer loop keeps the files equal to the old files with the block's rows so far added as `AddRun` cuts them |
| Parquet.ParquetSink.ConsumeBlock | src/executor/operator/physical_export.cpp:556-606 | returns false exactly when the count equals `limit`, true only after reading every row of the block; the files become the old files with the block's emitted rows added as `AddRun` cuts them, one batch per stretch between file boundaries |
| Parquet.BlockGain | src/executor/operator/physical_export.cpp:556-606 | what `consume_block` adds to the window is the block's gain, also when it stops early, since the window is then full |
| Parquet.GainUnreached | src/executor/operator/physical_export.cpp:602-604 | a block the walk does not reach adds nothing |
| Parquet.LaterGainsEmpty | src/executor/operator/physical_export.cpp:602-656 | once the rows before a block fill the limit, no later block of the table adds anything |
| Parquet.LayoutFrozenBlocks | src/executor/operator/physical_export.cpp:616-657 | blocks that add nothing leave the files as they are |
| Parquet.LayoutFrozenSegments | src/executor/operator/physical_export.cpp:610-658 | segments that add nothing leave the files as they are |
| Parquet.LayoutFinal | src/executor/operator/physical_export.cpp:602-658 | once the rows before a block fill the limit, the files are those of the whole export |
| Parquet.ExportBlock | src/executor/operator/physical_export.cpp:616-657 | one block: it fails exactly when its column vectors fail the length check, and a failing block is one the walk reached; otherwise the files and the count become those at the next block boundary of the `Batches` layout |
| Parquet.BlockStep | src/executor/operator/physical_export.cpp:614-657 | one pass of the block loop: a failure means the export fails before the limit; a stop at the limit leaves the segment passing and the files those of the whole export; otherwise the next block boundary's files and count |
| Parquet.SegmentFilled | src/executor/operator/physical_export.cpp:602-657 | a block after which the window is full ends the segment and the walk: the segment passes and the files are those of the whole export |
| Parquet.ExportSegment | src/executor/operator/physical_export.cpp:614-657 | the block loop: a failure means the export fails before the limit; otherwise no block of the segment fails, and the files are those at the next segment boundary of the `Batches` layout, or those of the whole export once the limit stops the loop |
| Parquet.SegmentDone | src/executor/operator/physical_export.cpp:614-657 | a segment whose blocks all passed has no failing block and ends where the next segment starts |
| Parquet.ExportSegments | src/executor/operator/physical_export.cpp:610-658 | the segment loop fails exactly when a block reached before the limit fails the length check; otherwise the files are the whole export's `Batches` layout, and every visible record is read unless the limit stops the loop |
| Parquet.SinkLayout | src/executor/operator/physical_export.cpp:556-606 | between batches the sink's files are named, hold no empty batch, and hold the window of the rows read, `rowLimit` to a file |
| Parquet.WriteTable | src/executor/operator/physical_export.cpp:550-663 | the files' rows are the window of the visible records laid out `rowLimit` to a file, and the files are exactly `Batches`: each block's emitted rows, cut wherever the count reaches a multiple of `rowLimit`; the count is the window's; it fails, with the row-count mismatch, exactly when a block reached before the limit has a stored column of the wrong length |
| Parquet.ExportToPARQUET | src/executor/operator/physical_export.cpp:500-665 | a column without a columnar type writes no file and returns its error; otherwise the schema is that of the selection, the files are `Batches` and it fails exactly as `WriteTable` does |
| Parquet.SchemaOf | src/executor/operator/physical_export.cpp:517-522 | the schema exists exactly when every selected column maps, field `i` being column `i`'s name and type; an error is some column's mapping error |
| Parquet.SchemaFirstError | src/executor/operator/physical_export.cpp:517-522 | the schema step fails with the error of the first column that does not map |
| Parquet.BuildSchema | src/executor/operator/physical_export.cpp:517-522 | the schema loop returns exactly `SchemaOf` |
| Arrow.GetArrowType | src/executor/operator/physical_export.cpp:667-864 | the mapping succeeds exactly on the exportable types; a sparse failure names the rejected part, a vector failure is the invalid element type, anything else is the invalid data type |
| Arrow.VectorNesting | src/executor/operator/physical_export.cpp:774-840 | embedding maps to fixed_size_list(elem, dim); tensor and multi-vector to a list of it; tensor array to a list of lists |
| Arrow.SparseLayout | src/executor/operator/physical_export.cpp:697-773 | sparse maps to a struct with `index` a list of the index type and `value` a list of the value type, omitted for bit values |
| Arrow.BFloat16Widened | src/executor/operator/physical_export.cpp:682-685 | bfloat16 columns and bfloat16 elements are widened to float32 |
| Arrow.PrimitiveBuilderAgrees | src/executor/operator/physical_export.cpp:871-924 | a scalar column has a builder exactly when the schema step maps it, and that builder's type is the schema's type (the time and timestamp builders are made with `time32(SECOND)` and `timestamp(SECOND)`) |
| Arrow.SparseIndexBuilderAgrees | src/executor/operator/physical_export.cpp:929-953 | a sparse index builder exists exactly for the int8..int64 index types, as a list builder of the `index` field's type; otherwise both steps fail with the invalid index type |
| Arrow.SparseValueBuilderAgrees | src/executor/operator/physical_export.cpp:954-1006 | a sparse value builder is absent exactly when the `value` field is (bit values), and otherwise is a list builder of that field's type; both steps fail on the invalid element type with the same error |
| Arrow.SparseStructAsWritten | src/executor/operator/physical_export.cpp:925-1014 | the sparse struct builder as written dereferences null exactly on the bit sparse types the schema step accepts; otherwise it is a consistent builder of the sparse schema type or fails with the schema step's error |
| Arrow.PresentFieldsConsistent | src/executor/operator/physical_export.cpp:1007-1012 | a struct builder with one field per builder present, named `index` and `value`, declares each field with its builder's type |
| Arrow.SparseStructMatches | src/executor/operator/physical_export.cpp:925-1014 | the sparse struct formed from the builders present is consistent, has the schema's sparse type, and fails exactly where the schema step does, with its error |
| Arrow.SparseStructAgrees | src/executor/operator/physical_export.cpp:1007-1012 | when the value type is not bit, the struct as written and the struct from the builders present are the same builder |
| Arrow.ElementBuilderAgrees | src/executor/operator/physical_export.cpp:1020-1067 | the element builder of a vector kind has the element type of the schema step, and both fail on `kElemInvalid` with the same error |
| Arrow.VectorBuilderAgrees | src/executor/operator/physical_export.cpp:1015-1087 | the fixed-size list builder of `dimension` elements, wrapped in one list builder for tensors and multi-vectors and two for tensor arrays, has the schema's vector type; both steps fail on the same element type |
| Arrow.MakeBuilderAsWritten | src/executor/operator/physical_export.cpp:866-1106 | the builder dereferences null exactly on the bit sparse types the schema step accepts; otherwise it builds a consistent builder of `GetArrowType`'s type or rejects with its error |
| Arrow.SparseBitBuilderCrashes | src/executor/operator/physical_export.cpp:954-1012 | a bit sparse column passes the schema step and then dereferences the unset value builder |
| Arrow.MakeBuilder | src/executor/operator/physical_export.cpp:866-1106 | with the sparse struct formed from the builders present, building never dereferences null |
| Arrow.BuilderMatchesSchema | src/executor/operator/physical_export.cpp:866-1106 | with the struct formed from the builders present, every column's builder is consistent and has its schema type, and the builder rejects exactly what the schema step rejected, with its error |
| Arrow.AsWrittenAgreesElsewhere | src/executor/operator/physical_export.cpp:866-1106 | the builder as written is the corrected builder on every type except bit sparse |

## Left out

- File and directory I/O: parent directories, opening, appending and closing files and Parquet writers. Files are sequences of records, and the returned `paths` are the names opened. Failures of those calls are not modelled.
- Storage internals: the `DeleteFilter` is a per-row visibility bit of each block. Column vectors, version vectors and the block's id and row count are given values.
- The per-segment `SegmentEntry` lookup and the transaction's begin timestamp are not modelled.
- `Value::ToString`, `AppendToJson`, `dump` and `AppendToArrowArray` are library rendering. The first two enter as parameters. A JSON object is modelled as a map from keys to cells, so the key order of the serializer is not modelled. Arrow array contents are not modelled.
- Parquet record batches are modelled by the rows they hold. The `block_rows_for_output` indices are not kept; the rows those indices gather are.
- `BuildArrowArray` is modelled by the builders it makes and the type `builder->type()` gives each. The arrays it fills are not modelled.
- Embedding payloads are opaque bytes; float, float16 and bfloat16 element handling is not modelled.
- The dimension is written little-endian; a big-endian host is not modelled.
- Logging (`LOG_DEBUG`) and the `EXPORT <n> Rows` result message are not modelled.
- The row-id column is modelled as consecutive segment offsets, the block's first offset plus the row index. `ColumnVector::AppendWith` is not part of this model. The `u16` block id and the `u32` product are not truncated.
- The fatal errors (`UnrecoverableError`) are modelled as an `Err` result. The files the CSV, JSON-lines and FVECS exporters had written before a failing block stay as the walk left them; the contracts say nothing about them.
- Exporters.ExportToCSV, Exporters.ExportToJSONL, Exporters.ExportToFVECS: each row's record is rendered after the walk, file by file, instead of inside the row loop. Rendering is a pure function of the row, so the file contents are the same.
- Exporters.ExportToFVECS: requires the requested column of a one-column request to be a schema column. A synthetic id there would make the C++ `ExportToFVECS` index past the schema (`column_defs[select_columns[0]]`), which is undefined behaviour.
- Parquet.ExportToPARQUET: follows the corrected builder of the Findings table. For a selected `Sparse(_, ElemBit)` column and a non-empty window, the contract promises the laid-out files where the code as written dereferences the null `value_builder` at line 1007 when it builds the first batch. `Arrow.MakeBuilderAsWritten` states exactly when that happens; the exporter does not thread it through.
- Parquet.ExportToPARQUET: requires every selected id to be a schema column. The schema step indexes the schema with each selected id, so a synthetic id is undefined behaviour there.
- The `Execute` dispatch over file types and its "Not supported file type" error are not modelled.

## Findings

| source | as written | input that shows it | evidently intended | confidence | as-written member | corrected member |
|---|---|---|---|---|---|---|
| src/executor/operator/physical_export.cpp:1007 | the sparse struct builder's type is formed from `value_builder->type()` even when the value type is bit, where `value_builder` stays null | a Parquet export of a sparse column with int32 indices and bit values (`Sparse(ElemInt32, ElemBit)`): `GetArrowType` accepts it, and building the first batch dereferences the null value builder | form the struct type from the builders present (`index`, plus `value` only when a value builder exists), as `GetArrowType` does at lines 768-772 | not executed | Arrow.SparseBitBuilderCrashes | Arrow.BuilderMatchesSchema |
