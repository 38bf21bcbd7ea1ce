/** The three row-at-a-time exporters. Each one runs the shared row walk over
    its selection and writes one record per emitted row into the current
    output file: a delimited-text line, a JSON-lines object, or an FVECS
    record. The CSV header, when requested, opens the primary file only. */
module Exporters {
  import opened Types
  import opened Windowing
  import opened Storage
  import opened RowWalk
  import DelimitedText
  import JsonLines
  import Fvecs

  /** The records of a file: one rendered record per row, in row order. */
  function Rendered<X>(rows: seq<Row>, render: Row -> X): (r: seq<X>)
    ensures |r| == |rows| && forall i :: 0 <= i < |rows| ==> r[i] == render(rows[i])
  {
    seq(|rows|, i requires 0 <= i < |rows| => render(rows[i]))
  }

  /** The records of every file. */
  function FileRecords<X>(files: seq<seq<Row>>, render: Row -> X): (r: seq<seq<X>>)
    ensures |r| == |files| && forall i :: 0 <= i < |files| ==> r[i] == Rendered(files[i], render)
  {
    seq(|files|, i requires 0 <= i < |files| => Rendered(files[i], render))
  }

  /** What lands in each file: its records back to back, the primary file
      starting with `preamble` (the CSV header, or nothing). */
  function FileContents<X>(preamble: seq<X>, files: seq<seq<Row>>, render: Row -> seq<X>): (r: seq<seq<X>>)
    requires |files| >= 1
    ensures |r| == |files|
    ensures r[0] == preamble + Flatten(Rendered(files[0], render))
    ensures forall i :: 1 <= i < |files| ==> r[i] == Flatten(Rendered(files[i], render))
  {
    seq(|files|, i requires 0 <= i < |files| => (if i == 0 then preamble else []) + Flatten(Rendered(files[i], render)))
  }

  lemma RenderedAppend<X>(a: seq<Row>, b: seq<Row>, render: Row -> X)
    ensures Rendered(a + b, render) == Rendered(a, render) + Rendered(b, render)
  {
  }

  /** Rendering file by file and concatenating renders the concatenated rows. */
  lemma {:induction false} FlattenRendered<X>(files: seq<seq<Row>>, render: Row -> X)
    ensures Flatten(FileRecords(files, render)) == Rendered(Flatten(files), render)
  {
    if files != [] {
      assert FileRecords(files, render)[1..] == FileRecords(files[1..], render);
      FlattenRendered(files[1..], render);
      RenderedAppend(files[0], Flatten(files[1..]), render);
    }
  }

  /** Across the files, the records are those of the emitted rows, one per
      row and in order; every file but the last holds exactly `rowLimit`
      records and the last at most `rowLimit`. */
  lemma RecordsLayout<X>(emitted: seq<Row>, rowLimit: nat, render: Row -> X)
    ensures var recs := FileRecords(Chunk(emitted, rowLimit), render);
      && Flatten(recs) == Rendered(emitted, render)
      && (rowLimit != 0 ==> forall i :: 0 <= i < |recs| - 1 ==> |recs[i]| == rowLimit)
      && (rowLimit != 0 ==> |recs[|recs| - 1]| <= rowLimit)
  {
    var files := Chunk(emitted, rowLimit);
    FlattenRendered(files, render);
    ChunkFlatten(emitted, rowLimit);
    ChunkSizes(emitted, rowLimit);
  }

  /** The CSV header, or nothing when none is requested. */
  function CsvPreamble(defs: seq<ColumnDef>, sel: seq<ColumnId>, cfg: ExportConfig): string
    requires DelimitedText.LabelsDefined(defs, sel)
  {
    if cfg.header then DelimitedText.Terminated(DelimitedText.Labels(defs, sel), cfg.delimiter) else ""
  }

  /** `ExportToCSV`: the header (when requested) at the start of the primary
      file, then one line per emitted row. `toText` is `Value::ToString`.
      The export fails exactly when a block it gets to before the limit is
      filled has a stored column of the wrong length. */
  method ExportToCSV(t: Table, cfg: ExportConfig, toText: Value -> string)
    returns (res: Result<nat>, contents: seq<string>, paths: seq<string>)
    requires WellFormed(t) && ValidSelection(t, cfg.columns)
    ensures var sel := Selection(cfg.columns, |t.columnDefs|);
      && |contents| == |paths| >= 1 && NamedFiles(paths, cfg.path)
      && ValidSelection(t, sel)
      && (res.Ok? ==>
            var emitted := Window(Records(t, sel), cfg.offset, cfg.limit);
            && res.value == |emitted|
            && contents == FileContents(CsvPreamble(t.columnDefs, sel, cfg), Chunk(emitted, cfg.rowLimit),
                                        DelimitedText.CsvRender(cfg.delimiter, toText)))
      && (res.Err? <==> FailsBeforeLimit(t, sel, cfg.offset, cfg.limit))
      && (res.Err? ==> res.error == UnmatchedRowCount)
  {
    var sel := SelectColumns(cfg.columns, |t.columnDefs|);
    SelectionValid(t, cfg.columns);
    var header := "";
    if cfg.header {
      header := DelimitedText.BuildHeader(t.columnDefs, sel, cfg.delimiter);
    }
    var files;
    res, files, paths := ExportRows(t, sel, cfg.path, cfg.offset, cfg.limit, cfg.rowLimit);
    contents := FileContents(header, files, DelimitedText.CsvRender(cfg.delimiter, toText));
  }

  /** The CSV lines across the files are the lines of the emitted rows in
      order, `rowLimit` to a file, and each line holds one field per
      selected column (quoted for composite values) and ends in a newline. */
  lemma CsvExportLines(emitted: seq<Row>, rowLimit: nat, d: char, toText: Value -> string)
    requires d != '"'
    requires forall j, c :: 0 <= j < |emitted| && 0 <= c < |emitted[j]| ==> d !in toText(emitted[j][c])
    ensures var lines := FileRecords(Chunk(emitted, rowLimit), DelimitedText.CsvRender(d, toText));
      && Flatten(lines) == Rendered(emitted, DelimitedText.CsvRender(d, toText))
      && (rowLimit != 0 ==> forall i :: 0 <= i < |lines| - 1 ==> |lines[i]| == rowLimit)
      && (rowLimit != 0 ==> |lines[|lines| - 1]| <= rowLimit)
    ensures forall j :: 0 <= j < |emitted| ==>
      var f := DelimitedText.SplitLine(Rendered(emitted, DelimitedText.CsvRender(d, toText))[j], d);
      && |f| == |emitted[j]|
      && (forall c :: 0 <= c < |f| && DelimitedText.IsComposite(DelimitedText.TypeOf(emitted[j][c])) ==>
            f[c] == "\"" + toText(emitted[j][c]) + "\"")
      && (forall c :: 0 <= c < |f| && !DelimitedText.IsComposite(DelimitedText.TypeOf(emitted[j][c])) ==>
            f[c] == toText(emitted[j][c]))
  {
    RecordsLayout(emitted, rowLimit, DelimitedText.CsvRender(d, toText));
    forall j | 0 <= j < |emitted|
      ensures var f := DelimitedText.SplitLine(Rendered(emitted, DelimitedText.CsvRender(d, toText))[j], d);
        && |f| == |emitted[j]|
        && (forall c :: 0 <= c < |f| && DelimitedText.IsComposite(DelimitedText.TypeOf(emitted[j][c])) ==>
              f[c] == "\"" + toText(emitted[j][c]) + "\"")
        && (forall c :: 0 <= c < |f| && !DelimitedText.IsComposite(DelimitedText.TypeOf(emitted[j][c])) ==>
              f[c] == toText(emitted[j][c]))
    {
      DelimitedText.CsvLineFields(emitted[j], d, toText);
    }
  }

  /** `ExportToJSONL`: one object per emitted row, keyed by the selected
      columns' labels. `dump` is the JSON serializer. */
  method ExportToJSONL(t: Table, cfg: ExportConfig, dump: map<string, Value> -> string)
    returns (res: Result<nat>, contents: seq<string>, paths: seq<string>)
    requires WellFormed(t) && ValidSelection(t, cfg.columns)
    ensures var sel := Selection(cfg.columns, |t.columnDefs|);
      && |contents| == |paths| >= 1 && NamedFiles(paths, cfg.path)
      && ValidSelection(t, sel)
      && (res.Ok? ==>
            var emitted := Window(Records(t, sel), cfg.offset, cfg.limit);
            && res.value == |emitted|
            && contents == FileContents("", Chunk(emitted, cfg.rowLimit),
                                        JsonLines.JsonlRender(DelimitedText.Labels(t.columnDefs, sel), dump)))
      && (res.Err? <==> FailsBeforeLimit(t, sel, cfg.offset, cfg.limit))
      && (res.Err? ==> res.error == UnmatchedRowCount)
  {
    var sel := SelectColumns(cfg.columns, |t.columnDefs|);
    SelectionValid(t, cfg.columns);
    var files;
    res, files, paths := ExportRows(t, sel, cfg.path, cfg.offset, cfg.limit, cfg.rowLimit);
    var labels := DelimitedText.Labels(t.columnDefs, sel);
    contents := FileContents("", files, JsonLines.JsonlRender(labels, dump));
  }

  /** The JSON lines across the files are the lines of the emitted rows in
      order, `rowLimit` to a file; with distinct labels, the object of each
      row maps every label to the cell of its column and has no other key. */
  lemma JsonlExportObjects(labels: seq<string>, emitted: seq<Row>, rowLimit: nat, dump: map<string, Value> -> string)
    requires forall i, j :: 0 <= i < j < |labels| ==> labels[i] != labels[j]
    requires forall j :: 0 <= j < |emitted| ==> |emitted[j]| == |labels|
    ensures var lines := FileRecords(Chunk(emitted, rowLimit), JsonLines.JsonlRender(labels, dump));
      && Flatten(lines) == Rendered(emitted, JsonLines.JsonlRender(labels, dump))
      && (rowLimit != 0 ==> forall i :: 0 <= i < |lines| - 1 ==> |lines[i]| == rowLimit)
      && (rowLimit != 0 ==> |lines[|lines| - 1]| <= rowLimit)
    ensures forall j :: 0 <= j < |emitted| ==>
      var obj := JsonLines.JsonObject(JsonLines.Zip(labels, emitted[j]));
      && Rendered(emitted, JsonLines.JsonlRender(labels, dump))[j] == dump(obj) + "\n"
      && (forall k :: k in obj <==> k in labels)
      && (forall c :: 0 <= c < |labels| ==> obj[labels[c]] == emitted[j][c])
  {
    RecordsLayout(emitted, rowLimit, JsonLines.JsonlRender(labels, dump));
    forall j | 0 <= j < |emitted|
      ensures var obj := JsonLines.JsonObject(JsonLines.Zip(labels, emitted[j]));
        && (forall k :: k in obj <==> k in labels)
        && (forall c :: 0 <= c < |labels| ==> labels[c] in obj && obj[labels[c]] == emitted[j][c])
    {
      JsonLines.RowObject(labels, emitted[j]);
    }
  }

  /** `ExportToFVECS`: the checks of the requested column first (no file on
      failure), then one record per emitted row of that column: its
      dimension as `i32`, then the embedding's bytes. */
  method ExportToFVECS(t: Table, cfg: ExportConfig)
    returns (res: Result<nat>, contents: seq<seq<byte>>, paths: seq<string>)
    requires WellFormed(t) && ValidSelection(t, cfg.columns)
    requires |cfg.columns| == 1 ==> cfg.columns[0].Ordinary?
    ensures var check := Fvecs.FvecsCheck(t.columnDefs, cfg.columns);
      && (check.Err? ==> res == Err(check.error) && contents == [] && paths == [])
      && (check.Ok? ==> |contents| == |paths| >= 1 && NamedFiles(paths, cfg.path))
      && (res.Ok? ==>
            var emitted := Window(Records(t, cfg.columns), cfg.offset, cfg.limit);
            && check.Ok?
            && res.value == |emitted|
            && contents == FileContents([], Chunk(emitted, cfg.rowLimit), Fvecs.FvecsRender(check.value)))
      && (res.Err? <==> check.Err? || FailsBeforeLimit(t, cfg.columns, cfg.offset, cfg.limit))
      && (res.Err? && check.Ok? ==> res.error == UnmatchedRowCount)
  {
    var check := Fvecs.FvecsCheck(t.columnDefs, cfg.columns);
    if check.Err? {
      return Err(check.error), [], [];
    }
    var dimension := check.value;
    var files;
    res, files, paths := ExportRows(t, cfg.columns, cfg.path, cfg.offset, cfg.limit, cfg.rowLimit);
    contents := FileContents([], files, Fvecs.FvecsRender(dimension));
  }

  /** Every FVECS file reads back as the embeddings of its rows, in order,
      when each embedding holds `dimension` floats; across the files these
      are the emitted rows, `rowLimit` to a file. */
  lemma FvecsExportReadBack(dimension: nat, emitted: seq<Row>, rowLimit: nat)
    requires dimension < Fvecs.TwoTo32
    requires forall j :: 0 <= j < |emitted| ==> |Fvecs.Payload(emitted[j])| == 4 * dimension
    ensures var files := Chunk(emitted, rowLimit);
      var contents := FileContents([], files, Fvecs.FvecsRender(dimension));
      && Flatten(files) == emitted
      && (rowLimit != 0 ==> forall i :: 0 <= i < |files| - 1 ==> |files[i]| == rowLimit)
      && forall i :: 0 <= i < |files| ==> Fvecs.ParseFvecs(contents[i]) == Fvecs.Payloads(files[i])
  {
    var files := Chunk(emitted, rowLimit);
    var contents := FileContents([], files, Fvecs.FvecsRender(dimension));
    ChunkFlatten(emitted, rowLimit);
    ChunkSizes(emitted, rowLimit);
    forall i | 0 <= i < |files| ensures Fvecs.ParseFvecs(contents[i]) == Fvecs.Payloads(files[i]) {
      forall j | 0 <= j < |files[i]| ensures |Fvecs.Payload(files[i][j])| == 4 * dimension {
        ChunkMember(emitted, rowLimit, i, j);
      }
      FvecsFileReadBack(dimension, files[i]);
      if i == 0 {
        assert contents[i] == Flatten(Rendered(files[i], Fvecs.FvecsRender(dimension)));
      }
    }
  }

  /** One FVECS file reads back as the embeddings of its rows. */
  lemma FvecsFileReadBack(dimension: nat, rows: seq<Row>)
    requires dimension < Fvecs.TwoTo32
    requires forall j :: 0 <= j < |rows| ==> |Fvecs.Payload(rows[j])| == 4 * dimension
    ensures Fvecs.ParseFvecs(Flatten(Rendered(rows, Fvecs.FvecsRender(dimension)))) == Fvecs.Payloads(rows)
  {
    assert Rendered(rows, Fvecs.FvecsRender(dimension)) == Fvecs.FvecsRecords(dimension, rows);
    Fvecs.FvecsRoundTrip(dimension, rows);
  }

  /** Every row of a file is one of the emitted rows. */
  lemma {:induction false} ChunkMember(s: seq<Row>, rowLimit: nat, i: nat, j: nat)
    requires i < |Chunk(s, rowLimit)| && j < |Chunk(s, rowLimit)[i]|
    ensures Chunk(s, rowLimit)[i][j] in s
    decreases |s|
  {
    if !(rowLimit == 0 || |s| <= rowLimit) && i > 0 {
      ChunkMember(s[rowLimit..], rowLimit, i - 1, j);
    }
  }
}
