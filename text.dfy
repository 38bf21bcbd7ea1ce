/** Text rendering of the delimited-text exporter: the header built from the
    selected columns' labels and the per-row line built from the cells'
    textual forms, both "fields joined by the delimiter, then one newline". */
module DelimitedText {
  import opened Types

  /** The fields joined by the delimiter (no terminator). */
  function Join(fields: seq<string>, d: char): string
  {
    if fields == [] then ""
    else if |fields| == 1 then fields[0]
    else fields[0] + [d] + Join(fields[1..], d)
  }

  /** What the header and line loops build: every field followed by the
      delimiter, except the last, which is followed by one newline; nothing
      at all for an empty selection. */
  function Terminated(fields: seq<string>, d: char): string
  {
    if fields == [] then "" else Join(fields, d) + "\n"
  }

  /** Splitting a text at every occurrence of the delimiter. */
  function Fields(s: string, d: char): (r: seq<string>)
    ensures |r| >= 1
  {
    if s == [] then [""]
    else
      var rest := Fields(s[1..], d);
      if s[0] == d then [""] + rest else [[s[0]] + rest[0]] + rest[1..]
  }

  /** Reading a line back: drop the newline, split at the delimiter. */
  function SplitLine(line: string, d: char): seq<string>
  {
    if line == [] then [] else Fields(line[..|line| - 1], d)
  }

  lemma JoinSnoc(fields: seq<string>, f: string, d: char)
    requires fields != []
    ensures Join(fields + [f], d) == Join(fields, d) + [d] + f
    decreases |fields|
  {
    if |fields| == 1 {
      assert (fields + [f])[1..] == [f];
    } else {
      assert (fields + [f])[1..] == fields[1..] + [f];
      JoinSnoc(fields[1..], f, d);
    }
  }

  lemma {:induction false} FieldsOfPlain(f: string, d: char)
    requires d !in f
    ensures Fields(f, d) == [f]
  {
    if f != [] {
      FieldsOfPlain(f[1..], d);
      assert [f[0]] + f[1..] == f;
    }
  }

  lemma {:induction false} FieldsOfCons(f: string, rest: string, d: char)
    requires d !in f
    ensures Fields(f + [d] + rest, d) == [f] + Fields(rest, d)
  {
    if f == [] {
      assert f + [d] + rest == [d] + rest;
      assert ([d] + rest)[1..] == rest;
    } else {
      var s := f + [d] + rest;
      assert s[1..] == f[1..] + [d] + rest;
      FieldsOfCons(f[1..], rest, d);
      assert [f[0]] + f[1..] == f;
    }
  }

  /** Joining fields free of the delimiter and splitting again gives the
      fields back. */
  lemma {:induction false} SplitJoin(fields: seq<string>, d: char)
    requires fields != []
    requires forall i :: 0 <= i < |fields| ==> d !in fields[i]
    ensures Fields(Join(fields, d), d) == fields
    decreases |fields|
  {
    if |fields| == 1 {
      FieldsOfPlain(fields[0], d);
    } else {
      SplitJoin(fields[1..], d);
      FieldsOfCons(fields[0], Join(fields[1..], d), d);
      assert [fields[0]] + fields[1..] == fields;
    }
  }

  /** A terminated line holds exactly its fields, in order, and ends in one
      newline; an empty field list gives the empty text. */
  lemma LineRoundTrip(fields: seq<string>, d: char)
    requires forall i :: 0 <= i < |fields| ==> d !in fields[i]
    ensures SplitLine(Terminated(fields, d), d) == fields
    ensures fields != [] ==> Terminated(fields, d)[|Terminated(fields, d)| - 1] == '\n'
  {
    if fields != [] {
      var t := Terminated(fields, d);
      assert t[..|t| - 1] == Join(fields, d);
      SplitJoin(fields, d);
    }
  }

  /** The header label of a selected column: the fixed names of the three
      synthetic columns, otherwise the schema column's name. */
  function ColumnLabel(defs: seq<ColumnDef>, c: ColumnId): string
    requires c.Ordinary? ==> c.index < |defs|
  {
    match c
    case RowIdColumn => "_row_id"
    case CreateColumn => "_create_timestamp"
    case DeleteColumn => "_delete_timestamp"
    case Ordinary(k) => defs[k].name
  }

  predicate LabelsDefined(defs: seq<ColumnDef>, sel: seq<ColumnId>)
  {
    forall i :: 0 <= i < |sel| && sel[i].Ordinary? ==> sel[i].index < |defs|
  }

  function Labels(defs: seq<ColumnDef>, sel: seq<ColumnId>): (r: seq<string>)
    requires LabelsDefined(defs, sel)
    ensures |r| == |sel| && forall i :: 0 <= i < |sel| ==> r[i] == ColumnLabel(defs, sel[i])
  {
    seq(|sel|, i requires 0 <= i < |sel| => ColumnLabel(defs, sel[i]))
  }

  /** The header after its loop has written `i` of the labels: those labels
      joined, followed by the delimiter, or by the newline once every label
      is written. */
  function HeaderPrefix(labels: seq<string>, i: nat, d: char): string
    requires i <= |labels|
  {
    if i == 0 then "" else Join(labels[..i], d) + (if i < |labels| then [d] else "\n")
  }

  /** One turn of the header loop. */
  lemma HeaderStep(labels: seq<string>, i: nat, d: char)
    requires i < |labels|
    ensures HeaderPrefix(labels, i + 1, d) ==
      HeaderPrefix(labels, i, d) + labels[i] + (if i != |labels| - 1 then [d] else "\n")
  {
    assert labels[..i + 1] == labels[..i] + [labels[i]];
    if i > 0 {
      JoinSnoc(labels[..i], labels[i], d);
    } else {
      assert labels[..i + 1] == [labels[i]];
    }
  }

  /** The header loop: one label per selected column, delimiter-separated,
      newline-terminated. */
  method BuildHeader(defs: seq<ColumnDef>, sel: seq<ColumnId>, d: char) returns (header: string)
    requires LabelsDefined(defs, sel)
    ensures header == Terminated(Labels(defs, sel), d)
  {
    ghost var labels := Labels(defs, sel);
    var n := |sel|;
    header := "";
    var i := 0;
    while i < n
      invariant i <= n
      invariant header == HeaderPrefix(labels, i, d)
    {
      var name := ColumnLabel(defs, sel[i]);
      HeaderStep(labels, i, d);
      header := header + name;
      if i != n - 1 {
        header := header + [d];
      } else {
        header := header + "\n";
      }
      i := i + 1;
    }
    assert labels[..n] == labels;
  }

  /** The header holds one label per selected column; the synthetic columns
      carry their fixed labels. */
  lemma HeaderFields(defs: seq<ColumnDef>, sel: seq<ColumnId>, d: char)
    requires LabelsDefined(defs, sel)
    requires forall i :: 0 <= i < |sel| ==> d !in ColumnLabel(defs, sel[i])
    ensures var h := SplitLine(Terminated(Labels(defs, sel), d), d);
      && |h| == |sel|
      && (forall i :: 0 <= i < |sel| && sel[i].RowIdColumn? ==> h[i] == "_row_id")
      && (forall i :: 0 <= i < |sel| && sel[i].CreateColumn? ==> h[i] == "_create_timestamp")
      && (forall i :: 0 <= i < |sel| && sel[i].DeleteColumn? ==> h[i] == "_delete_timestamp")
      && (forall i :: 0 <= i < |sel| && sel[i].Ordinary? ==> h[i] == defs[sel[i].index].name)
  {
    LineRoundTrip(Labels(defs, sel), d);
  }

  /** The logical types whose textual form is wrapped in double quotes. */
  predicate IsComposite(ty: LogicalType)
  {
    ty.Embedding? || ty.MultiVector? || ty.Tensor? || ty.TensorArray? || ty.Sparse?
  }

  /** The logical type of a cell as `Value::type()` reports it. */
  function TypeOf(v: Value): LogicalType
  {
    match v
    case Cell(ty, _) => ty
    case RowIdValue(_, _) => RowID
    case TimestampValue(_) => BigInt
  }

  /** One field of a line: the cell's text (`Value::ToString`, a parameter),
      quoted for the composite types. */
  function CsvField(v: Value, toText: Value -> string): string
  {
    if IsComposite(TypeOf(v)) then "\"" + toText(v) + "\"" else toText(v)
  }

  function CsvFields(vals: seq<Value>, toText: Value -> string): (r: seq<string>)
    ensures |r| == |vals| && forall i :: 0 <= i < |vals| ==> r[i] == CsvField(vals[i], toText)
  {
    seq(|vals|, i requires 0 <= i < |vals| => CsvField(vals[i], toText))
  }

  /** The line of one row: empty for an empty selection, otherwise ending
      in the newline written after the last column. */
  function CsvLine(vals: seq<Value>, d: char, toText: Value -> string): (r: string)
    ensures vals == [] <==> r == ""
    ensures vals != [] ==> r[|r| - 1] == '\n'
  {
    Terminated(CsvFields(vals, toText), d)
  }

  /** The line renderer for a given delimiter and `ToString`. */
  function CsvRender(d: char, toText: Value -> string): seq<Value> -> string
  {
    vals => CsvLine(vals, d, toText)
  }

  /** A line holds exactly one field per selected column, in order, ending in
      one newline; a composite value's field is its text in double quotes and
      any other value's field is its text unchanged (provided no text
      contains the delimiter). */
  lemma CsvLineFields(vals: seq<Value>, d: char, toText: Value -> string)
    requires d != '"'
    requires forall i :: 0 <= i < |vals| ==> d !in toText(vals[i])
    ensures var f := SplitLine(CsvLine(vals, d, toText), d);
      && |f| == |vals|
      && (vals != [] ==> CsvLine(vals, d, toText)[|CsvLine(vals, d, toText)| - 1] == '\n')
      && (forall i :: 0 <= i < |vals| && IsComposite(TypeOf(vals[i])) ==> f[i] == "\"" + toText(vals[i]) + "\"")
      && (forall i :: 0 <= i < |vals| && !IsComposite(TypeOf(vals[i])) ==> f[i] == toText(vals[i]))
  {
    var fields := CsvFields(vals, toText);
    forall i | 0 <= i < |fields| ensures d !in fields[i] {
      if IsComposite(TypeOf(vals[i])) {
        assert fields[i] == "\"" + toText(vals[i]) + "\"";
      }
    }
    LineRoundTrip(fields, d);
  }
}
