/** The row-selection walk shared by the row-at-a-time exporters (delimited
    text, JSON lines, FVECS): segment, block, row; skip invisible rows;
    consume `offset` visible rows; before writing a row, switch to
    `<path>.part<N>` when the count so far is a positive multiple of
    `rowLimit`; stop everything once `limit` rows are written. */
module RowWalk {
  import opened Types
  import opened Windowing
  import opened Storage

  /** The counters of the walk after it has seen the visible rows `seen`:
      the offset left to skip, the count written, and the files, holding the
      records of the window of `seen`, `rowLimit` to a file. */
  ghost predicate WalkState(seen: seq<Row>, offset: nat, limit: nat, rowLimit: nat,
                               offsetLeft: nat, rowCount: nat, files: seq<seq<Row>>)
  {
    && offsetLeft == (if |seen| < offset then offset - |seen| else 0)
    && rowCount == |Window(seen, offset, limit)|
    && files == Chunk(Window(seen, offset, limit), rowLimit)
    && (limit == 0 || rowCount < limit)
  }

  /** A visible row met while `offset > 0` only decrements the offset. */
  lemma SkipStep(seen: seq<Row>, x: Row, offset: nat, limit: nat, rowLimit: nat,
                    offsetLeft: nat, rowCount: nat, files: seq<seq<Row>>)
    requires WalkState(seen, offset, limit, rowLimit, offsetLeft, rowCount, files)
    requires offsetLeft > 0
    ensures WalkState(seen + [x], offset, limit, rowLimit, offsetLeft - 1, rowCount, files)
  {
    WindowSkip(seen, x, offset, limit);
  }

  /** A visible row met once the offset is consumed is written: to a new file
      when the count so far is a positive multiple of `rowLimit`, otherwise
      to the current one. */
  lemma EmitStep(seen: seq<Row>, x: Row, offset: nat, limit: nat, rowLimit: nat,
                    rowCount: nat, files: seq<seq<Row>>)
    requires WalkState(seen, offset, limit, rowLimit, 0, rowCount, files)
    ensures |seen + [x]| >= offset
    ensures |Window(seen + [x], offset, limit)| == rowCount + 1
    ensures Chunk(Window(seen + [x], offset, limit), rowLimit) ==
      if rowCount > 0 && rowLimit != 0 && rowCount % rowLimit == 0
      then files + [[x]]
      else AppendToLast(files, x)
  {
    var w := Window(seen, offset, limit);
    WindowEmit(seen, x, offset, limit);
    ChunkSnoc(w, x, rowLimit);
  }

  /** The visible rows of the blocks before block `bi` of segment `si`, in
      walk order. */
  ghost function Before(t: Table, sel: seq<ColumnId>, si: nat, bi: nat): seq<Row>
    requires WellFormed(t) && ValidSelection(t, sel) && si < |t.segments| && bi <= |t.segments[si].blocks|
  {
    assert SegmentWellFormed(t, t.segments[si]);
    SegmentsUpTo(t, sel, si) + BlocksUpTo(t, t.segments[si], sel, bi)
  }

  /** The walk gets to block `bi` of segment `si`: the rows before it do not
      fill the limit. */
  ghost predicate Reached(t: Table, sel: seq<ColumnId>, offset: nat, limit: nat, si: nat, bi: nat)
    requires WellFormed(t) && ValidSelection(t, sel) && si < |t.segments| && bi <= |t.segments[si].blocks|
  {
    limit == 0 || |Window(Before(t, sel, si, bi), offset, limit)| < limit
  }

  /** Block `bi` of segment `si` is reached and its columns fail the length
      check. */
  ghost predicate BlockFails(t: Table, sel: seq<ColumnId>, offset: nat, limit: nat, si: nat, bi: nat)
    requires WellFormed(t) && ValidSelection(t, sel) && si < |t.segments| && bi < |t.segments[si].blocks|
  {
    && BlockColumns(t, t.segments[si], t.segments[si].blocks[bi], sel).Err?
    && Reached(t, sel, offset, limit, si, bi)
  }

  /** The export raises "Unmatched row_count between block and block_column":
      some block it gets to before the limit is filled has a stored column of
      the wrong length. A bad block after the limit is never read. */
  ghost predicate FailsBeforeLimit(t: Table, sel: seq<ColumnId>, offset: nat, limit: nat)
    requires WellFormed(t) && ValidSelection(t, sel)
  {
    exists si, bi :: 0 <= si < |t.segments| && 0 <= bi < |t.segments[si].blocks|
      && BlockFails(t, sel, offset, limit, si, bi)
  }

  /** Only an inconsistent snapshot can make the export fail. */
  lemma FailureNeedsMismatch(t: Table, sel: seq<ColumnId>, offset: nat, limit: nat)
    requires WellFormed(t) && ValidSelection(t, sel)
    requires FailsBeforeLimit(t, sel, offset, limit)
    ensures !Consistent(t, sel)
  {
  }

  /** Once the rows before block `bi` fill the limit, the walk gets to no
      later block of the segment. */
  lemma LaterBlocksUnreached(t: Table, sel: seq<ColumnId>, offset: nat, limit: nat, si: nat, bi: nat)
    requires WellFormed(t) && ValidSelection(t, sel) && si < |t.segments| && bi <= |t.segments[si].blocks|
    requires limit != 0 && |Window(Before(t, sel, si, bi), offset, limit)| == limit
    ensures forall j :: bi <= j < |t.segments[si].blocks| ==> !Reached(t, sel, offset, limit, si, j)
    ensures |Window(SegmentsUpTo(t, sel, si + 1), offset, limit)| == limit
  {
    var seg := t.segments[si];
    assert SegmentWellFormed(t, seg);
    var p := SegmentsUpTo(t, sel, si);
    forall j | bi <= j < |seg.blocks| ensures !Reached(t, sel, offset, limit, si, j) {
      BlocksUpToPrefix(t, seg, sel, bi, j);
      PrefixAppend(p, BlocksUpTo(t, seg, sel, bi), BlocksUpTo(t, seg, sel, j));
      WindowSaturated(Before(t, sel, si, bi), Before(t, sel, si, j), offset, limit);
    }
    BlocksUpToPrefix(t, seg, sel, bi, |seg.blocks|);
    PrefixAppend(p, BlocksUpTo(t, seg, sel, bi), BlocksUpTo(t, seg, sel, |seg.blocks|));
    WindowSaturated(Before(t, sel, si, bi), SegmentsUpTo(t, sel, si + 1), offset, limit);
  }

  lemma FailWitness(t: Table, sel: seq<ColumnId>, offset: nat, limit: nat, si: nat, bi: nat)
    requires WellFormed(t) && ValidSelection(t, sel) && si < |t.segments| && bi < |t.segments[si].blocks|
    requires BlockFails(t, sel, offset, limit, si, bi)
    ensures FailsBeforeLimit(t, sel, offset, limit)
  {
  }

  /** The first `n` blocks of segment `si` pass the length check. */
  ghost predicate BlocksOk(t: Table, sel: seq<ColumnId>, si: nat, n: nat)
    requires WellFormed(t) && ValidSelection(t, sel) && si < |t.segments| && n <= |t.segments[si].blocks|
  {
    forall j {:trigger BlockColumns(t, t.segments[si], t.segments[si].blocks[j], sel)} :: 0 <= j < n ==>
      BlockColumns(t, t.segments[si], t.segments[si].blocks[j], sel).Ok?
  }

  lemma BlocksOkSnoc(t: Table, sel: seq<ColumnId>, si: nat, n: nat)
    requires WellFormed(t) && ValidSelection(t, sel) && si < |t.segments| && n < |t.segments[si].blocks|
    requires BlocksOk(t, sel, si, n) && BlockColumns(t, t.segments[si], t.segments[si].blocks[n], sel).Ok?
    ensures BlocksOk(t, sel, si, n + 1)
  {
  }

  /** No block of segment `si` makes the export fail. */
  ghost predicate SegmentPasses(t: Table, sel: seq<ColumnId>, offset: nat, limit: nat, si: nat)
    requires WellFormed(t) && ValidSelection(t, sel) && si < |t.segments|
  {
    forall j {:trigger BlockFails(t, sel, offset, limit, si, j)} :: 0 <= j < |t.segments[si].blocks| ==>
      !BlockFails(t, sel, offset, limit, si, j)
  }

  /** A segment read without a failure, to its end or until the limit is
      filled after its first `bi` blocks, does not make the export fail. */
  lemma SegmentPassed(t: Table, sel: seq<ColumnId>, offset: nat, limit: nat, si: nat, bi: nat)
    requires WellFormed(t) && ValidSelection(t, sel) && si < |t.segments| && bi <= |t.segments[si].blocks|
    requires BlocksOk(t, sel, si, bi)
    requires bi == |t.segments[si].blocks| || (limit != 0 && |Window(Before(t, sel, si, bi), offset, limit)| == limit)
    ensures SegmentPasses(t, sel, offset, limit, si)
    ensures limit != 0 && |Window(Before(t, sel, si, bi), offset, limit)| == limit ==>
      |Window(SegmentsUpTo(t, sel, si + 1), offset, limit)| == limit
  {
    if limit != 0 && |Window(Before(t, sel, si, bi), offset, limit)| == limit {
      LaterBlocksUnreached(t, sel, offset, limit, si, bi);
    }
  }

  lemma PassesSnoc(t: Table, sel: seq<ColumnId>, offset: nat, limit: nat, si: nat)
    requires WellFormed(t) && ValidSelection(t, sel) && si < |t.segments|
    requires forall s :: 0 <= s < si ==> SegmentPasses(t, sel, offset, limit, s)
    requires SegmentPasses(t, sel, offset, limit, si)
    ensures forall s :: 0 <= s < si + 1 ==> SegmentPasses(t, sel, offset, limit, s)
  {
  }

  /** A walk that read the first `k` segments without a failure, and then
      reached the table's end or had filled the limit, does not fail. */
  lemma TablePassed(t: Table, sel: seq<ColumnId>, offset: nat, limit: nat, k: nat)
    requires WellFormed(t) && ValidSelection(t, sel) && k <= |t.segments|
    requires forall s :: 0 <= s < k ==> SegmentPasses(t, sel, offset, limit, s)
    requires k == |t.segments| || (limit != 0 && |Window(SegmentsUpTo(t, sel, k), offset, limit)| == limit)
    ensures !FailsBeforeLimit(t, sel, offset, limit)
  {
    if k < |t.segments| {
      LaterSegmentsUnreached(t, sel, offset, limit, k);
    }
    forall s, j | 0 <= s < |t.segments| && 0 <= j < |t.segments[s].blocks|
      ensures !BlockFails(t, sel, offset, limit, s, j)
    {
      if s < k {
        assert SegmentPasses(t, sel, offset, limit, s);
      }
    }
  }
  /** A walk whose window fills in segment `si`, after segments that all
      passed, does not make the export fail. */
  lemma TableFilled(t: Table, sel: seq<ColumnId>, offset: nat, limit: nat, si: nat)
    requires WellFormed(t) && ValidSelection(t, sel) && si < |t.segments|
    requires forall s :: 0 <= s < si ==> SegmentPasses(t, sel, offset, limit, s)
    requires SegmentPasses(t, sel, offset, limit, si)
    requires limit != 0 && |Window(SegmentsUpTo(t, sel, si + 1), offset, limit)| == limit
    ensures !FailsBeforeLimit(t, sel, offset, limit)
  {
    PassesSnoc(t, sel, offset, limit, si);
    TablePassed(t, sel, offset, limit, si + 1);
  }


  /** Once the rows of the first `k` segments fill the limit, the walk gets
      to no block of a later segment. */
  lemma LaterSegmentsUnreached(t: Table, sel: seq<ColumnId>, offset: nat, limit: nat, k: nat)
    requires WellFormed(t) && ValidSelection(t, sel) && k <= |t.segments|
    requires limit != 0 && |Window(SegmentsUpTo(t, sel, k), offset, limit)| == limit
    ensures forall s, j :: k <= s < |t.segments| && 0 <= j < |t.segments[s].blocks| ==>
      !Reached(t, sel, offset, limit, s, j)
  {
    forall s, j | k <= s < |t.segments| && 0 <= j < |t.segments[s].blocks|
      ensures !Reached(t, sel, offset, limit, s, j)
    {
      var seg := t.segments[s];
      assert SegmentWellFormed(t, seg);
      SegmentsUpToPrefix(t, sel, k, s);
      PrefixOfAppend(SegmentsUpTo(t, sel, s), BlocksUpTo(t, seg, sel, j));
      PrefixTrans(SegmentsUpTo(t, sel, k), SegmentsUpTo(t, sel, s), Before(t, sel, s, j));
      WindowSaturated(SegmentsUpTo(t, sel, k), Before(t, sel, s, j), offset, limit);
    }
  }

  /** File `i` of the export is named `FileName(path, i)`. */
  ghost predicate NamedFiles(paths: seq<string>, path: string)
  {
    forall i :: 0 <= i < |paths| ==> paths[i] == FileName(path, i)
  }

  /** Writing one record once the offset is consumed: switch to the next part
      file when the count so far is a positive multiple of `rowLimit`, then
      append the record to the current file. */
  method EmitRecord(path: string, rowLimit: nat, rowCount: nat, fileNo: nat,
                       files: seq<seq<Row>>, paths: seq<string>, record: Row)
    returns (fileNo': nat, files': seq<seq<Row>>, paths': seq<string>)
    requires |paths| == |files| == fileNo + 1 && NamedFiles(paths, path)
    ensures |paths'| == |files'| == fileNo' + 1 && NamedFiles(paths', path)
    ensures files' == if rowCount > 0 && rowLimit != 0 && rowCount % rowLimit == 0
                      then files + [[record]] else AppendToLast(files, record)
  {
    if rowCount > 0 && rowLimit != 0 && rowCount % rowLimit == 0 {
      fileNo' := fileNo + 1;
      paths' := paths + [FileName(path, fileNo')];
      files' := files + [[record]];
    } else {
      fileNo', paths' := fileNo, paths;
      files' := AppendToLast(files, record);
    }
  }

  /** Row `ri` of a block: an invisible row is passed over; a visible one
      uses up one unit of the offset if any is left, otherwise it is written
      and counted. */
  method WalkRow(b: Block, cols: seq<seq<Value>>, ri: nat,
                    path: string, offset: nat, limit: nat, rowLimit: nat,
                    ghost base: seq<Row>, ghost seen: seq<Row>, offsetLeft: nat, rowCount: nat, fileNo: nat,
                    files: seq<seq<Row>>, paths: seq<string>)
    returns (ghost seen': seq<Row>, offsetLeft': nat, rowCount': nat,
             fileNo': nat, files': seq<seq<Row>>, paths': seq<string>)
    requires forall c :: 0 <= c < |cols| ==> |cols[c]| == |b.visible|
    requires ri < |b.visible| && seen == base + RowsUpTo(b, cols, ri)
    requires WalkState(seen, offset, limit, rowLimit, offsetLeft, rowCount, files)
    requires |paths| == |files| == fileNo + 1 && NamedFiles(paths, path)
    ensures seen' == base + RowsUpTo(b, cols, ri + 1)
    ensures |paths'| == |files'| == fileNo' + 1 && NamedFiles(paths', path)
    ensures files' == Chunk(Window(seen', offset, limit), rowLimit)
    ensures rowCount' == |Window(seen', offset, limit)|
    ensures !(limit != 0 && rowCount' == limit) ==> WalkState(seen', offset, limit, rowLimit, offsetLeft', rowCount', files')
  {
    seen', offsetLeft', rowCount', fileNo', files', paths' := seen, offsetLeft, rowCount, fileNo, files, paths;
    if !b.visible[ri] {
      return;
    }
    var vals := RowValues(cols, ri);
    assert base + RowsUpTo(b, cols, ri + 1) == seen + [vals];
    if offsetLeft > 0 {
      SkipStep(seen, vals, offset, limit, rowLimit, offsetLeft, rowCount, files);
      offsetLeft' := offsetLeft - 1;
      seen' := seen + [vals];
      return;
    }
    EmitStep(seen, vals, offset, limit, rowLimit, rowCount, files);
    fileNo', files', paths' := EmitRecord(path, rowLimit, rowCount, fileNo, files, paths, vals);
    rowCount' := rowCount + 1;
    seen' := seen + [vals];
  }

  /** The row loop over one block whose columns are `cols`. `scanned` is how
      many of the block's rows were looked at: all of them, unless the limit
      was reached (`done`). */
  method WalkBlock(b: Block, cols: seq<seq<Value>>,
                      path: string, offset: nat, limit: nat, rowLimit: nat,
                      ghost seen: seq<Row>, offsetLeft: nat, rowCount: nat, fileNo: nat,
                      files: seq<seq<Row>>, paths: seq<string>)
    returns (done: bool, ghost scanned: nat, ghost seen': seq<Row>, offsetLeft': nat, rowCount': nat,
             fileNo': nat, files': seq<seq<Row>>, paths': seq<string>)
    requires forall c :: 0 <= c < |cols| ==> |cols[c]| == |b.visible|
    requires WalkState(seen, offset, limit, rowLimit, offsetLeft, rowCount, files)
    requires |paths| == |files| == fileNo + 1 && NamedFiles(paths, path)
    ensures scanned <= |b.visible| && (!done ==> scanned == |b.visible|)
    ensures seen' == seen + RowsUpTo(b, cols, scanned)
    ensures |paths'| == |files'| == fileNo' + 1 && NamedFiles(paths', path)
    ensures files' == Chunk(Window(seen', offset, limit), rowLimit)
    ensures rowCount' == |Window(seen', offset, limit)|
    ensures done ==> limit != 0 && rowCount' == limit
    ensures !done ==> WalkState(seen', offset, limit, rowLimit, offsetLeft', rowCount', files')
  {
    seen', offsetLeft', rowCount', fileNo', files', paths' := seen, offsetLeft, rowCount, fileNo, files, paths;
    var ri := 0;
    while ri < |b.visible|
      invariant ri <= |b.visible|
      invariant seen' == seen + RowsUpTo(b, cols, ri)
      invariant WalkState(seen', offset, limit, rowLimit, offsetLeft', rowCount', files')
      invariant |paths'| == |files'| == fileNo' + 1 && NamedFiles(paths', path)
    {
      seen', offsetLeft', rowCount', fileNo', files', paths' :=
        WalkRow(b, cols, ri, path, offset, limit, rowLimit, seen, seen', offsetLeft', rowCount', fileNo', files', paths');
      if limit != 0 && rowCount' == limit {
        return true, ri + 1, seen', offsetLeft', rowCount', fileNo', files', paths';
      }
      ri := ri + 1;
    }
    done, scanned := false, ri;
  }

  /** Block `bi` of segment `si`: materialize its columns, then walk its
      rows. It stops on columns that fail the length check (`failed`) or
      once the limit is reached (`done`, having seen a prefix of the
      table's visible rows). */
  method WalkBlockAt(t: Table, sel: seq<ColumnId>, si: nat, bi: nat,
                        path: string, offset: nat, limit: nat, rowLimit: nat,
                        ghost seen: seq<Row>, offsetLeft: nat, rowCount: nat, fileNo: nat,
                        files: seq<seq<Row>>, paths: seq<string>)
    returns (failed: bool, done: bool, ghost seen': seq<Row>, offsetLeft': nat, rowCount': nat,
             fileNo': nat, files': seq<seq<Row>>, paths': seq<string>)
    requires WellFormed(t) && ValidSelection(t, sel) && si < |t.segments| && bi < |t.segments[si].blocks|
    requires SegmentWellFormed(t, t.segments[si])
    requires seen == SegmentsUpTo(t, sel, si) + BlocksUpTo(t, t.segments[si], sel, bi)
    requires WalkState(seen, offset, limit, rowLimit, offsetLeft, rowCount, files)
    requires |paths| == |files| == fileNo + 1 && NamedFiles(paths, path)
    ensures |paths'| == |files'| == fileNo' + 1 && NamedFiles(paths', path)
    ensures failed <==> BlockColumns(t, t.segments[si], t.segments[si].blocks[bi], sel).Err?
    ensures failed ==> BlockFails(t, sel, offset, limit, si, bi)
    ensures !failed ==>
      rowCount' == |Window(seen', offset, limit)| && files' == Chunk(Window(seen', offset, limit), rowLimit)
    ensures !failed && done ==>
      (limit != 0 && rowCount' == limit && seen' <= Records(t, sel)
       && |Window(Before(t, sel, si, bi + 1), offset, limit)| == limit)
    ensures !failed && !done ==>
      (seen' == SegmentsUpTo(t, sel, si) + BlocksUpTo(t, t.segments[si], sel, bi + 1)
       && WalkState(seen', offset, limit, rowLimit, offsetLeft', rowCount', files'))
  {
    seen', offsetLeft', rowCount', fileNo', files', paths' := seen, offsetLeft, rowCount, fileNo, files, paths;
    var seg := t.segments[si];
    var b := seg.blocks[bi];
    assert BlockWellFormed(t, b);
    var m := MaterializeColumns(t, seg, b, sel);
    if m.Err? {
      assert !BlockColumns(t, t.segments[si], t.segments[si].blocks[bi], sel).Ok?;
      return true, false, seen', offsetLeft', rowCount', fileNo', files', paths';
    }
    failed := false;
    ghost var scanned;
    done, scanned, seen', offsetLeft', rowCount', fileNo', files', paths' :=
      WalkBlock(b, m.value, path, offset, limit, rowLimit, seen, offsetLeft, rowCount, fileNo, files, paths);
    BlockScanned(t, sel, si, bi, m.value, scanned, !done);
    if done {
      WindowSaturated(seen', Before(t, sel, si, bi + 1), offset, limit);
    }
  }

  /** The block loop over segment `si`, picking up after the segments before
      it; the outcomes are those of `WalkBlockAt`. */
  method WalkSegment(t: Table, sel: seq<ColumnId>, si: nat,
                        path: string, offset: nat, limit: nat, rowLimit: nat,
                        ghost seen: seq<Row>, offsetLeft: nat, rowCount: nat, fileNo: nat,
                        files: seq<seq<Row>>, paths: seq<string>)
    returns (failed: bool, done: bool, ghost seen': seq<Row>, offsetLeft': nat, rowCount': nat,
             fileNo': nat, files': seq<seq<Row>>, paths': seq<string>)
    requires WellFormed(t) && ValidSelection(t, sel) && si < |t.segments|
    requires seen == SegmentsUpTo(t, sel, si)
    requires WalkState(seen, offset, limit, rowLimit, offsetLeft, rowCount, files)
    requires |paths| == |files| == fileNo + 1 && NamedFiles(paths, path)
    ensures |paths'| == |files'| == fileNo' + 1 && NamedFiles(paths', path)
    ensures failed ==> FailsBeforeLimit(t, sel, offset, limit)
    ensures !failed ==> SegmentPasses(t, sel, offset, limit, si)
    ensures !failed ==>
      rowCount' == |Window(seen', offset, limit)| && files' == Chunk(Window(seen', offset, limit), rowLimit)
    ensures !failed && done ==>
      (limit != 0 && rowCount' == limit && seen' <= Records(t, sel)
       && |Window(SegmentsUpTo(t, sel, si + 1), offset, limit)| == limit)
    ensures !failed && !done ==>
      (seen' == SegmentsUpTo(t, sel, si + 1)
       && WalkState(seen', offset, limit, rowLimit, offsetLeft', rowCount', files'))
  {
    seen', offsetLeft', rowCount', fileNo', files', paths' := seen, offsetLeft, rowCount, fileNo, files, paths;
    assert SegmentWellFormed(t, t.segments[si]);
    failed, done := false, false;
    var bi := 0;
    while bi < |t.segments[si].blocks| && !failed && !done
      invariant bi <= |t.segments[si].blocks|
      invariant |paths'| == |files'| == fileNo' + 1 && NamedFiles(paths', path)
      invariant failed ==> FailsBeforeLimit(t, sel, offset, limit)
      invariant !failed ==> BlocksOk(t, sel, si, bi)
      invariant !failed ==>
        rowCount' == |Window(seen', offset, limit)| && files' == Chunk(Window(seen', offset, limit), rowLimit)
      invariant !failed && done ==>
        (limit != 0 && rowCount' == limit && seen' <= Records(t, sel)
         && |Window(Before(t, sel, si, bi), offset, limit)| == limit)
      invariant !failed && !done ==>
        (seen' == SegmentsUpTo(t, sel, si) + BlocksUpTo(t, t.segments[si], sel, bi)
         && WalkState(seen', offset, limit, rowLimit, offsetLeft', rowCount', files'))
    {
      failed, done, seen', offsetLeft', rowCount', fileNo', files', paths' :=
        WalkBlockAt(t, sel, si, bi, path, offset, limit, rowLimit, seen', offsetLeft', rowCount', fileNo', files', paths');
      if failed {
        FailWitness(t, sel, offset, limit, si, bi);
      } else {
        BlocksOkSnoc(t, sel, si, bi);
      }
      bi := bi + 1;
    }
    if !failed {
      SegmentPassed(t, sel, offset, limit, si, bi);
    }
    if !failed && !done {
      SegmentComplete(t, sel, si);
    }
  }

  /** The walk. Returns the number of rows written, the rows written to
      every file opened (file i as the sequence of the selected cells of its
      rows, in order) and the files' names. */
  method ExportRows(t: Table, sel: seq<ColumnId>, path: string, offset: nat, limit: nat, rowLimit: nat)
    returns (res: Result<nat>, files: seq<seq<Row>>, paths: seq<string>)
    requires WellFormed(t) && ValidSelection(t, sel)
    ensures |paths| == |files| >= 1 && NamedFiles(paths, path)
    ensures res.Ok? ==>
      var emitted := Window(Records(t, sel), offset, limit);
      res.value == |emitted| && files == Chunk(emitted, rowLimit)
    ensures res.Err? <==> FailsBeforeLimit(t, sel, offset, limit)
    ensures res.Err? ==> res.error == UnmatchedRowCount
  {
    files, paths := [[]], [path];
    var offsetLeft := offset;
    var rowCount := 0;
    var fileNo := 0;
    ghost var seen: seq<Row> := [];
    assert Window(seen, offset, limit) == [];
    var si := 0;
    while si < |t.segments|
      invariant si <= |t.segments|
      invariant seen == SegmentsUpTo(t, sel, si)
      invariant WalkState(seen, offset, limit, rowLimit, offsetLeft, rowCount, files)
      invariant |paths| == |files| == fileNo + 1 && NamedFiles(paths, path)
      invariant forall s :: 0 <= s < si ==> SegmentPasses(t, sel, offset, limit, s)
    {
      var failed, done;
      failed, done, seen, offsetLeft, rowCount, fileNo, files, paths :=
        WalkSegment(t, sel, si, path, offset, limit, rowLimit, seen, offsetLeft, rowCount, fileNo, files, paths);
      if failed {
        return Err(UnmatchedRowCount), files, paths;
      }
      PassesSnoc(t, sel, offset, limit, si);
      if done {
        WindowSaturated(seen, Records(t, sel), offset, limit);
        TablePassed(t, sel, offset, limit, si + 1);
        return Ok(rowCount), files, paths;
      }
      si := si + 1;
    }
    TablePassed(t, sel, offset, limit, si);
    assert seen == Records(t, sel);
    res := Ok(rowCount);
  }

  /** The number of visible rows among the first `n` rows of a block, the
      first `k` blocks of a segment, the first `k` segments of a table. */
  function VisibleInBlock(b: Block, n: nat): nat
    requires n <= |b.visible|
  {
    if n == 0 then 0 else VisibleInBlock(b, n - 1) + (if b.visible[n - 1] then 1 else 0)
  }

  function VisibleInSegment(seg: Segment, k: nat): nat
    requires k <= |seg.blocks|
  {
    if k == 0 then 0 else VisibleInSegment(seg, k - 1) + VisibleInBlock(seg.blocks[k - 1], |seg.blocks[k - 1].visible|)
  }

  function VisibleInTable(t: Table, k: nat): nat
    requires k <= |t.segments|
  {
    if k == 0 then 0 else VisibleInTable(t, k - 1) + VisibleInSegment(t.segments[k - 1], |t.segments[k - 1].blocks|)
  }

  lemma {:induction false} RowsUpToLength(b: Block, cols: seq<seq<Value>>, n: nat)
    requires n <= |b.visible|
    requires forall c :: 0 <= c < |cols| ==> |cols[c]| == |b.visible|
    ensures |RowsUpTo(b, cols, n)| == VisibleInBlock(b, n)
  {
    if n > 0 {
      RowsUpToLength(b, cols, n - 1);
    }
  }

  /** A block that passes the length check contributes one record per visible row. */
  lemma BlockRecordsLength(t: Table, seg: Segment, b: Block, sel: seq<ColumnId>)
    requires BlockWellFormed(t, b) && ValidSelection(t, sel)
    requires BlockColumns(t, seg, b, sel).Ok?
    ensures |BlockRecords(t, seg, b, sel)| == VisibleInBlock(b, |b.visible|)
  {
    RowsUpToLength(b, BlockColumns(t, seg, b, sel).value, |b.visible|);
  }

  lemma {:induction false} BlocksUpToLength(t: Table, seg: Segment, sel: seq<ColumnId>, k: nat)
    requires k <= |seg.blocks| && SegmentWellFormed(t, seg) && ValidSelection(t, sel)
    requires forall j :: 0 <= j < |seg.blocks| ==> BlockColumns(t, seg, seg.blocks[j], sel).Ok?
    ensures |BlocksUpTo(t, seg, sel, k)| == VisibleInSegment(seg, k)
  {
    if k > 0 {
      BlocksUpToLength(t, seg, sel, k - 1);
      BlockRecordsLength(t, seg, seg.blocks[k - 1], sel);
    }
  }

  lemma {:induction false} SegmentsUpToLength(t: Table, sel: seq<ColumnId>, k: nat)
    requires k <= |t.segments| && WellFormed(t) && ValidSelection(t, sel) && Consistent(t, sel)
    ensures |SegmentsUpTo(t, sel, k)| == VisibleInTable(t, k)
  {
    if k > 0 {
      SegmentsUpToLength(t, sel, k - 1);
      var seg := t.segments[k - 1];
      assert SegmentWellFormed(t, seg);
      forall j | 0 <= j < |seg.blocks| ensures BlockColumns(t, seg, seg.blocks[j], sel).Ok? {
        assert BlockColumns(t, t.segments[k - 1], t.segments[k - 1].blocks[j], sel).Ok?;
      }
      BlocksUpToLength(t, seg, sel, |seg.blocks|);
    }
  }

  /** The count an export reports: the visible rows past `offset`, capped at
      `limit` when a limit is set. Invisible rows neither count nor consume
      the offset. */
  lemma ExportedCount(t: Table, sel: seq<ColumnId>, offset: nat, limit: nat)
    requires WellFormed(t) && ValidSelection(t, sel) && Consistent(t, sel)
    ensures var visible := VisibleInTable(t, |t.segments|);
      |Window(Records(t, sel), offset, limit)| ==
        if limit == 0 then Max0(visible - offset) else Min(limit, Max0(visible - offset))
  {
    SegmentsUpToLength(t, sel, |t.segments|);
    WindowContents(Records(t, sel), offset, limit);
  }
}
