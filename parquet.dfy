/** The columnar exporter. Rows are written in record batches: `consume_block`
    cuts a block's visible, post-offset rows into batches, ending a batch when
    the running count reaches a multiple of `rowLimit` or reaches `limit`, and
    defers the switch to the next part file (flag `switchToNewFile`) until the
    next non-empty batch is about to be written. */
module Parquet {
  import opened Types
  import opened Windowing
  import opened Storage
  import opened RowWalk
  import Arrow

  /** A record batch, row by row (the column arrays hold the same cells). */
  type Batch = seq<Row>

  /** The rows of each file: its batches concatenated. */
  function FileRows(files: seq<seq<Batch>>): (r: seq<seq<Row>>)
    ensures |r| == |files| && forall i :: 0 <= i < |files| ==> r[i] == Flatten(files[i])
  {
    seq(|files|, i requires 0 <= i < |files| => Flatten(files[i]))
  }

  /** The rows of each file once the batch being collected is written:
      unchanged while it is empty, in a fresh part file when a switch is
      pending, otherwise after the current file's rows. */
  function Placed(fileRows: seq<seq<Row>>, batch: Batch, switch: bool): seq<seq<Row>>
    requires |fileRows| >= 1
  {
    if batch == [] then fileRows
    else if switch then fileRows + [batch]
    else fileRows[..|fileRows| - 1] + [fileRows[|fileRows| - 1] + batch]
  }

  /** The count at which the next written row opens a new file. */
  predicate SwitchDue(rowLimit: nat, count: nat)
  {
    rowLimit != 0 && count > 0 && count % rowLimit == 0
  }

  /** Adding a row to a non-empty batch adds it to the file that batch goes to. */
  lemma {:induction false} PlacedSnoc(fileRows: seq<seq<Row>>, batch: Batch, switch: bool, x: Row)
    requires |fileRows| >= 1 && batch != []
    ensures Placed(fileRows, batch + [x], switch) == AppendToLast(Placed(fileRows, batch, switch), x)
  {
    var n := |fileRows|;
    if switch {
      assert (fileRows + [batch])[..n] == fileRows;
    } else {
      var front := fileRows[..n - 1];
      var before := front + [fileRows[n - 1] + batch];
      assert before[..n - 1] == front;
      assert fileRows[n - 1] + batch + [x] == fileRows[n - 1] + (batch + [x]);
    }
  }

  /** The counters of `consume_block` after it has read the visible rows
      `visited`, with `batch` collected and not yet written: the offset left
      to skip, the rows taken (`emitted`, the window of `visited`) and their
      count, the rows of each file as they will be once the batch is written
      (`emitted`, `rowLimit` to a file), and a pending switch exactly when
      the rows before the batch filled a file. */
  ghost predicate Progress(visited: seq<Row>, emitted: seq<Row>, offset: nat, rowCount: nat, fileRows: seq<seq<Row>>,
                           switch: bool, batch: Batch, initialOffset: nat, limit: nat, rowLimit: nat)
  {
    && offset == (if |visited| < initialOffset then initialOffset - |visited| else 0)
    && emitted == Window(visited, initialOffset, limit)
    && rowCount == |emitted|
    && |fileRows| >= 1
    && |batch| <= rowCount
    && Placed(fileRows, batch, switch) == Chunk(emitted, rowLimit)
    && (switch <==> SwitchDue(rowLimit, rowCount - |batch|))
  }

  /** A visible row read while the offset is not consumed is skipped. */
  lemma {:induction false} ProgressSkip(visited: seq<Row>, emitted: seq<Row>, offset: nat, rowCount: nat, fileRows: seq<seq<Row>>,
                                        switch: bool, batch: Batch, initialOffset: nat, limit: nat, rowLimit: nat, x: Row)
    requires Progress(visited, emitted, offset, rowCount, fileRows, switch, batch, initialOffset, limit, rowLimit)
    requires offset > 0
    ensures Progress(visited + [x], emitted, offset - 1, rowCount, fileRows, switch, batch, initialOffset, limit, rowLimit)
  {
    WindowSkip(visited, x, initialOffset, limit);
  }

  /** A visible row read once the offset is consumed joins the batch; the
      batch never straddles a file boundary because it is cut as soon as the
      count is a multiple of `rowLimit`. */
  lemma {:induction false} ProgressEmit(visited: seq<Row>, emitted: seq<Row>, rowCount: nat, fileRows: seq<seq<Row>>,
                                        switch: bool, batch: Batch, initialOffset: nat, limit: nat, rowLimit: nat, x: Row)
    requires Progress(visited, emitted, 0, rowCount, fileRows, switch, batch, initialOffset, limit, rowLimit)
    requires limit == 0 || rowCount < limit
    requires batch != [] ==> !SwitchDue(rowLimit, rowCount)
    ensures Progress(visited + [x], emitted + [x], 0, rowCount + 1, fileRows, switch, batch + [x], initialOffset, limit, rowLimit)
  {
    assert |visited| >= initialOffset;
    WindowEmit(visited, x, initialOffset, limit);
    PlacedEmit(fileRows, batch, switch, emitted, x, rowLimit);
  }

  /** A row taken into the batch, as `ProgressEmit` says, with the batch
      still inside one file and the rows taken still `emitted0` then the
      batch. */
  lemma RowTaken(visited: seq<Row>, emitted: seq<Row>, rowCount: nat, fileRows: seq<seq<Row>>,
                 switch: bool, batch: Batch, initialOffset: nat, limit: nat, rowLimit: nat, x: Row,
                 count0: nat, emitted0: seq<Row>)
    requires Progress(visited, emitted, 0, rowCount, fileRows, switch, batch, initialOffset, limit, rowLimit)
    requires limit == 0 || rowCount < limit
    requires batch != [] ==> !SwitchDue(rowLimit, rowCount)
    requires emitted == emitted0 + batch && rowCount == count0 + |batch| && Fits(rowLimit, count0, |batch|)
    ensures Progress(visited + [x], emitted + [x], 0, rowCount + 1, fileRows, switch, batch + [x], initialOffset, limit, rowLimit)
    ensures emitted + [x] == emitted0 + (batch + [x]) && Fits(rowLimit, count0, |batch| + 1)
  {
    ProgressEmit(visited, emitted, rowCount, fileRows, switch, batch, initialOffset, limit, rowLimit, x);
    FitsStep(count0, |batch|, rowLimit);
    AppendAssoc(emitted0, batch, [x]);
  }

  /** Adding a row to the batch adds it to the chunking of the emitted rows,
      since the batch is cut before the count reaches a file boundary. */
  lemma PlacedEmit(fileRows: seq<seq<Row>>, batch: Batch, switch: bool, w: seq<Row>, x: Row, rowLimit: nat)
    requires |fileRows| >= 1 && |batch| <= |w|
    requires Placed(fileRows, batch, switch) == Chunk(w, rowLimit)
    requires switch <==> SwitchDue(rowLimit, |w| - |batch|)
    requires batch != [] ==> !SwitchDue(rowLimit, |w|)
    ensures Placed(fileRows, batch + [x], switch) == Chunk(w + [x], rowLimit)
  {
    ChunkSnoc(w, x, rowLimit);
    if batch == [] {
      assert batch + [x] == [x];
    } else {
      PlacedSnoc(fileRows, batch, switch, x);
    }
  }

  /** Once the batch is written, nothing is pending and a switch is due
      exactly when the count is a positive multiple of `rowLimit`. */
  lemma {:induction false} ProgressWritten(visited: seq<Row>, emitted: seq<Row>, offset: nat, rowCount: nat, fileRows: seq<seq<Row>>,
                                           switch: bool, batch: Batch, initialOffset: nat, limit: nat, rowLimit: nat, needSwitch: bool)
    requires Progress(visited, emitted, offset, rowCount, fileRows, switch, batch, initialOffset, limit, rowLimit)
    requires batch != [] && (needSwitch <==> SwitchDue(rowLimit, rowCount))
    ensures Progress(visited, emitted, offset, rowCount, Placed(fileRows, batch, switch), needSwitch, [], initialOffset, limit, rowLimit)
  {
  }

  /** The files once a non-empty batch is written: in a fresh part file
      when a switch is pending, otherwise at the end of the current file. */
  function WithBatch(files: seq<seq<Batch>>, batch: Batch, switch: bool): (r: seq<seq<Batch>>)
    requires |files| >= 1
    ensures |r| == |files| + (if switch then 1 else 0)
  {
    if switch then files + [[batch]] else AppendToLast(files, batch)
  }

  /** A batch of `n` rows begun once `count` rows are written stays inside
      one file: it ends at the next multiple of `rowLimit` at the latest. */
  predicate Fits(rowLimit: nat, count: nat, n: nat)
  {
    rowLimit == 0 || count % rowLimit + n <= rowLimit
  }

  /** Length of the next piece of a run of `n` rows begun once `count`
      rows are written: the whole run, or the room left in the file. */
  function Piece(rowLimit: nat, count: nat, n: nat): (k: nat)
    requires n > 0
    ensures 0 < k <= n
  {
    if rowLimit == 0 then n else Min(n, rowLimit - count % rowLimit)
  }

  /** Each piece fits in one file, and every piece but the last ends on a
      file boundary. */
  lemma PieceFits(rowLimit: nat, count: nat, n: nat)
    requires n > 0
    ensures Fits(rowLimit, count, Piece(rowLimit, count, n))
    ensures Piece(rowLimit, count, n) < n ==> SwitchDue(rowLimit, count + Piece(rowLimit, count, n))
  {
    if rowLimit != 0 {
      var room := rowLimit - count % rowLimit;
      DivModUnique(count + room, rowLimit, count / rowLimit + 1, 0);
    }
  }

  /** Reference definition of the batches one block adds: the rows `run` it
      contributes to the window, written once `count` rows are written, cut
      wherever the count reaches a multiple of `rowLimit`; each piece goes
      to a new part file when the rows before it filled a file, otherwise to
      the end of the current one. */
  function AddRun(files: seq<seq<Batch>>, count: nat, run: seq<Row>, rowLimit: nat): (r: seq<seq<Batch>>)
    requires |files| >= 1
    ensures |r| >= |files|
    decreases |run|
  {
    if run == [] then files
    else
      var k := Piece(rowLimit, count, |run|);
      AddRun(WithBatch(files, run[..k], SwitchDue(rowLimit, count)), count + k, run[k..], rowLimit)
  }

  /** The rows written since the count was last a multiple of `rowLimit`
      end no earlier than that multiple: a run ending on a file boundary
      holds at least the room left in the file it started in. */
  lemma RoomUsed(count: nat, m: nat, rowLimit: nat)
    requires rowLimit > 0 && m >= 1 && (count + m) % rowLimit == 0
    ensures m >= rowLimit - count % rowLimit
  {
    var q, x := count / rowLimit, count % rowLimit;
    if m < rowLimit - x {
      DivModUnique(count + m, rowLimit, q, x + m);
    }
  }

  /** A run that ends on a file boundary is cut at the same place when
      more rows follow it. */
  lemma PieceOfLonger(rowLimit: nat, count: nat, n: nat, m: nat)
    requires n > 0 && SwitchDue(rowLimit, count + n)
    ensures Piece(rowLimit, count, n + m) == Piece(rowLimit, count, n)
  {
    RoomUsed(count, n, rowLimit);
  }

  /** A batch that fits and has not reached a file boundary still fits
      after one more row. */
  lemma FitsStep(count: nat, n: nat, rowLimit: nat)
    requires Fits(rowLimit, count, n)
    requires n > 0 ==> !SwitchDue(rowLimit, count + n)
    ensures Fits(rowLimit, count, n + 1)
  {
    if rowLimit != 0 && n > 0 && count % rowLimit + n == rowLimit {
      DivModUnique(count + n, rowLimit, count / rowLimit + 1, 0);
    }
  }

  /** A run that fits in one file is one piece. */
  lemma AddRunWhole(files: seq<seq<Batch>>, count: nat, batch: Batch, rowLimit: nat)
    requires |files| >= 1 && batch != [] && Fits(rowLimit, count, |batch|)
    ensures AddRun(files, count, batch, rowLimit) == WithBatch(files, batch, SwitchDue(rowLimit, count))
  {
    assert Piece(rowLimit, count, |batch|) == |batch|;
    assert batch[..|batch|] == batch && batch[|batch|..] == [];
  }

  /** Writing one more batch: when the rows so far end on a file boundary
      (or there are none yet) and the batch fits in one file, the batch is
      the next piece of the run. */
  lemma {:induction false} AddRunSnoc(files: seq<seq<Batch>>, count: nat, run: seq<Row>, batch: Batch, rowLimit: nat, total: nat)
    requires |files| >= 1 && batch != [] && total == count + |run|
    requires run == [] || SwitchDue(rowLimit, total)
    requires Fits(rowLimit, total, |batch|)
    ensures AddRun(files, count, run + batch, rowLimit)
      == WithBatch(AddRun(files, count, run, rowLimit), batch, SwitchDue(rowLimit, total))
    decreases |run|
  {
    if run == [] {
      assert run + batch == batch;
      AddRunWhole(files, count, batch, rowLimit);
    } else {
      var k := Piece(rowLimit, count, |run|);
      AddRunFirstPiece(files, count, run, batch, rowLimit);
      AddRunSnoc(WithBatch(files, run[..k], SwitchDue(rowLimit, count)), count + k, run[k..], batch, rowLimit, total);
    }
  }

  /** A run that ends on a file boundary is cut first where it would be
      alone when more rows follow it. */
  lemma AddRunFirstPiece(files: seq<seq<Batch>>, count: nat, run: seq<Row>, batch: Batch, rowLimit: nat)
    requires |files| >= 1 && run != [] && SwitchDue(rowLimit, count + |run|)
    ensures var k := Piece(rowLimit, count, |run|);
      AddRun(files, count, run + batch, rowLimit)
        == AddRun(WithBatch(files, run[..k], SwitchDue(rowLimit, count)), count + k, run[k..] + batch, rowLimit)
  {
    var k := Piece(rowLimit, count, |run|);
    PieceOfLonger(rowLimit, count, |run|, |batch|);
    assert (run + batch)[..k] == run[..k];
    assert (run + batch)[k..] == run[k..] + batch;
  }

  /** The part files: one name per file, no empty batch anywhere, and
      `fileRows` the rows of the files. */
  ghost predicate LaidOut(files: seq<seq<Batch>>, paths: seq<string>, fileNo: nat, path: string, fileRows: seq<seq<Row>>)
  {
    && |files| == |paths| == fileNo + 1 && NamedFiles(paths, path)
    && NonEmptyBatches(files)
    && HoldRows(files, fileRows)
  }

  /** File `i` holds the rows `fileRows[i]`, its batches concatenated. */
  predicate HoldRows(files: seq<seq<Batch>>, fileRows: seq<seq<Row>>)
  {
    |files| == |fileRows| && forall i {:trigger Flatten(files[i])} :: 0 <= i < |files| ==> Flatten(files[i]) == fileRows[i]
  }

  /** No part file holds an empty record batch. */
  predicate NonEmptyBatches(files: seq<seq<Batch>>)
  {
    forall i, j {:trigger |files[i][j]|} :: 0 <= i < |files| && 0 <= j < |files[i]| ==> |files[i][j]| > 0
  }

  lemma NamedFilesSnoc(paths: seq<string>, path: string)
    requires NamedFiles(paths, path)
    ensures NamedFiles(paths + [FileName(path, |paths|)], path)
  {
    var paths' := paths + [FileName(path, |paths|)];
    forall i | 0 <= i < |paths'| ensures paths'[i] == FileName(path, i) {
      if i < |paths| {
        assert paths'[i] == paths[i];
      }
    }
  }

  lemma NonEmptyNewFile(files: seq<seq<Batch>>, batch: Batch)
    requires NonEmptyBatches(files) && batch != []
    ensures NonEmptyBatches(files + [[batch]])
  {
    var files' := files + [[batch]];
    forall i, j | 0 <= i < |files'| && 0 <= j < |files'[i]| ensures |files'[i][j]| > 0 {
      if i < |files| {
        assert files'[i] == files[i];
      }
    }
  }

  lemma NonEmptySameFile(files: seq<seq<Batch>>, batch: Batch)
    requires |files| >= 1 && NonEmptyBatches(files) && batch != []
    ensures NonEmptyBatches(AppendToLast(files, batch))
  {
    var n := |files|;
    var files' := AppendToLast(files, batch);
    forall i, j | 0 <= i < |files'| && 0 <= j < |files'[i]| ensures |files'[i][j]| > 0 {
      if i < n - 1 {
        assert files'[i] == files[i];
      } else if j < |files[n - 1]| {
        assert files'[i][j] == files[n - 1][j];
      }
    }
  }

  lemma HoldRowsNewFile(files: seq<seq<Batch>>, fileRows: seq<seq<Row>>, batch: Batch)
    requires HoldRows(files, fileRows)
    ensures HoldRows(files + [[batch]], fileRows + [batch])
  {
    var files', rows' := files + [[batch]], fileRows + [batch];
    assert Flatten([batch]) == batch + Flatten([]);
    forall i | 0 <= i < |files'| ensures Flatten(files'[i]) == rows'[i] {
      if i < |files| {
        assert files'[i] == files[i] && rows'[i] == fileRows[i];
      }
    }
  }

  lemma HoldRowsSameFile(files: seq<seq<Batch>>, fileRows: seq<seq<Row>>, batch: Batch)
    requires |files| >= 1 && HoldRows(files, fileRows)
    ensures HoldRows(AppendToLast(files, batch), fileRows[..|fileRows| - 1] + [fileRows[|fileRows| - 1] + batch])
  {
    var n := |files|;
    var files', rows' := AppendToLast(files, batch), fileRows[..n - 1] + [fileRows[n - 1] + batch];
    FlattenSnoc(files[n - 1], batch);
    forall i | 0 <= i < n ensures Flatten(files'[i]) == rows'[i] {
      if i < n - 1 {
        assert files'[i] == files[i] && rows'[i] == fileRows[i];
      }
    }
  }

  /** Writing a batch into a new part file keeps the layout. */
  lemma LaidOutNewFile(files: seq<seq<Batch>>, paths: seq<string>, fileNo: nat, path: string,
                       fileRows: seq<seq<Row>>, batch: Batch)
    requires LaidOut(files, paths, fileNo, path, fileRows) && batch != []
    ensures LaidOut(files + [[batch]], paths + [FileName(path, fileNo + 1)], fileNo + 1, path, Placed(fileRows, batch, true))
  {
    NamedFilesSnoc(paths, path);
    NonEmptyNewFile(files, batch);
    HoldRowsNewFile(files, fileRows, batch);
  }

  /** Writing a batch at the end of the current file keeps the layout. */
  lemma LaidOutSameFile(files: seq<seq<Batch>>, paths: seq<string>, fileNo: nat, path: string,
                        fileRows: seq<seq<Row>>, batch: Batch)
    requires LaidOut(files, paths, fileNo, path, fileRows) && batch != []
    ensures LaidOut(AppendToLast(files, batch), paths, fileNo, path, Placed(fileRows, batch, false))
  {
    NonEmptySameFile(files, batch);
    HoldRowsSameFile(files, fileRows, batch);
  }

  /** The state `consume_block` captures by reference, and the part files
      written so far (each a sequence of record batches). */
  class ParquetSink {
    const path: string
    const initialOffset: nat
    const limit: nat
    const rowLimit: nat
    var offset: nat
    var rowCount: nat
    var fileNo: nat
    var switchToNewFile: bool
    var files: seq<seq<Batch>>
    var paths: seq<string>
    /** The visible rows read so far, skipped or written. */
    ghost var visited: seq<Row>
    /** The rows taken so far: the window of `visited`. */
    ghost var emitted: seq<Row>
    /** The rows of each file, its batches concatenated. */
    ghost var fileRows: seq<seq<Row>>

    /** While `batch` is collected but not yet written: one name per file,
        no empty batch anywhere, `fileRows` the rows of the files, and the
        counters as `Progress` relates them to the rows read. */
    ghost predicate Pending(batch: Batch)
      reads this`files, this`paths, this`fileNo, this`fileRows
      reads this`visited, this`emitted, this`offset, this`rowCount, this`switchToNewFile
    {
      && LaidOut(files, paths, fileNo, path, fileRows)
      && Progress(visited, emitted, offset, rowCount, fileRows, switchToNewFile, batch, initialOffset, limit, rowLimit)
    }

    /** Between batches: the files hold exactly the rows written so far,
        laid out `rowLimit` to a file, and a switch is pending exactly when
        the count is a positive multiple of `rowLimit`. */
    ghost predicate Valid()
      reads this`files, this`paths, this`fileNo, this`fileRows
      reads this`visited, this`emitted, this`offset, this`rowCount, this`switchToNewFile
    {
      && LaidOut(files, paths, fileNo, path, fileRows)
      && Progress(visited, emitted, offset, rowCount, fileRows, switchToNewFile, [], initialOffset, limit, rowLimit)
    }

    constructor (path: string, offset: nat, limit: nat, rowLimit: nat)
      ensures Valid() && visited == []
      ensures this.path == path && initialOffset == offset && this.limit == limit && this.rowLimit == rowLimit
      ensures files == [[]] && paths == [path] && rowCount == 0 && emitted == []
    {
      this.path := path;
      this.initialOffset := offset;
      this.limit := limit;
      this.rowLimit := rowLimit;
      this.offset := offset;
      rowCount := 0;
      fileNo := 0;
      switchToNewFile := false;
      files := [[]];
      paths := [path];
      visited := [];
      emitted := [];
      fileRows := [[]];
      assert Flatten<Row>([]) == [];
    }

    /** The inner loop: from row `start0`, collect visible post-offset rows
        until the count reaches a multiple of `rowLimit` (`needSwitch`),
        reaches `limit`, or the block ends. `start` is where it stopped: the
        last row taken when it stopped early, the row count otherwise. */
    method CollectBatch(b: Block, cols: seq<seq<Value>>, start0: nat, ghost base: seq<Row>)
      returns (batch: Batch, start: nat, needSwitch: bool)
      requires forall c :: 0 <= c < |cols| ==> |cols[c]| == |b.visible|
      requires start0 < |b.visible|
      requires Valid() && (limit == 0 || rowCount < limit)
      requires visited == base + RowsUpTo(b, cols, start0)
      modifies this`offset, this`rowCount, this`visited, this`emitted
      ensures start0 <= start <= |b.visible|
      ensures visited == base + RowsUpTo(b, cols, Min(start + 1, |b.visible|))
      ensures batch == [] ==> start == |b.visible| && Valid() && (limit == 0 || rowCount < limit)
      ensures batch != [] ==> Pending(batch) && 0 < rowCount && (limit == 0 || rowCount <= limit)
      ensures batch != [] ==> (needSwitch <==> SwitchDue(rowLimit, rowCount))
      ensures batch != [] && start < |b.visible| ==> needSwitch || rowCount == limit
      ensures emitted == old(emitted) + batch
      ensures rowCount == old(rowCount) + |batch| && Fits(rowLimit, old(rowCount), |batch|)
    {
      var n := |b.visible|;
      batch, start, needSwitch := [], start0, false;
      while start < n
        invariant start0 <= start <= n
        invariant LaidOut(files, paths, fileNo, path, fileRows)
        invariant Progress(visited, emitted, offset, rowCount, fileRows, switchToNewFile, batch, initialOffset, limit, rowLimit)
        invariant rowCount == old(rowCount) + |batch|
        invariant batch != [] ==> !SwitchDue(rowLimit, rowCount)
        invariant emitted == old(emitted) + batch
        invariant Fits(rowLimit, old(rowCount), |batch|)
        invariant limit == 0 || rowCount < limit
        invariant visited == base + RowsUpTo(b, cols, start)
      {
        var taken, full, reached := ReadRow(b, cols, start, base, batch, old(rowCount), old(emitted));
        if !taken {
          start := start + 1;
          continue;
        }
        batch := batch + [RowValues(cols, start)];
        if full {
          needSwitch := true;
          break;
        }
        if reached {
          break;
        }
        start := start + 1;
      }
    }

    /** Row `start` of the block reaching the inner loop: an invisible row is
        passed over; a visible one uses up one unit of the offset if any is
        left, otherwise it is counted and joins the batch (`taken`). */
    method ReadRow(b: Block, cols: seq<seq<Value>>, start: nat, ghost base: seq<Row>, ghost batch: Batch,
                   ghost count0: nat, ghost emitted0: seq<Row>)
      returns (taken: bool, full: bool, reached: bool)
      requires forall c :: 0 <= c < |cols| ==> |cols[c]| == |b.visible|
      requires start < |b.visible|
      requires visited == base + RowsUpTo(b, cols, start)
      requires Progress(visited, emitted, offset, rowCount, fileRows, switchToNewFile, batch, initialOffset, limit, rowLimit)
      requires limit == 0 || rowCount < limit
      requires batch != [] ==> !SwitchDue(rowLimit, rowCount)
      requires emitted == emitted0 + batch && rowCount == count0 + |batch| && Fits(rowLimit, count0, |batch|)
      modifies this`offset, this`rowCount, this`visited, this`emitted
      ensures visited == base + RowsUpTo(b, cols, start + 1)
      ensures taken ==> (b.visible[start] && rowCount == old(rowCount) + 1
        && Progress(visited, emitted, offset, rowCount, fileRows, switchToNewFile, batch + [RowValues(cols, start)], initialOffset, limit, rowLimit))
      ensures taken ==> (full <==> SwitchDue(rowLimit, rowCount)) && (reached <==> rowCount == limit)
      ensures !taken ==> (rowCount == old(rowCount)
        && Progress(visited, emitted, offset, rowCount, fileRows, switchToNewFile, batch, initialOffset, limit, rowLimit))
      ensures emitted == old(emitted) + (if taken then [RowValues(cols, start)] else [])
      ensures taken ==> emitted == emitted0 + (batch + [RowValues(cols, start)]) && Fits(rowLimit, count0, |batch| + 1)
    {
      full, reached := false, false;
      if !b.visible[start] {
        return false, full, reached;
      }
      ghost var x := RowValues(cols, start);
      assert base + RowsUpTo(b, cols, start + 1) == visited + [x];
      if offset > 0 {
        SkipRow(x, batch);
        assert emitted + [] == emitted;
        return false, full, reached;
      }
      TakeRow(x, batch, count0, emitted0);
      taken := true;
      full := rowLimit != 0 && rowCount % rowLimit == 0;
      reached := rowCount == limit;
    }

    /** A visible row read while some offset is left uses up one unit of it. */
    method SkipRow(ghost x: Row, ghost batch: Batch)
      requires Progress(visited, emitted, offset, rowCount, fileRows, switchToNewFile, batch, initialOffset, limit, rowLimit)
      requires offset > 0
      modifies this`offset, this`visited
      ensures visited == old(visited) + [x] && offset == old(offset) - 1
      ensures Progress(visited, emitted, offset, rowCount, fileRows, switchToNewFile, batch, initialOffset, limit, rowLimit)
    {
      ProgressSkip(visited, emitted, offset, rowCount, fileRows, switchToNewFile, batch, initialOffset, limit, rowLimit, x);
      offset, visited := offset - 1, visited + [x];
    }

    /** A visible row read once the offset is used up is counted and joins
        the batch. */
    method TakeRow(ghost x: Row, ghost batch: Batch, ghost count0: nat, ghost emitted0: seq<Row>)
      requires Progress(visited, emitted, offset, rowCount, fileRows, switchToNewFile, batch, initialOffset, limit, rowLimit)
      requires offset == 0 && (limit == 0 || rowCount < limit)
      requires batch != [] ==> !SwitchDue(rowLimit, rowCount)
      requires emitted == emitted0 + batch && rowCount == count0 + |batch| && Fits(rowLimit, count0, |batch|)
      modifies this`rowCount, this`visited, this`emitted
      ensures visited == old(visited) + [x] && emitted == old(emitted) + [x] && rowCount == old(rowCount) + 1
      ensures Progress(visited, emitted, offset, rowCount, fileRows, switchToNewFile, batch + [x], initialOffset, limit, rowLimit)
      ensures emitted == emitted0 + (batch + [x]) && Fits(rowLimit, count0, |batch| + 1)
    {
      RowTaken(visited, emitted, rowCount, fileRows, switchToNewFile, batch, initialOffset, limit, rowLimit, x, count0, emitted0);
      rowCount, visited, emitted := rowCount + 1, visited + [x], emitted + [x];
    }

    /** Writing a collected batch: close the current file and open
        `<path>.part<++fileNo>` first if a switch is pending; afterwards a
        switch is pending exactly when this batch ended on a multiple of
        `rowLimit`. */
    method WriteBatch(batch: Batch, needSwitch: bool)
      requires batch != [] && Pending(batch)
      requires needSwitch <==> SwitchDue(rowLimit, rowCount)
      modifies this`fileNo, this`paths, this`files, this`fileRows, this`switchToNewFile
      ensures Valid()
      ensures files == WithBatch(old(files), batch, SwitchDue(rowLimit, rowCount - |batch|))
      ensures switchToNewFile == needSwitch
    {
      var files' := WithBatch(files, batch, switchToNewFile);
      var fileNo', paths' := fileNo, paths;
      if switchToNewFile {
        fileNo' := fileNo + 1;
        paths' := paths + [FileName(path, fileNo')];
        LaidOutNewFile(files, paths, fileNo, path, fileRows, batch);
      } else {
        LaidOutSameFile(files, paths, fileNo, path, fileRows, batch);
      }
      ghost var rows' := Placed(fileRows, batch, switchToNewFile);
      assert LaidOut(files', paths', fileNo', path, rows');
      ProgressWritten(visited, emitted, offset, rowCount, fileRows, switchToNewFile, batch, initialOffset, limit, rowLimit, needSwitch);
      fileNo, paths, files, fileRows, switchToNewFile := fileNo', paths', files', rows', needSwitch;
    }

    /** One pass of `consume_block`'s outer loop from row `start`: collect a
        batch and, when it is not empty, write it. `stop` when the limit is
        reached; `next` is where the outer loop goes on. */
    method NextBatch(b: Block, cols: seq<seq<Value>>, start: nat, ghost base: seq<Row>)
      returns (next: nat, stop: bool, batch: Batch)
      requires forall c :: 0 <= c < |cols| ==> |cols[c]| == |b.visible|
      requires start < |b.visible|
      requires Valid() && (limit == 0 || rowCount < limit)
      requires visited == base + RowsUpTo(b, cols, start)
      modifies this`offset, this`rowCount, this`visited, this`emitted
      modifies this`fileNo, this`paths, this`files, this`fileRows, this`switchToNewFile
      ensures Valid()
      ensures start < next <= |b.visible| + 1
      ensures visited == base + RowsUpTo(b, cols, Min(next, |b.visible|))
      ensures stop <==> limit != 0 && rowCount == limit
      ensures !stop ==> limit == 0 || rowCount < limit
      ensures emitted == old(emitted) + batch
      ensures rowCount == old(rowCount) + |batch| && Fits(rowLimit, old(rowCount), |batch|)
      ensures files == if batch == [] then old(files) else WithBatch(old(files), batch, SwitchDue(rowLimit, old(rowCount)))
      ensures next <= |b.visible| && !stop ==> batch != [] && SwitchDue(rowLimit, rowCount)
    {
      ghost var files0, count0 := files, rowCount;
      var s, needSwitch;
      batch, s, needSwitch := CollectBatch(b, cols, start, base);
      if batch == [] {
        return s + 1, false, batch;
      }
      assert files == files0 && rowCount - |batch| == count0;
      WriteBatch(batch, needSwitch);
      return s + 1, rowCount == limit, batch;
    }

    /** One pass of the outer loop of `consume_block`, with the rows `run`
        the block has added so far. */
    method ConsumeStep(b: Block, cols: seq<seq<Value>>, start: nat, ghost base: seq<Row>,
                       ghost w0: seq<Row>, ghost files0: seq<seq<Batch>>, ghost count0: nat, ghost run: seq<Row>)
      returns (next: nat, stop: bool, ghost run': seq<Row>)
      requires forall c :: 0 <= c < |cols| ==> |cols[c]| == |b.visible|
      requires start < |b.visible|
      requires Valid() && (limit == 0 || rowCount < limit)
      requires visited == base + RowsUpTo(b, cols, start)
      requires emitted == w0 + run && rowCount == count0 + |run|
      requires |files0| >= 1 && files == AddRun(files0, count0, run, rowLimit)
      requires run == [] || SwitchDue(rowLimit, rowCount)
      modifies this`offset, this`rowCount, this`visited, this`emitted
      modifies this`fileNo, this`paths, this`files, this`fileRows, this`switchToNewFile
      ensures Valid()
      ensures start < next <= |b.visible| + 1
      ensures visited == base + RowsUpTo(b, cols, Min(next, |b.visible|))
      ensures stop <==> limit != 0 && rowCount == limit
      ensures !stop ==> limit == 0 || rowCount < limit
      ensures emitted == w0 + run' && rowCount == count0 + |run'|
      ensures files == AddRun(files0, count0, run', rowLimit)
      ensures next <= |b.visible| && !stop ==> run' == [] || SwitchDue(rowLimit, rowCount)
    {
      ghost var count := rowCount;
      var batch;
      next, stop, batch := NextBatch(b, cols, start, base);
      run' := run;
      if batch != [] {
        AddRunSnoc(files0, count0, run, batch, rowLimit, count);
        AppendAssoc(w0, run, batch);
        run' := run + batch;
      }
    }

    /** `consume_block` for one block with column vectors `cols`: returns
        whether the export goes on, and (ghost) how many of the block's rows
        were read. */
    method ConsumeBlock(b: Block, cols: seq<seq<Value>>) returns (more: bool, ghost scanned: nat, ghost run: seq<Row>)
      requires forall c :: 0 <= c < |cols| ==> |cols[c]| == |b.visible|
      requires Valid() && (limit == 0 || rowCount < limit)
      modifies this
      ensures Valid()
      ensures scanned <= |b.visible| && (more ==> scanned == |b.visible|)
      ensures visited == old(visited) + RowsUpTo(b, cols, scanned)
      ensures !more <==> limit != 0 && rowCount == limit
      ensures more ==> limit == 0 || rowCount < limit
      ensures emitted == old(emitted) + run
      ensures files == AddRun(old(files), old(rowCount), run, rowLimit)
    {
      var n := |b.visible|;
      ghost var base, w0, files0, count0 := visited, emitted, files, rowCount;
      var start := 0;
      run := [];
      while start < n
        invariant start <= n + 1
        invariant Valid() && (limit == 0 || rowCount < limit)
        invariant visited == base + RowsUpTo(b, cols, Min(start, n))
        invariant emitted == w0 + run
        invariant rowCount == count0 + |run|
        invariant |files0| >= 1 && files == AddRun(files0, count0, run, rowLimit)
        invariant start <= n ==> run == [] || SwitchDue(rowLimit, rowCount)
      {
        var next, stop;
        next, stop, run := ConsumeStep(b, cols, start, base, w0, files0, count0, run);
        if stop {
          return false, Min(next, n), run;
        }
        start := next;
      }
      more, scanned := true, n;
    }
  }

  /** The rows block `bi` of segment `si` adds to the window. */
  ghost function Gain(t: Table, sel: seq<ColumnId>, offset: nat, limit: nat, si: nat, bi: nat): seq<Row>
    requires WellFormed(t) && ValidSelection(t, sel) && si < |t.segments| && bi < |t.segments[si].blocks|
  {
    var w := Window(Before(t, sel, si, bi + 1), offset, limit);
    var k := |Window(Before(t, sel, si, bi), offset, limit)|;
    if k <= |w| then w[k..] else []
  }

  /** The rows the gains before block `bi` of segment `si` add up to, where
      `gains[s][b]` is what block `b` of segment `s` adds to the window. */
  function CountBefore(gains: seq<seq<seq<Row>>>, si: nat, bi: nat): nat
    requires si < |gains| && bi <= |gains[si]|
    decreases si, 1, bi
  {
    if bi == 0 then CountAfter(gains, si) else CountBefore(gains, si, bi - 1) + |gains[si][bi - 1]|
  }

  /** The rows the gains of the first `k` segments add up to. */
  function CountAfter(gains: seq<seq<seq<Row>>>, k: nat): nat
    requires k <= |gains|
    decreases k, 0
  {
    if k == 0 then 0 else CountBefore(gains, k - 1, |gains[k - 1]|)
  }

  /** The part files, as record batches, once the blocks before block `bi`
      of segment `si` are consumed: each block adds its gain as `AddRun`
      cuts it. */
  function LayoutBefore(gains: seq<seq<seq<Row>>>, rowLimit: nat, si: nat, bi: nat): (r: seq<seq<Batch>>)
    requires si < |gains| && bi <= |gains[si]|
    ensures |r| >= 1
    decreases si, 1, bi
  {
    if bi == 0 then LayoutAfter(gains, rowLimit, si)
    else AddRun(LayoutBefore(gains, rowLimit, si, bi - 1), CountBefore(gains, si, bi - 1), gains[si][bi - 1], rowLimit)
  }

  /** The part files once the first `k` segments are consumed. */
  function LayoutAfter(gains: seq<seq<seq<Row>>>, rowLimit: nat, k: nat): (r: seq<seq<Batch>>)
    requires k <= |gains|
    ensures |r| >= 1
    decreases k, 0
  {
    if k == 0 then [[]] else LayoutBefore(gains, rowLimit, k - 1, |gains[k - 1]|)
  }

  /** Blocks that add nothing leave the files as they are. */
  lemma {:induction false} LayoutFrozenBlocks(gains: seq<seq<seq<Row>>>, rowLimit: nat, si: nat, bi: nat, j: nat)
    requires si < |gains| && bi <= j <= |gains[si]|
    requires forall b :: bi <= b < |gains[si]| ==> gains[si][b] == []
    ensures LayoutBefore(gains, rowLimit, si, j) == LayoutBefore(gains, rowLimit, si, bi)
    decreases j
  {
    if j > bi {
      LayoutFrozenBlocks(gains, rowLimit, si, bi, j - 1);
    }
  }

  /** Segments from `k` on that add nothing leave the files as they are. */
  lemma {:induction false} LayoutFrozenSegments(gains: seq<seq<seq<Row>>>, rowLimit: nat, k: nat, m: nat)
    requires k <= m <= |gains|
    requires forall s, b :: k <= s < |gains| && 0 <= b < |gains[s]| ==> gains[s][b] == []
    ensures LayoutAfter(gains, rowLimit, m) == LayoutAfter(gains, rowLimit, k)
    decreases m
  {
    if m > k {
      LayoutFrozenSegments(gains, rowLimit, k, m - 1);
      LayoutFrozenBlocks(gains, rowLimit, m - 1, 0, |gains[m - 1]|);
    }
  }

  /** `lay[s][b]` holds the files once the blocks before block `b` of
      segment `s` are consumed, and `lay[|g|][0]` those of the whole table. */
  ghost predicate LayTable(g: seq<seq<seq<Row>>>, rowLimit: nat, lay: seq<seq<seq<seq<Batch>>>>)
  {
    && |lay| == |g| + 1
    && (forall s {:trigger lay[s]} :: 0 <= s <= |g| ==> |lay[s]| == if s < |g| then |g[s]| + 1 else 1)
    && (forall s, b {:trigger lay[s][b]} :: 0 <= s <= |g| && 0 <= b < |lay[s]| ==> |lay[s][b]| >= 1)
    && (forall s, b {:trigger LayoutBefore(g, rowLimit, s, b)} :: 0 <= s < |g| && 0 <= b <= |g[s]| ==>
          lay[s][b] == LayoutBefore(g, rowLimit, s, b))
    && forall s {:trigger LayoutAfter(g, rowLimit, s)} :: 0 <= s <= |g| ==> lay[s][0] == LayoutAfter(g, rowLimit, s)
  }

  /** `count[s][b]` holds the row count once the blocks before block `b` of
      segment `s` are consumed, and `count[|g|][0]` that of the whole table. */
  ghost predicate CountTable(g: seq<seq<seq<Row>>>, count: seq<seq<nat>>)
  {
    && |count| == |g| + 1
    && (forall s {:trigger count[s]} :: 0 <= s <= |g| ==> |count[s]| == if s < |g| then |g[s]| + 1 else 1)
    && (forall s, b {:trigger CountBefore(g, s, b)} :: 0 <= s < |g| && 0 <= b <= |g[s]| ==>
          count[s][b] == CountBefore(g, s, b))
    && forall s {:trigger CountAfter(g, s)} :: 0 <= s <= |g| ==> count[s][0] == CountAfter(g, s)
  }

  /** The files at every block boundary of the table. */
  ghost function Lays(g: seq<seq<seq<Row>>>, rowLimit: nat): (lay: seq<seq<seq<seq<Batch>>>>)
    ensures LayTable(g, rowLimit, lay)
  {
    seq(|g| + 1, s requires 0 <= s <= |g| =>
      if s < |g| then seq(|g[s]| + 1, b requires 0 <= b <= |g[s]| => LayoutBefore(g, rowLimit, s, b))
      else [LayoutAfter(g, rowLimit, |g|)])
  }

  /** The row count at every block boundary of the table. */
  ghost function Counts(g: seq<seq<seq<Row>>>): (count: seq<seq<nat>>)
    ensures CountTable(g, count)
  {
    seq(|g| + 1, s requires 0 <= s <= |g| =>
      if s < |g| then seq(|g[s]| + 1, b requires 0 <= b <= |g[s]| => CountBefore(g, s, b))
      else [CountAfter(g, |g|)])
  }

  /** Nothing is consumed before the first block: one empty file, no row. */
  lemma TablesStart(g: seq<seq<seq<Row>>>, rowLimit: nat, lay: seq<seq<seq<seq<Batch>>>>, count: seq<seq<nat>>)
    requires LayTable(g, rowLimit, lay) && CountTable(g, count)
    ensures lay[0][0] == [[]] && count[0][0] == 0
  {
    assert lay[0][0] == LayoutAfter(g, rowLimit, 0);
    assert count[0][0] == CountAfter(g, 0);
  }

  /** Block `bi` of segment `si` adds its gain as `AddRun` cuts it. */
  lemma TablesStep(g: seq<seq<seq<Row>>>, rowLimit: nat, lay: seq<seq<seq<seq<Batch>>>>, count: seq<seq<nat>>, si: nat, bi: nat)
    requires LayTable(g, rowLimit, lay) && CountTable(g, count)
    requires si < |g| && bi < |g[si]|
    ensures lay[si][bi + 1] == AddRun(lay[si][bi], count[si][bi], g[si][bi], rowLimit)
    ensures count[si][bi + 1] == count[si][bi] + |g[si][bi]|
  {
    assert lay[si][bi + 1] == LayoutBefore(g, rowLimit, si, bi + 1);
    assert lay[si][bi] == LayoutBefore(g, rowLimit, si, bi);
    assert count[si][bi + 1] == CountBefore(g, si, bi + 1);
    assert count[si][bi] == CountBefore(g, si, bi);
  }

  /** A segment ends where the next one starts. */
  lemma TablesNext(g: seq<seq<seq<Row>>>, rowLimit: nat, lay: seq<seq<seq<seq<Batch>>>>, count: seq<seq<nat>>, si: nat)
    requires LayTable(g, rowLimit, lay) && CountTable(g, count)
    requires si < |g|
    ensures lay[si + 1][0] == lay[si][|g[si]|] && count[si + 1][0] == count[si][|g[si]|]
  {
    assert lay[si + 1][0] == LayoutAfter(g, rowLimit, si + 1);
    assert lay[si][|g[si]|] == LayoutBefore(g, rowLimit, si, |g[si]|);
    assert count[si + 1][0] == CountAfter(g, si + 1);
    assert count[si][|g[si]|] == CountBefore(g, si, |g[si]|);
  }

  /** `g` holds, for every block of the table, what it adds to the window. */
  ghost predicate GainTable(t: Table, sel: seq<ColumnId>, offset: nat, limit: nat, g: seq<seq<seq<Row>>>)
    requires WellFormed(t) && ValidSelection(t, sel)
  {
    && |g| == |t.segments|
    && (forall s {:trigger g[s]} :: 0 <= s < |g| ==> |g[s]| == |t.segments[s].blocks|)
    && forall s, b {:trigger Gain(t, sel, offset, limit, s, b)} :: 0 <= s < |g| && 0 <= b < |g[s]| ==>
         g[s][b] == Gain(t, sel, offset, limit, s, b)
  }

  /** What every block of the table adds to the window. */
  ghost function Gains(t: Table, sel: seq<ColumnId>, offset: nat, limit: nat): (g: seq<seq<seq<Row>>>)
    requires WellFormed(t) && ValidSelection(t, sel)
    ensures GainTable(t, sel, offset, limit, g)
  {
    seq(|t.segments|, s requires 0 <= s < |t.segments| =>
      seq(|t.segments[s].blocks|, b requires 0 <= b < |t.segments[s].blocks| => Gain(t, sel, offset, limit, s, b)))
  }

  /** The part files of the whole export, as record batches: every block's
      gain, cut wherever the count reaches a multiple of `rowLimit`. */
  ghost function Batches(t: Table, sel: seq<ColumnId>, offset: nat, limit: nat, rowLimit: nat): (r: seq<seq<Batch>>)
    requires WellFormed(t) && ValidSelection(t, sel)
    ensures |r| >= 1
  {
    LayoutAfter(Gains(t, sel, offset, limit), rowLimit, |t.segments|)
  }

  /** A block the walk does not reach adds nothing. */
  lemma GainUnreached(t: Table, sel: seq<ColumnId>, offset: nat, limit: nat, si: nat, bi: nat)
    requires WellFormed(t) && ValidSelection(t, sel) && si < |t.segments| && bi < |t.segments[si].blocks|
    requires !Reached(t, sel, offset, limit, si, bi)
    ensures Gain(t, sel, offset, limit, si, bi) == []
  {
    WindowContents(Before(t, sel, si, bi + 1), offset, limit);
  }

  /** Once the rows before block `bi` of segment `si` fill the limit, no
      later block adds anything. */
  lemma LaterGainsEmpty(t: Table, sel: seq<ColumnId>, offset: nat, limit: nat, g: seq<seq<seq<Row>>>, si: nat, bi: nat)
    requires WellFormed(t) && ValidSelection(t, sel) && si < |t.segments| && bi <= |t.segments[si].blocks|
    requires GainTable(t, sel, offset, limit, g)
    requires limit != 0 && |Window(Before(t, sel, si, bi), offset, limit)| == limit
    ensures forall b :: bi <= b < |g[si]| ==> g[si][b] == []
    ensures forall s, b :: si + 1 <= s < |g| && 0 <= b < |g[s]| ==> g[s][b] == []
    ensures |Window(SegmentsUpTo(t, sel, si + 1), offset, limit)| == limit
  {
    LaterBlocksUnreached(t, sel, offset, limit, si, bi);
    LaterSegmentsUnreached(t, sel, offset, limit, si + 1);
    forall b | bi <= b < |g[si]| ensures g[si][b] == [] {
      GainUnreached(t, sel, offset, limit, si, b);
    }
    forall s, b | si + 1 <= s < |g| && 0 <= b < |g[s]| ensures g[s][b] == [] {
      GainUnreached(t, sel, offset, limit, s, b);
    }
  }

  /** Once the rows before block `bi` of segment `si` fill the limit, the
      files are those of the whole export. */
  lemma LayoutFinal(t: Table, sel: seq<ColumnId>, offset: nat, limit: nat, rowLimit: nat, g: seq<seq<seq<Row>>>, si: nat, bi: nat)
    requires WellFormed(t) && ValidSelection(t, sel) && si < |t.segments| && bi <= |t.segments[si].blocks|
    requires GainTable(t, sel, offset, limit, g)
    requires limit != 0 && |Window(Before(t, sel, si, bi), offset, limit)| == limit
    ensures LayoutBefore(g, rowLimit, si, bi) == LayoutAfter(g, rowLimit, |g|)
    ensures |Window(SegmentsUpTo(t, sel, si + 1), offset, limit)| == limit
  {
    LaterGainsEmpty(t, sel, offset, limit, g, si, bi);
    LayoutFrozenBlocks(g, rowLimit, si, bi, |g[si]|);
    LayoutFrozenSegments(g, rowLimit, si + 1, |g|);
  }

  /** `LayoutFinal`, read off the table of files. */
  lemma BatchesFinal(t: Table, sel: seq<ColumnId>, offset: nat, limit: nat, rowLimit: nat, g: seq<seq<seq<Row>>>,
                     lay: seq<seq<seq<seq<Batch>>>>, si: nat, bi: nat)
    requires WellFormed(t) && ValidSelection(t, sel) && si < |t.segments| && bi <= |t.segments[si].blocks|
    requires GainTable(t, sel, offset, limit, g) && LayTable(g, rowLimit, lay)
    requires limit != 0 && |Window(Before(t, sel, si, bi), offset, limit)| == limit
    ensures lay[si][bi] == lay[|g|][0]
    ensures |Window(SegmentsUpTo(t, sel, si + 1), offset, limit)| == limit
  {
    LayoutFinal(t, sel, offset, limit, rowLimit, g, si, bi);
    assert lay[si][bi] == LayoutBefore(g, rowLimit, si, bi);
    assert lay[|g|][0] == LayoutAfter(g, rowLimit, |g|);
  }

  /** Block `bi` of segment `si`: build its column vectors, stopping on a
      length mismatch (`failed`), then hand them to `consume_block`, which
      adds the block's gain to the files. */
  method ExportBlock(t: Table, sel: seq<ColumnId>, si: nat, bi: nat, sink: ParquetSink, ghost g: seq<seq<seq<Row>>>,
                     ghost lay: seq<seq<seq<seq<Batch>>>>, ghost count: seq<seq<nat>>)
    returns (failed: bool, more: bool)
    requires WellFormed(t) && ValidSelection(t, sel) && si < |t.segments| && bi < |t.segments[si].blocks|
    requires SegmentWellFormed(t, t.segments[si]) && GainTable(t, sel, sink.initialOffset, sink.limit, g)
    requires LayTable(g, sink.rowLimit, lay) && CountTable(g, count)
    requires sink.files == lay[si][bi] && sink.rowCount == count[si][bi]
    requires sink.Valid() && (sink.limit == 0 || sink.rowCount < sink.limit)
    requires sink.visited == SegmentsUpTo(t, sel, si) + BlocksUpTo(t, t.segments[si], sel, bi)
    modifies sink
    ensures sink.Valid()
    ensures failed <==> BlockColumns(t, t.segments[si], t.segments[si].blocks[bi], sel).Err?
    ensures failed ==> BlockFails(t, sel, sink.initialOffset, sink.limit, si, bi)
    ensures !failed ==> sink.files == lay[si][bi + 1] && sink.rowCount == count[si][bi + 1]
    ensures !failed && !more ==>
      (sink.limit != 0 && sink.rowCount == sink.limit && sink.visited <= Records(t, sel)
       && |Window(Before(t, sel, si, bi + 1), sink.initialOffset, sink.limit)| == sink.limit)
    ensures !failed && more ==>
      (sink.visited == SegmentsUpTo(t, sel, si) + BlocksUpTo(t, t.segments[si], sel, bi + 1)
       && (sink.limit == 0 || sink.rowCount < sink.limit))
  {
    var seg := t.segments[si];
    var b := seg.blocks[bi];
    assert BlockWellFormed(t, b);
    var m := MaterializeColumns(t, seg, b, sel);
    if m.Err? {
      return true, false;
    }
    failed := false;
    var cols := m.value;
    ghost var scanned, run;
    more, scanned, run := sink.ConsumeBlock(b, cols);
    BlockScanned(t, sel, si, bi, cols, scanned, more);
    BlockGain(t, sel, sink.initialOffset, sink.limit, si, bi, sink.visited, run, more);
    TablesStep(g, sink.rowLimit, lay, count, si, bi);
  }

  /** What `consume_block` adds to the window is the block's gain: all of its
      rows' contribution when it went through the block, and also when it
      stopped early, since the window was then full. */
  lemma BlockGain(t: Table, sel: seq<ColumnId>, offset: nat, limit: nat, si: nat, bi: nat,
                  read: seq<Row>, run: seq<Row>, more: bool)
    requires WellFormed(t) && ValidSelection(t, sel) && si < |t.segments| && bi < |t.segments[si].blocks|
    requires Window(read, offset, limit) == Window(Before(t, sel, si, bi), offset, limit) + run
    requires more ==> read == Before(t, sel, si, bi + 1)
    requires !more ==> read <= Before(t, sel, si, bi + 1) && limit != 0 && |Window(read, offset, limit)| == limit
    ensures Gain(t, sel, offset, limit, si, bi) == run
    ensures !more ==> |Window(Before(t, sel, si, bi + 1), offset, limit)| == limit
  {
    var w := Window(Before(t, sel, si, bi), offset, limit);
    if !more {
      WindowSaturated(read, Before(t, sel, si, bi + 1), offset, limit);
    }
    assert (w + run)[|w|..] == run;
  }

  /** One pass of the block loop over segment `si`: `ExportBlock`, and what
      its outcome tells about the segment and the table. */
  method BlockStep(t: Table, sel: seq<ColumnId>, si: nat, bi: nat, sink: ParquetSink, ghost g: seq<seq<seq<Row>>>,
                   ghost lay: seq<seq<seq<seq<Batch>>>>, ghost count: seq<seq<nat>>)
    returns (failed: bool, more: bool)
    requires WellFormed(t) && ValidSelection(t, sel) && si < |t.segments| && bi < |t.segments[si].blocks|
    requires SegmentWellFormed(t, t.segments[si]) && GainTable(t, sel, sink.initialOffset, sink.limit, g)
    requires LayTable(g, sink.rowLimit, lay) && CountTable(g, count)
    requires sink.files == lay[si][bi] && sink.rowCount == count[si][bi]
    requires sink.Valid() && (sink.limit == 0 || sink.rowCount < sink.limit)
    requires sink.visited == SegmentsUpTo(t, sel, si) + BlocksUpTo(t, t.segments[si], sel, bi)
    requires BlocksOk(t, sel, si, bi)
    modifies sink
    ensures sink.Valid()
    ensures failed ==> FailsBeforeLimit(t, sel, sink.initialOffset, sink.limit)
    ensures !failed ==> BlocksOk(t, sel, si, bi + 1)
    ensures !failed && !more ==>
      (sink.limit != 0 && sink.rowCount == sink.limit && sink.visited <= Records(t, sel)
       && |Window(SegmentsUpTo(t, sel, si + 1), sink.initialOffset, sink.limit)| == sink.limit
       && SegmentPasses(t, sel, sink.initialOffset, sink.limit, si) && sink.files == lay[|g|][0])
    ensures !failed && more ==>
      (sink.visited == SegmentsUpTo(t, sel, si) + BlocksUpTo(t, t.segments[si], sel, bi + 1)
       && (sink.limit == 0 || sink.rowCount < sink.limit)
       && sink.files == lay[si][bi + 1] && sink.rowCount == count[si][bi + 1])
  {
    failed, more := ExportBlock(t, sel, si, bi, sink, g, lay, count);
    if failed {
      FailWitness(t, sel, sink.initialOffset, sink.limit, si, bi);
    } else if more {
      BlocksOkSnoc(t, sel, si, bi);
    } else {
      SegmentFilled(t, sel, sink.initialOffset, sink.limit, sink.rowLimit, g, lay, si, bi);
    }
  }

  /** A block after which the window is full ends the segment and the walk:
      the segment passes, and the files are those of the whole export. */
  lemma SegmentFilled(t: Table, sel: seq<ColumnId>, offset: nat, limit: nat, rowLimit: nat, g: seq<seq<seq<Row>>>,
                      lay: seq<seq<seq<seq<Batch>>>>, si: nat, bi: nat)
    requires WellFormed(t) && ValidSelection(t, sel) && si < |t.segments| && bi < |t.segments[si].blocks|
    requires GainTable(t, sel, offset, limit, g) && LayTable(g, rowLimit, lay)
    requires BlocksOk(t, sel, si, bi) && BlockColumns(t, t.segments[si], t.segments[si].blocks[bi], sel).Ok?
    requires limit != 0 && |Window(Before(t, sel, si, bi + 1), offset, limit)| == limit
    ensures BlocksOk(t, sel, si, bi + 1) && SegmentPasses(t, sel, offset, limit, si)
    ensures |Window(SegmentsUpTo(t, sel, si + 1), offset, limit)| == limit
    ensures lay[si][bi + 1] == lay[|g|][0]
  {
    BlocksOkSnoc(t, sel, si, bi);
    SegmentPassed(t, sel, offset, limit, si, bi + 1);
    BatchesFinal(t, sel, offset, limit, rowLimit, g, lay, si, bi + 1);
  }

  /** The block loop over segment `si`; the outcomes are those of `ExportBlock`. */
  method ExportSegment(t: Table, sel: seq<ColumnId>, si: nat, sink: ParquetSink, ghost g: seq<seq<seq<Row>>>,
                       ghost lay: seq<seq<seq<seq<Batch>>>>, ghost count: seq<seq<nat>>)
    returns (failed: bool, more: bool)
    requires WellFormed(t) && ValidSelection(t, sel) && si < |t.segments|
    requires GainTable(t, sel, sink.initialOffset, sink.limit, g)
    requires sink.Valid() && (sink.limit == 0 || sink.rowCount < sink.limit)
    requires sink.visited == SegmentsUpTo(t, sel, si)
    requires LayTable(g, sink.rowLimit, lay) && CountTable(g, count)
    requires sink.files == lay[si][0] && sink.rowCount == count[si][0]
    modifies sink
    ensures sink.Valid()
    ensures failed ==> FailsBeforeLimit(t, sel, sink.initialOffset, sink.limit)
    ensures !failed ==> SegmentPasses(t, sel, sink.initialOffset, sink.limit, si)
    ensures !failed && !more ==>
      (sink.limit != 0 && sink.rowCount == sink.limit && sink.visited <= Records(t, sel)
       && |Window(SegmentsUpTo(t, sel, si + 1), sink.initialOffset, sink.limit)| == sink.limit
       && sink.files == lay[|g|][0])
    ensures !failed && more ==>
      (sink.visited == SegmentsUpTo(t, sel, si + 1) && (sink.limit == 0 || sink.rowCount < sink.limit)
       && sink.files == lay[si + 1][0] && sink.rowCount == count[si + 1][0])
  {
    assert SegmentWellFormed(t, t.segments[si]);
    var bi := 0;
    while bi < |t.segments[si].blocks|
      invariant bi <= |t.segments[si].blocks|
      invariant sink.Valid() && (sink.limit == 0 || sink.rowCount < sink.limit)
      invariant sink.visited == SegmentsUpTo(t, sel, si) + BlocksUpTo(t, t.segments[si], sel, bi)
      invariant sink.files == lay[si][bi] && sink.rowCount == count[si][bi]
      invariant BlocksOk(t, sel, si, bi)
    {
      failed, more := BlockStep(t, sel, si, bi, sink, g, lay, count);
      if failed || !more {
        return;
      }
      bi := bi + 1;
    }
    SegmentDone(t, sel, sink.initialOffset, sink.limit, sink.rowLimit, g, lay, count, si);
    failed, more := false, true;
  }

  /** A segment whose blocks all passed ends where the next one starts. */
  lemma SegmentDone(t: Table, sel: seq<ColumnId>, offset: nat, limit: nat, rowLimit: nat, g: seq<seq<seq<Row>>>,
                    lay: seq<seq<seq<seq<Batch>>>>, count: seq<seq<nat>>, si: nat)
    requires WellFormed(t) && ValidSelection(t, sel) && si < |t.segments|
    requires GainTable(t, sel, offset, limit, g) && LayTable(g, rowLimit, lay) && CountTable(g, count)
    requires BlocksOk(t, sel, si, |t.segments[si].blocks|)
    ensures SegmentPasses(t, sel, offset, limit, si)
    ensures SegmentsUpTo(t, sel, si + 1) == SegmentsUpTo(t, sel, si) + BlocksUpTo(t, t.segments[si], sel, |t.segments[si].blocks|)
    ensures var n := |t.segments[si].blocks|; lay[si + 1][0] == lay[si][n] && count[si + 1][0] == count[si][n]
  {
    SegmentPassed(t, sel, offset, limit, si, |t.segments[si].blocks|);
    SegmentComplete(t, sel, si);
    TablesNext(g, rowLimit, lay, count, si);
  }

  /** Between batches the sink's files are named, hold no empty batch, and
      hold the window of the rows read so far, `rowLimit` to a file. */
  lemma SinkLayout(sink: ParquetSink)
    requires sink.Valid()
    ensures |sink.files| == |sink.paths| >= 1 && NamedFiles(sink.paths, sink.path) && NonEmptyBatches(sink.files)
    ensures FileRows(sink.files) == sink.fileRows
    ensures var emitted := Window(sink.visited, sink.initialOffset, sink.limit);
      sink.rowCount == |emitted| && FileRows(sink.files) == Chunk(emitted, sink.rowLimit)
  {
    assert sink.fileRows == Placed(sink.fileRows, [], sink.switchToNewFile);
    assert FileRows(sink.files) == sink.fileRows;
  }

  /** The segment loop of the columnar export: stops on a block whose
      columns fail the length check, or once the limit is reached. */
  method ExportSegments(t: Table, sel: seq<ColumnId>, sink: ParquetSink, ghost g: seq<seq<seq<Row>>>,
                        ghost lay: seq<seq<seq<seq<Batch>>>>, ghost count: seq<seq<nat>>)
    returns (failed: bool, more: bool)
    requires WellFormed(t) && ValidSelection(t, sel) && GainTable(t, sel, sink.initialOffset, sink.limit, g)
    requires LayTable(g, sink.rowLimit, lay) && CountTable(g, count)
    requires sink.Valid() && sink.visited == [] && sink.files == [[]] && sink.rowCount == 0
    requires sink.limit == 0 || sink.rowCount < sink.limit
    modifies sink
    ensures sink.Valid()
    ensures failed <==> FailsBeforeLimit(t, sel, sink.initialOffset, sink.limit)
    ensures !failed && !more ==>
      sink.limit != 0 && sink.rowCount == sink.limit && sink.visited <= Records(t, sel)
    ensures !failed && more ==> sink.visited == Records(t, sel)
    ensures !failed ==> sink.files == lay[|g|][0]
  {
    assert sink.visited == SegmentsUpTo(t, sel, 0);
    TablesStart(g, sink.rowLimit, lay, count);
    var si := 0;
    while si < |t.segments|
      invariant si <= |t.segments|
      invariant sink.Valid() && (sink.limit == 0 || sink.rowCount < sink.limit)
      invariant sink.visited == SegmentsUpTo(t, sel, si)
      invariant sink.files == lay[si][0] && sink.rowCount == count[si][0]
      invariant forall s :: 0 <= s < si ==> SegmentPasses(t, sel, sink.initialOffset, sink.limit, s)
    {
      failed, more := ExportSegment(t, sel, si, sink, g, lay, count);
      if failed {
        return;
      }
      if !more {
        TableFilled(t, sel, sink.initialOffset, sink.limit, si);
        return;
      }
      PassesSnoc(t, sel, sink.initialOffset, sink.limit, si);
      si := si + 1;
    }
    TablePassed(t, sel, sink.initialOffset, sink.limit, si);
    failed, more := false, true;
  }

  /** The columnar export of a selection into a fresh sink. */
  method WriteTable(t: Table, sel: seq<ColumnId>, path: string, offset: nat, limit: nat, rowLimit: nat)
    returns (res: Result<nat>, files: seq<seq<Batch>>, paths: seq<string>)
    requires WellFormed(t) && ValidSelection(t, sel)
    ensures |files| == |paths| >= 1 && NamedFiles(paths, path) && NonEmptyBatches(files)
    ensures res.Ok? ==>
      var emitted := Window(Records(t, sel), offset, limit);
      res.value == |emitted| && FileRows(files) == Chunk(emitted, rowLimit)
    ensures res.Ok? ==> files == Batches(t, sel, offset, limit, rowLimit)
    ensures res.Err? <==> FailsBeforeLimit(t, sel, offset, limit)
    ensures res.Err? ==> res.error == UnmatchedRowCount
  {
    var sink := new ParquetSink(path, offset, limit, rowLimit);
    ghost var g := Gains(t, sel, offset, limit);
    ghost var lay, count := Lays(g, rowLimit), Counts(g);
    var failed, more := ExportSegments(t, sel, sink, g, lay, count);
    assert lay[|g|][0] == LayoutAfter(g, rowLimit, |g|);
    SinkLayout(sink);
    if !failed && !more {
      WindowSaturated(sink.visited, Records(t, sel), offset, limit);
    }
    res := if failed then Err(UnmatchedRowCount) else Ok(sink.rowCount);
    files, paths := sink.files, sink.paths;
  }

  /** Every id of the selection names a stored column: the columnar export
      looks each selected id up in the schema. */
  predicate StoredColumns(defs: seq<ColumnDef>, sel: seq<ColumnId>)
  {
    forall i :: 0 <= i < |sel| ==> sel[i].Ordinary? && sel[i].index < |defs|
  }

  /** The columnar export: the schema of the selected columns (no file when
      a column's type has no columnar form), then the segment and block
      loops feeding `consume_block` until the table ends or the limit is
      reached. Returns the row count, the schema, every part file as its
      record batches, and the files' names. */
  method ExportToPARQUET(t: Table, cfg: ExportConfig)
    returns (res: Result<nat>, schema: seq<Arrow.Field>, files: seq<seq<Batch>>, paths: seq<string>)
    requires WellFormed(t) && StoredColumns(t.columnDefs, cfg.columns)
    ensures var sel := Selection(cfg.columns, |t.columnDefs|);
      && StoredColumns(t.columnDefs, sel)
      && (SchemaOf(t.columnDefs, sel).Err? ==> res == Err(SchemaOf(t.columnDefs, sel).error) && files == [] && paths == [])
      && (SchemaOf(t.columnDefs, sel).Ok? ==>
            schema == SchemaOf(t.columnDefs, sel).value && |files| == |paths| >= 1
            && NamedFiles(paths, cfg.path) && NonEmptyBatches(files))
      && (res.Ok? ==>
            var emitted := Window(Records(t, sel), cfg.offset, cfg.limit);
            res.value == |emitted| && FileRows(files) == Chunk(emitted, cfg.rowLimit))
      && (res.Ok? ==> files == Batches(t, sel, cfg.offset, cfg.limit, cfg.rowLimit))
      && (res.Err? <==> SchemaOf(t.columnDefs, sel).Err? || FailsBeforeLimit(t, sel, cfg.offset, cfg.limit))
      && (res.Err? && SchemaOf(t.columnDefs, sel).Ok? ==> res.error == UnmatchedRowCount)
  {
    var sel := SelectColumns(cfg.columns, |t.columnDefs|);
    assert StoredColumns(t.columnDefs, sel);
    var fields := BuildSchema(t.columnDefs, sel);
    if fields.Err? {
      return Err(fields.error), [], [], [];
    }
    schema := fields.value;
    res, files, paths := WriteTable(t, sel, cfg.path, cfg.offset, cfg.limit, cfg.rowLimit);
  }

  /** The schema's fields, or the error of the first column the mapping rejects. */
  function SchemaOf(defs: seq<ColumnDef>, sel: seq<ColumnId>): (r: Result<seq<Arrow.Field>>)
    requires forall i :: 0 <= i < |sel| ==> sel[i].Ordinary? && sel[i].index < |defs|
    ensures r.Ok? <==> forall i :: 0 <= i < |sel| ==> Arrow.GetArrowType(defs[sel[i].index].ty).Ok?
    ensures r.Ok? ==> |r.value| == |sel| && forall i :: 0 <= i < |sel| ==>
      r.value[i] == Arrow.Field(defs[sel[i].index].name, Arrow.GetArrowType(defs[sel[i].index].ty).value)
    ensures r.Err? ==> exists i :: 0 <= i < |sel| && Arrow.GetArrowType(defs[sel[i].index].ty) == Err(r.error)
    decreases |sel|
  {
    if sel == [] then Ok([])
    else
      var def := defs[sel[0].index];
      match Arrow.GetArrowType(def.ty)
      case Err(e) => Err(e)
      case Ok(ty) =>
        match SchemaOf(defs, sel[1..])
        case Err(e) =>
          assert exists i :: 0 <= i < |sel| - 1 && Arrow.GetArrowType(defs[sel[1..][i].index].ty) == Err(e);
          Err(e)
        case Ok(rest) => Ok([Arrow.Field(def.name, ty)] + rest)
  }

  /** When columns before `i` map and column `i` does not, the schema step
      fails with column `i`'s error. */
  lemma {:induction false} SchemaFirstError(defs: seq<ColumnDef>, sel: seq<ColumnId>, i: nat)
    requires forall k :: 0 <= k < |sel| ==> sel[k].Ordinary? && sel[k].index < |defs|
    requires i < |sel| && Arrow.GetArrowType(defs[sel[i].index].ty).Err?
    requires forall k :: 0 <= k < i ==> Arrow.GetArrowType(defs[sel[k].index].ty).Ok?
    ensures SchemaOf(defs, sel) == Err(Arrow.GetArrowType(defs[sel[i].index].ty).error)
  {
    if i > 0 {
      SchemaFirstError(defs, sel[1..], i - 1);
    }
  }

  /** The loop that builds the schema's fields. */
  method BuildSchema(defs: seq<ColumnDef>, sel: seq<ColumnId>) returns (r: Result<seq<Arrow.Field>>)
    requires forall i :: 0 <= i < |sel| ==> sel[i].Ordinary? && sel[i].index < |defs|
    ensures r == SchemaOf(defs, sel)
  {
    var fields: seq<Arrow.Field> := [];
    var i := 0;
    while i < |sel|
      invariant i <= |sel|
      invariant |fields| == i
      invariant forall k :: 0 <= k < i ==> (Arrow.GetArrowType(defs[sel[k].index].ty).Ok?
        && fields[k] == Arrow.Field(defs[sel[k].index].name, Arrow.GetArrowType(defs[sel[k].index].ty).value))
    {
      var def := defs[sel[i].index];
      var ty := Arrow.GetArrowType(def.ty);
      if ty.Err? {
        SchemaFirstError(defs, sel, i);
        return Err(ty.error);
      }
      fields := fields + [Arrow.Field(def.name, ty.value)];
      i := i + 1;
    }
    assert SchemaOf(defs, sel).value == fields;
    return Ok(fields);
  }
}
