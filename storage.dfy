/** The read-only snapshot the export walks: segments in snapshot order, each
    a sequence of blocks; per block its rows' visibility under the export
    transaction, the stored column vectors and the version timestamps; the
    column materializer; and the stream of visible rows in traversal order. */
module Storage {
  import opened Types
  import Windowing

  /** One block. `visible[i]` is the segment's `DeleteFilter` evaluated at
      the block's segment offset plus `i`; the block's row count is
      `|visible|`. `columns[k]` is what `GetConstColumnVector` returns for
      schema column `k` (its length is checked, not assumed); `createTs` and
      `deleteTs` are the version vectors read for the block's rows. */
  datatype Block = Block(
    blockId: nat,
    visible: seq<bool>,
    columns: seq<seq<Value>>,
    createTs: seq<nat>,
    deleteTs: seq<nat>)

  datatype Segment = Segment(segmentId: nat, blocks: seq<Block>)

  /** The table as seen by the export: schema, segment snapshot, and the
      engine's block capacity used to synthesize row ids. */
  datatype Table = Table(columnDefs: seq<ColumnDef>, segments: seq<Segment>, blockCapacity: nat)

  /** What the storage layer guarantees about a block: one stored vector per
      schema column and one version entry per row. */
  ghost predicate BlockWellFormed(t: Table, b: Block)
  {
    |b.columns| == |t.columnDefs| && |b.createTs| == |b.visible| && |b.deleteTs| == |b.visible|
  }

  ghost predicate WellFormed(t: Table)
  {
    forall i, j {:trigger BlockWellFormed(t, t.segments[i].blocks[j])} :: 0 <= i < |t.segments| && 0 <= j < |t.segments[i].blocks| ==>
      BlockWellFormed(t, t.segments[i].blocks[j])
  }

  /** Every ordinary selected id names a schema column. */
  predicate ValidSelection(t: Table, sel: seq<ColumnId>)
  {
    forall i :: 0 <= i < |sel| && sel[i].Ordinary? ==> sel[i].index < |t.columnDefs|
  }

  /** The selection the exporters use: the requested ids, or every schema
      column in schema order when none is requested. */
  function Selection(requested: seq<ColumnId>, columnCount: nat): seq<ColumnId>
  {
    if requested == [] then seq(columnCount, i requires 0 <= i < columnCount => Ordinary(i)) else requested
  }

  /** The loop that fills `select_columns`. */
  method SelectColumns(requested: seq<ColumnId>, columnCount: nat) returns (sel: seq<ColumnId>)
    ensures requested != [] ==> sel == requested
    ensures requested == [] ==> |sel| == columnCount && forall i :: 0 <= i < columnCount ==> sel[i] == Ordinary(i)
    ensures sel == Selection(requested, columnCount)
  {
    if requested == [] {
      sel := [];
      var idx := 0;
      while idx < columnCount
        invariant idx <= columnCount
        invariant |sel| == idx && forall i :: 0 <= i < idx ==> sel[i] == Ordinary(i)
      {
        sel := sel + [Ordinary(idx)];
        idx := idx + 1;
      }
    } else {
      sel := requested;
    }
  }

  lemma SelectionValid(t: Table, requested: seq<ColumnId>)
    requires ValidSelection(t, requested)
    ensures ValidSelection(t, Selection(requested, |t.columnDefs|))
  {
  }

  /** The id of the row at `block`'s local row `i`: the block's first segment
      offset (`block_id * DEFAULT_BLOCK_CAPACITY`) plus `i`. It names the
      segment, and for a row inside the block's capacity the offset divides
      back into the block id and the row. */
  function RowIdAt(t: Table, seg: Segment, b: Block, i: nat): (r: Value)
    ensures r.RowIdValue? && r.segmentId == seg.segmentId
    ensures i < t.blockCapacity ==>
      r.segmentOffset / t.blockCapacity == b.blockId && r.segmentOffset % t.blockCapacity == i
  {
    var offset := b.blockId * t.blockCapacity + i;
    assert i < t.blockCapacity ==> offset / t.blockCapacity == b.blockId && offset % t.blockCapacity == i by {
      if i < t.blockCapacity {
        Windowing.DivModUnique(offset, t.blockCapacity, b.blockId, i);
      }
    }
    RowIdValue(seg.segmentId, offset)
  }

  /** No two rows of a segment, within their blocks' capacity, share a row
      id unless they are the same row of blocks with the same id. */
  lemma RowIdsDistinct(t: Table, seg: Segment, b1: Block, i1: nat, b2: Block, i2: nat)
    requires i1 < t.blockCapacity && i2 < t.blockCapacity
    requires b1.blockId != b2.blockId || i1 != i2
    ensures RowIdAt(t, seg, b1, i1) != RowIdAt(t, seg, b2, i2)
  {
  }

  /** The column materializer for one selected id: the synthetic columns are
      built from block metadata with exactly the block's row count; a stored
      column whose length differs from the row count is the fatal
      "Unmatched row_count between block and block_column". */
  function Materialize(t: Table, seg: Segment, b: Block, c: ColumnId): (r: Result<seq<Value>>)
    requires BlockWellFormed(t, b)
    requires c.Ordinary? ==> c.index < |t.columnDefs|
    ensures r.Ok? ==> |r.value| == |b.visible|
    ensures r.Err? ==> r.error == UnmatchedRowCount
  {
    var n := |b.visible|;
    match c
    case RowIdColumn => Ok(seq(n, i requires 0 <= i < n => RowIdAt(t, seg, b, i)))
    case CreateColumn => Ok(seq(n, i requires 0 <= i < n => TimestampValue(b.createTs[i])))
    case DeleteColumn => Ok(seq(n, i requires 0 <= i < n => TimestampValue(b.deleteTs[i])))
    case Ordinary(k) => if |b.columns[k]| != n then Err(UnmatchedRowCount) else Ok(b.columns[k])
  }

  /** Only a stored column can fail, exactly when its length is not the
      block's row count; the row-id column holds each row's id. */
  lemma MaterializeOutcome(t: Table, seg: Segment, b: Block, c: ColumnId)
    requires BlockWellFormed(t, b)
    requires c.Ordinary? ==> c.index < |t.columnDefs|
    ensures Materialize(t, seg, b, c).Err? <==> c.Ordinary? && |b.columns[c.index]| != |b.visible|
    ensures c.RowIdColumn? ==> (Materialize(t, seg, b, c).Ok?
      && forall i :: 0 <= i < |b.visible| ==> Materialize(t, seg, b, c).value[i] == RowIdAt(t, seg, b, i))
  {
  }

  /** The column vectors of one block for a whole selection, or the error of
      the first column whose length does not match. */
  function BlockColumns(t: Table, seg: Segment, b: Block, sel: seq<ColumnId>): (r: Result<seq<seq<Value>>>)
    requires BlockWellFormed(t, b) && ValidSelection(t, sel)
    ensures r.Ok? ==> |r.value| == |sel| && forall c :: 0 <= c < |sel| ==> |r.value[c]| == |b.visible|
    ensures r.Err? ==> r.error == UnmatchedRowCount
    decreases |sel|
  {
    if sel == [] then Ok([])
    else
      match Materialize(t, seg, b, sel[0])
      case Err(e) => Err(e)
      case Ok(col) =>
        match BlockColumns(t, seg, b, sel[1..])
        case Err(e) => Err(e)
        case Ok(rest) => Ok([col] + rest)
  }

  /** The vectors are there exactly when every selected column
      materializes, and then they are those columns in selection order. */
  lemma {:induction false} BlockColumnsOutcome(t: Table, seg: Segment, b: Block, sel: seq<ColumnId>)
    requires BlockWellFormed(t, b) && ValidSelection(t, sel)
    ensures BlockColumns(t, seg, b, sel).Ok? <==> forall c :: 0 <= c < |sel| ==> Materialize(t, seg, b, sel[c]).Ok?
    ensures BlockColumns(t, seg, b, sel).Ok? ==>
      forall c :: 0 <= c < |sel| ==> BlockColumns(t, seg, b, sel).value[c] == Materialize(t, seg, b, sel[c]).value
    decreases |sel|
  {
    if sel != [] {
      BlockColumnsOutcome(t, seg, b, sel[1..]);
      assert forall c :: 1 <= c < |sel| ==> sel[c] == sel[1..][c - 1];
    }
  }

  /** The per-block loop that builds `column_vectors`. */
  method MaterializeColumns(t: Table, seg: Segment, b: Block, sel: seq<ColumnId>) returns (r: Result<seq<seq<Value>>>)
    requires BlockWellFormed(t, b) && ValidSelection(t, sel)
    ensures r == BlockColumns(t, seg, b, sel)
  {
    var cols: seq<seq<Value>> := [];
    var i := 0;
    while i < |sel|
      invariant i <= |sel|
      invariant |cols| == i
      invariant forall c :: 0 <= c < i ==> Materialize(t, seg, b, sel[c]) == Ok(cols[c])
    {
      var m := Materialize(t, seg, b, sel[i]);
      if m.Err? {
        BlockColumnsOutcome(t, seg, b, sel);
        return Err(m.error);
      }
      cols := cols + [m.value];
      i := i + 1;
    }
    BlockColumnsOutcome(t, seg, b, sel);
    assert BlockColumns(t, seg, b, sel).Ok?;
    assert BlockColumns(t, seg, b, sel).value == cols;
    return Ok(cols);
  }

  /** A row as the exporters see it: its selected cells, in selection order. */
  type Row = seq<Value>

  /** The selected cells of row `i`, in selection order. */
  function RowValues(cols: seq<seq<Value>>, i: nat): (r: seq<Value>)
    requires forall c :: 0 <= c < |cols| ==> i < |cols[c]|
    ensures |r| == |cols| && forall c :: 0 <= c < |cols| ==> r[c] == cols[c][i]
  {
    seq(|cols|, c requires 0 <= c < |cols| => cols[c][i])
  }

  /** The rows among the first `n` rows of a block that are visible, in row
      order; invisible rows contribute nothing. */
  function RowsUpTo(b: Block, cols: seq<seq<Value>>, n: nat): seq<Row>
    requires n <= |b.visible|
    requires forall c :: 0 <= c < |cols| ==> |cols[c]| == |b.visible|
  {
    if n == 0 then []
    else
      var prior := RowsUpTo(b, cols, n - 1);
      if b.visible[n - 1] then prior + [RowValues(cols, n - 1)] else prior
  }

  function BlockRecords(t: Table, seg: Segment, b: Block, sel: seq<ColumnId>): seq<Row>
    requires BlockWellFormed(t, b) && ValidSelection(t, sel)
  {
    match BlockColumns(t, seg, b, sel)
    case Ok(cols) => RowsUpTo(b, cols, |b.visible|)
    case Err(_) => []
  }

  ghost predicate SegmentWellFormed(t: Table, seg: Segment)
  {
    forall j {:trigger BlockWellFormed(t, seg.blocks[j])} :: 0 <= j < |seg.blocks| ==> BlockWellFormed(t, seg.blocks[j])
  }

  function BlocksUpTo(t: Table, seg: Segment, sel: seq<ColumnId>, k: nat): seq<Row>
    requires k <= |seg.blocks| && SegmentWellFormed(t, seg) && ValidSelection(t, sel)
  {
    if k == 0 then []
    else BlocksUpTo(t, seg, sel, k - 1) + BlockRecords(t, seg, seg.blocks[k - 1], sel)
  }

  function SegmentsUpTo(t: Table, sel: seq<ColumnId>, k: nat): seq<Row>
    requires k <= |t.segments| && WellFormed(t) && ValidSelection(t, sel)
  {
    if k == 0 then []
    else
      var seg := t.segments[k - 1];
      SegmentsUpTo(t, sel, k - 1) + BlocksUpTo(t, seg, sel, |seg.blocks|)
  }

  /** The stream of visible rows, in segment, block, row order. */
  function Records(t: Table, sel: seq<ColumnId>): seq<Row>
    requires WellFormed(t) && ValidSelection(t, sel)
  {
    SegmentsUpTo(t, sel, |t.segments|)
  }

  /** No block's column vectors fail the length check. */
  ghost predicate Consistent(t: Table, sel: seq<ColumnId>)
    requires WellFormed(t) && ValidSelection(t, sel)
  {
    forall i, j {:trigger BlockColumns(t, t.segments[i], t.segments[i].blocks[j], sel)} ::
      0 <= i < |t.segments| && 0 <= j < |t.segments[i].blocks| ==>
      BlockColumns(t, t.segments[i], t.segments[i].blocks[j], sel).Ok?
  }

  lemma {:induction false} RowsUpToPrefix(b: Block, cols: seq<seq<Value>>, i: nat, j: nat)
    requires i <= j <= |b.visible|
    requires forall c :: 0 <= c < |cols| ==> |cols[c]| == |b.visible|
    ensures RowsUpTo(b, cols, i) <= RowsUpTo(b, cols, j)
    decreases j
  {
    if i < j {
      RowsUpToPrefix(b, cols, i, j - 1);
    }
  }

  lemma {:induction false} BlocksUpToPrefix(t: Table, seg: Segment, sel: seq<ColumnId>, i: nat, j: nat)
    requires i <= j <= |seg.blocks| && SegmentWellFormed(t, seg) && ValidSelection(t, sel)
    ensures BlocksUpTo(t, seg, sel, i) <= BlocksUpTo(t, seg, sel, j)
    decreases j
  {
    if i < j {
      BlocksUpToPrefix(t, seg, sel, i, j - 1);
      var prior := BlocksUpTo(t, seg, sel, j - 1);
      PrefixOfAppend(prior, BlockRecords(t, seg, seg.blocks[j - 1], sel));
      PrefixTrans(BlocksUpTo(t, seg, sel, i), prior, BlocksUpTo(t, seg, sel, j));
    }
  }

  lemma {:induction false} SegmentsUpToPrefix(t: Table, sel: seq<ColumnId>, i: nat, j: nat)
    requires i <= j <= |t.segments| && WellFormed(t) && ValidSelection(t, sel)
    ensures SegmentsUpTo(t, sel, i) <= SegmentsUpTo(t, sel, j)
    decreases j
  {
    if i < j {
      SegmentsUpToPrefix(t, sel, i, j - 1);
      var prior := SegmentsUpTo(t, sel, j - 1);
      var seg := t.segments[j - 1];
      PrefixOfAppend(prior, BlocksUpTo(t, seg, sel, |seg.blocks|));
      PrefixTrans(SegmentsUpTo(t, sel, i), prior, SegmentsUpTo(t, sel, j));
    }
  }

  lemma PrefixOfAppend<T>(a: seq<T>, b: seq<T>)
    ensures a <= a + b
  {
    assert (a + b)[..|a|] == a;
  }

  lemma PrefixAppend<T>(p: seq<T>, a: seq<T>, b: seq<T>)
    requires a <= b
    ensures p + a <= p + b
  {
    assert (p + b)[..|p + a|] == p + a;
  }

  lemma PrefixCompose<T>(p: seq<T>, a: seq<T>, r: seq<T>, q: seq<T>, whole: seq<T>)
    requires a + r <= q && p + q <= whole
    ensures p + a + r <= whole
  {
    PrefixAppend(p, a + r, q);
    assert p + a + r == p + (a + r);
    PrefixTrans(p + a + r, p + q, whole);
  }

  lemma PrefixTrans<T>(a: seq<T>, b: seq<T>, c: seq<T>)
    requires a <= b && b <= c
    ensures a <= c
  {
    assert c[..|a|] == b[..|a|];
  }

  /** The rows seen inside block `bi` extend the blocks before it to a
      prefix of the whole segment. */
  lemma BlockSeenPrefix(t: Table, seg: Segment, sel: seq<ColumnId>, bi: nat, cols: seq<seq<Value>>, ri: nat)
    requires SegmentWellFormed(t, seg) && ValidSelection(t, sel)
    requires bi < |seg.blocks|
    requires BlockColumns(t, seg, seg.blocks[bi], sel) == Ok(cols)
    requires ri <= |seg.blocks[bi].visible|
    ensures BlocksUpTo(t, seg, sel, bi) + RowsUpTo(seg.blocks[bi], cols, ri)
      <= BlocksUpTo(t, seg, sel, |seg.blocks|)
  {
    var b := seg.blocks[bi];
    var q := BlocksUpTo(t, seg, sel, bi);
    var r := RowsUpTo(b, cols, ri);
    var r' := RowsUpTo(b, cols, |b.visible|);
    RowsUpToPrefix(b, cols, ri, |b.visible|);
    PrefixAppend(q, r, r');
    assert q + r' == BlocksUpTo(t, seg, sel, bi + 1);
    BlocksUpToPrefix(t, seg, sel, bi + 1, |seg.blocks|);
    PrefixTrans(q + r, q + r', BlocksUpTo(t, seg, sel, |seg.blocks|));
  }

  /** Whatever the walk has seen when it stops inside block `bi` of segment
      `si` is a prefix of the whole visible stream. */
  lemma SeenPrefix(t: Table, sel: seq<ColumnId>, si: nat, bi: nat, cols: seq<seq<Value>>, ri: nat)
    requires WellFormed(t) && ValidSelection(t, sel)
    requires si < |t.segments| && bi < |t.segments[si].blocks|
    requires BlockColumns(t, t.segments[si], t.segments[si].blocks[bi], sel) == Ok(cols)
    requires ri <= |t.segments[si].blocks[bi].visible|
    ensures var seg := t.segments[si];
      SegmentsUpTo(t, sel, si) + BlocksUpTo(t, seg, sel, bi)
        + RowsUpTo(seg.blocks[bi], cols, ri) <= Records(t, sel)
  {
    var seg := t.segments[si];
    assert SegmentWellFormed(t, seg);
    var q' := BlocksUpTo(t, seg, sel, |seg.blocks|);
    BlockSeenPrefix(t, seg, sel, bi, cols, ri);
    SegmentsUpToPrefix(t, sel, si + 1, |t.segments|);
    assert SegmentsUpTo(t, sel, si + 1) == SegmentsUpTo(t, sel, si) + q';
    PrefixCompose(SegmentsUpTo(t, sel, si), BlocksUpTo(t, seg, sel, bi),
                  RowsUpTo(seg.blocks[bi], cols, ri), q', Records(t, sel));
  }

  /** A block read to its end adds all its visible rows to those of the
      blocks before it. */
  lemma BlockComplete(t: Table, sel: seq<ColumnId>, si: nat, bi: nat, cols: seq<seq<Value>>)
    requires WellFormed(t) && ValidSelection(t, sel) && si < |t.segments| && bi < |t.segments[si].blocks|
    requires SegmentWellFormed(t, t.segments[si])
    requires BlockColumns(t, t.segments[si], t.segments[si].blocks[bi], sel) == Ok(cols)
    ensures var seg := t.segments[si];
      BlocksUpTo(t, seg, sel, bi + 1)
        == BlocksUpTo(t, seg, sel, bi) + RowsUpTo(seg.blocks[bi], cols, |seg.blocks[bi].visible|)
  {
    var seg := t.segments[si];
    var b := seg.blocks[bi];
    assert BlockRecords(t, seg, b, sel) == RowsUpTo(b, cols, |b.visible|);
  }

  /** The rows read from block `bi` of segment `si` when the row loop
      stops after `scanned` rows: a prefix of the table's records when it
      stopped early, the whole block otherwise. */
  lemma BlockScanned(t: Table, sel: seq<ColumnId>, si: nat, bi: nat, cols: seq<seq<Value>>, scanned: nat, more: bool)
    requires WellFormed(t) && ValidSelection(t, sel) && si < |t.segments| && bi < |t.segments[si].blocks|
    requires SegmentWellFormed(t, t.segments[si])
    requires BlockColumns(t, t.segments[si], t.segments[si].blocks[bi], sel) == Ok(cols)
    requires scanned <= |t.segments[si].blocks[bi].visible| && (more ==> scanned == |t.segments[si].blocks[bi].visible|)
    ensures var seg := t.segments[si];
      var read := SegmentsUpTo(t, sel, si) + BlocksUpTo(t, seg, sel, bi)
        + RowsUpTo(seg.blocks[bi], cols, scanned);
      && read <= SegmentsUpTo(t, sel, si) + BlocksUpTo(t, seg, sel, bi + 1)
      && (!more ==> read <= Records(t, sel))
      && (more ==> read == SegmentsUpTo(t, sel, si) + BlocksUpTo(t, seg, sel, bi + 1))
  {
    var seg := t.segments[si];
    var b := seg.blocks[bi];
    var p := SegmentsUpTo(t, sel, si) + BlocksUpTo(t, seg, sel, bi);
    BlockComplete(t, sel, si, bi, cols);
    RowsUpToPrefix(b, cols, scanned, |b.visible|);
    PrefixAppend(p, RowsUpTo(b, cols, scanned), RowsUpTo(b, cols, |b.visible|));
    if !more {
      SeenPrefix(t, sel, si, bi, cols, scanned);
    }
  }

  /** A segment read to its end adds all its blocks' rows. */
  lemma SegmentComplete(t: Table, sel: seq<ColumnId>, si: nat)
    requires WellFormed(t) && ValidSelection(t, sel) && si < |t.segments|
    ensures SegmentWellFormed(t, t.segments[si])
    ensures SegmentsUpTo(t, sel, si + 1)
      == SegmentsUpTo(t, sel, si) + BlocksUpTo(t, t.segments[si], sel, |t.segments[si].blocks|)
  {
    assert SegmentWellFormed(t, t.segments[si]);
  }
}
