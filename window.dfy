/** The row window (offset, then limit, over the stream of visible rows) and
    the split of the emitted rows into output files of at most `rowLimit`
    rows, named `<path>`, `<path>.part1`, `<path>.part2`, ... */
module Windowing {

  function Min(a: int, b: int): int { if a < b then a else b }
  function Max0(a: int): nat { if a < 0 then 0 else a }

  /** The emitted part of a visible-row stream, row by row: a row is skipped
      while fewer than `offset` rows came before it, and taken while fewer
      than `limit` rows are taken (no cap when `limit` is 0). */
  function Window<T>(s: seq<T>, offset: nat, limit: nat): seq<T>
    decreases |s|
  {
    if s == [] then []
    else
      var w := Window(s[..|s| - 1], offset, limit);
      if |s| - 1 < offset || (limit != 0 && |w| >= limit) then w else w + [s[|s| - 1]]
  }

  /** The window is one slice of the stream: from `offset`, at most `limit`
      rows long. */
  lemma {:induction false} WindowSlice<T>(s: seq<T>, offset: nat, limit: nat)
    ensures var start := if offset < |s| then offset else |s|;
      var end := if limit == 0 || offset + limit > |s| then |s| else offset + limit;
      Window(s, offset, limit) == s[start..end]
    decreases |s|
  {
    if s != [] {
      var p, n := s[..|s| - 1], |s| - 1;
      WindowSlice(p, offset, limit);
      var w := Window(p, offset, limit);
      if n < offset {
        assert w == [];
      } else if limit != 0 && |w| >= limit {
        assert offset + limit <= n && w == p[offset..offset + limit];
        assert s[offset..offset + limit] == p[offset..offset + limit];
      } else {
        assert w == p[offset..n] == s[offset..n];
        assert s[offset..n + 1] == s[offset..n] + [s[n]];
      }
    }
  }

  /** How many rows the export reports, and which ones it emits. */
  lemma WindowContents<T>(s: seq<T>, offset: nat, limit: nat)
    ensures var w := Window(s, offset, limit);
      && |w| == (if limit == 0 then Max0(|s| - offset) else Min(limit, Max0(|s| - offset)))
      && (forall i :: 0 <= i < |w| ==> w[i] == s[offset + i])
  {
    WindowSlice(s, offset, limit);
  }

  /** A visible row met while offset is still being consumed emits nothing. */
  lemma WindowSkip<T>(s: seq<T>, x: T, offset: nat, limit: nat)
    requires |s| < offset
    ensures Window(s + [x], offset, limit) == Window(s, offset, limit) == []
  {
    assert (s + [x])[..|s|] == s;
    WindowSlice(s, offset, limit);
  }

  /** A visible row met after the offset and below the limit is emitted last. */
  lemma WindowEmit<T>(s: seq<T>, x: T, offset: nat, limit: nat)
    requires offset <= |s|
    requires limit == 0 || |Window(s, offset, limit)| < limit
    ensures Window(s + [x], offset, limit) == Window(s, offset, limit) + [x]
  {
    assert (s + [x])[..|s|] == s;
  }

  /** Once `limit` rows are emitted, nothing that follows changes the window. */
  lemma WindowSaturated<T>(s: seq<T>, u: seq<T>, offset: nat, limit: nat)
    requires s <= u
    requires limit != 0 && |Window(s, offset, limit)| == limit
    ensures Window(u, offset, limit) == Window(s, offset, limit)
  {
    WindowSlice(s, offset, limit);
    WindowSlice(u, offset, limit);
    assert offset + limit <= |s|;
    assert u[offset..offset + limit] == s[offset..offset + limit];
  }

  /** Reference definition of the rows-per-file layout: consecutive chunks of
      `rowLimit` rows, the last one possibly shorter; one file when there is
      no limit or nothing to split. */
  function Chunk<T>(s: seq<T>, rowLimit: nat): (c: seq<seq<T>>)
    ensures |c| >= 1
    decreases |s|
  {
    if rowLimit == 0 || |s| <= rowLimit then [s]
    else [s[..rowLimit]] + Chunk(s[rowLimit..], rowLimit)
  }

  function Flatten<T>(ss: seq<seq<T>>): seq<T>
  {
    if ss == [] then [] else ss[0] + Flatten(ss[1..])
  }

  /** Appends one row to the last file of a layout. */
  function AppendToLast<T>(c: seq<seq<T>>, x: T): seq<seq<T>>
    requires |c| >= 1
  {
    c[..|c| - 1] + [c[|c| - 1] + [x]]
  }

  /** Concatenation is associative. */
  lemma AppendAssoc<T>(a: seq<T>, b: seq<T>, c: seq<T>)
    ensures (a + b) + c == a + (b + c)
  {
  }

  lemma {:induction false} FlattenSnoc<T>(ss: seq<seq<T>>, t: seq<T>)
    ensures Flatten(ss + [t]) == Flatten(ss) + t
  {
    if ss == [] {
      assert [t][1..] == [];
    } else {
      assert (ss + [t])[1..] == ss[1..] + [t];
      FlattenSnoc(ss[1..], t);
    }
  }

  /** Appending one emitted row to the stream either opens a new file (when
      the count so far is a positive multiple of `rowLimit`) or extends the
      last file: the check-then-switch-then-write order of the exporters. */
  lemma {:induction false} ChunkSnoc<T>(s: seq<T>, x: T, rowLimit: nat)
    ensures Chunk(s + [x], rowLimit) ==
      if |s| > 0 && rowLimit != 0 && |s| % rowLimit == 0
      then Chunk(s, rowLimit) + [[x]]
      else AppendToLast(Chunk(s, rowLimit), x)
    decreases |s|
  {
    if rowLimit == 0 {
    } else if |s| < rowLimit {
      if |s| > 0 {
        DivModUnique(|s|, rowLimit, 0, |s|);
      }
      assert Chunk(s + [x], rowLimit) == [s + [x]];
    } else if |s| == rowLimit {
      DivModUnique(|s|, rowLimit, 1, 0);
      assert (s + [x])[..rowLimit] == s;
      assert (s + [x])[rowLimit..] == [x];
    } else {
      var rest := s[rowLimit..];
      var head := s[..rowLimit];
      assert (s + [x])[..rowLimit] == head;
      assert (s + [x])[rowLimit..] == rest + [x];
      assert Chunk(s + [x], rowLimit) == [head] + Chunk(rest + [x], rowLimit);
      DivModStep(|rest|, rowLimit);
      assert |s| == |rest| + rowLimit;
      ChunkSnoc(rest, x, rowLimit);
      var c := Chunk(rest, rowLimit);
      assert Chunk(s, rowLimit) == [head] + c;
      if |rest| % rowLimit == 0 {
        assert Chunk(rest + [x], rowLimit) == c + [[x]];
        assert [head] + (c + [[x]]) == [head] + c + [[x]];
      } else {
        assert Chunk(rest + [x], rowLimit) == AppendToLast(c, x);
        assert [head] + AppendToLast(c, x) == AppendToLast([head] + c, x);
      }
    }
  }

  lemma {:induction false} MulAtLeast(d: int, k: int)
    requires d >= 1 && k > 0
    ensures d * k >= k
    decreases d
  {
    if d > 1 {
      MulAtLeast(d - 1, k);
      assert d * k == (d - 1) * k + k;
    }
  }

  lemma DivModUnique(a: int, k: int, q: int, r: int)
    requires k > 0 && 0 <= r < k && a == q * k + r
    ensures a / k == q && a % k == r
  {
    var q', r' := a / k, a % k;
    assert a == q' * k + r';
    assert (q' - q) * k == r - r';
    if q' - q >= 1 {
      MulAtLeast(q' - q, k);
    } else if q - q' >= 1 {
      MulAtLeast(q - q', k);
    }
  }

  /** Adding one file's worth of rows keeps the remainder and adds one to the quotient. */
  lemma DivModStep(a: nat, k: nat)
    requires k > 0
    ensures (a + k) % k == a % k
    ensures (a + k) / k == a / k + 1
  {
    DivModUnique(a, k, a / k, a % k);
    assert a + k == (a / k + 1) * k + a % k;
    DivModUnique(a + k, k, a / k + 1, a % k);
  }

  /** The files hold the emitted rows, in order. */
  lemma {:induction false} ChunkFlatten<T>(s: seq<T>, rowLimit: nat)
    ensures Flatten(Chunk(s, rowLimit)) == s
    decreases |s|
  {
    if rowLimit == 0 || |s| <= rowLimit {
      assert Chunk(s, rowLimit) == [s];
      assert Flatten([s]) == s + Flatten([]);
    } else {
      var c := Chunk(s, rowLimit);
      ChunkFlatten(s[rowLimit..], rowLimit);
      assert c[1..] == Chunk(s[rowLimit..], rowLimit);
      assert s == s[..rowLimit] + s[rowLimit..];
    }
  }

  /** There are ceil(total / rowLimit) files, and one file when nothing is
      split. */
  lemma {:induction false} ChunkCount<T>(s: seq<T>, rowLimit: nat)
    ensures |Chunk(s, rowLimit)| == (if rowLimit == 0 || |s| == 0 then 1 else (|s| + rowLimit - 1) / rowLimit)
    decreases |s|
  {
    if rowLimit == 0 || |s| <= rowLimit {
      assert Chunk(s, rowLimit) == [s];
      if rowLimit != 0 && |s| != 0 {
        DivModUnique(|s| + rowLimit - 1, rowLimit, 1, |s| - 1);
      }
    } else {
      var rest := s[rowLimit..];
      ChunkCount(rest, rowLimit);
      assert |Chunk(s, rowLimit)| == 1 + |Chunk(rest, rowLimit)|;
      DivModStep(|rest| + rowLimit - 1, rowLimit);
    }
  }

  /** Every file but the last holds exactly `rowLimit` rows, the last holds
      at most `rowLimit`, and it is not empty unless nothing was emitted. */
  lemma {:induction false} ChunkSizes<T>(s: seq<T>, rowLimit: nat)
    ensures var c := Chunk(s, rowLimit);
      && (rowLimit != 0 ==> forall i :: 0 <= i < |c| - 1 ==> |c[i]| == rowLimit)
      && (rowLimit != 0 ==> |c[|c| - 1]| <= rowLimit)
      && (s != [] ==> c[|c| - 1] != [])
    decreases |s|
  {
    var c := Chunk(s, rowLimit);
    if rowLimit == 0 || |s| <= rowLimit {
      assert c == [s];
    } else {
      var rest := s[rowLimit..];
      ChunkSizes(rest, rowLimit);
      var c' := Chunk(rest, rowLimit);
      assert c == [s[..rowLimit]] + c';
      forall i | 0 <= i < |c| - 1 ensures |c[i]| == rowLimit {
        if i > 0 { assert c[i] == c'[i - 1]; }
      }
      assert c[|c| - 1] == c'[|c'| - 1];
    }
  }

  /** Decimal rendering of a file number, as `fmt::format("{}", n)`. */
  function Digit(d: nat): char
    requires d < 10
  {
    "0123456789"[d]
  }

  function DigitValue(c: char): nat
  {
    if '0' <= c <= '9' then (c as int - '0' as int) else 0
  }

  function DecimalString(n: nat): (s: string)
    ensures |s| >= 1
  {
    if n < 10 then [Digit(n)] else DecimalString(n / 10) + [Digit(n % 10)]
  }

  function ParseDecimal(s: string): nat
  {
    if s == [] then 0 else ParseDecimal(s[..|s| - 1]) * 10 + DigitValue(s[|s| - 1])
  }

  lemma {:induction false} DecimalRoundTrip(n: nat)
    ensures ParseDecimal(DecimalString(n)) == n
  {
    if n >= 10 {
      var s := DecimalString(n);
      assert s[..|s| - 1] == DecimalString(n / 10);
      DecimalRoundTrip(n / 10);
    }
  }

  /** Name of the i-th output file: the configured path, then `<path>.part<i>`. */
  function FileName(path: string, i: nat): (r: string)
    ensures path <= r
    ensures i == 0 <==> r == path
  {
    if i == 0 then path else path + ".part" + DecimalString(i)
  }

  /** Distinct file numbers give distinct file names: no part file overwrites
      the primary file or another part. */
  lemma FileNamesDistinct(path: string, i: nat, j: nat)
    requires FileName(path, i) == FileName(path, j)
    ensures i == j
  {
    if i != 0 && j != 0 {
      var p := path + ".part";
      assert FileName(path, i)[|p|..] == DecimalString(i);
      assert FileName(path, j)[|p|..] == DecimalString(j);
      DecimalRoundTrip(i);
      DecimalRoundTrip(j);
    }
  }
}
