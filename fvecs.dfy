/** The fixed-record vector format: each row is the embedding's dimension as
    a 4-byte little-endian `i32` followed by the embedding's raw bytes, with
    no separator between records. */
module Fvecs {
  import opened Types
  import opened Windowing

  const TwoTo32: nat := 0x1_0000_0000

  /** The bytes of `(i32) dimension` as written by `Append(&dimension, 4)`:
      the low 32 bits of the dimension, least significant byte first. */
  function I32LE(n: nat): (r: seq<byte>)
    ensures |r| == 4
  {
    var u := n % TwoTo32;
    [(u % 256) as byte, (u / 256 % 256) as byte, (u / 65536 % 256) as byte, (u / 16777216 % 256) as byte]
  }

  function DecodeU32LE(b: seq<byte>): nat
    requires |b| == 4
  {
    b[0] as nat + 256 * (b[1] as nat) + 65536 * (b[2] as nat) + 16777216 * (b[3] as nat)
  }

  lemma ByteSplit(u: nat, k: nat)
    requires k > 0
    ensures u == u % k + k * (u / k)
  {
  }

  /** Reading the four length bytes back yields the dimension (modulo 2^32). */
  lemma I32RoundTrip(n: nat)
    ensures DecodeU32LE(I32LE(n)) == n % TwoTo32
  {
    var u := n % TwoTo32;
    var q1, q2, q3 := u / 256, u / 65536, u / 16777216;
    DivDiv(u, 256, 256);
    DivDiv(u, 65536, 256);
    assert q2 == q1 / 256 && q3 == q2 / 256;
    assert q3 < 256;
    ByteSplit(u, 256);
    ByteSplit(q1, 256);
    ByteSplit(q2, 256);
  }

  lemma DivDiv(u: nat, a: nat, b: nat)
    requires a > 0 && b > 0
    ensures u / a / b == u / (a * b)
  {
    var q := u / a / b;
    var r := u / a % b;
    assert u / a == q * b + r;
    assert u == (q * b + r) * a + u % a;
    assert u == q * (a * b) + (r * a + u % a);
    assert r * a + u % a < a * b by {
      assert r <= b - 1;
      assert r * a <= (b - 1) * a;
    }
    DivModUnique(u, a * b, q, r * a + u % a);
  }

  /** `GetEmbedding()` of a cell: its payload bytes. */
  function Payload(vals: seq<Value>): seq<byte>
  {
    if |vals| >= 1 && vals[0].Cell? then vals[0].data else []
  }

  /** The record of one row of the exported column: four bytes that decode
      back to the dimension, then the embedding's bytes. */
  function FvecsRecord(dimension: nat, vals: seq<Value>): (r: seq<byte>)
    ensures |r| == 4 + |Payload(vals)| && r[4..] == Payload(vals)
    ensures dimension < TwoTo32 ==> DecodeU32LE(r[..4]) == dimension
  {
    var r := I32LE(dimension) + Payload(vals);
    assert r[..4] == I32LE(dimension);
    I32RoundTrip(dimension);
    r
  }

  function FvecsRender(dimension: nat): seq<Value> -> seq<byte>
  {
    vals => FvecsRecord(dimension, vals)
  }

  /** The pre-flight checks: the requested column list (not the defaulted
      selection) must hold exactly one column, an embedding, of float
      elements; the result is the dimension written in every record. */
  function FvecsCheck(defs: seq<ColumnDef>, requested: seq<ColumnId>): (r: Result<nat>)
    requires |requested| == 1 ==> requested[0].Ordinary? && requested[0].index < |defs|
    ensures r.Ok? <==> |requested| == 1 && defs[requested[0].index].ty.Embedding?
                       && defs[requested[0].index].ty.elem == ElemFloat
    ensures r.Ok? ==> r.value == defs[requested[0].index].ty.dimension
    ensures r.Err? ==> r.error == (if |requested| != 1 then FvecsColumnCount
                                   else if !defs[requested[0].index].ty.Embedding? then FvecsNotEmbedding
                                   else FvecsNotFloat)
  {
    if |requested| != 1 then Err(FvecsColumnCount)
    else
      var ty := defs[requested[0].index].ty;
      if !ty.Embedding? then Err(FvecsNotEmbedding)
      else if ty.elem != ElemFloat then Err(FvecsNotFloat)
      else Ok(ty.dimension)
  }

  /** A reader of the format: take the 4-byte dimension d, then 4*d bytes of
      floats, and repeat. */
  function ParseFvecs(bytes: seq<byte>): seq<seq<byte>>
    decreases |bytes|
  {
    if |bytes| < 4 then []
    else
      var end := 4 + 4 * DecodeU32LE(bytes[..4]);
      if end > |bytes| then [] else [bytes[4..end]] + ParseFvecs(bytes[end..])
  }

  /** One record at the front of the bytes is read back as its payload. */
  lemma ParseOneRecord(dimension: nat, p: seq<byte>, rest: seq<byte>)
    requires dimension < TwoTo32 && |p| == 4 * dimension
    ensures ParseFvecs(I32LE(dimension) + p + rest) == [p] + ParseFvecs(rest)
  {
    var bytes := I32LE(dimension) + p + rest;
    var head := bytes[..4];
    assert head == I32LE(dimension);
    I32RoundTrip(dimension);
    assert DecodeU32LE(head) == dimension;
    var end := 4 + 4 * dimension;
    assert end == 4 + |p| <= |bytes|;
    assert bytes[4..end] == p;
    assert bytes[end..] == rest;
    assert ParseFvecs(bytes) == [bytes[4..end]] + ParseFvecs(bytes[end..]);
  }

  function FvecsRecords(dimension: nat, rows: seq<seq<Value>>): (r: seq<seq<byte>>)
    ensures |r| == |rows| && forall i :: 0 <= i < |rows| ==> r[i] == FvecsRecord(dimension, rows[i])
  {
    seq(|rows|, i requires 0 <= i < |rows| => FvecsRecord(dimension, rows[i]))
  }

  function Payloads(rows: seq<seq<Value>>): (r: seq<seq<byte>>)
    ensures |r| == |rows| && forall i :: 0 <= i < |rows| ==> r[i] == Payload(rows[i])
  {
    seq(|rows|, i requires 0 <= i < |rows| => Payload(rows[i]))
  }

  /** The records of a file, concatenated, read back as the payloads in
      order, when each payload holds `dimension` floats. */
  lemma {:induction false} FvecsRoundTrip(dimension: nat, rows: seq<seq<Value>>)
    requires dimension < TwoTo32
    requires forall i :: 0 <= i < |rows| ==> |Payload(rows[i])| == 4 * dimension
    ensures ParseFvecs(Flatten(FvecsRecords(dimension, rows))) == Payloads(rows)
  {
    if rows != [] {
      var rest := rows[1..];
      assert FvecsRecords(dimension, rows)[1..] == FvecsRecords(dimension, rest);
      assert Payloads(rows) == [Payload(rows[0])] + Payloads(rest);
      FvecsRoundTrip(dimension, rest);
      ParseOneRecord(dimension, Payload(rows[0]), Flatten(FvecsRecords(dimension, rest)));
    }
  }
}
