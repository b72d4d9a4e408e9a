/** The compute phase every rank runs: its `rows × n` block of A times the
    whole `n × n` matrix B, row by row in progress chunks, into its own
    `rows × n` block of C. */
module LocalMultiply {
  import opened Layout
  import opened Int32
  import opened Matrix
  import opened Overflow
  import opened Chunking

  /** Row i of c holds its final value in columns [0, cols). */
  predicate ColsDone(c: seq<int>, localA: seq<int>, b: seq<int>, rows: nat, n: nat, i: nat, cols: nat)
    requires |c| == rows * n && |localA| == rows * n && |b| == n * n && i < rows && cols <= n
  {
    forall j :: 0 <= j < cols ==> At(c, rows, n, i, j) == DotInt32(Row(localA, rows, n, i), b, n, j, n)
  }

  /** Rows [0, done) of c hold their final values. */
  predicate RowsDone(c: seq<int>, localA: seq<int>, b: seq<int>, rows: nat, n: nat, done: nat)
    requires |c| == rows * n && |localA| == rows * n && |b| == n * n && done <= rows
  {
    forall i, j :: 0 <= i < done && 0 <= j < n ==> At(c, rows, n, i, j) == DotInt32(Row(localA, rows, n, i), b, n, j, n)
  }

  /** Writing cell (i, j) leaves the finished rows before i and the finished
      columns before j of row i as they were. */
  lemma WriteKeepsDone(c: seq<int>, localA: seq<int>, b: seq<int>, rows: nat, n: nat, i: nat, j: nat, v: int)
    requires |c| == rows * n && |localA| == rows * n && |b| == n * n && i < rows && j < n
    requires RowsDone(c, localA, b, rows, n, i) && ColsDone(c, localA, b, rows, n, i, j)
    ensures RowsDone(Update(c, rows, n, i, j, v), localA, b, rows, n, i)
    ensures ColsDone(Update(c, rows, n, i, j, v), localA, b, rows, n, i, j)
  {
    IndexInRange(i, j, rows, n);
    var c' := Update(c, rows, n, i, j, v);
    forall i', j' | 0 <= i' < i && 0 <= j' < n
      ensures At(c', rows, n, i', j') == At(c, rows, n, i', j')
    {
      IndexInRange(i', j', i, n);
    }
    forall j' | 0 <= j' < j
      ensures At(c', rows, n, i, j') == At(c, rows, n, i, j')
    {
      IndexInRange(i, j', rows, n);
    }
  }

  /** What the chunk loop leaves behind once every row is done: each cell is
      the 32-bit dot product, and for entries in [0, 10) and n <= N the exact
      product. */
  lemma AllRowsDone(localC: seq<int>, localA: seq<int>, b: seq<int>, rows: nat, n: nat)
    requires |localC| == rows * n && |localA| == rows * n && |b| == n * n
    requires RowsDone(localC, localA, b, rows, n, rows)
    ensures forall i, j :: 0 <= i < rows && 0 <= j < n ==>
      At(localC, rows, n, i, j) == DotInt32(Row(localA, rows, n, i), b, n, j, n)
    ensures Digits(localA) && Digits(b) && n <= N ==> localC == MatMul(localA, b, rows, n)
  {
    if Digits(localA) && Digits(b) && n <= N {
      forall i, j | 0 <= i < rows && 0 <= j < n
        ensures At(localC, rows, n, i, j) == At(MatMul(localA, b, rows, n), rows, n, i, j)
      {
        DigitsRow(localA, rows, n, i);
        NoOverflow(Row(localA, rows, n, i), b, n, j, n);
        MatMulCell(localA, b, rows, n, i, j);
      }
      SameCells(localC, MatMul(localA, b, rows, n), rows, n);
    }
  }

  /** The body of the row loop: `local_C[i*N+j]` for every column j, each
      accumulated over k from 0. */
  method MultiplyRow(c: array<int>, localA: seq<int>, b: seq<int>, rows: nat, n: nat, i: nat)
    requires c.Length == rows * n && |localA| == rows * n && |b| == n * n && i < rows
    requires RowsDone(c[..], localA, b, rows, n, i)
    modifies c
    ensures RowsDone(c[..], localA, b, rows, n, i + 1)
  {
    ghost var row := Row(localA, rows, n, i);
    var j := 0;
    while j < n
      invariant 0 <= j <= n
      invariant RowsDone(c[..], localA, b, rows, n, i)
      invariant ColsDone(c[..], localA, b, rows, n, i, j)
    {
      IndexInRange(i, j, rows, n);
      var p := i * n + j;
      WriteKeepsDone(c[..], localA, b, rows, n, i, j, 0);
      c[p] := 0;
      var k := 0;
      while k < n
        invariant 0 <= k <= n
        invariant c[p] == DotInt32(row, b, n, j, k)
        invariant RowsDone(c[..], localA, b, rows, n, i)
        invariant ColsDone(c[..], localA, b, rows, n, i, j)
      {
        IndexInRange(i, k, rows, n);
        IndexInRange(k, j, n, n);
        var sum := Wrap(c[p] + Wrap(localA[i * n + k] * b[k * n + j]));
        WriteKeepsDone(c[..], localA, b, rows, n, i, j, sum);
        c[p] := sum;
        k := k + 1;
      }
      j := j + 1;
    }
  }

  /** Rows [chunk, endRow) of one progress chunk. */
  method MultiplyChunk(c: array<int>, localA: seq<int>, b: seq<int>, rows: nat, n: nat, chunk: nat, endRow: nat)
    requires c.Length == rows * n && |localA| == rows * n && |b| == n * n && chunk <= endRow <= rows
    requires RowsDone(c[..], localA, b, rows, n, chunk)
    modifies c
    ensures RowsDone(c[..], localA, b, rows, n, endRow)
  {
    var i := chunk;
    while i < endRow
      invariant chunk <= i <= endRow
      invariant RowsDone(c[..], localA, b, rows, n, i)
    {
      MultiplyRow(c, localA, b, rows, n, i);
      i := i + 1;
    }
  }

  /** The chunked multiply loop of the program. `progress` is the sequence of
      row ranges whose completion the loop reports, one per chunk; what that
      schedule looks like is `Chunking.ChunkSchedule`. */
  method ChunkedMultiply(localA: seq<int>, b: seq<int>, rows: nat, n: nat) returns (localC: seq<int>, progress: seq<RowRange>)
    requires |localA| == rows * n && |b| == n * n
    ensures |localC| == rows * n
    ensures forall i, j :: 0 <= i < rows && 0 <= j < n ==>
      At(localC, rows, n, i, j) == DotInt32(Row(localA, rows, n, i), b, n, j, n)
    ensures Digits(localA) && Digits(b) && n <= N ==> localC == MatMul(localA, b, rows, n)
    ensures progress == Chunks(rows, ChunkSize(rows), 0)
  {
    var c := new int[rows * n];
    var chunkSize := if rows / 10 > 0 then rows / 10 else 1;
    progress := [];
    var chunk := 0;
    while chunk < rows
      invariant chunkSize == ChunkSize(rows)
      invariant progress + Chunks(rows, chunkSize, chunk) == Chunks(rows, chunkSize, 0)
      invariant RowsDone(c[..], localA, b, rows, n, if chunk < rows then chunk else rows)
      decreases rows - chunk
    {
      var endRow := chunk + chunkSize;
      if endRow > rows {
        endRow := rows;
      }
      MultiplyChunk(c, localA, b, rows, n, chunk, endRow);
      ChunksAdvance(rows, chunkSize, chunk, progress);
      progress := progress + [RowRange(chunk, endRow)];
      chunk := chunk + chunkSize;
    }
    localC := c[..];
    assert Chunks(rows, chunkSize, chunk) == [];
    AllRowsDone(localC, localA, b, rows, n);
  }
}
