/** `initialize_matrix`: fills a `rows × cols` buffer with pseudo-random
    digits. The C library's `rand()` is not modelled; its successive return
    values are a parameter, and they are non-negative as `rand()`'s are. */
module Init {
  import opened Layout
  import opened Matrix

  /** The first k cells hold the first k draws reduced modulo 10. */
  predicate DrawnUpTo(m: seq<int>, draws: seq<nat>, k: nat)
    requires k <= |m| && k <= |draws|
  {
    forall p :: 0 <= p < k ==> m[p] == draws[p] % 10
  }

  /** The inner loop of `initialize_matrix`: the `cols` cells of the row
      starting at index `base`, one draw each. */
  method FillRow(matrix: array<int>, draws: seq<nat>, base: nat, cols: nat)
    requires base + cols <= matrix.Length && matrix.Length <= |draws|
    requires DrawnUpTo(matrix[..], draws, base)
    modifies matrix
    ensures DrawnUpTo(matrix[..], draws, base + cols)
  {
    var j := 0;
    while j < cols
      invariant 0 <= j <= cols
      invariant DrawnUpTo(matrix[..], draws, base + j)
    {
      matrix[base + j] := draws[base + j] % 10;
      j := j + 1;
    }
  }

  /** Cell (i, j) receives `draws[i*cols + j] % 10`: one draw per cell, taken
      in row-major order, so every cell is written and holds a digit. */
  method InitializeMatrix(draws: seq<nat>, rows: nat, cols: nat) returns (m: seq<int>)
    requires |draws| >= rows * cols
    ensures |m| == rows * cols
    ensures forall p :: 0 <= p < rows * cols ==> m[p] == draws[p] % 10
    ensures Digits(m)
  {
    var matrix := new int[rows * cols];
    var i, base := 0, 0;
    while i < rows
      invariant 0 <= i <= rows && base == i * cols && base <= rows * cols
      invariant DrawnUpTo(matrix[..], draws, base)
    {
      MulLe(i + 1, rows, cols);
      FillRow(matrix, draws, base, cols);
      i, base := i + 1, base + cols;
    }
    m := matrix[..];
    assert DrawnUpTo(m, draws, rows * cols);
  }
}
