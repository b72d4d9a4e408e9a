/** Row-major layout of a `rows × cols` grid stored in one flat sequence, the
    way the program stores every matrix: cell (i, j) lives at index i*cols + j.
    The index arithmetic is nonlinear, so the facts the solver cannot find on
    its own are proved here once and used everywhere through `At` and `Row`. */
module Layout {

  /** q*d <= a < q*d + d pins down the quotient and remainder of a by d. */
  lemma DivModUnique(a: int, d: int, q: int)
    requires d > 0 && q * d <= a < q * d + d
    ensures a / d == q && a % d == a - q * d
  {
    var q' := a / d;
    assert a == q' * d + a % d;
    if q' < q {
      MulLe(q' + 1, q, d);
    } else if q' > q {
      MulLe(q + 1, q', d);
    }
  }

  lemma MulLe(x: int, y: int, d: int)
    requires x <= y && d >= 0
    ensures x * d <= y * d
  {
    assert y * d - x * d == (y - x) * d;
  }

  /** The flat index of a cell lies inside the buffer. */
  lemma IndexInRange(i: nat, j: nat, rows: nat, cols: nat)
    requires i < rows && j < cols
    ensures i * cols + j < rows * cols
    ensures i * cols + cols <= rows * cols
  {
    MulLe(i + 1, rows, cols);
  }

  /** A flat index decodes back to its row and column. */
  lemma IndexDecode(i: nat, j: nat, cols: nat)
    requires j < cols
    ensures (i * cols + j) / cols == i && (i * cols + j) % cols == j
  {
    DivModUnique(i * cols + j, cols, i);
  }

  /** Every index of a `rows × cols` buffer is the flat index of some cell. */
  lemma IndexEncode(p: nat, rows: nat, cols: nat)
    requires p < rows * cols
    ensures cols > 0 && p / cols < rows && p == (p / cols) * cols + p % cols
  {
    if cols > 0 && p / cols >= rows {
      MulLe(rows, p / cols, cols);
    }
  }

  /** Cell (i, j) of a `rows × cols` row-major buffer. */
  function At<T>(m: seq<T>, rows: nat, cols: nat, i: nat, j: nat): T
    requires |m| == rows * cols && i < rows && j < cols
  {
    IndexInRange(i, j, rows, cols);
    m[i * cols + j]
  }

  /** The buffer with cell (i, j) replaced by v. */
  function Update<T>(m: seq<T>, rows: nat, cols: nat, i: nat, j: nat, v: T): (r: seq<T>)
    requires |m| == rows * cols && i < rows && j < cols
    ensures |r| == rows * cols
    ensures At(r, rows, cols, i, j) == v
  {
    IndexInRange(i, j, rows, cols);
    m[i * cols + j := v]
  }

  /** Row i of a `rows × cols` row-major buffer: the `cols` consecutive cells
      starting at index i*cols. */
  function Row<T>(m: seq<T>, rows: nat, cols: nat, i: nat): (r: seq<T>)
    requires |m| == rows * cols && i < rows
    ensures |r| == cols
    ensures forall j :: 0 <= j < cols ==> r[j] == At(m, rows, cols, i, j)
  {
    MulLe(i + 1, rows, cols);
    m[i * cols .. i * cols + cols]
  }

  /** Two buffers of the same shape are equal as soon as they agree on every cell. */
  lemma {:induction false} SameCells<T>(x: seq<T>, y: seq<T>, rows: nat, cols: nat)
    requires |x| == rows * cols && |y| == rows * cols
    requires forall i, j :: 0 <= i < rows && 0 <= j < cols ==> At(x, rows, cols, i, j) == At(y, rows, cols, i, j)
    ensures x == y
  {
    forall p | 0 <= p < |x|
      ensures x[p] == y[p]
    {
      IndexEncode(p, rows, cols);
      var i, j := p / cols, p % cols;
      assert At(x, rows, cols, i, j) == At(y, rows, cols, i, j);
    }
  }
}
