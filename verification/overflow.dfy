/** The accumulation `local_C[i*N+j] += local_A[i*N+k] * B[k*N+j]` as the C
    program performs it, on 32-bit `int`s, and the proof that for matrices
    filled by `initialize_matrix` it never leaves the `int` range, so it
    computes the exact dot product. */
module Overflow {
  import opened Layout
  import opened Int32
  import opened Matrix

  /** The value `local_C[i*N+j]` holds after k passes of the innermost loop:
      it starts at 0, and each pass stores the 32-bit product and then the
      32-bit sum. */
  function DotInt32(row: seq<int>, b: seq<int>, n: nat, j: nat, k: nat): (r: int)
    requires |row| == n && |b| == n * n && j < n && k <= n
    ensures IsInt32(r)
    decreases k
  {
    if k == 0 then 0
    else Wrap(DotInt32(row, b, n, j, k - 1) + Wrap(row[k - 1] * At(b, n, n, k - 1, j)))
  }

  lemma DigitBounds(b: seq<int>, n: nat, t: nat, j: nat)
    requires |b| == n * n && t < n && j < n && Digits(b)
    ensures 0 <= At(b, n, n, t, j) < 10
  {
    IndexInRange(t, j, n, n);
  }

  /** For entries in [0, 10) and any dimension up to the program's N = 2000,
      every product and every partial sum of the accumulation stays within
      [0, 81*k] (at most 162000 < INT_MAX), so no step wraps and the 32-bit
      accumulation equals the exact dot product. */
  lemma {:induction false} NoOverflow(row: seq<int>, b: seq<int>, n: nat, j: nat, k: nat)
    requires |row| == n && |b| == n * n && j < n && k <= n
    requires Digits(row) && Digits(b) && n <= N
    ensures DotInt32(row, b, n, j, k) == Dot(row, b, n, j, k)
    ensures 0 <= Dot(row, b, n, j, k) <= 81 * k <= 81 * N < INT_MAX
    decreases k
  {
    if k > 0 {
      NoOverflow(row, b, n, j, k - 1);
      var x, y := row[k - 1], At(b, n, n, k - 1, j);
      DigitBounds(b, n, k - 1, j);
      DigitProduct(x, y);
      var sum := DotInt32(row, b, n, j, k - 1) + x * y;
      assert sum == Dot(row, b, n, j, k);
    }
  }
}
