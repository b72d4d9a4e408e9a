/** Dense square matrices of integers in flat row-major order, and the
    reference (mathematical) matrix product that every computed result is
    compared against. */
module Matrix {
  import opened Layout

  /** The program's matrix dimension (`#define N 2000`). */
  const N: nat := 2000

  /** Every entry lies in [0, 10), the range `initialize_matrix` fills with. */
  predicate Digits(m: seq<int>) {
    forall p :: 0 <= p < |m| ==> 0 <= m[p] < 10
  }

  /** The first k terms of the dot product of `row` with column j of the
      `n × n` matrix b: the sum over t < k of row[t] * b[t][j]. */
  function Dot(row: seq<int>, b: seq<int>, n: nat, j: nat, k: nat): int
    requires |row| == n && |b| == n * n && j < n && k <= n
    decreases k
  {
    if k == 0 then 0
    else Dot(row, b, n, j, k - 1) + row[k - 1] * At(b, n, n, k - 1, j)
  }

  /** One row of the product: `row` times b. */
  function RowTimes(row: seq<int>, b: seq<int>, n: nat): (r: seq<int>)
    requires |row| == n && |b| == n * n
    ensures |r| == n
  {
    seq(n, j requires 0 <= j < n => Dot(row, b, n, j, n))
  }

  /** The product of the `rows × n` matrix a with the `n × n` matrix b,
      built row by row. */
  function MatMul(a: seq<int>, b: seq<int>, rows: nat, n: nat): (c: seq<int>)
    requires |a| == rows * n && |b| == n * n
    ensures |c| == rows * n
    decreases rows
  {
    if rows == 0 then []
    else
      MulLe(1, rows, n);
      assert |a[n..]| == (rows - 1) * n;
      RowTimes(a[..n], b, n) + MatMul(a[n..], b, rows - 1, n)
  }

  /** The `n × n` identity matrix. */
  function Identity(n: nat): (m: seq<int>)
    ensures |m| == n * n
  {
    seq(n * n, p requires 0 <= p < n * n => (IndexEncode(p, n, n); if p / n == p % n then 1 else 0))
  }

  /** Cell (i, j) of the product is the dot product of row i of a with column
      j of b. */
  lemma {:induction false} MatMulCell(a: seq<int>, b: seq<int>, rows: nat, n: nat, i: nat, j: nat)
    requires |a| == rows * n && |b| == n * n && i < rows && j < n
    ensures At(MatMul(a, b, rows, n), rows, n, i, j) == Dot(Row(a, rows, n, i), b, n, j, n)
    decreases rows
  {
    var c := MatMul(a, b, rows, n);
    MulLe(1, rows, n);
    assert |a[n..]| == (rows - 1) * n;
    var rest := MatMul(a[n..], b, rows - 1, n);
    assert c == RowTimes(a[..n], b, n) + rest;
    if i == 0 {
      assert Row(a, rows, n, 0) == a[..n];
    } else {
      MatMulCell(a[n..], b, rows - 1, n, i - 1, j);
      MulLe(1, i, n);
      var p := i * n + j;
      var q := (i - 1) * n + j;
      assert q == p - n;
      IndexInRange(i - 1, j, rows - 1, n);
      assert c[p] == rest[q];
      assert Row(a[n..], rows - 1, n, i - 1) == a[n..][(i - 1) * n .. (i - 1) * n + n];
      assert a[n..][(i - 1) * n .. (i - 1) * n + n] == a[i * n .. i * n + n];
    }
  }

  /** Stacking row blocks commutes with multiplying by b: the product of a
      matrix split by rows is the concatenation of the products of its parts. */
  lemma {:induction false} MatMulAppend(a1: seq<int>, a2: seq<int>, b: seq<int>, r1: nat, r2: nat, n: nat)
    requires |a1| == r1 * n && |a2| == r2 * n && |b| == n * n
    ensures |a1 + a2| == (r1 + r2) * n
    ensures MatMul(a1 + a2, b, r1 + r2, n) == MatMul(a1, b, r1, n) + MatMul(a2, b, r2, n)
    decreases r1
  {
    if r1 > 0 {
      MulLe(1, r1, n);
      assert |a1[n..]| == (r1 - 1) * n;
      assert (a1 + a2)[..n] == a1[..n];
      assert (a1 + a2)[n..] == a1[n..] + a2;
      MatMulAppend(a1[n..], a2, b, r1 - 1, r2, n);
    } else {
      assert a1 + a2 == a2;
    }
  }

  lemma IdentityCell(n: nat, t: nat, j: nat)
    requires t < n && j < n
    ensures At(Identity(n), n, n, t, j) == if t == j then 1 else 0
  {
    IndexInRange(t, j, n, n);
    IndexDecode(t, j, n);
  }

  /** Multiplying by column j of the identity picks out entry j. */
  lemma {:induction false} DotIdentity(row: seq<int>, n: nat, j: nat, k: nat)
    requires |row| == n && j < n && k <= n
    ensures Dot(row, Identity(n), n, j, k) == if j < k then row[j] else 0
    decreases k
  {
    if k > 0 {
      DotIdentity(row, n, j, k - 1);
      IdentityCell(n, k - 1, j);
    }
  }

  /** a × I == a. */
  lemma {:induction false} MatMulIdentity(a: seq<int>, rows: nat, n: nat)
    requires |a| == rows * n
    ensures MatMul(a, Identity(n), rows, n) == a
    decreases rows
  {
    if rows > 0 {
      MulLe(1, rows, n);
      assert |a[n..]| == (rows - 1) * n;
      MatMulIdentity(a[n..], rows - 1, n);
      forall j | 0 <= j < n
        ensures RowTimes(a[..n], Identity(n), n)[j] == a[j]
      {
        DotIdentity(a[..n], n, j, n);
      }
      assert RowTimes(a[..n], Identity(n), n) == a[..n];
      assert a == a[..n] + a[n..];
    }
  }

  lemma DigitsRow(a: seq<int>, rows: nat, n: nat, i: nat)
    requires |a| == rows * n && i < rows && Digits(a)
    ensures Digits(Row(a, rows, n, i))
  {
    forall j | 0 <= j < n
      ensures 0 <= Row(a, rows, n, i)[j] < 10
    {
      IndexInRange(i, j, rows, n);
    }
  }

  lemma DigitProduct(x: int, y: int)
    requires 0 <= x < 10 && 0 <= y < 10
    ensures 0 <= x * y <= 81
  {
    MulLe(x, 9, y);
    MulLe(y, 9, 9);
    MulLe(0, x, y);
  }

  /** With entries in [0, 10) every partial dot product lies in [0, 81*k]. */
  lemma {:induction false} DotBounds(row: seq<int>, b: seq<int>, n: nat, j: nat, k: nat)
    requires |row| == n && |b| == n * n && j < n && k <= n
    requires Digits(row) && Digits(b)
    ensures 0 <= Dot(row, b, n, j, k) <= 81 * k
    decreases k
  {
    if k > 0 {
      DotBounds(row, b, n, j, k - 1);
      IndexInRange(k - 1, j, n, n);
      DigitProduct(row[k - 1], At(b, n, n, k - 1, j));
    }
  }

  /** With entries in [0, 10) every entry of the product lies in [0, 81*n]. */
  lemma {:induction false} MatMulBounds(a: seq<int>, b: seq<int>, rows: nat, n: nat)
    requires |a| == rows * n && |b| == n * n
    requires Digits(a) && Digits(b)
    ensures forall p :: 0 <= p < rows * n ==> 0 <= MatMul(a, b, rows, n)[p] <= 81 * n
    decreases rows
  {
    if rows > 0 {
      MulLe(1, rows, n);
      assert |a[n..]| == (rows - 1) * n;
      MatMulBounds(a[n..], b, rows - 1, n);
      forall j | 0 <= j < n
        ensures 0 <= RowTimes(a[..n], b, n)[j] <= 81 * n
      {
        DotBounds(a[..n], b, n, j, n);
      }
    }
  }
}
