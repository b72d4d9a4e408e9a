/** One round of the program's `main`: rank 0 generates A and B, A is
    scattered by rows, B is broadcast whole, every rank multiplies its block,
    and the blocks of C are gathered back on rank 0 in rank order. The ranks
    run one after another here; they share no memory, so the order does not
    change what each computes. */
module Round {
  import opened Layout
  import opened Matrix
  import opened Chunking
  import opened Collectives
  import opened LocalMultiply
  import opened Init

  /** `rows_per_process`: the rows each rank owns, N divided by the group
      size and rounded down. When the group size does not divide N the ranks
      together own fewer than N rows (see `UnevenLeavesRows`). */
  function RowsPerProcess(n: nat, worldSize: nat): (rpp: nat)
    requires worldSize >= 1
    ensures rpp * worldSize <= n < rpp * worldSize + worldSize
    ensures n % worldSize == 0 ==> rpp * worldSize == n
    ensures n >= worldSize ==> rpp >= 1
  {
    n / worldSize
  }

  lemma BlockSize(n: nat, worldSize: nat)
    requires worldSize >= 1 && n % worldSize == 0
    ensures (RowsPerProcess(n, worldSize) * n) * worldSize == n * n
  {
    var rpp := RowsPerProcess(n, worldSize);
    assert (rpp * n) * worldSize == (rpp * worldSize) * n;
  }

  /** The scatter of A: `rows_per_process * N` ints to each rank from rank 0. */
  function ScatterRows(a: seq<int>, n: nat, worldSize: nat): (blocks: seq<seq<int>>)
    requires worldSize >= 1 && n % worldSize == 0 && |a| == n * n
    ensures |blocks| == worldSize
    ensures forall r :: 0 <= r < worldSize ==> |blocks[r]| == RowsPerProcess(n, worldSize) * n
  {
    BlockSize(n, worldSize);
    Scatter(a, RowsPerProcess(n, worldSize) * n, worldSize)
  }

  /** The gather of C: `rows_per_process * N` ints from each rank to rank 0. */
  function GatherRows(blocks: seq<seq<int>>, n: nat, worldSize: nat): (c: seq<int>)
    requires worldSize >= 1 && n % worldSize == 0 && |blocks| == worldSize
    requires forall r :: 0 <= r < worldSize ==> |blocks[r]| == RowsPerProcess(n, worldSize) * n
    ensures |c| == n * n
  {
    BlockSize(n, worldSize);
    Gather(blocks, RowsPerProcess(n, worldSize) * n)
  }

  /** The rows of A that rank r owns: [r*rpp, (r+1)*rpp). */
  function RankRows(n: nat, worldSize: nat, r: nat): RowRange
    requires worldSize >= 1
  {
    var rpp := RowsPerProcess(n, worldSize);
    RowRange(r * rpp, r * rpp + rpp)
  }

  /** Every rank's row range, in rank order. */
  function Partition(n: nat, worldSize: nat): (ranges: seq<RowRange>)
    requires worldSize >= 1
    ensures |ranges| == worldSize
    ensures forall r :: 0 <= r < worldSize ==> ranges[r] == RankRows(n, worldSize, r)
  {
    seq(worldSize, r requires 0 <= r < worldSize => RankRows(n, worldSize, r))
  }

  /** Index arithmetic of the blocks: r whole blocks of rpp rows of n cells,
      then i rows and j cells into the next. */
  lemma BlockIndex(r: nat, rpp: nat, n: nat, i: nat, j: nat)
    ensures r * (rpp * n) + (i * n + j) == (r * rpp + i) * n + j
    ensures r * rpp + rpp == (r + 1) * rpp
  {
    assert r * (rpp * n) == (r * rpp) * n;
    assert (r * rpp + i) * n == (r * rpp) * n + i * n;
  }

  /** k blocks of rpp rows hold k*rpp rows. */
  lemma BlockCount(k: nat, rpp: nat, n: nat)
    ensures (rpp * n) * k == (k * rpp) * n
    ensures k > 0 ==> rpp + (k - 1) * rpp == k * rpp
  {
    assert (rpp * n) * k == (k * rpp) * n;
  }

  /** The ranks' row ranges, in rank order, tile [0, rpp*world_size): they
      are disjoint and cover each of those rows exactly once; when the group
      size divides N that is every row of A. */
  lemma PartitionTiles(n: nat, worldSize: nat)
    requires worldSize >= 1 && n >= worldSize
    ensures Tiles(Partition(n, worldSize), 0, RowsPerProcess(n, worldSize) * worldSize)
    ensures n % worldSize == 0 ==> Tiles(Partition(n, worldSize), 0, n)
  {
    var rpp := RowsPerProcess(n, worldSize);
    var ranges := Partition(n, worldSize);
    BlockIndex(worldSize - 1, rpp, n, 0, 0);
    assert ranges[worldSize - 1].end == rpp * worldSize;
    forall r | 0 <= r < worldSize - 1
      ensures ranges[r].end == ranges[r + 1].start
    {
      BlockIndex(r, rpp, n, 0, 0);
    }
  }

  /** When the group size does not divide N, rows [rpp*world_size, N) belong
      to no rank: in particular the last row of A is never scattered, so the
      matching rows of C are never computed or gathered. */
  lemma UnevenLeavesRows(n: nat, worldSize: nat)
    requires worldSize >= 1 && n % worldSize != 0
    ensures RowsPerProcess(n, worldSize) * worldSize < n
    ensures forall r, row :: 0 <= r < worldSize && RowsPerProcess(n, worldSize) * worldSize <= row < n ==>
      !Covers(Partition(n, worldSize)[r], row)
    ensures forall r :: 0 <= r < worldSize ==> !Covers(Partition(n, worldSize)[r], n - 1)
  {
    var rpp := RowsPerProcess(n, worldSize);
    forall r | 0 <= r < worldSize
      ensures Partition(n, worldSize)[r].end <= rpp * worldSize
    {
      BlockIndex(r, rpp, n, 0, 0);
      MulLe(r + 1, worldSize, rpp);
    }
  }

  /** Row i of rank r's block is row r*rpp + i of A: scatter hands rank r
      exactly the rows `RankRows` names, in order. */
  lemma ScatterDeliversRankRows(a: seq<int>, n: nat, worldSize: nat, r: nat, i: nat, j: nat)
    requires worldSize >= 1 && n % worldSize == 0 && |a| == n * n
    requires r < worldSize && i < RowsPerProcess(n, worldSize) && j < n
    ensures RankRows(n, worldSize, r).start + i < n
    ensures At(ScatterRows(a, n, worldSize)[r], RowsPerProcess(n, worldSize), n, i, j)
      == At(a, n, n, RankRows(n, worldSize, r).start + i, j)
  {
    BlockSize(n, worldSize);
    ScatterCell(a, n, worldSize, RowsPerProcess(n, worldSize), r, i, j);
  }

  /** `ScatterDeliversRankRows` for a block height rpp with rpp*size == n. */
  lemma ScatterCell(a: seq<int>, n: nat, worldSize: nat, rpp: nat, r: nat, i: nat, j: nat)
    requires rpp * worldSize == n && |a| == (rpp * n) * worldSize && |a| == n * n
    requires r < worldSize && i < rpp && j < n
    ensures r * rpp + i < n
    ensures At(Scatter(a, rpp * n, worldSize)[r], rpp, n, i, j) == At(a, n, n, r * rpp + i, j)
  {
    var count := rpp * n;
    var k := i * n + j;
    var row := r * rpp + i;
    var p := row * n + j;
    assert row < n && k < count && r * count + k == p && p < n * n by {
      RankCellIndex(r, rpp, n, worldSize, i, j);
      IndexInRange(row, j, n, n);
    }
    assert Scatter(a, count, worldSize)[r] == Row(a, worldSize, count, r) by {
      ScatterSegment(a, count, worldSize, r);
    }
    var block := Row(a, worldSize, count, r);
    assert At(block, rpp, n, i, j) == block[k] == a[p];
    assert At(a, n, n, row, j) == a[p];
  }

  /** Where cell (i, j) of rank r's block sits in A. */
  lemma RankCellIndex(r: nat, rpp: nat, n: nat, worldSize: nat, i: nat, j: nat)
    requires r < worldSize && i < rpp && j < n && rpp * worldSize == n
    ensures r * rpp + i < n
    ensures i * n + j < rpp * n
    ensures r * (rpp * n) + (i * n + j) == (r * rpp + i) * n + j
  {
    BlockIndex(r, rpp, n, i, j);
    MulLe(r + 1, worldSize, rpp);
    IndexInRange(i, j, rpp, n);
  }

  /** Multiplies every block by b: what the ranks compute in parallel. */
  function MultiplyEach(blocks: seq<seq<int>>, b: seq<int>, rpp: nat, n: nat): (products: seq<seq<int>>)
    requires |b| == n * n
    requires forall r :: 0 <= r < |blocks| ==> |blocks[r]| == rpp * n
    ensures |products| == |blocks|
    ensures forall r :: 0 <= r < |blocks| ==> |products[r]| == rpp * n
  {
    seq(|blocks|, r requires 0 <= r < |blocks| => MatMul(blocks[r], b, rpp, n))
  }

  /** Gathering per-block products is the product of the gathered blocks:
      multiplying by B commutes with stacking row blocks in rank order. */
  lemma {:induction false} GatherOfProducts(blocks: seq<seq<int>>, b: seq<int>, rpp: nat, n: nat)
    requires |b| == n * n
    requires forall r :: 0 <= r < |blocks| ==> |blocks[r]| == rpp * n
    ensures |Gather(blocks, rpp * n)| == (|blocks| * rpp) * n
    ensures Gather(MultiplyEach(blocks, b, rpp, n), rpp * n) == MatMul(Gather(blocks, rpp * n), b, |blocks| * rpp, n)
    decreases |blocks|
  {
    var count := rpp * n;
    BlockCount(|blocks|, rpp, n);
    if |blocks| > 0 {
      var tail := blocks[1..];
      GatherOfProducts(tail, b, rpp, n);
      var products := MultiplyEach(blocks, b, rpp, n);
      assert products[1..] == MultiplyEach(tail, b, rpp, n);
      assert Gather(products, count) == products[0] + Gather(products[1..], count);
      var rest := Gather(tail, count);
      assert Gather(blocks, count) == blocks[0] + rest;
      MatMulAppend(blocks[0], rest, b, rpp, |tail| * rpp, n);
    }
  }

  /** The data flow of the round on pure values: scatter A, broadcast B,
      multiply on every rank, gather. `before[r]` is what rank r's B buffer
      holds before the broadcast; rank 0's holds B itself, every other rank's
      is its own freshly allocated, unset buffer. */
  function DistributedProduct(a: seq<int>, b: seq<int>, before: seq<seq<int>>, n: nat, worldSize: nat): (c: seq<int>)
    requires worldSize >= 1 && n % worldSize == 0 && |a| == n * n && |b| == n * n
    requires |before| == worldSize && before[0] == b
    ensures |c| == n * n
  {
    var rpp := RowsPerProcess(n, worldSize);
    var localAs := ScatterRows(a, n, worldSize);
    var localBs := Broadcast(before, 0);
    GatherRows(seq(worldSize, r requires 0 <= r < worldSize => MatMul(localAs[r], localBs[r], rpp, n)), n, worldSize)
  }

  /** The headline result: when the group size divides N, gathering every
      rank's product of its scattered block with the broadcast B gives
      exactly A × B, whatever the non-root ranks held before the broadcast.
      A group of one rank is included: worldSize == 1. */
  lemma DistributedProductIsProduct(a: seq<int>, b: seq<int>, before: seq<seq<int>>, n: nat, worldSize: nat)
    requires worldSize >= 1 && n % worldSize == 0 && |a| == n * n && |b| == n * n
    requires |before| == worldSize && before[0] == b
    ensures DistributedProduct(a, b, before, n, worldSize) == MatMul(a, b, n, n)
  {
    var rpp := RowsPerProcess(n, worldSize);
    BlockSize(n, worldSize);
    var localAs := ScatterRows(a, n, worldSize);
    var localBs := Broadcast(before, 0);
    var products := seq(worldSize, r requires 0 <= r < worldSize => MatMul(localAs[r], localBs[r], rpp, n));
    assert products == MultiplyEach(localAs, b, rpp, n);
    GatherOfProducts(localAs, b, rpp, n);
    GatherScatter(a, rpp * n, worldSize);
  }

  /** A group of one rank: rank 0 owns every row, the scatter hands it all
      of A and the gather returns its block unchanged. */
  lemma SingleRank(a: seq<int>, c: seq<int>, n: nat)
    requires |a| == n * n && |c| == n * n
    ensures RowsPerProcess(n, 1) == n
    ensures ScatterRows(a, n, 1) == [a]
    ensures GatherRows([c], n, 1) == c
  {
    assert ScatterRows(a, n, 1)[0] == a;
    assert Gather([c], n * n) == c + Gather([c][1..], n * n);
  }

  /** N = 4 on two ranks, A holding 1..16 and B the identity: the gathered C equals A. */
  lemma IdentityExample(unset: seq<int>)
    ensures var a := [1, 2, 3, 4, 5, 6, 7, 8, 9, 10, 11, 12, 13, 14, 15, 16];
      DistributedProduct(a, Identity(4), [Identity(4), unset], 4, 2) == a
  {
    var a := [1, 2, 3, 4, 5, 6, 7, 8, 9, 10, 11, 12, 13, 14, 15, 16];
    DistributedProductIsProduct(a, Identity(4), [Identity(4), unset], 4, 2);
    MatMulIdentity(a, 4, 4);
  }

  /** The whole round. `draws` are the values rank 0's `rand()` returns, the
      first N*N used for A and the next N*N for B; `unset[r]` is what rank
      r's freshly allocated B buffer holds (rank 0 then fills its own with B).
      Every rank's local multiply runs the chunked loop. */
  method RunRound(n: nat, worldSize: nat, draws: seq<nat>, unset: seq<seq<int>>) returns (a: seq<int>, b: seq<int>, c: seq<int>)
    requires worldSize >= 1 && n % worldSize == 0 && n <= N
    requires |draws| >= 2 * (n * n) && |unset| == worldSize
    ensures |a| == n * n && |b| == n * n
    ensures forall p :: 0 <= p < n * n ==> a[p] == draws[p] % 10 && b[p] == draws[n * n + p] % 10
    ensures c == MatMul(a, b, n, n)
    ensures forall p :: 0 <= p < n * n ==> 0 <= c[p] <= 81 * n <= 81 * N
  {
    a := InitializeMatrix(draws, n, n);
    b := InitializeMatrix(draws[n * n..], n, n);
    var rpp := RowsPerProcess(n, worldSize);
    var localAs := ScatterRows(a, n, worldSize);
    var before := unset[0 := b];
    var localBs := Broadcast(before, 0);
    BlockSize(n, worldSize);
    ScatterSegments(a, rpp * n, worldSize);
    var localCs: seq<seq<int>> := [];
    var r := 0;
    while r < worldSize
      invariant r <= worldSize && |localCs| == r
      invariant forall q :: 0 <= q < r ==> localCs[q] == MatMul(localAs[q], localBs[q], rpp, n)
    {
      DigitsRow(a, worldSize, rpp * n, r);
      var localC, _ := ChunkedMultiply(localAs[r], localBs[r], rpp, n);
      localCs := localCs + [localC];
      r := r + 1;
    }
    c := GatherRows(localCs, n, worldSize);
    assert localCs == seq(worldSize, r requires 0 <= r < worldSize => MatMul(localAs[r], localBs[r], rpp, n));
    DistributedProductIsProduct(a, b, before, n, worldSize);
    MatMulBounds(a, b, n, n);
  }
}
