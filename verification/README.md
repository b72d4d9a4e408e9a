# Distributed matrix multiplication — a Dafny model

The program multiplies two `N × N` integer matrices (`N = 2000`) across an MPI
group of `world_size` ranks:

- Rank 0 fills A and B with pseudo-random digits.
- A is scattered by rows, `rows_per_process = N / world_size` rows per rank.
- B is broadcast whole.
- Every rank multiplies its block of A by B in progress chunks of about a tenth of its rows.
- The blocks of C are gathered back on rank 0 in rank order.

This project models that data flow with pure functions and small methods over
flat row-major `seq<int>` buffers, and proves:

- The distributed result is exactly A × B whenever the group size divides N.
- The chunk schedule tiles each rank's rows.
- The 32-bit accumulation of the C code never wraps for the matrices the program builds.

Modules, one per file:

- `Layout` (`layout.dfy`): row-major indexing (`At`, `Row`) and the nonlinear index facts behind it.
- `Int32` (`int32.dfy`): the C `int`, with two's-complement wrap-around written out (`Wrap`).
- `Matrix` (`matrix.dfy`): the reference product `MatMul`, the identity, and the bounds for digit matrices.
- `Overflow` (`overflow.dfy`): the innermost loop's accumulation on 32-bit ints (`DotInt32`), and the proof that it equals the exact dot product.
- `Chunking` (`chunking.dfy`): `chunk_size`, the chunk loop's row ranges, and their tiling and count.
- `Collectives` (`collectives.dfy`): the buffer effect of `MPI_Scatter`, `MPI_Bcast` and `MPI_Gather`, following sections 5.6, 5.4 and 5.5 of the MPI Standard 3.1.
- `Init` (`init.dfy`): `initialize_matrix`, with the values `rand()` returns as a parameter.
- `LocalMultiply` (`local_multiply.dfy`): the chunked multiply loop, computed with 32-bit wrap at every step.
- `Round` (`round.dfy`): the partition arithmetic, one whole round, and the headline theorem.

## Model

| member | source | states |
|---|---|---|
| Init.InitializeMatrix | matrix_mult.c:9-15 | Every cell of the `rows × cols` buffer is written, cell p with the p-th draw of `rand()` modulo 10, so every entry is a digit in [0, 10) |
| Round.RowsPerProcess | matrix_mult.c:44 | `rows_per_process` is N divided by the group size, rounded down: rpp*size <= N < rpp*size + size; it is exact when the size divides N, and at least 1 when N >= size |
| Round.PartitionTiles | matrix_mult.c:44-50 | For N >= size, the ranks' row ranges [r*rpp, (r+1)*rpp), in rank order, tile [0, rpp*size) with no gap and no overlap; when the size divides N they tile all N rows |
| Round.UnevenLeavesRows | matrix_mult.c:44 | When the group size does not divide N, the ranks own fewer than N rows: every row from rpp*size to N-1, the last row of A among them, lies in no rank's range |
| Round.ScatterDeliversRankRows | matrix_mult.c:87-89 | Cell (i, j) of the block rank r receives is cell (r*rpp + i, j) of A: scatter hands each rank exactly its own rows, in order |
| Round.SingleRank | matrix_mult.c:44-151 | With one rank, rows_per_process is N, the scatter hands rank 0 all of A, and the gather returns its block unchanged |
| Round.GatherOfProducts | matrix_mult.c:149-151 | Gathering the products of row blocks with B, in rank order, gives the product of the gathered blocks with B |
| Round.DistributedProductIsProduct | matrix_mult.c:44-151 | Scatter A, broadcast B, multiply every block, gather: the result is A × B for every A and B, whatever the non-root ranks' B buffers held before the broadcast, whenever the group size divides N (including a group of one) |
| Round.IdentityExample | matrix_mult.c:87-151 | With N = 4 on two ranks, A = 1..16 and B the identity, the gathered C equals A |
| Round.RunRound | matrix_mult.c:62-151 | The whole round, with every rank running the chunked loop on 32-bit ints: A and B hold the draws modulo 10, C is exactly A × B, and every entry of C lies in [0, 81*N] |
| Collectives.Scatter | matrix_mult.c:87-89 | Every one of the `size` ranks receives a segment of exactly `count` elements |
| Collectives.ScatterSegment | matrix_mult.c:87-89 | Rank r receives elements [r*count, (r+1)*count) of the root's send buffer |
| Collectives.Broadcast | matrix_mult.c:96-104 | After the broadcast every rank's buffer equals the root's |
| Collectives.BroadcastOnlyRootMatters | matrix_mult.c:96-104 | What the broadcast delivers does not depend on what the non-root buffers held before it, such as B's unset allocation on ranks other than 0 |
| Collectives.Gather | matrix_mult.c:149-151 | The root receives count*size elements |
| Collectives.GatherPlacement | matrix_mult.c:149-151 | Rank r's contribution lands at [r*count, (r+1)*count) of the root's receive buffer |
| Collectives.GatherScatter | matrix_mult.c:149-151 | Gathering what was scattered restores the root's buffer |
| Collectives.ScatterGather | matrix_mult.c:87-89 | Scattering what was gathered gives every rank back its own segment |
| Chunking.ChunkSize | matrix_mult.c:122 | The chunk size is at least 1; it is 1 for fewer than 10 rows, and otherwise the largest s with 10*s <= rows |
| Chunking.Chunks | matrix_mult.c:124-126 | Every visited range lies inside [start, rows), is non-empty and has at most `size` rows; every range but the last has exactly `size` rows |
| Chunking.ChunksTile | matrix_mult.c:124-126 | The chunk loop's ranges tile [start, rows) |
| Chunking.ChunksCount | matrix_mult.c:124 | The loop runs ceil((rows - start) / size) times |
| Chunking.TilesExactCover | matrix_mult.c:124-135 | Ranges that tile [lo, hi) are in increasing order and cover every row of [lo, hi) with exactly one range, so every row of a partition is computed exactly once |
| Chunking.ChunkSchedule | matrix_mult.c:122-142 | For a partition of `rows` rows the chunks tile [0, rows) and number ceil(rows / chunk_size). All but the last have `chunk_size` rows. When rows > 0 the last one ends at `rows`, so the last progress line reports row rows-1 |
| LocalMultiply.ChunkedMultiply | matrix_mult.c:122-142 | Each cell of the local block is the 32-bit accumulation of its dot product. For digit inputs and n <= N it is exactly the local block of A × B. The progress lines report exactly the chunk schedule |
| LocalMultiply.AllRowsDone | matrix_mult.c:128-135 | Once every row is computed, the block equals the exact product for digit inputs with n <= N |
| Overflow.DotInt32 | matrix_mult.c:130-132 | After k passes of the innermost loop, the accumulator is a 32-bit value |
| Overflow.NoOverflow | matrix_mult.c:132 | For digit entries and n <= N = 2000, no product or partial sum leaves [0, 81*k] ⊆ [0, 162000] ⊂ int range, so the 32-bit accumulation equals the exact dot product |
| Int32.Wrap | matrix_mult.c:132 | Storing a result in an `int` yields a 32-bit value congruent to it modulo 2^32, and leaves a value already in range unchanged |
| Matrix.MatMulCell | matrix_mult.c:128-135 | Cell (i, j) of the reference product is the dot product of row i of A with column j of B |
| Matrix.MatMulAppend | matrix_mult.c:47-50 | The product of a matrix split by rows is the concatenation of the products of its parts |
| Matrix.MatMulIdentity | matrix_mult.c:128-135 | The product of any matrix with the identity is that matrix: A × I == A |
| Matrix.MatMulBounds | matrix_mult.c:12 | With entries in [0, 10), every entry of the product lies in [0, 81*n] |

## Left out

- MPI runtime: `MPI_Init`, `MPI_Finalize`, communicator queries, `MPI_Barrier` and message passing. The ranks run one after another in `Round.RunRound`. Only the buffer contents the collectives produce are modelled.
- Timing: `MPI_Wtime` and the elapsed-time line have no effect on the result.
- Logging: `gethostname`, `printf` and `fflush` are left out. The chunk loop's progress line is modelled only as the row range it reports (`RowRange`); the float percentage is not modelled.
- `srand(time(NULL) + world_rank)` and `rand()`: the values `rand()` returns are a parameter of `InitializeMatrix` and `RunRound`.
- `malloc` and `free`: buffers are values. Each rank's B buffer before the broadcast is an arbitrary parameter of its own (`unset[r]`).
- `print_matrix`: only called from commented-out code.
- Round.DistributedProductIsProduct: requires the group size to divide N. When it does not, rows [rpp*world_size, N) of C are never computed or gathered and stay uninitialised. `Round.UnevenLeavesRows` states which rows those are, but their contents are not modelled.
- Round.RunRound: requires the group size to divide N, for the reason above.
- Int32.Wrap: signed overflow is undefined behaviour in C, and two's-complement wrap-around is one possible outcome. `NoOverflow` shows it never happens for the matrices the program builds, so the choice does not affect any result here.
