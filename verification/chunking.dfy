/** The progress chunking of the local multiply: the rows of a partition are
    processed in contiguous chunks of `max(1, rows/10)` rows, the last one
    clamped to the end of the partition, and one progress line is reported
    after each chunk. */
module Chunking {
  import opened Layout

  /** The half-open row range [start, end). As a progress chunk, its line
      reports rows start..end-1 and end/rows of the partition done. */
  datatype RowRange = RowRange(start: nat, end: nat)

  /** A tenth of the partition's rows, rounded down, and never less than one. */
  function ChunkSize(rows: nat): (size: nat)
    ensures size >= 1
    ensures rows < 10 ==> size == 1
    ensures rows >= 10 ==> 10 * size <= rows < 10 * size + 10
  {
    if rows / 10 > 0 then rows / 10 else 1
  }

  /** ceil(x / d) for d >= 1. */
  function CeilDiv(x: nat, d: nat): nat
    requires d >= 1
  {
    (x + d - 1) / d
  }

  /** The chunks the loop `for (chunk = start; chunk < rows; chunk += size)`
      visits, with `end = min(chunk + size, rows)`. */
  function Chunks(rows: nat, size: nat, start: nat): (cs: seq<RowRange>)
    requires size >= 1
    ensures forall i :: 0 <= i < |cs| ==> start <= cs[i].start < cs[i].end <= rows
    ensures forall i :: 0 <= i < |cs| ==> cs[i].end - cs[i].start <= size
    ensures forall i :: 0 <= i < |cs| - 1 ==> cs[i].end - cs[i].start == size
    decreases rows - start
  {
    if start >= rows then []
    else [RowRange(start, if start + size > rows then rows else start + size)] + Chunks(rows, size, start + size)
  }

  /** cs covers [lo, hi) with non-empty ranges that follow one another with
      no gap and no overlap. */
  predicate Tiles(cs: seq<RowRange>, lo: nat, hi: nat) {
    && (|cs| == 0 ==> lo == hi)
    && (|cs| > 0 ==> cs[0].start == lo && cs[|cs| - 1].end == hi)
    && (forall i :: 0 <= i < |cs| ==> cs[i].start < cs[i].end)
    && (forall i :: 0 <= i < |cs| - 1 ==> cs[i].end == cs[i + 1].start)
  }

  predicate Covers(c: RowRange, r: int) {
    c.start <= r < c.end
  }

  /** Some range of cs covers row r. */
  predicate Covered(cs: seq<RowRange>, r: int) {
    exists i :: 0 <= i < |cs| && Covers(cs[i], r)
  }

  /** A tiling covers every row of [lo, hi) with exactly one of its ranges,
      and its ranges are in increasing order. */
  lemma {:induction false} TilesExactCover(cs: seq<RowRange>, lo: nat, hi: nat)
    requires Tiles(cs, lo, hi)
    ensures lo <= hi
    ensures forall i, k :: 0 <= i < k < |cs| ==> cs[i].end <= cs[k].start
    ensures forall r :: lo <= r < hi ==> Covered(cs, r)
    ensures forall r, i, k :: 0 <= i < |cs| && 0 <= k < |cs| && Covers(cs[i], r) && Covers(cs[k], r) ==> i == k
    decreases |cs|
  {
    if |cs| > 0 {
      var rest := cs[1..];
      if |rest| == 0 {
        assert cs[0].start == lo && cs[0].end == hi;
      } else {
        assert Tiles(rest, cs[0].end, hi);
        TilesExactCover(rest, cs[0].end, hi);
        forall i, k | 0 <= i < k < |cs|
          ensures cs[i].end <= cs[k].start
        {
          if i > 0 {
            assert cs[i] == rest[i - 1] && cs[k] == rest[k - 1];
          } else if k > 1 {
            assert cs[1] == rest[0] && cs[k] == rest[k - 1];
          }
        }
        forall r | lo <= r < hi
          ensures Covered(cs, r)
        {
          if r >= cs[0].end {
            assert Covered(rest, r);
            var i :| 0 <= i < |rest| && Covers(rest[i], r);
            assert cs[i + 1] == rest[i];
          } else {
            assert Covers(cs[0], r);
          }
        }
      }
    }
  }

  /** A non-empty range followed by a tiling that starts where it ends is a tiling. */
  lemma TilesCons(c: RowRange, rest: seq<RowRange>, hi: nat)
    requires c.start < c.end && Tiles(rest, c.end, hi)
    ensures Tiles([c] + rest, c.start, hi)
  {
    var cs := [c] + rest;
    forall i | 0 <= i < |cs| - 1
      ensures cs[i].end == cs[i + 1].start
    {
      if i > 0 {
        assert cs[i] == rest[i - 1] && cs[i + 1] == rest[i];
      }
    }
  }

  /** The chunk loop started at `start` tiles [start, rows). */
  lemma {:induction false} ChunksTile(rows: nat, size: nat, start: nat)
    requires size >= 1 && start <= rows
    ensures Tiles(Chunks(rows, size, start), start, rows)
    decreases rows - start
  {
    if start < rows {
      var end := if start + size > rows then rows else start + size;
      var later := Chunks(rows, size, start + size);
      if start + size < rows {
        ChunksTile(rows, size, start + size);
      } else {
        assert later == [];
      }
      TilesCons(RowRange(start, end), later, rows);
    }
  }

  /** The number of chunks the loop started at `start` visits is
      ceil((rows - start) / size). */
  lemma {:induction false} ChunksCount(rows: nat, size: nat, start: nat)
    requires size >= 1 && start <= rows
    ensures |Chunks(rows, size, start)| == CeilDiv(rows - start, size)
    decreases rows - start
  {
    var x := rows - start;
    if x == 0 {
      DivModUnique(size - 1, size, 0);
    } else {
      var later := Chunks(rows, size, start + size);
      assert |Chunks(rows, size, start)| == 1 + |later|;
      if x <= size {
        assert later == [];
        DivModUnique(x + size - 1, size, 1);
      } else {
        ChunksCount(rows, size, start + size);
        var q := CeilDiv(x - size, size);
        assert |later| == q;
        DivModUnique(x - size + size - 1, size, q);
        DivModUnique(x + size - 1, size, q + 1);
      }
    }
  }

  /** One pass of the chunk loop: the chunks already reported, followed by
      the current one, followed by those still to come, are the whole schedule. */
  lemma ChunksAdvance(rows: nat, size: nat, chunk: nat, reported: seq<RowRange>)
    requires size >= 1 && chunk < rows
    requires reported + Chunks(rows, size, chunk) == Chunks(rows, size, 0)
    ensures reported + [RowRange(chunk, if chunk + size > rows then rows else chunk + size)] + Chunks(rows, size, chunk + size)
      == Chunks(rows, size, 0)
  {
    var later := Chunks(rows, size, chunk + size);
    var now := RowRange(chunk, if chunk + size > rows then rows else chunk + size);
    assert Chunks(rows, size, chunk) == [now] + later;
    assert reported + [now] + later == reported + ([now] + later);
  }

  /** The schedule of the program's chunk loop over a partition of `rows`
      rows: chunks of `ChunkSize(rows)` rows, every one full except possibly
      the last, which ends exactly at `rows` (the line reporting 100%); they
      tile [0, rows) and there are ceil(rows / ChunkSize(rows)) of them. */
  lemma ChunkSchedule(rows: nat, cs: seq<RowRange>)
    requires cs == Chunks(rows, ChunkSize(rows), 0)
    ensures Tiles(cs, 0, rows)
    ensures |cs| == CeilDiv(rows, ChunkSize(rows))
    ensures rows > 0 ==> |cs| > 0 && cs[|cs| - 1].end == rows
    ensures forall i :: 0 <= i < |cs| - 1 ==> cs[i].end - cs[i].start == ChunkSize(rows)
  {
    ChunksTile(rows, ChunkSize(rows), 0);
    ChunksCount(rows, ChunkSize(rows), 0);
  }
}
