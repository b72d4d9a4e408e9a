/** The data effect of the three MPI collectives the program calls, as pure
    functions over the buffers of a group of `size` ranks (rank r's buffer
    is element r of a sequence). Only what ends up in the buffers is modelled;
    message passing and blocking are not. */
module Collectives {
  import opened Layout

  /** MPI_Scatter (section 5.6 of the MPI Standard 3.1): the root's send
      buffer of size*count elements is cut into `size` consecutive segments
      of `count` elements; element r of the result is what rank r receives. */
  function Scatter<T>(sendbuf: seq<T>, count: nat, size: nat): (recv: seq<seq<T>>)
    requires |sendbuf| == count * size
    ensures |recv| == size
    ensures forall r :: 0 <= r < size ==> |recv[r]| == count
    decreases size
  {
    if size == 0 then []
    else
      MulLe(1, size, count);
      assert |sendbuf[count..]| == count * (size - 1);
      [sendbuf[..count]] + Scatter(sendbuf[count..], count, size - 1)
  }

  /** MPI_Bcast (section 5.4 of the MPI Standard 3.1): `buffers` holds every
      rank's buffer before the call; afterwards each rank holds a copy of
      the root's. */
  function Broadcast<T>(buffers: seq<T>, root: nat): (after: seq<T>)
    requires root < |buffers|
    ensures |after| == |buffers|
    ensures forall r :: 0 <= r < |after| ==> after[r] == buffers[root]
  {
    seq(|buffers|, r => buffers[root])
  }

  /** MPI_Gather (section 5.5 of the MPI Standard 3.1): the `count` elements
      each rank sends, placed in the root's receive buffer in rank order. */
  function Gather<T>(parts: seq<seq<T>>, count: nat): (recv: seq<T>)
    requires forall r :: 0 <= r < |parts| ==> |parts[r]| == count
    ensures |recv| == count * |parts|
    decreases |parts|
  {
    if |parts| == 0 then []
    else parts[0] + Gather(parts[1..], count)
  }

  /** Rank r receives segment r of the send buffer: the elements
      [r*count, (r+1)*count). */
  lemma {:induction false} ScatterSegment<T>(sendbuf: seq<T>, count: nat, size: nat, r: nat)
    requires |sendbuf| == count * size && r < size
    ensures Scatter(sendbuf, count, size)[r] == Row(sendbuf, size, count, r)
    decreases size
  {
    MulLe(1, size, count);
    var tail := sendbuf[count..];
    assert |tail| == count * (size - 1);
    if r > 0 {
      ScatterSegment(tail, count, size - 1, r - 1);
      var lo := (r - 1) * count;
      SegmentShift(r, count);
      MulLe(r, size - 1, count);
      assert Row(tail, size - 1, count, r - 1) == tail[lo .. lo + count];
      assert tail[lo .. lo + count] == sendbuf[count + lo .. count + lo + count];
    }
  }

  lemma SegmentShift(r: nat, count: nat)
    requires r > 0
    ensures count + (r - 1) * count == r * count
  {
  }

  lemma ScatterSegments<T>(sendbuf: seq<T>, count: nat, size: nat)
    requires |sendbuf| == count * size
    ensures forall r :: 0 <= r < size ==> Scatter(sendbuf, count, size)[r] == Row(sendbuf, size, count, r)
  {
    forall r | 0 <= r < size
      ensures Scatter(sendbuf, count, size)[r] == Row(sendbuf, size, count, r)
    {
      ScatterSegment(sendbuf, count, size, r);
    }
  }

  /** Rank r's contribution lands at [r*count, (r+1)*count) of the root's
      receive buffer. */
  lemma {:induction false} GatherPlacement<T>(parts: seq<seq<T>>, count: nat)
    requires forall r :: 0 <= r < |parts| ==> |parts[r]| == count
    ensures forall r :: 0 <= r < |parts| ==> Row(Gather(parts, count), |parts|, count, r) == parts[r]
    decreases |parts|
  {
    if |parts| > 0 {
      var whole := Gather(parts, count);
      var tail := Gather(parts[1..], count);
      GatherPlacement(parts[1..], count);
      assert whole == parts[0] + tail;
      forall r | 0 <= r < |parts|
        ensures Row(whole, |parts|, count, r) == parts[r]
      {
        if r > 0 {
          MulLe(r, |parts| - 1, count);
          assert (r - 1) * count + count == r * count;
          assert Row(whole, |parts|, count, r) == Row(tail, |parts| - 1, count, r - 1);
        }
      }
    }
  }

  /** Gathering what was scattered restores the root's buffer. */
  lemma {:induction false} GatherScatter<T>(sendbuf: seq<T>, count: nat, size: nat)
    requires |sendbuf| == count * size
    ensures Gather(Scatter(sendbuf, count, size), count) == sendbuf
    decreases size
  {
    if size > 0 {
      MulLe(1, size, count);
      assert |sendbuf[count..]| == count * (size - 1);
      GatherScatter(sendbuf[count..], count, size - 1);
      assert sendbuf == sendbuf[..count] + sendbuf[count..];
    }
  }

  /** Scattering what was gathered gives every rank back its own segment. */
  lemma {:induction false} ScatterGather<T>(parts: seq<seq<T>>, count: nat)
    requires forall r :: 0 <= r < |parts| ==> |parts[r]| == count
    ensures Scatter(Gather(parts, count), count, |parts|) == parts
    decreases |parts|
  {
    if |parts| > 0 {
      var whole := Gather(parts, count);
      assert whole == parts[0] + Gather(parts[1..], count);
      assert whole[..count] == parts[0];
      assert whole[count..] == Gather(parts[1..], count);
      ScatterGather(parts[1..], count);
      assert parts == [parts[0]] + parts[1..];
    }
  }

  /** What a broadcast delivers depends on the root's buffer alone: whatever
      the other ranks' buffers held before is overwritten. */
  lemma BroadcastOnlyRootMatters<T>(before1: seq<T>, before2: seq<T>, root: nat)
    requires root < |before1| && |before1| == |before2| && before1[root] == before2[root]
    ensures Broadcast(before1, root) == Broadcast(before2, root)
  {
  }
}
