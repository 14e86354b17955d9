/** Segment bookkeeping along the reduction axis. A row of lengths splits the
    axis into consecutive segments; segment k starts at the sum of the
    lengths before it, which is the value `lengths_cum_sum` holds when the
    kernels reach segment k (aten/src/ATen/native/SegmentReduce.cpp, lines
    54-56 and 111 in the forward kernel, 185-187 and 257 in the backward). */
module Segments {

  function Sum(s: seq<int>): int
    decreases |s|
  {
    if |s| == 0 then 0 else Sum(s[..|s| - 1]) + s[|s| - 1]
  }

  /** Axis position where segment k of `row` starts. */
  function Offset(row: seq<int>, k: nat): int
    requires k <= |row|
  {
    Sum(row[..k])
  }

  predicate NonNegative(row: seq<int>) {
    forall k :: 0 <= k < |row| ==> row[k] >= 0
  }

  /** Row `o` of a lengths buffer holding `count` lengths per row. */
  function Row(lengths: seq<int>, o: nat, count: nat): seq<int>
    requires o * count + count <= |lengths|
  {
    lengths[o * count .. o * count + count]
  }

  /** A lengths buffer with at least `outer * count` entries has a full row
      for every o < outer, and row o's k-th length is entry `o * count + k`. */
  lemma RowInBuffer(lengths: seq<int>, o: nat, outer: nat, count: nat)
    requires o < outer && outer * count <= |lengths|
    ensures o * count + count <= |lengths|
    ensures forall k :: 0 <= k < count ==> Row(lengths, o, count)[k] == lengths[o * count + k]
  {
    assert o * count + count == (o + 1) * count;
    assert (o + 1) * count <= outer * count;
  }

  /** Sum of row `o` of a lengths buffer with `outer` full rows. */
  function RowSum(lengths: seq<int>, outer: nat, count: nat, o: nat): int
    requires o < outer && outer * count <= |lengths|
  {
    RowInBuffer(lengths, o, outer, count);
    Sum(Row(lengths, o, count))
  }

  /** Each segment starts where the previous one ends. */
  lemma OffsetStep(row: seq<int>, k: nat)
    requires k < |row|
    ensures Offset(row, k + 1) == Offset(row, k) + row[k]
  {
    assert row[..k + 1][..k] == row[..k];
  }

  /** With non-negative lengths, segment starts never decrease. */
  lemma {:induction false} OffsetMonotone(row: seq<int>, k: nat, k': nat)
    requires NonNegative(row) && k <= |row| && k' <= |row|
    ensures k <= k' ==> Offset(row, k) <= Offset(row, k')
    decreases k'
  {
    if k < k' {
      OffsetMonotone(row, k, k' - 1);
      OffsetStep(row, k' - 1);
    }
  }

  /** With non-negative lengths the segments of a row start at 0, lie in
      order without overlapping, stay inside [0, Sum(row)), and the last one
      ends at Sum(row). */
  lemma SegmentsTile(row: seq<int>)
    requires NonNegative(row)
    ensures Offset(row, 0) == 0 && Offset(row, |row|) == Sum(row)
    ensures forall k, k' :: 0 <= k < k' < |row| ==> Offset(row, k) + row[k] <= Offset(row, k')
    ensures forall k :: 0 <= k < |row| ==> 0 <= Offset(row, k) && Offset(row, k) + row[k] <= Sum(row)
  {
    assert row[..|row|] == row;
    forall k, k' | 0 <= k < k' < |row|
      ensures Offset(row, k) + row[k] <= Offset(row, k')
    {
      OffsetStep(row, k);
      OffsetMonotone(row, k + 1, k');
    }
    forall k | 0 <= k < |row|
      ensures 0 <= Offset(row, k) && Offset(row, k) + row[k] <= Sum(row)
    {
      OffsetStep(row, k);
      OffsetMonotone(row, 0, k);
      OffsetMonotone(row, k + 1, |row|);
    }
  }

  /** With non-negative lengths, segment k lies between 0 and the end of
      the last segment. */
  lemma SegmentWithin(row: seq<int>, k: nat)
    requires NonNegative(row) && k < |row|
    ensures 0 <= Offset(row, k) && Offset(row, k) + row[k] <= Offset(row, |row|)
  {
    OffsetStep(row, k);
    OffsetMonotone(row, 0, k);
    OffsetMonotone(row, k + 1, |row|);
    assert row[..0] == [];
  }

  /** The segment axis position `a` falls in: the first one that ends beyond
      `a`, or `|row|` when `a` lies past every segment. */
  function Locate(row: seq<int>, a: int): (k: nat)
    ensures k <= |row|
    ensures forall k' :: 0 < k' <= k ==> Offset(row, k') <= a
    ensures k < |row| ==> a < Offset(row, k + 1)
  {
    LocateFrom(row, a, 0)
  }

  function LocateFrom(row: seq<int>, a: int, from: nat): (k: nat)
    requires from <= |row|
    requires forall k' :: 0 < k' <= from ==> Offset(row, k') <= a
    ensures from <= k <= |row|
    ensures forall k' :: 0 < k' <= k ==> Offset(row, k') <= a
    ensures k < |row| ==> a < Offset(row, k + 1)
    decreases |row| - from
  {
    if from == |row| then from
    else if a < Offset(row, from + 1) then from
    else LocateFrom(row, a, from + 1)
  }

  /** When `Locate` names a segment, the position lies inside it. */
  lemma LocateBounds(row: seq<int>, a: int)
    requires 0 <= a
    ensures var k := Locate(row, a);
      k < |row| ==> Offset(row, k) <= a < Offset(row, k) + row[k]
  {
    var k := Locate(row, a);
    if k < |row| {
      OffsetStep(row, k);
      assert row[..0] == [];
    }
  }

  /** A position inside segment k is located in segment k. */
  lemma LocateInSegment(row: seq<int>, k: nat, a: int)
    requires NonNegative(row) && k < |row|
    requires Offset(row, k) <= a < Offset(row, k) + row[k]
    ensures Locate(row, a) == k
  {
    var m := Locate(row, a);
    OffsetStep(row, k);
    OffsetMonotone(row, if m < |row| then m + 1 else m, k);
  }

  /** Every position before the end of the last segment lies in some
      non-empty segment. */
  lemma LocateCovers(row: seq<int>, a: int)
    requires NonNegative(row) && 0 <= a < Sum(row)
    ensures var k := Locate(row, a);
      k < |row| && Offset(row, k) <= a < Offset(row, k) + row[k]
  {
    var k := Locate(row, a);
    assert Offset(row, |row|) == Sum(row) by {
      assert row[..|row|] == row;
    }
    assert k < |row|;
    OffsetStep(row, k);
    assert Offset(row, k) <= a by {
      assert row[..0] == [];
    }
  }

  /** Positions at or past the end of the last segment belong to none. */
  lemma LocatePastEnd(row: seq<int>, a: int)
    requires NonNegative(row) && Sum(row) <= a
    ensures Locate(row, a) == |row|
  {
    var k := Locate(row, a);
    assert row[..|row|] == row;
    OffsetMonotone(row, if k < |row| then k + 1 else k, |row|);
  }
}
