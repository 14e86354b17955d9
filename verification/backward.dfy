/** The backward segment reduction (aten/src/ATen/native/SegmentReduce.cpp):
    `_segment_reduce_backward_kernel`, which checks its arguments,
    `_segment_reduce_cpu_backward_kernel`, which allocates a zero-filled
    gradient buffer of the data's shape, and the outer x segment x inner walk
    of `_segment_reduce_cpu_backward_kernel1`, which writes the gradient of
    every element that some segment covers.

    The kernel does not check its buffers. `BackwardShapes` and
    `Buffers.Valid` state the shapes the model covers, and
    `ForwardEstablishesBackward` shows that a successful safe-mode call of
    the amended forward (`Forward.SegmentReduce`) provides them. */
module Backward {
  import opened Results
  import opened Layout
  import opened Segments
  import Forward
  import G = Gradients
  import R = Reduction
  import V = Values

  /** Row o of the lengths buffer holds non-negative lengths whose segments
      end inside the data's axis. */
  predicate RowFits(lengths: seq<int>, count: nat, extent: nat, o: nat) {
    && o * count + count <= |lengths|
    && NonNegative(Row(lengths, o, count))
    && Offset(Row(lengths, o, count), count) <= extent
  }

  /** The buffers the backward kernel works on, with the data seen as an
      (outer, extent, inner) block and the output and incoming gradient as
      (outer, count, inner) blocks. */
  datatype Buffers = Buffers(grad: seq<V.Value>, output: seq<V.Value>, data: seq<V.Value>,
                             lengths: seq<int>, outer: nat, count: nat, extent: nat, inner: nat)
  {
    /** Every index the kernel computes is inside its buffer. */
    predicate Valid() {
      && |grad| == outer * count * inner
      && |output| == outer * count * inner
      && |data| == outer * extent * inner
      && outer * count <= |lengths|
      && forall o: nat :: o < outer ==> RowFits(lengths, count, extent, o)
    }
  }

  /** Segment k of row o lies inside the data's axis. */
  lemma SegmentInAxis(b: Buffers, o: nat, k: nat)
    requires b.Valid() && o < b.outer && k < b.count
    ensures RowFits(b.lengths, b.count, b.extent, o)
    ensures var row := Row(b.lengths, o, b.count);
      0 <= Offset(row, k) && Offset(row, k) + row[k] <= b.extent
  {
    assert RowFits(b.lengths, b.count, b.extent, o);
    SegmentWithin(Row(b.lengths, o, b.count), k);
  }

  /** The data elements of segment k of row o at inner index i, in axis
      order. */
  function ColumnElements(b: Buffers, o: nat, k: nat, i: nat): (xs: seq<V.Value>)
    requires b.Valid() && o < b.outer && k < b.count && i < b.inner
    requires RowFits(b.lengths, b.count, b.extent, o)
    ensures |xs| == Row(b.lengths, o, b.count)[k]
  {
    var row := Row(b.lengths, o, b.count);
    SegmentInAxis(b, o, k);
    BlockEnd(o, b.outer, b.extent);
    Forward.SegmentElements(b.data, b.outer, b.extent, b.inner, o, Offset(row, k), row[k], i)
  }

  /** The gradients the kernel writes for column i of segment k of row o, in
      axis order: the per-kind rule applied to the segment's data elements at
      that column, the forward output of its cell and the incoming gradient
      of that cell. */
  function ColumnGrad(kind: R.Kind, initialProd: V.Value, b: Buffers, o: nat, k: nat, i: nat): (col: seq<V.Value>)
    requires b.Valid() && o < b.outer && k < b.count && i < b.inner
    requires RowFits(b.lengths, b.count, b.extent, o)
    requires Row(b.lengths, o, b.count)[k] > 0
    ensures |col| == Row(b.lengths, o, b.count)[k]
  {
    CellInBlock(o, k, i, b.outer, b.count, b.inner);
    var cell := Flat(o, k, i, b.count, b.inner);
    G.SegmentGrad(kind, ColumnElements(b, o, k, i), b.output[cell], b.grad[cell], initialProd)
  }

  /** The gradient of the data element at flat position p: its entry in the
      column gradient of the segment its axis position falls in, or zero when
      it falls in no segment. */
  function GradAt(kind: R.Kind, initialProd: V.Value, b: Buffers, p: int): V.Value
    requires b.Valid() && b.extent > 0 && b.inner > 0 && 0 <= p < |b.data|
  {
    FlatUnflatten(p, b.outer, b.extent, b.inner);
    var (o, a, i) := Unflatten(p, b.extent, b.inner);
    assert RowFits(b.lengths, b.count, b.extent, o);
    var row := Row(b.lengths, o, b.count);
    var k := Locate(row, a);
    if k == b.count then
      V.Zero
    else
      LocateBounds(row, a);
      ColumnGrad(kind, initialProd, b, o, k, i)[a - Offset(row, k)]
  }

  /** `GradAt` where it is defined, zero elsewhere. */
  function GradOrZero(kind: R.Kind, initialProd: V.Value, b: Buffers, p: int): V.Value {
    if b.Valid() && b.extent > 0 && b.inner > 0 && 0 <= p < |b.data| then GradAt(kind, initialProd, b, p)
    else V.Zero
  }

  /** The sequence f(0), ..., f(n - 1). */
  function Tabulate(n: nat, f: int -> V.Value): (s: seq<V.Value>)
    ensures |s| == n
  {
    if n == 0 then [] else Tabulate(n - 1, f) + [f(n - 1)]
  }

  lemma {:induction false} TabulateAt(n: nat, f: int -> V.Value, p: int)
    requires 0 <= p < n
    ensures Tabulate(n, f)[p] == f(p)
  {
    if p < n - 1 {
      TabulateAt(n - 1, f, p);
    }
  }

  /** The gradient buffer the backward kernel returns. */
  function BackwardSpec(kind: R.Kind, initialProd: V.Value, b: Buffers): (gi: seq<V.Value>)
    requires b.Valid()
    ensures |gi| == |b.data|
  {
    if b.extent == 0 || b.inner == 0 then
      []
    else
      Tabulate(|b.data|, p => GradOrZero(kind, initialProd, b, p))
  }

  /** `GradAt` at a position whose coordinates are known and fall in
      segment k. */
  lemma GradAtCoords(kind: R.Kind, initialProd: V.Value, b: Buffers, p: int, o: int, a: int, i: int, k: nat)
    requires b.Valid() && b.extent > 0 && b.inner > 0 && 0 <= p < |b.data|
    requires Unflatten(p, b.extent, b.inner) == (o, a, i)
    requires 0 <= o < b.outer && 0 <= a && 0 <= i < b.inner && k < b.count
    requires RowFits(b.lengths, b.count, b.extent, o)
    requires Locate(Row(b.lengths, o, b.count), a) == k
    ensures 0 <= a - Offset(Row(b.lengths, o, b.count), k) < Row(b.lengths, o, b.count)[k]
    ensures GradAt(kind, initialProd, b, p)
         == ColumnGrad(kind, initialProd, b, o, k, i)[a - Offset(Row(b.lengths, o, b.count), k)]
  {
    FlatUnflatten(p, b.outer, b.extent, b.inner);
    LocateBounds(Row(b.lengths, o, b.count), a);
  }

  /** Element j of column i of a non-empty segment k of row o sits at flat
      position `(o * extent + Offset(row, k) + j) * inner + i` of the data,
      and gets entry j of the column gradient. */
  lemma GradAtSegment(kind: R.Kind, initialProd: V.Value, b: Buffers, o: nat, k: nat, i: nat, j: nat)
    requires b.Valid() && o < b.outer && k < b.count && i < b.inner
    requires RowFits(b.lengths, b.count, b.extent, o)
    requires j < Row(b.lengths, o, b.count)[k]
    ensures var a := Offset(Row(b.lengths, o, b.count), k) + j;
      && 0 <= a < b.extent
      && 0 <= Flat(o, a, i, b.extent, b.inner) < |b.data|
      && GradAt(kind, initialProd, b, Flat(o, a, i, b.extent, b.inner))
         == ColumnGrad(kind, initialProd, b, o, k, i)[j]
  {
    var row := Row(b.lengths, o, b.count);
    var a := Offset(row, k) + j;
    SegmentInAxis(b, o, k);
    var p := Flat(o, a, i, b.extent, b.inner);
    assert 0 <= p < |b.data| by {
      CellInBlock(o, a, i, b.outer, b.extent, b.inner);
    }
    assert Unflatten(p, b.extent, b.inner) == (o, a, i) by {
      UnflattenFlat(o, a, i, b.extent, b.inner);
    }
    assert Locate(row, a) == k by {
      LocateInSegment(row, k, a);
    }
    GradAtCoords(kind, initialProd, b, p, o, a, i, k);
  }

  /** Every element covered by a non-empty segment receives that segment's
      column gradient. */
  lemma BackwardSpecInSegment(kind: R.Kind, initialProd: V.Value, b: Buffers, o: nat, k: nat, i: nat, j: nat, p: int)
    requires b.Valid() && o < b.outer && k < b.count && i < b.inner
    requires RowFits(b.lengths, b.count, b.extent, o)
    requires j < Row(b.lengths, o, b.count)[k]
    requires p == Flat(o, Offset(Row(b.lengths, o, b.count), k) + j, i, b.extent, b.inner)
    ensures 0 <= p < |b.data|
    ensures BackwardSpec(kind, initialProd, b)[p] == ColumnGrad(kind, initialProd, b, o, k, i)[j]
  {
    GradAtSegment(kind, initialProd, b, o, k, i, j);
    BackwardSpecAt(kind, initialProd, b, p);
  }

  /** Inside a non-empty block the returned buffer holds `GradAt` everywhere. */
  lemma BackwardSpecAt(kind: R.Kind, initialProd: V.Value, b: Buffers, p: int)
    requires b.Valid() && b.extent > 0 && b.inner > 0 && 0 <= p < |b.data|
    ensures BackwardSpec(kind, initialProd, b)[p] == GradAt(kind, initialProd, b, p)
  {
    TabulateAt(|b.data|, p => GradOrZero(kind, initialProd, b, p), p);
  }

  /** Elements past the end of their row's last segment keep the zero the
      buffer was filled with. */
  lemma BackwardSpecPastSegments(kind: R.Kind, initialProd: V.Value, b: Buffers, o: nat, a: nat, i: nat)
    requires b.Valid() && o < b.outer && a < b.extent && i < b.inner
    requires RowFits(b.lengths, b.count, b.extent, o)
    requires Offset(Row(b.lengths, o, b.count), b.count) <= a
    ensures 0 <= Flat(o, a, i, b.extent, b.inner) < |b.data|
    ensures BackwardSpec(kind, initialProd, b)[Flat(o, a, i, b.extent, b.inner)] == V.Zero
  {
    GradAtPastSegments(kind, initialProd, b, o, a, i);
    BackwardSpecAt(kind, initialProd, b, Flat(o, a, i, b.extent, b.inner));
  }

  lemma GradAtPastSegments(kind: R.Kind, initialProd: V.Value, b: Buffers, o: nat, a: nat, i: nat)
    requires b.Valid() && o < b.outer && a < b.extent && i < b.inner
    requires RowFits(b.lengths, b.count, b.extent, o)
    requires Offset(Row(b.lengths, o, b.count), b.count) <= a
    ensures 0 <= Flat(o, a, i, b.extent, b.inner) < |b.data|
    ensures GradAt(kind, initialProd, b, Flat(o, a, i, b.extent, b.inner)) == V.Zero
  {
    var row := Row(b.lengths, o, b.count);
    var p := Flat(o, a, i, b.extent, b.inner);
    assert 0 <= p < |b.data| by {
      CellInBlock(o, a, i, b.outer, b.extent, b.inner);
    }
    assert Unflatten(p, b.extent, b.inner) == (o, a, i) by {
      UnflattenFlat(o, a, i, b.extent, b.inner);
    }
    assert Locate(row, a) == b.count by {
      assert row[..|row|] == row;
      LocatePastEnd(row, a);
    }
  }

  /** Whether the kernel has written flat data position p by the time it is
      about to store element j of column i of the segment of row o that
      covers axis positions `start .. start + len`: every row before o, the
      positions of row o before the segment, and the columns before i and
      the elements before j of this one. */
  predicate Done(b: Buffers, p: int, o: nat, start: int, len: int, i: int, j: int)
    requires b.extent > 0 && b.inner > 0
  {
    var (o', a, i') := Unflatten(p, b.extent, b.inner);
    || o' < o
    || (o' == o && a < start)
    || (o' == o && start <= a < start + len && (i' < i || (i' == i && a - start < j)))
  }

  /** The gradient buffer holds the final gradient at the positions written
      so far and the zero it was filled with everywhere else. */
  predicate Progress(kind: R.Kind, initialProd: V.Value, b: Buffers, gi: seq<V.Value>,
                     o: nat, start: int, len: int, i: int, j: int)
    requires b.Valid() && b.extent > 0 && b.inner > 0
  {
    && |gi| == |b.data|
    && forall p :: 0 <= p < |gi| ==>
         gi[p] == if Done(b, p, o, start, len, i, j) then GradAt(kind, initialProd, b, p) else V.Zero
  }

  /** The zero-filled buffer: nothing is written before the first row. */
  lemma ProgressInitial(kind: R.Kind, initialProd: V.Value, b: Buffers)
    requires b.Valid() && b.extent > 0 && b.inner > 0
    ensures Progress(kind, initialProd, b, seq(|b.data|, _ => V.Zero), 0, 0, 0, 0, 0)
  {
    forall p | 0 <= p < |b.data|
      ensures !Done(b, p, 0, 0, 0, 0, 0)
    {
      FlatUnflatten(p, b.outer, b.extent, b.inner);
    }
  }

  /** Storing entry j of the column gradient at its data position moves the
      kernel on to element j + 1. */
  lemma ProgressStore(kind: R.Kind, initialProd: V.Value, b: Buffers, gi: seq<V.Value>,
                      o: nat, k: nat, i: nat, j: nat)
    requires b.Valid() && b.extent > 0 && o < b.outer && k < b.count && i < b.inner
    requires RowFits(b.lengths, b.count, b.extent, o)
    requires j < Row(b.lengths, o, b.count)[k]
    requires var row := Row(b.lengths, o, b.count);
      Progress(kind, initialProd, b, gi, o, Offset(row, k), row[k], i, j)
    ensures var row := Row(b.lengths, o, b.count);
      var q := Flat(o, Offset(row, k) + j, i, b.extent, b.inner);
      && 0 <= q < |gi|
      && Progress(kind, initialProd, b, gi[q := ColumnGrad(kind, initialProd, b, o, k, i)[j]],
                  o, Offset(row, k), row[k], i, j + 1)
  {
    var row := Row(b.lengths, o, b.count);
    var start, len := Offset(row, k), row[k];
    var q := Flat(o, start + j, i, b.extent, b.inner);
    GradAtSegment(kind, initialProd, b, o, k, i, j);
    var v := ColumnGrad(kind, initialProd, b, o, k, i)[j];
    var gi' := gi[q := v];
    forall p | 0 <= p < |gi'|
      ensures gi'[p] == if Done(b, p, o, start, len, i, j + 1) then GradAt(kind, initialProd, b, p) else V.Zero
    {
      DoneStep(b, p, o, start, len, i, j);
      if p == q {
        assert gi'[p] == v;
      } else {
        assert gi'[p] == gi[p];
      }
    }
  }

  /** Storing element j of column i marks exactly its own position done. */
  lemma DoneStep(b: Buffers, p: int, o: nat, start: int, len: int, i: int, j: int)
    requires b.extent > 0 && b.inner > 0 && 0 <= p < b.outer * b.extent * b.inner
    requires 0 <= i < b.inner && 0 <= j < len && 0 <= start + j < b.extent
    ensures Done(b, p, o, start, len, i, j + 1)
        <==> Done(b, p, o, start, len, i, j) || p == Flat(o, start + j, i, b.extent, b.inner)
  {
    var (o', a, i') := Unflatten(p, b.extent, b.inner);
    FlatUnflatten(p, b.outer, b.extent, b.inner);
    UnflattenFlat(o, start + j, i, b.extent, b.inner);
    assert p == Flat(o, start + j, i, b.extent, b.inner) <==> (o', a, i') == (o, start + j, i);
  }

  /** A column whose every element is stored: on to the next column. */
  lemma ProgressColumn(kind: R.Kind, initialProd: V.Value, b: Buffers, gi: seq<V.Value>,
                       o: nat, start: int, len: int, i: int)
    requires b.Valid() && b.extent > 0 && b.inner > 0
    requires Progress(kind, initialProd, b, gi, o, start, len, i, len)
    ensures Progress(kind, initialProd, b, gi, o, start, len, i + 1, 0)
  {
    forall p | 0 <= p < |gi|
      ensures Done(b, p, o, start, len, i + 1, 0) <==> Done(b, p, o, start, len, i, len)
    {
    }
  }

  /** A segment whose every column is stored: on to the next segment, which
      starts where this one ends. A segment of length zero is passed over. */
  lemma ProgressSegment(kind: R.Kind, initialProd: V.Value, b: Buffers, gi: seq<V.Value>,
                        o: nat, start: int, len: nat)
    requires b.Valid() && b.extent > 0 && b.inner > 0
    requires Progress(kind, initialProd, b, gi, o, start, len, b.inner, 0)
    ensures Progress(kind, initialProd, b, gi, o, start + len, 0, 0, 0)
  {
    forall p | 0 <= p < |gi|
      ensures Done(b, p, o, start + len, 0, 0, 0) <==> Done(b, p, o, start, len, b.inner, 0)
    {
      FlatUnflatten(p, b.outer, b.extent, b.inner);
    }
  }

  /** Before the first column of a segment nothing of it is written. */
  lemma ProgressEnter(kind: R.Kind, initialProd: V.Value, b: Buffers, gi: seq<V.Value>,
                      o: nat, start: int, len: nat)
    requires b.Valid() && b.extent > 0 && b.inner > 0
    requires Progress(kind, initialProd, b, gi, o, start, 0, 0, 0)
    ensures Progress(kind, initialProd, b, gi, o, start, len, 0, 0)
  {
    forall p | 0 <= p < |gi|
      ensures Done(b, p, o, start, len, 0, 0) <==> Done(b, p, o, start, 0, 0, 0)
    {
      FlatUnflatten(p, b.outer, b.extent, b.inner);
    }
  }

  /** A row whose every segment is written: the positions past its last
      segment keep their zero, which is their gradient, so on to the next
      row. */
  lemma ProgressRow(kind: R.Kind, initialProd: V.Value, b: Buffers, gi: seq<V.Value>, o: nat)
    requires b.Valid() && b.extent > 0 && b.inner > 0 && o < b.outer
    requires RowFits(b.lengths, b.count, b.extent, o)
    requires Progress(kind, initialProd, b, gi, o, Offset(Row(b.lengths, o, b.count), b.count), 0, 0, 0)
    ensures Progress(kind, initialProd, b, gi, o + 1, 0, 0, 0, 0)
  {
    var row := Row(b.lengths, o, b.count);
    var end := Offset(row, b.count);
    forall p | 0 <= p < |gi|
      ensures gi[p] == if Done(b, p, o + 1, 0, 0, 0, 0) then GradAt(kind, initialProd, b, p) else V.Zero
    {
      FlatUnflatten(p, b.outer, b.extent, b.inner);
      var (o', a, i') := Unflatten(p, b.extent, b.inner);
      if o' == o && end <= a {
        GradAtPastSegments(kind, initialProd, b, o, a, i');
      }
    }
  }

  /** After the last row every position holds its gradient. */
  lemma ProgressFinal(kind: R.Kind, initialProd: V.Value, b: Buffers, gi: seq<V.Value>)
    requires b.Valid() && b.extent > 0 && b.inner > 0
    requires Progress(kind, initialProd, b, gi, b.outer, 0, 0, 0, 0)
    ensures gi == BackwardSpec(kind, initialProd, b)
  {
    forall p | 0 <= p < |gi|
      ensures gi[p] == BackwardSpec(kind, initialProd, b)[p]
    {
      FlatUnflatten(p, b.outer, b.extent, b.inner);
      BackwardSpecAt(kind, initialProd, b, p);
    }
  }

  /** The store loop of one column (the `grad_input_data[data_index] = ...`
      writes of lines 194-254): entry j of the column gradient goes to data
      position `o * inner * extent + (start + j) * inner + i`. */
  method StoreColumn(kind: R.Kind, initialProd: V.Value, b: Buffers, gi: seq<V.Value>,
                     o: nat, k: nat, start: int, len: nat, i: nat, col: seq<V.Value>)
    returns (gi': seq<V.Value>)
    requires b.Valid() && b.extent > 0 && o < b.outer && k < b.count && i < b.inner
    requires RowFits(b.lengths, b.count, b.extent, o)
    requires start == Offset(Row(b.lengths, o, b.count), k) && len == Row(b.lengths, o, b.count)[k] > 0
    requires col == ColumnGrad(kind, initialProd, b, o, k, i)
    requires Progress(kind, initialProd, b, gi, o, start, len, i, 0)
    ensures Progress(kind, initialProd, b, gi', o, start, len, i + 1, 0)
  {
    gi' := gi;
    var j := 0;
    while j < len
      invariant 0 <= j <= len
      invariant Progress(kind, initialProd, b, gi', o, start, len, i, j)
    {
      var q := o * b.inner * b.extent + (start + j) * b.inner + i;
      StridedIndex(o, start + j, i, b.extent, b.inner);
      ProgressStore(kind, initialProd, b, gi', o, k, i, j);
      gi' := gi'[q := col[j]];
      j := j + 1;
    }
    ProgressColumn(kind, initialProd, b, gi', o, start, len, i);
  }

  /** One non-empty segment of row o (lines 192-256): for every inner index
      the kernel reads the forward output and incoming gradient of the
      segment's cell, computes the column gradient, and stores it. */
  method SegmentPass(kind: R.Kind, initialProd: V.Value, b: Buffers, gi: seq<V.Value>,
                     o: nat, k: nat, start: int, len: nat)
    returns (gi': seq<V.Value>)
    requires b.Valid() && b.extent > 0 && b.inner > 0 && o < b.outer && k < b.count
    requires RowFits(b.lengths, b.count, b.extent, o)
    requires start == Offset(Row(b.lengths, o, b.count), k) && len == Row(b.lengths, o, b.count)[k] > 0
    requires Progress(kind, initialProd, b, gi, o, start, 0, 0, 0)
    ensures Progress(kind, initialProd, b, gi', o, start + len, 0, 0, 0)
  {
    SegmentInAxis(b, o, k);
    BlockEnd(o, b.outer, b.extent);
    ProgressEnter(kind, initialProd, b, gi, o, start, len);
    gi' := gi;
    var i := 0;
    while i < b.inner
      invariant 0 <= i <= b.inner
      invariant Progress(kind, initialProd, b, gi', o, start, len, i, 0)
    {
      var cell := o * b.inner * b.count + k * b.inner + i;
      StridedIndex(o, k, i, b.count, b.inner);
      CellInBlock(o, k, i, b.outer, b.count, b.inner);
      var xs := Forward.SegmentElements(b.data, b.outer, b.extent, b.inner, o, start, len, i);
      var col := G.SegmentColumn(kind, xs, b.output[cell], b.grad[cell], initialProd);
      gi' := StoreColumn(kind, initialProd, b, gi', o, k, start, len, i, col);
      i := i + 1;
    }
    ProgressSegment(kind, initialProd, b, gi', o, start, len);
  }

  /** Segment k of row o (lines 185-257): read its length, skip it when it
      is zero, otherwise make a segment pass; either way advance the running
      start `lengths_cum_sum` by the length. */
  method SegmentStep(kind: R.Kind, initialProd: V.Value, b: Buffers, gi: seq<V.Value>,
                     o: nat, k: nat, cumSum: int)
    returns (gi': seq<V.Value>, cumSum': int)
    requires b.Valid() && b.extent > 0 && b.inner > 0 && o < b.outer && k < b.count
    requires RowFits(b.lengths, b.count, b.extent, o)
    requires cumSum == Offset(Row(b.lengths, o, b.count), k)
    requires Progress(kind, initialProd, b, gi, o, cumSum, 0, 0, 0)
    ensures cumSum' == Offset(Row(b.lengths, o, b.count), k + 1)
    ensures Progress(kind, initialProd, b, gi', o, cumSum', 0, 0, 0)
  {
    var len := b.lengths[o * b.count + k];
    assert len == Row(b.lengths, o, b.count)[k];
    OffsetStep(Row(b.lengths, o, b.count), k);
    if len == 0 {
      return gi, cumSum;
    }
    gi' := SegmentPass(kind, initialProd, b, gi, o, k, cumSum, len);
    cumSum' := cumSum + len;
  }

  /** One outer row (lines 183-258): the segments in order, starting at axis
      position zero. */
  method BackwardRow(kind: R.Kind, initialProd: V.Value, b: Buffers, gi: seq<V.Value>, o: nat)
    returns (gi': seq<V.Value>)
    requires b.Valid() && b.extent > 0 && b.inner > 0 && o < b.outer
    requires Progress(kind, initialProd, b, gi, o, 0, 0, 0, 0)
    ensures Progress(kind, initialProd, b, gi', o + 1, 0, 0, 0, 0)
  {
    assert RowFits(b.lengths, b.count, b.extent, o);
    assert Offset(Row(b.lengths, o, b.count), 0) == 0 by {
      assert Row(b.lengths, o, b.count)[..0] == [];
    }
    gi' := gi;
    var cumSum := 0;
    var k := 0;
    while k < b.count
      invariant 0 <= k <= b.count
      invariant cumSum == Offset(Row(b.lengths, o, b.count), k)
      invariant Progress(kind, initialProd, b, gi', o, cumSum, 0, 0, 0)
    {
      gi', cumSum := SegmentStep(kind, initialProd, b, gi', o, k, cumSum);
      k := k + 1;
    }
    ProgressRow(kind, initialProd, b, gi', o);
  }

  /** `_segment_reduce_cpu_backward_kernel1` on a zero-filled gradient
      buffer: every row in turn. A buffer without elements has nothing to
      write: with `inner == 0` no column exists, and with `extent == 0` every
      length of a fitting row is zero. */
  method BackwardKernel1(kind: R.Kind, initialProd: V.Value, b: Buffers) returns (gi: seq<V.Value>)
    requires b.Valid()
    ensures gi == BackwardSpec(kind, initialProd, b)
  {
    gi := seq(|b.data|, _ => V.Zero);
    if b.extent == 0 || b.inner == 0 {
      return;
    }
    ProgressInitial(kind, initialProd, b);
    var o := 0;
    while o < b.outer
      invariant 0 <= o <= b.outer
      invariant Progress(kind, initialProd, b, gi, o, 0, 0, 0, 0)
    {
      gi := BackwardRow(kind, initialProd, b, gi, o);
      o := o + 1;
    }
    ProgressFinal(kind, initialProd, b, gi);
  }

  /** The buffers of the backward kernel for the given tensors: the axis is
      the last dimension of lengths, the outer and inner sizes are those of
      the output around it (lines 155-160 and 274-275). */
  function Frame(grad: Tensor<V.Value>, output: Tensor<V.Value>, data: Tensor<V.Value>, lengths: Tensor<int>): Buffers
    requires 1 <= |lengths.sizes| && |lengths.sizes| <= |output.sizes| && |lengths.sizes| <= |data.sizes|
  {
    var axis := |lengths.sizes| - 1;
    Buffers(grad.values, output.values, data.values, lengths.values,
            OuterSize(output.sizes, axis), lengths.sizes[axis], data.sizes[axis], InnerSize(output.sizes, axis))
  }

  /** What the backward call relies on: the tensors' elements match their
      sizes; the data's stride along the axis is the output's inner size and
      the output has one cell per segment along the axis, so that the
      kernel's strided output and data indices (lines 192-193 and 198-199)
      are the flat positions of the buffers; and the buffers are large
      enough for every index the kernel computes. */
  predicate BackwardShapes(grad: Tensor<V.Value>, output: Tensor<V.Value>, data: Tensor<V.Value>, lengths: Tensor<int>) {
    && grad.Valid() && output.Valid() && data.Valid() && lengths.Valid()
    && 1 <= |lengths.sizes| && |lengths.sizes| <= |output.sizes| && |lengths.sizes| <= |data.sizes|
    && InnerSize(data.sizes, |lengths.sizes| - 1) == InnerSize(output.sizes, |lengths.sizes| - 1)
    && output.sizes[|lengths.sizes| - 1] == lengths.sizes[|lengths.sizes| - 1]
    && Frame(grad, output, data, lengths).Valid()
  }

  /** `_segment_reduce_cpu_backward_kernel` with the size loops of kernel1:
      the axis is reset to the last dimension of lengths, the gradient buffer
      has the data's sizes and starts out zero, and kernel1 fills it. */
  method BackwardKernel(kind: R.Kind, grad: Tensor<V.Value>, output: Tensor<V.Value>, data: Tensor<V.Value>,
                        lengths: Tensor<int>, initial: Option<V.Value>) returns (r: Tensor<V.Value>)
    requires BackwardShapes(grad, output, data, lengths)
    ensures r.Valid() && r.sizes == data.sizes
    ensures r.values == BackwardSpec(kind, G.InitialProd(initial), Frame(grad, output, data, lengths))
  {
    var axis := |lengths.sizes| - 1;
    var count := lengths.sizes[axis];
    var outer := SizeProduct(output.sizes[..axis]);
    var inner := SizeProduct(output.sizes[axis + 1..]);
    var initialProd := if initial.Some? then initial.value else V.One;
    var b := Buffers(grad.values, output.values, data.values, lengths.values, outer, count, data.sizes[axis], inner);
    var gi := BackwardKernel1(kind, initialProd, b);
    return Tensor(data.sizes, gi);
  }

  /** `_segment_reduce_backward_kernel`: the axis must be in range for the
      data (it is then replaced by the last dimension of lengths),
      segmentation must be by lengths, and the reduction name must be one of
      the five; the gradient with respect to the data has the data's sizes. */
  function SegmentReduceBackward(grad: Tensor<V.Value>, output: Tensor<V.Value>, data: Tensor<V.Value>,
                                 reduce: string, lengths: Option<Tensor<int>>, axis: int,
                                 initial: Option<V.Value>): (r: Result<Tensor<V.Value>>)
    requires lengths.Some? ==> BackwardShapes(grad, output, data, lengths.value)
    ensures WrapDim(axis, |data.sizes|).Err? ==> r == Err(DimOutOfRange)
    ensures WrapDim(axis, |data.sizes|).Ok? && lengths.None? ==> r == Err(LengthsOnly)
    ensures WrapDim(axis, |data.sizes|).Ok? && lengths.Some? && R.Parse(reduce).Err? ==>
      r == Err(UnsupportedReduction(reduce))
    ensures r.Ok? <==> WrapDim(axis, |data.sizes|).Ok? && lengths.Some? && R.Parse(reduce).Ok?
    ensures r.Ok? ==> r.value.Valid() && r.value.sizes == data.sizes
  {
    var _ :- WrapDim(axis, |data.sizes|);
    if lengths.None? then
      Err(LengthsOnly)
    else
      var kind :- R.Parse(reduce);
      Ok(Tensor(data.sizes, BackwardSpec(kind, G.InitialProd(initial), Frame(grad, output, data, lengths.value))))
  }

  /** Every row of validated lengths fits, so the forward checks give the
      backward kernel the buffers it relies on. */
  lemma ForwardEstablishesBackward(data: Tensor<V.Value>, reduce: string, lengths: Option<Tensor<int>>,
                                   indices: Option<Tensor<int>>, axis: int, initial: Option<V.Value>,
                                   grad: Tensor<V.Value>)
    requires data.Valid() && (lengths.Some? ==> lengths.value.Valid())
    requires Forward.SegmentReduce(data, reduce, lengths, indices, axis, false, initial).Ok?
    requires var output := Forward.SegmentReduce(data, reduce, lengths, indices, axis, false, initial).value;
      grad.Valid() && grad.sizes == output.sizes
    ensures var output := Forward.SegmentReduce(data, reduce, lengths, indices, axis, false, initial).value;
      && lengths.Some?
      && BackwardShapes(grad, output, data, lengths.value)
      && SegmentReduceBackward(grad, output, data, reduce, lengths, axis, initial).Ok?
  {
    var output := Forward.SegmentReduce(data, reduce, lengths, indices, axis, false, initial).value;
    ValidatedRowsFit(data, lengths, indices, axis);
    Forward.ValidatedShapes(data, lengths, indices, axis);
    var L := lengths.value;
    var ax := |L.sizes| - 1;
    assert output.sizes == data.sizes[ax := L.sizes[ax]];
    assert output.sizes[..ax] == data.sizes[..ax];
    assert output.sizes[ax + 1..] == data.sizes[ax + 1..];
    ProductAroundAxis(data.sizes, ax, L.sizes[ax]);
  }

  /** Validated lengths in safe mode fit every row of the data. */
  lemma ValidatedRowsFit(data: Tensor<V.Value>, lengths: Option<Tensor<int>>,
                         indices: Option<Tensor<int>>, axis: int)
    requires data.Valid() && (lengths.Some? ==> lengths.value.Valid())
    requires Forward.Validate(data, lengths, indices, axis, false).Ok?
    ensures lengths.Some? && 1 <= |lengths.value.sizes| <= |data.sizes|
    ensures var L := lengths.value;
      var ax := |L.sizes| - 1;
      forall o: nat :: o < OuterSize(data.sizes, ax) ==> RowFits(L.values, L.sizes[ax], data.sizes[ax], o)
  {
    Forward.SafeModeInBounds(data, lengths, indices, axis);
    Forward.ValidatedShapes(data, lengths, indices, axis);
    var L := lengths.value;
    var ax := |L.sizes| - 1;
    var count, extent := L.sizes[ax], data.sizes[ax];
    forall o: nat | o < OuterSize(data.sizes, ax)
      ensures RowFits(L.values, count, extent, o)
    {
      assert Forward.RowTiles(L.values, count, extent, o);
      var row := Row(L.values, o, count);
      Forward.SegmentStartRow(L.values, count, o, count);
      forall k | 0 <= k < |row|
        ensures row[k] >= 0
      {
        assert row[k] == L.values[o * count + k];
      }
    }
  }

  /** Fitting rows keep every segment inside the data buffer, as the forward
      kernel needs. */
  lemma FitsInBuffer(b: Buffers)
    requires b.Valid()
    ensures Forward.AllSegmentsInBuffer(b.lengths, b.outer, b.count, b.extent)
  {
    forall o: nat, k: nat | o < b.outer && k < b.count
      ensures Forward.SegmentInBuffer(b.lengths, b.outer, b.count, b.extent, o, k)
    {
      SegmentInAxis(b, o, k);
      assert RowFits(b.lengths, b.count, b.extent, o);
      Forward.SegmentStartRow(b.lengths, b.count, o, k);
      BlockEnd(o, b.outer, b.extent);
      var row := Row(b.lengths, o, b.count);
      assert row[k] == b.lengths[o * b.count + k];
    }
  }

  /** The output buffer the forward kernel computes from the same data and
      lengths. */
  function ForwardOutput(kind: R.Kind, initial: Option<V.Value>, b: Buffers): (out: seq<V.Value>)
    requires b.Valid()
    ensures |out| == |b.output|
  {
    FitsInBuffer(b);
    Forward.ForwardSpec(kind, initial, b.data, b.lengths, b.outer, b.count, b.extent, b.inner)
  }

  /** When the output buffer is the forward result for the same data and
      lengths, the output cell of a segment column holds the reduction of
      exactly the elements whose gradients the column receives. */
  lemma ColumnOfForward(kind: R.Kind, initial: Option<V.Value>, b: Buffers, o: nat, k: nat, i: nat)
    requires b.Valid() && o < b.outer && k < b.count && i < b.inner
    requires b.output == ForwardOutput(kind, initial, b)
    ensures RowFits(b.lengths, b.count, b.extent, o)
    ensures 0 <= Flat(o, k, i, b.count, b.inner) < |b.output|
    ensures b.output[Flat(o, k, i, b.count, b.inner)] == R.Reduce(kind, initial, ColumnElements(b, o, k, i))
  {
    assert RowFits(b.lengths, b.count, b.extent, o);
    var row := Row(b.lengths, o, b.count);
    assert row[k] == b.lengths[o * b.count + k];
    Forward.SegmentStartRow(b.lengths, b.count, o, k);
    FitsInBuffer(b);
    assert Forward.SegmentInBuffer(b.lengths, b.outer, b.count, b.extent, o, k);
    Forward.ForwardSpecAt(kind, initial, b.data, b.lengths, b.outer, b.count, b.extent, b.inner, o, k, i);
    var xs := Forward.SegmentElements(b.data, b.outer, b.extent, b.inner, o,
                                      Forward.SegmentStart(b.lengths, b.count, o, k), b.lengths[o * b.count + k], i);
    assert Forward.Cell(kind, initial, b.data, b.lengths, b.outer, b.count, b.extent, b.inner, o, k, i)
        == R.Reduce(kind, initial, xs);
    assert xs == ColumnElements(b, o, k, i);
  }

  /** Max and min after a forward pass without an initial value: a positive
      finite incoming gradient is neither lost nor duplicated, the gradients
      of a non-empty segment column add up to it exactly. */
  lemma TieGradientConserved(kind: R.Kind, initialProd: V.Value, b: Buffers, o: nat, k: nat, i: nat, g: real)
    requires kind == R.Max || kind == R.Min
    requires b.Valid() && o < b.outer && k < b.count && i < b.inner
    requires b.output == ForwardOutput(kind, None, b)
    requires RowFits(b.lengths, b.count, b.extent, o) && Row(b.lengths, o, b.count)[k] > 0
    requires 0 <= Flat(o, k, i, b.count, b.inner) < |b.grad| && b.grad[Flat(o, k, i, b.count, b.inner)] == V.Num(g)
    requires g > 0.0
    ensures var col := ColumnGrad(kind, initialProd, b, o, k, i);
      && (forall j :: 0 <= j < |col| ==> V.IsFinite(col[j]))
      && V.RealSum(col) == g
  {
    ColumnOfForward(kind, None, b, o, k, i);
    var xs := ColumnElements(b, o, k, i);
    var y := b.output[Flat(o, k, i, b.count, b.inner)];
    G.ForwardExtremumIsMarked(kind, xs);
    G.TieGradIsSpread(xs, y, g);
    G.TieGradShared(xs, y, g);
  }

  /** Prod after a forward pass with a finite or no initial value, on finite
      elements and a finite incoming gradient: every element's gradient is
      the incoming gradient times the product of the other elements, whether
      the kernel took the cheap path or the explicit exclusive product. */
  lemma ProdGradientIsExclusive(initial: Option<V.Value>, b: Buffers, o: nat, k: nat, i: nat, g: real)
    requires initial.Some? ==> V.IsFinite(initial.value)
    requires b.Valid() && o < b.outer && k < b.count && i < b.inner
    requires b.output == ForwardOutput(R.Prod, initial, b)
    requires RowFits(b.lengths, b.count, b.extent, o) && Row(b.lengths, o, b.count)[k] > 0
    requires var xs := ColumnElements(b, o, k, i);
      forall j :: 0 <= j < |xs| ==> V.IsFinite(xs[j])
    requires 0 <= Flat(o, k, i, b.count, b.inner) < |b.grad| && b.grad[Flat(o, k, i, b.count, b.inner)] == V.Num(g)
    ensures var xs := ColumnElements(b, o, k, i);
      var ip := G.InitialProd(initial);
      var col := ColumnGrad(R.Prod, ip, b, o, k, i);
      forall j :: 0 <= j < |col| ==> col[j] == V.Mul(V.Num(g), G.Exclusive(ip, xs, j))
  {
    ColumnOfForward(R.Prod, initial, b, o, k, i);
    var xs := ColumnElements(b, o, k, i);
    var ip := G.InitialProd(initial);
    var y := b.output[Flat(o, k, i, b.count, b.inner)];
    assert y == R.Fold(R.Prod, ip, xs);
    var col := ColumnGrad(R.Prod, ip, b, o, k, i);
    forall j | 0 <= j < |col|
      ensures col[j] == V.Mul(V.Num(g), G.Exclusive(ip, xs, j))
    {
      if xs[j] != V.Zero {
        G.ProdCheapPath(xs, j, g, ip.x);
      }
    }
  }
}
