/** The forward segment reduction (aten/src/ATen/native/SegmentReduce.cpp):
    entry validation in `segment_reduce_kernel`, output allocation in
    `_segment_reduce_cpu_kernel`, and the outer x segment x inner walk of
    `_segment_reduce_cpu_kernel1`.

    Throughout, `outer`, `extent` and `inner` describe the data buffer as an
    (outer, axis, inner) block, and `count` is the number of segments per
    outer row. The lengths buffer is read as `count` lengths per outer row. */
module Forward {
  import opened Results
  import opened Layout
  import opened Segments
  import R = Reduction
  import V = Values

  /** Entries before `n` of the lengths buffer are non-negative. */
  predicate NoNegativeBefore(lengths: seq<int>, n: int) {
    forall m :: 0 <= m < n && m < |lengths| ==> lengths[m] >= 0
  }

  /** Axis position where segment k of row o starts: the value of
      `lengths_cum_sum` when the kernels reach that segment. */
  function SegmentStart(lengths: seq<int>, count: nat, o: nat, k: nat): int
    requires k <= count && o * count + k <= |lengths|
  {
    Sum(lengths[o * count .. o * count + k])
  }

  /** Each segment of a row starts where the previous one ends. */
  lemma SegmentStartStep(lengths: seq<int>, count: nat, o: nat, k: nat)
    requires k < count && o * count + k < |lengths|
    ensures SegmentStart(lengths, count, o, k + 1) == SegmentStart(lengths, count, o, k) + lengths[o * count + k]
  {
    assert lengths[o * count .. o * count + k + 1][..k] == lengths[o * count .. o * count + k];
  }

  /** Once the whole row is in the buffer, segment starts are its offsets. */
  lemma SegmentStartRow(lengths: seq<int>, count: nat, o: nat, k: nat)
    requires k <= count && o * count + count <= |lengths|
    ensures SegmentStart(lengths, count, o, k) == Offset(Row(lengths, o, count), k)
  {
    assert Row(lengths, o, count)[..k] == lengths[o * count .. o * count + k];
  }

  /** Segment (o, k) has a non-negative length, and the data positions it
      reads, axis positions `SegmentStart .. SegmentStart + length` counted
      from the start of row o, lie inside the data buffer. Unless the lengths
      were validated they may run past the row into the following ones. */
  predicate SegmentInBuffer(lengths: seq<int>, outer: nat, count: nat, extent: nat, o: nat, k: nat) {
    && k < count && o * count + k < |lengths|
    && lengths[o * count + k] >= 0
    && 0 <= o * extent + SegmentStart(lengths, count, o, k)
    && o * extent + SegmentStart(lengths, count, o, k) + lengths[o * count + k] <= outer * extent
  }

  predicate AllSegmentsInBuffer(lengths: seq<int>, outer: nat, count: nat, extent: nat) {
    forall o: nat, k: nat :: o < outer && k < count ==> SegmentInBuffer(lengths, outer, count, extent, o, k)
  }

  /** What the forward kernel needs to stay inside its buffers: a length for
      every (outer, segment) pair it reaches, and every segment it reads data
      for inside the data buffer. With `inner > 0` the kernel stops at the
      first negative length, so it reaches the entries up to that one; with
      `inner == 0` it reads every length and no data. */
  predicate ForwardInputs(values: seq<V.Value>, lengths: seq<int>, outer: nat, count: nat, extent: nat, inner: nat) {
    && |values| == outer * extent * inner
    && (forall m :: 0 <= m < outer * count && (inner == 0 || NoNegativeBefore(lengths, m)) ==> m < |lengths|)
    && forall o: nat, k: nat :: o < outer && k < count && inner > 0 && NoNegativeBefore(lengths, o * count + k + 1) ==>
         SegmentInBuffer(lengths, outer, count, extent, o, k)
  }

  /** The lengths entry of every (outer, segment) pair the kernel reaches
      exists. */
  lemma LengthReached(values: seq<V.Value>, lengths: seq<int>, outer: nat, count: nat, extent: nat, inner: nat, m: int)
    requires ForwardInputs(values, lengths, outer, count, extent, inner)
    requires 0 <= m < outer * count && (inner == 0 || NoNegativeBefore(lengths, m))
    ensures m < |lengths|
  {
  }

  /** Without negative lengths every segment is reached. */
  lemma ReachedSegments(values: seq<V.Value>, lengths: seq<int>, outer: nat, count: nat, extent: nat, inner: nat)
    requires ForwardInputs(values, lengths, outer, count, extent, inner)
    requires inner > 0 ==> NoNegativeBefore(lengths, outer * count)
    ensures inner > 0 ==> AllSegmentsInBuffer(lengths, outer, count, extent)
  {
    if inner > 0 {
      forall o: nat, k: nat | o < outer && k < count
        ensures SegmentInBuffer(lengths, outer, count, extent, o, k)
      {
        CellInBlock(o, k, 0, outer, count, 1);
        assert NoNegativeBefore(lengths, o * count + k + 1);
      }
    }
  }

  /** The elements segment (o, start, length) merges at inner index i, in
      the order the kernel visits them. */
  function SegmentElements(values: seq<V.Value>, outer: nat, extent: nat, inner: nat,
                           o: nat, start: int, length: nat, i: nat): (xs: seq<V.Value>)
    requires |values| == outer * extent * inner && i < inner
    requires 0 <= o * extent + start && o * extent + start + length <= outer * extent
    ensures |xs| == length
  {
    seq(length, j requires 0 <= j < length =>
      FlatBounds(o, start + j, i, outer, extent, inner);
      values[Flat(o, start + j, i, extent, inner)])
  }

  /** The value output cell (o, k, i) receives: the reduction of segment k of
      row o at inner index i. */
  function Cell(kind: R.Kind, initial: Option<V.Value>, values: seq<V.Value>, lengths: seq<int>,
                outer: nat, count: nat, extent: nat, inner: nat, o: nat, k: nat, i: nat): V.Value
    requires |values| == outer * extent * inner
    requires o < outer && i < inner && SegmentInBuffer(lengths, outer, count, extent, o, k)
  {
    R.Reduce(kind, initial,
      SegmentElements(values, outer, extent, inner, o, SegmentStart(lengths, count, o, k), lengths[o * count + k], i))
  }

  /** Flat output position p names a cell (o, k, i) whose segment the
      kernel reads inside the data buffer. */
  predicate Reached(lengths: seq<int>, outer: nat, count: nat, extent: nat, inner: nat, p: int) {
    && count > 0 && inner > 0 && 0 <= p < outer * count * inner
    && var (o, k, i) := Unflatten(p, count, inner);
       && 0 <= o < outer && 0 <= k && 0 <= i < inner
       && SegmentInBuffer(lengths, outer, count, extent, o, k)
  }

  /** The value of the output cell at flat position p. */
  function CellAt(kind: R.Kind, initial: Option<V.Value>, values: seq<V.Value>, lengths: seq<int>,
                  outer: nat, count: nat, extent: nat, inner: nat, p: int): V.Value
    requires |values| == outer * extent * inner
    requires Reached(lengths, outer, count, extent, inner, p)
  {
    var (o, k, i) := Unflatten(p, count, inner);
    Cell(kind, initial, values, lengths, outer, count, extent, inner, o, k, i)
  }

  /** When every segment lies in the data buffer, every output position is
      reached. */
  lemma AllReached(lengths: seq<int>, outer: nat, count: nat, extent: nat, inner: nat, p: int)
    requires AllSegmentsInBuffer(lengths, outer, count, extent)
    requires count > 0 && inner > 0 && 0 <= p < outer * count * inner
    ensures Reached(lengths, outer, count, extent, inner, p)
  {
    FlatUnflatten(p, outer, count, inner);
  }

  /** The forward output buffer: an (outer, count, inner) block of cells. */
  function ForwardSpec(kind: R.Kind, initial: Option<V.Value>, values: seq<V.Value>, lengths: seq<int>,
                       outer: nat, count: nat, extent: nat, inner: nat): (out: seq<V.Value>)
    requires |values| == outer * extent * inner
    requires inner > 0 ==> AllSegmentsInBuffer(lengths, outer, count, extent)
    ensures |out| == outer * count * inner
  {
    if count == 0 || inner == 0 then
      []
    else
      seq(outer * count * inner, p requires 0 <= p < outer * count * inner =>
        AllReached(lengths, outer, count, extent, inner, p);
        CellAt(kind, initial, values, lengths, outer, count, extent, inner, p))
  }

  /** Output cell (o, k, i) sits at flat position `(o * count + k) * inner + i`
      of the output buffer and holds the reduction of segment k of row o. */
  lemma ForwardSpecAt(kind: R.Kind, initial: Option<V.Value>, values: seq<V.Value>, lengths: seq<int>,
                      outer: nat, count: nat, extent: nat, inner: nat, o: nat, k: nat, i: nat)
    requires |values| == outer * extent * inner
    requires AllSegmentsInBuffer(lengths, outer, count, extent)
    requires o < outer && k < count && i < inner
    ensures 0 <= Flat(o, k, i, count, inner) < outer * count * inner
    ensures ForwardSpec(kind, initial, values, lengths, outer, count, extent, inner)[Flat(o, k, i, count, inner)]
         == Cell(kind, initial, values, lengths, outer, count, extent, inner, o, k, i)
  {
    CellInBlock(o, k, i, outer, count, inner);
    UnflattenFlat(o, k, i, count, inner);
  }

  /** The output positions below `pos` hold their cells. */
  predicate Filled(kind: R.Kind, initial: Option<V.Value>, values: seq<V.Value>, lengths: seq<int>,
                   outer: nat, count: nat, extent: nat, inner: nat, out: seq<V.Value>, pos: int)
    requires |values| == outer * extent * inner
  {
    forall p :: 0 <= p < pos ==>
      && Reached(lengths, outer, count, extent, inner, p)
      && p < |out|
      && out[p] == CellAt(kind, initial, values, lengths, outer, count, extent, inner, p)
  }

  /** Steps 1 to 3 of `_segment_reduce_cpu_kernel1` for one output cell:
      seed the accumulator, merge the segment's elements in order, then check
      the length and finalise. A negative length merges nothing and fails. */
  method ReduceSegment(kind: R.Kind, initial: Option<V.Value>, values: seq<V.Value>,
                       outer: nat, extent: nat, inner: nat, o: nat, start: int, len: int, i: nat)
    returns (r: Result<V.Value>)
    requires |values| == outer * extent * inner && i < inner
    requires len >= 0 ==> 0 <= o * extent + start && o * extent + start + len <= outer * extent
    ensures r.Err? <==> len < 0
    ensures r.Err? ==> r.error == NegativeLength
    ensures r.Ok? ==> r.value == R.Reduce(kind, initial, SegmentElements(values, outer, extent, inner, o, start, len, i))
  {
    // step 1: starting value
    var acc := R.Start(kind, initial);
    // step 2: merge the segment's elements in order
    var j := 0;
    while j < len
      invariant 0 <= j && (len >= 0 ==> j <= len)
      invariant len >= 0 ==> acc == R.Fold(kind, R.Start(kind, initial),
        SegmentElements(values, outer, extent, inner, o, start, len, i)[..j])
    {
      var index := o * inner * extent + (start + j) * inner + i;
      StridedIndex(o, start + j, i, extent, inner);
      FlatBounds(o, start + j, i, outer, extent, inner);
      ghost var xs := SegmentElements(values, outer, extent, inner, o, start, len, i);
      assert xs[..j + 1][..j] == xs[..j];
      acc := R.Merge(kind, acc, values[index]);
      j := j + 1;
    }
    // step 3: finalise
    if len < 0 {
      return Err(NegativeLength);
    }
    ghost var xs := SegmentElements(values, outer, extent, inner, o, start, len, i);
    assert xs[..len] == xs;
    return Ok(R.Finalize(kind, initial.Some?, len, acc));
  }

  lemma ExtendNoNegative(lengths: seq<int>, n: nat)
    requires NoNegativeBefore(lengths, n) && n < |lengths| && lengths[n] >= 0
    ensures NoNegativeBefore(lengths, n + 1)
  {
  }

  /** Writing cell (o, k, i), the next one in flat order, extends the filled
      prefix by one. */
  lemma FilledExtend(kind: R.Kind, initial: Option<V.Value>, values: seq<V.Value>, lengths: seq<int>,
                     outer: nat, count: nat, extent: nat, inner: nat, out: seq<V.Value>,
                     o: nat, k: nat, i: nat, v: V.Value)
    requires |values| == outer * extent * inner && |out| == outer * count * inner
    requires o < outer && i < inner && SegmentInBuffer(lengths, outer, count, extent, o, k)
    requires Filled(kind, initial, values, lengths, outer, count, extent, inner, out, Flat(o, k, i, count, inner))
    requires v == Cell(kind, initial, values, lengths, outer, count, extent, inner, o, k, i)
    ensures 0 <= Flat(o, k, i, count, inner) < |out|
    ensures Filled(kind, initial, values, lengths, outer, count, extent, inner,
                   out[Flat(o, k, i, count, inner) := v], Flat(o, k, i, count, inner) + 1)
  {
    var p0 := Flat(o, k, i, count, inner);
    CellInBlock(o, k, i, outer, count, inner);
    UnflattenFlat(o, k, i, count, inner);
    assert Reached(lengths, outer, count, extent, inner, p0);
    var out' := out[p0 := v];
    forall p | 0 <= p < p0 + 1
      ensures Reached(lengths, outer, count, extent, inner, p) && p < |out'|
      ensures out'[p] == CellAt(kind, initial, values, lengths, outer, count, extent, inner, p)
    {
    }
  }

  /** The inner loop of `_segment_reduce_cpu_kernel1` for segment k of row o:
      reduce the segment at every inner index and write the output cells.
      A negative length fails at the first inner index. */
  method ForwardSegment(kind: R.Kind, initial: Option<V.Value>, values: seq<V.Value>, lengths: seq<int>,
                        outer: nat, count: nat, extent: nat, inner: nat, o: nat, k: nat,
                        start: int, len: int, out: seq<V.Value>)
    returns (r: Result<seq<V.Value>>)
    requires |values| == outer * extent * inner && |out| == outer * count * inner
    requires o < outer && k < count && o * count + k < |lengths|
    requires start == SegmentStart(lengths, count, o, k) && len == lengths[o * count + k]
    requires len >= 0 && inner > 0 ==> SegmentInBuffer(lengths, outer, count, extent, o, k)
    requires Filled(kind, initial, values, lengths, outer, count, extent, inner, out, (o * count + k) * inner)
    ensures r.Err? <==> inner > 0 && len < 0
    ensures r.Err? ==> r.error == NegativeLength
    ensures r.Ok? ==> |r.value| == |out|
    ensures r.Ok? ==> Filled(kind, initial, values, lengths, outer, count, extent, inner, r.value, (o * count + k) * inner + inner)
  {
    var res := out;
    var i := 0;
    while i < inner
      invariant 0 <= i <= inner
      invariant i > 0 ==> len >= 0
      invariant |res| == outer * count * inner
      invariant Filled(kind, initial, values, lengths, outer, count, extent, inner, res, (o * count + k) * inner + i)
    {
      var cell := ReduceSegment(kind, initial, values, outer, extent, inner, o, start, len, i);
      if cell.Err? {
        return Err(NegativeLength);
      }
      var outputIndex := o * inner * count + k * inner + i;
      StridedIndex(o, k, i, count, inner);
      FilledExtend(kind, initial, values, lengths, outer, count, extent, inner, res, o, k, i, cell.value);
      res := res[outputIndex := cell.value];
      i := i + 1;
    }
    return Ok(res);
  }

  /** One outer row of `_segment_reduce_cpu_kernel1`: walk the row's segments
      in order keeping the running axis offset, and for each inner index
      reduce the segment and write the output cell. */
  method ForwardRow(kind: R.Kind, initial: Option<V.Value>, values: seq<V.Value>, lengths: seq<int>,
                    outer: nat, count: nat, extent: nat, inner: nat, o: nat, out: seq<V.Value>)
    returns (r: Result<seq<V.Value>>)
    requires ForwardInputs(values, lengths, outer, count, extent, inner)
    requires o < outer && |out| == outer * count * inner && o * count <= |lengths|
    requires inner > 0 ==> NoNegativeBefore(lengths, o * count)
    requires Filled(kind, initial, values, lengths, outer, count, extent, inner, out, o * count * inner)
    ensures r.Ok? <==> inner == 0 || NoNegativeBefore(lengths, o * count + count)
    ensures r.Err? ==> r.error == NegativeLength
    ensures r.Ok? ==> |r.value| == |out| && o * count + count <= |lengths|
    ensures r.Ok? ==> Filled(kind, initial, values, lengths, outer, count, extent, inner, r.value, (o * count + count) * inner)
  {
    var res := out;
    var cum := 0;
    var k := 0;
    while k < count
      invariant 0 <= k <= count && o * count + k <= |lengths|
      invariant |res| == outer * count * inner
      invariant cum == SegmentStart(lengths, count, o, k)
      invariant inner > 0 ==> NoNegativeBefore(lengths, o * count + k)
      invariant Filled(kind, initial, values, lengths, outer, count, extent, inner, res, (o * count + k) * inner)
    {
      CellInBlock(o, k, 0, outer, count, 1);
      assert o * 1 * count + k == o * count + k;
      LengthReached(values, lengths, outer, count, extent, inner, o * count + k);
      var len := lengths[o * 1 * count + k];
      if len >= 0 && inner > 0 {
        ExtendNoNegative(lengths, o * count + k);
        assert SegmentInBuffer(lengths, outer, count, extent, o, k);
      }
      var seg := ForwardSegment(kind, initial, values, lengths, outer, count, extent, inner, o, k, cum, len, res);
      if seg.Err? {
        assert !NoNegativeBefore(lengths, o * count + count);
        return Err(NegativeLength);
      }
      res := seg.value;
      if inner > 0 {
        ExtendNoNegative(lengths, o * count + k);
      }
      SegmentStartStep(lengths, count, o, k);
      assert (o * count + k) * inner + inner == (o * count + k + 1) * inner;
      cum := cum + len;
      k := k + 1;
    }
    return Ok(res);
  }

  /** `_segment_reduce_cpu_kernel1`: the outer rows in order. A negative
      length fails the call even in unsafe mode, but only once the kernel
      reaches an inner index of its segment, so with `inner == 0` it never
      fails. */
  method ForwardKernel1(kind: R.Kind, initial: Option<V.Value>, values: seq<V.Value>, lengths: seq<int>,
                        outer: nat, count: nat, extent: nat, inner: nat) returns (r: Result<seq<V.Value>>)
    requires ForwardInputs(values, lengths, outer, count, extent, inner)
    ensures r.Ok? <==> inner == 0 || NoNegativeBefore(lengths, outer * count)
    ensures r.Err? ==> r.error == NegativeLength
    ensures r.Ok? ==> (inner > 0 ==> AllSegmentsInBuffer(lengths, outer, count, extent))
    ensures r.Ok? ==> r.value == ForwardSpec(kind, initial, values, lengths, outer, count, extent, inner)
  {
    // at::empty: every cell is overwritten before it is read
    var out := seq(outer * count * inner, _ => V.NaN);
    var o := 0;
    while o < outer
      invariant 0 <= o <= outer && o * count <= |lengths|
      invariant |out| == outer * count * inner
      invariant inner > 0 ==> NoNegativeBefore(lengths, o * count)
      invariant Filled(kind, initial, values, lengths, outer, count, extent, inner, out, o * count * inner)
    {
      var row := ForwardRow(kind, initial, values, lengths, outer, count, extent, inner, o, out);
      if row.Err? {
        BlockEnd(o, outer, count);
        assert !NoNegativeBefore(lengths, outer * count);
        return Err(NegativeLength);
      }
      out := row.value;
      assert (o * count + count) * inner == (o + 1) * count * inner;
      assert o * count + count == (o + 1) * count;
      o := o + 1;
    }
    if inner > 0 {
      ReachedSegments(values, lengths, outer, count, extent, inner);
    }
    return Ok(out);
  }

  /** The forward kernel's buffers are large enough for every access it makes. */
  predicate LaunchDefined(data: Tensor<V.Value>, lengths: Tensor<int>)
    requires 1 <= |lengths.sizes| <= |data.sizes|
  {
    var axis := |lengths.sizes| - 1;
    ForwardInputs(data.values, lengths.values, OuterSize(data.sizes, axis), lengths.sizes[axis],
                  data.sizes[axis], InnerSize(data.sizes, axis))
  }

  /** `_segment_reduce_cpu_kernel`: the axis is the last dimension of lengths,
      the output has the data's shape with that axis resized to the segment
      count, and the kernel fills it. */
  function Launch(kind: R.Kind, data: Tensor<V.Value>, lengths: Tensor<int>, initial: Option<V.Value>): (r: Result<Tensor<V.Value>>)
    requires data.Valid() && 1 <= |lengths.sizes| <= |data.sizes|
    ensures r.Ok? ==> r.value.Valid()
    ensures r.Ok? ==> r.value.sizes == data.sizes[|lengths.sizes| - 1 := lengths.sizes[|lengths.sizes| - 1]]
  {
    var axis := |lengths.sizes| - 1;
    var count := lengths.sizes[axis];
    var outer := OuterSize(data.sizes, axis);
    var extent := data.sizes[axis];
    var inner := InnerSize(data.sizes, axis);
    ProductAroundAxis(data.sizes, axis, count);
    if !LaunchDefined(data, lengths) then Err(OutOfBoundsAccess)
    else if inner > 0 && !NoNegativeBefore(lengths.values, outer * count) then Err(NegativeLength)
    else
      ReachedSegments(data.values, lengths.values, outer, count, extent, inner);
      Ok(Tensor(data.sizes[axis := count], ForwardSpec(kind, initial, data.values, lengths.values, outer, count, extent, inner)))
  }

  /** `_segment_reduce_cpu_kernel` with the size loops of kernel1: computes
      the output shape and the outer and inner sizes, then runs the kernel. */
  method ForwardKernel(kind: R.Kind, data: Tensor<V.Value>, lengths: Tensor<int>, initial: Option<V.Value>)
    returns (r: Result<Tensor<V.Value>>)
    requires data.Valid() && 1 <= |lengths.sizes| <= |data.sizes|
    requires LaunchDefined(data, lengths)
    ensures r == Launch(kind, data, lengths, initial)
  {
    var axis := |lengths.sizes| - 1;
    var count := lengths.sizes[axis];
    var outputShape := data.sizes[axis := count];
    assert outputShape[..axis] == data.sizes[..axis];
    assert outputShape[axis + 1..] == data.sizes[axis + 1..];
    var outer := SizeProduct(outputShape[..axis]);
    var inner := SizeProduct(outputShape[axis + 1..]);
    var out :- ForwardKernel1(kind, initial, data.values, lengths.values, outer, count, data.sizes[axis], inner);
    return Ok(Tensor(outputShape, out));
  }

  /** `segment_reduce_kernel` lines 305-315: the axis is wrapped, data must be
      non-empty, segmentation must be by lengths, lengths may not have more
      dimensions than data, and the axis must be the last one of lengths. */
  function CheckArguments(data: Tensor<V.Value>, lengths: Option<Tensor<int>>, indices: Option<Tensor<int>>,
                          axis: int): (r: Result<nat>)
    ensures r.Ok? <==> && WrapDim(axis, |data.sizes|).Ok? && Product(data.sizes) > 0
                       && lengths.Some? && indices.None?
                       && |lengths.value.sizes| <= |data.sizes|
                       && WrapDim(axis, |data.sizes|).value + 1 == |lengths.value.sizes|
    ensures r.Ok? ==> r.value == WrapDim(axis, |data.sizes|).value
  {
    var ax :- WrapDim(axis, |data.sizes|);
    if Product(data.sizes) == 0 then Err(EmptyData)
    else if lengths.None? || indices.Some? then Err(LengthsOnly)
    else if |data.sizes| < |lengths.value.sizes| then Err(RankMismatch)
    else if ax != |lengths.value.sizes| - 1 then Err(AxisMismatch)
    else Ok(ax)
  }

  /** Every row of `count` lengths sums to `extent`. */
  predicate RowsSumTo(lengths: seq<int>, rows: nat, count: nat, extent: int)
    requires rows * count <= |lengths|
  {
    forall o: nat :: o < rows ==> RowSum(lengths, rows, count, o) == extent
  }

  /** Lines 317-322: unless unsafe, lengths must be non-empty (their minimum
      is taken), non-negative, and every row must sum to the data's extent
      along the axis. */
  function CheckLengthValues(lengths: Tensor<int>, axis: nat, extent: nat, unsafe: bool): (r: Result<()>)
    requires lengths.Valid() && axis + 1 == |lengths.sizes|
    ensures |lengths.values| == OuterSize(lengths.sizes, axis) * lengths.sizes[axis]
    ensures r.Ok? <==> unsafe || (&& |lengths.values| > 0 && NonNegative(lengths.values)
                                  && RowsSumTo(lengths.values, OuterSize(lengths.sizes, axis), lengths.sizes[axis], extent))
  {
    var rows := OuterSize(lengths.sizes, axis);
    var count := lengths.sizes[axis];
    ProductAroundAxis(lengths.sizes, axis, count);
    assert lengths.sizes[axis + 1..] == [];
    if unsafe then Ok(())
    else if |lengths.values| == 0 then Err(EmptyLengths)
    else if !NonNegative(lengths.values) then Err(NegativeLength)
    else if !RowsSumTo(lengths.values, rows, count, extent) then Err(LengthsSumMismatch)
    else Ok(())
  }

  /** The entry checks exactly as `segment_reduce_kernel` performs them. */
  function ValidateAsWritten(data: Tensor<V.Value>, lengths: Option<Tensor<int>>, indices: Option<Tensor<int>>,
                             axis: int, unsafe: bool): (r: Result<nat>)
    requires lengths.Some? ==> lengths.value.Valid()
    ensures var c := CheckArguments(data, lengths, indices, axis);
      r.Ok? <==> c.Ok? && CheckLengthValues(lengths.value, c.value, data.sizes[c.value], unsafe).Ok?
    ensures r.Ok? ==> lengths.Some? && r.value + 1 == |lengths.value.sizes| <= |data.sizes|
  {
    var ax :- CheckArguments(data, lengths, indices, axis);
    var _ :- CheckLengthValues(lengths.value, ax, data.sizes[ax], unsafe);
    Ok(ax)
  }

  /** The entry checks with the one that is missing: lengths must have the
      data's sizes before the axis, one row of lengths per outer row. It
      accepts exactly what the unamended checks accept with matching leading
      sizes, and reports the mismatch before any check on the length values. */
  function Validate(data: Tensor<V.Value>, lengths: Option<Tensor<int>>, indices: Option<Tensor<int>>,
                    axis: int, unsafe: bool): (r: Result<nat>)
    requires lengths.Some? ==> lengths.value.Valid()
    ensures r.Ok? ==> lengths.Some? && r.value + 1 == |lengths.value.sizes| <= |data.sizes|
    ensures r.Ok? ==> lengths.value.sizes[..r.value] == data.sizes[..r.value]
    ensures var w := ValidateAsWritten(data, lengths, indices, axis, unsafe);
      r.Ok? <==> w.Ok? && lengths.value.sizes[..w.value] == data.sizes[..w.value]
    ensures r.Ok? ==> ValidateAsWritten(data, lengths, indices, axis, unsafe) == r
  {
    var ax :- CheckArguments(data, lengths, indices, axis);
    if lengths.value.sizes[..ax] != data.sizes[..ax] then Err(LengthsShapeMismatch)
    else
      var _ :- CheckLengthValues(lengths.value, ax, data.sizes[ax], unsafe);
      Ok(ax)
  }

  /** `segment_reduce_kernel` as written: validate, pick the reduction, run
      the kernel. */
  function SegmentReduceAsWritten(data: Tensor<V.Value>, reduce: string, lengths: Option<Tensor<int>>,
                                  indices: Option<Tensor<int>>, axis: int, unsafe: bool,
                                  initial: Option<V.Value>): (r: Result<Tensor<V.Value>>)
    requires data.Valid() && (lengths.Some? ==> lengths.value.Valid())
    ensures ValidateAsWritten(data, lengths, indices, axis, unsafe).Err? ==>
      r == Err(ValidateAsWritten(data, lengths, indices, axis, unsafe).error)
    ensures r.Ok? ==> ValidateAsWritten(data, lengths, indices, axis, unsafe).Ok? && R.Parse(reduce).Ok?
  {
    var _ :- ValidateAsWritten(data, lengths, indices, axis, unsafe);
    var kind :- R.Parse(reduce);
    Launch(kind, data, lengths.value, initial)
  }

  /** `segment_reduce_kernel` with the leading sizes of lengths checked.
      Validation errors come first, then an unknown reduction name; in safe
      mode nothing can fail after that, and the output has the data's shape
      with the axis resized to the number of segments per row. */
  function SegmentReduce(data: Tensor<V.Value>, reduce: string, lengths: Option<Tensor<int>>,
                         indices: Option<Tensor<int>>, axis: int, unsafe: bool,
                         initial: Option<V.Value>): (r: Result<Tensor<V.Value>>)
    requires data.Valid() && (lengths.Some? ==> lengths.value.Valid())
    ensures Validate(data, lengths, indices, axis, unsafe).Err? ==>
      r == Err(Validate(data, lengths, indices, axis, unsafe).error)
    ensures Validate(data, lengths, indices, axis, unsafe).Ok? && R.Parse(reduce).Err? ==>
      r == Err(UnsupportedReduction(reduce))
    ensures r.Ok? ==> var ax := |lengths.value.sizes| - 1;
      && r.value.Valid()
      && r.value.sizes == data.sizes[ax := lengths.value.sizes[ax]]
    ensures !unsafe ==>
      (r.Ok? <==> Validate(data, lengths, indices, axis, unsafe).Ok? && R.Parse(reduce).Ok?)
  {
    var _ :- Validate(data, lengths, indices, axis, unsafe);
    var kind :- R.Parse(reduce);
    if unsafe then Launch(kind, data, lengths.value, initial)
    else
      SafeModeInBounds(data, lengths, indices, axis);
      Launch(kind, data, lengths.value, initial)
  }

  /** Row o of a lengths buffer tiles [0, extent): segments in order, each
      inside the axis, the last one ending at `extent`. */
  predicate RowTiles(lengths: seq<int>, count: nat, extent: nat, o: nat) {
    && o * count + count <= |lengths|
    && (forall k: nat :: k < count ==>
          && 0 <= SegmentStart(lengths, count, o, k)
          && SegmentStart(lengths, count, o, k) + lengths[o * count + k] <= extent)
    && SegmentStart(lengths, count, o, count) == extent
  }

  /** A non-negative row summing to `extent` tiles the axis, and its segments
      lie inside the data buffer. */
  lemma RowOfValidLengths(lengths: seq<int>, outer: nat, count: nat, extent: nat, o: nat)
    requires NonNegative(lengths) && outer * count <= |lengths| && o < outer
    requires RowSum(lengths, outer, count, o) == extent
    ensures RowTiles(lengths, count, extent, o)
    ensures forall k: nat :: k < count ==> SegmentInBuffer(lengths, outer, count, extent, o, k)
  {
    RowInBuffer(lengths, o, outer, count);
    var row := Row(lengths, o, count);
    assert NonNegative(row);
    assert Offset(row, count) == extent by {
      assert row[..count] == row;
    }
    BlockEnd(o, outer, extent);
    forall k: nat | k < count
      ensures 0 <= SegmentStart(lengths, count, o, k)
      ensures SegmentStart(lengths, count, o, k) + lengths[o * count + k] <= extent
      ensures SegmentInBuffer(lengths, outer, count, extent, o, k)
    {
      SegmentStartRow(lengths, count, o, k);
      SegmentWithin(row, k);
      assert row[k] == lengths[o * count + k];
    }
    SegmentStartRow(lengths, count, o, count);
  }

  /** What a successful safe-mode validation establishes about the buffers. */
  lemma ValidatedShapes(data: Tensor<V.Value>, lengths: Option<Tensor<int>>, indices: Option<Tensor<int>>, axis: int)
    requires data.Valid() && (lengths.Some? ==> lengths.value.Valid())
    requires Validate(data, lengths, indices, axis, false).Ok?
    ensures lengths.Some? && 1 <= |lengths.value.sizes| <= |data.sizes|
    ensures var L := lengths.value;
      var ax := |L.sizes| - 1;
      && |L.values| == OuterSize(data.sizes, ax) * L.sizes[ax]
      && |data.values| == OuterSize(data.sizes, ax) * data.sizes[ax] * InnerSize(data.sizes, ax)
      && NonNegative(L.values)
      && RowsSumTo(L.values, OuterSize(data.sizes, ax), L.sizes[ax], data.sizes[ax])
  {
    var L := lengths.value;
    var ax := |L.sizes| - 1;
    assert CheckLengthValues(L, ax, data.sizes[ax], false).Ok?;
    assert OuterSize(L.sizes, ax) == OuterSize(data.sizes, ax);
    ProductAroundAxis(data.sizes, ax, L.sizes[ax]);
  }

  /** Validated lengths in safe mode: every row of lengths tiles the axis of
      its outer row with in-order, non-overlapping segments, so every index
      the kernel computes is in bounds and no negative length is met. */
  lemma SafeModeInBounds(data: Tensor<V.Value>, lengths: Option<Tensor<int>>, indices: Option<Tensor<int>>, axis: int)
    requires data.Valid() && (lengths.Some? ==> lengths.value.Valid())
    requires Validate(data, lengths, indices, axis, false).Ok?
    ensures lengths.Some? && 1 <= |lengths.value.sizes| <= |data.sizes|
    ensures var L := lengths.value;
      var ax := |L.sizes| - 1;
      var outer := OuterSize(data.sizes, ax);
      && |L.values| == outer * L.sizes[ax]
      && NoNegativeBefore(L.values, outer * L.sizes[ax])
      && LaunchDefined(data, L)
      && AllSegmentsInBuffer(L.values, outer, L.sizes[ax], data.sizes[ax])
      && forall o: nat :: o < outer ==> RowTiles(L.values, L.sizes[ax], data.sizes[ax], o)
  {
    ValidatedShapes(data, lengths, indices, axis);
    var L := lengths.value;
    var ax := |L.sizes| - 1;
    var outer := OuterSize(data.sizes, ax);
    var count := L.sizes[ax];
    var extent := data.sizes[ax];
    forall o: nat | o < outer
      ensures RowTiles(L.values, count, extent, o)
    {
      RowOfValidLengths(L.values, outer, count, extent, o);
    }
    forall o: nat, k: nat | o < outer && k < count
      ensures SegmentInBuffer(L.values, outer, count, extent, o, k)
    {
      RowOfValidLengths(L.values, outer, count, extent, o);
    }
    assert AllSegmentsInBuffer(L.values, outer, count, extent);
    assert ForwardInputs(data.values, L.values, outer, count, extent, InnerSize(data.sizes, ax));
  }

  /** The unamended checks accept lengths with fewer rows than the data has
      outer rows: data of sizes [2, 2], lengths [[2]] along axis 1 pass every
      check in safe mode, yet the kernel would read a length for the second
      row past the end of the lengths buffer. The amended checks reject it. */
  lemma LeadingSizesUnchecked()
    ensures var data := Tensor([2, 2], [V.Num(1.0), V.Num(2.0), V.Num(3.0), V.Num(4.0)]);
      var lengths := Some(Tensor([1, 1], [2]));
      && ValidateAsWritten(data, lengths, None, 1, false) == Ok(1)
      && SegmentReduceAsWritten(data, "sum", lengths, None, 1, false, None) == Err(OutOfBoundsAccess)
      && SegmentReduce(data, "sum", lengths, None, 1, false, None) == Err(LengthsShapeMismatch)
  {
    var data := Tensor([2, 2], [V.Num(1.0), V.Num(2.0), V.Num(3.0), V.Num(4.0)]);
    var L := Tensor([1, 1], [2]);
    assert Product([2, 2]) == 4 by {
      assert [2, 2][..1] == [2] && [2][..0] == [];
    }
    assert Product([1, 1]) == 1 by {
      assert [1, 1][..1] == [1] && [1][..0] == [];
    }
    assert OuterSize(L.sizes, 1) == 1 by {
      assert L.sizes[..1] == [1] && [1][..0] == [];
    }
    assert OuterSize(data.sizes, 1) == 2 by {
      assert data.sizes[..1] == [2] && [2][..0] == [];
    }
    assert RowSum(L.values, 1, 1, 0) == 2 by {
      assert Row(L.values, 0, 1) == [2];
      assert [2][..0] == [];
    }
    assert RowsSumTo(L.values, 1, 1, 2);
    assert !LaunchDefined(data, L) by {
      assert NoNegativeBefore(L.values, 1) && 1 < OuterSize(data.sizes, 1) * L.sizes[1];
    }
    assert L.sizes[..1] != data.sizes[..1];
  }

  /** A negative length stops the kernel before it reads past a short lengths
      buffer: in unsafe mode, data of sizes [2, 2] with lengths [[-1]] along
      axis 1 fails the length check of the first segment, and the entry for
      the second outer row, which does not exist, is never read. */
  lemma NegativeLengthBeforeMissingRow()
    ensures var data := Tensor([2, 2], [V.Num(1.0), V.Num(2.0), V.Num(3.0), V.Num(4.0)]);
      var lengths := Some(Tensor([1, 1], [-1]));
      && ValidateAsWritten(data, lengths, None, 1, true) == Ok(1)
      && SegmentReduceAsWritten(data, "sum", lengths, None, 1, true, None) == Err(NegativeLength)
  {
    var data := Tensor([2, 2], [V.Num(1.0), V.Num(2.0), V.Num(3.0), V.Num(4.0)]);
    var L := Tensor([1, 1], [-1]);
    assert Product([2, 2]) == 4 by {
      assert [2, 2][..1] == [2] && [2][..0] == [];
    }
    assert Product([1, 1]) == 1 by {
      assert [1, 1][..1] == [1] && [1][..0] == [];
    }
    assert OuterSize(data.sizes, 1) == 2 by {
      assert data.sizes[..1] == [2] && [2][..0] == [];
    }
    assert InnerSize(data.sizes, 1) == 1 by {
      assert data.sizes[2..] == [];
    }
    assert !NoNegativeBefore(L.values, 1) by {
      assert L.values[0] < 0;
    }
    assert LaunchDefined(data, L);
  }
}
