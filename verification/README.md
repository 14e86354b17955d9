# Segment reduction (PyTorch `SegmentReduce.cpp`) in Dafny

This project models the CPU segment reduction of PyTorch's ATen library,
`aten/src/ATen/native/SegmentReduce.cpp`, and proves properties of the model.

A segment reduction splits one axis of a `data` tensor into consecutive
segments whose lengths are given, row by row, by a `lengths` tensor. It then
reduces every segment to one output value with one of five reductions: `max`,
`mean`, `min`, `sum` or `prod`. The backward pass turns the gradient of the
output into a gradient with respect to the data.

The model covers:

- the reduction-name parser (`get_reduction_enum`);
- the argument checks of the forward entry point (`segment_reduce_kernel`);
- the forward kernel (`_segment_reduce_cpu_kernel` and
  `_segment_reduce_cpu_kernel1`);
- the checks of the backward entry point (`_segment_reduce_backward_kernel`);
- the backward kernel (`_segment_reduce_cpu_backward_kernel` and
  `_segment_reduce_cpu_backward_kernel1`).

Tensors are contiguous: a tensor is a list of sizes plus its elements in
row-major order. Relative to the reduction axis, the data is an
`(outer, extent, inner)` block. The output and the incoming gradient are
`(outer, count, inner)` blocks, where `count` is the number of segments per
outer row.

Element values are `Num(real)`, `PosInf`, `NegInf` or `NaN`. The model keeps
the IEEE rules that the kernels branch on:

- NaN compares false with everything;
- NaN is absorbing in max and min;
- infinity arithmetic.

It does not model rounding.

Modules, one per file:

| file | module | contents |
|---|---|---|
| `results.dfy` | `Results` | `Option`, a failure-compatible `Result`, and `Error`. `Error` has one case per check the code performs, plus two the code does not have: `LengthsShapeMismatch` for the added leading-size check (see Findings) and `OutOfBoundsAccess` for accesses that are undefined behaviour in C++. |
| `values.dfy` | `Values` | The element type and its operations. |
| `reduction.dfy` | `Reduction` | The five kinds, name parsing, and the three steps the forward kernel applies to a segment: start value, merge, finalise. |
| `layout.dfy` | `Layout` | Sizes and products, `maybe_wrap_dim`, and the flat index `(o * n + a) * inner + i` with its inverse. |
| `segments.dfy` | `Segments` | Segment offsets as prefix sums of a row of lengths (the kernels' `lengths_cum_sum`), and locating the segment of an axis position. |
| `forward.dfy` | `Forward` | The forward kernel as nested loops, proved equal to a closed-form output, plus the entry checks. |
| `gradients.dfy` | `Gradients` | The gradient one segment column receives, per kind, as a closed form and as the kernel's passes. |
| `backward.dfy` | `Backward` | The backward kernel as nested loops over a zero-filled buffer, proved equal to a closed-form gradient, plus the backward entry checks and the link to the forward pass. |

How the kernels are proved:

- The forward kernel is refined through a "filled prefix" invariant. Output cells are written in flat order, and every cell before the current one already holds the reduction of its segment.
- The backward kernel is refined through a "progress" invariant. Every data position the walk has passed holds its final gradient, and every other position still holds zero. So the kernel writes only positions inside the current segment, and positions that no segment covers keep their zero.

## Model

| member | source | states |
|---|---|---|
| Reduction.Parse | aten/src/ATen/native/SegmentReduce.cpp:16-30 | Succeeds exactly on "max", "mean", "min", "sum" and "prod". Each name selects the kind whose name it is. Any other string fails with an unsupported-reduction error that carries the string. |
| Reduction.StartIsIdentity | aten/src/ATen/native/SegmentReduce.cpp:58-93 | Without an initial value the starting value (-inf for max, 0 for sum and mean, +inf for min, 1 for prod) leaves every element unchanged when merged into it, NaN and the infinities included. |
| Reduction.SingletonSegment | aten/src/ATen/native/SegmentReduce.cpp:58-106 | A one-element segment without an initial value reduces to its element, for every kind; a mean divides by one. |
| Reduction.EmptyMean | aten/src/ATen/native/SegmentReduce.cpp:99-106 | An empty mean segment gives NaN without an initial value. With one it gives the initial value undivided. |
| Reduction.MaxMinNaN | aten/src/ATen/native/SegmentReduce.cpp:79-90 | For max and min, the fold is NaN exactly when the starting value or some element is NaN. |
| Reduction.MaxMinIsExtremum | aten/src/ATen/native/SegmentReduce.cpp:79-90 | Without NaN, a max fold is no less than the start and every element, a min fold is no greater, and the result is one of them. |
| Reduction.SumFoldFinite | aten/src/ATen/native/SegmentReduce.cpp:83-86 | On finite elements a sum or mean fold is the start plus the real sum of the elements. |
| Reduction.SumMeanOfFinite | aten/src/ATen/native/SegmentReduce.cpp:58-106 | With a finite or absent initial value c and finite elements, sum gives c plus the elements. A non-empty mean gives that total divided by the segment length. |
| Reduction.ProdFoldFinite | aten/src/ATen/native/SegmentReduce.cpp:91-92 | On finite elements a prod fold multiplies the start by the real product of the elements. |
| Layout.WrapDim | aten/src/ATen/native/SegmentReduce.cpp:305 | A dimension is accepted exactly when it lies in [-n, n), where n is the rank (a scalar counts as rank 1). It is then mapped to itself or to itself plus n, inside [0, n). Otherwise the error is dimension-out-of-range. |
| Layout.SizeProduct | aten/src/ATen/native/SegmentReduce.cpp:44-48 | The kernels' size loop returns the number of elements of the given sizes. |
| Layout.ProductAroundAxis | aten/src/ATen/native/SegmentReduce.cpp:130-132 | Resizing the axis to n gives outer * n * inner elements, so the output has outer * count * inner cells. |
| Layout.StridedIndex | aten/src/ATen/native/SegmentReduce.cpp:76-77 | The kernels' strided index o * stride * size + a * stride + i is the flat position of element (o, a, i) when the stride of the axis is the inner size. |
| Layout.FlatInjective | aten/src/ATen/native/SegmentReduce.cpp:107-109 | Distinct in-range coordinates have distinct flat positions, so no two output cells share a position. |
| Layout.FlatUnflatten | aten/src/ATen/native/SegmentReduce.cpp:53-57 | Every position of an (outer, n, inner) block has in-range coordinates that lead back to it, so the outer × segment × inner walk reaches every position. |
| Segments.SegmentsTile | aten/src/ATen/native/SegmentReduce.cpp:54-56 | With non-negative lengths, segment k starts at the sum of the lengths before it. The segments lie in order without overlap inside [0, row sum), and the last one ends at the row sum. |
| Segments.SegmentWithin | aten/src/ATen/native/SegmentReduce.cpp:111 | With non-negative lengths each segment lies between 0 and the end of the last segment. |
| Segments.LocateInSegment | aten/src/ATen/native/SegmentReduce.cpp:75-77 | An axis position inside segment k belongs to segment k and to no other. |
| Segments.LocateCovers | aten/src/ATen/native/SegmentReduce.cpp:75-77 | Every axis position before the row sum lies in some non-empty segment. |
| Segments.LocatePastEnd | aten/src/ATen/native/SegmentReduce.cpp:111 | Positions at or past the row sum belong to no segment. |
| Forward.ReduceSegment | aten/src/ATen/native/SegmentReduce.cpp:58-106 | One output cell: a negative length fails, after merging nothing. Otherwise the result is the kind's start value folded over the segment's elements in axis order, then finalised. |
| Forward.ForwardSegment | aten/src/ATen/native/SegmentReduce.cpp:56-109 | The inner-index loop of one segment. It fails exactly when inner > 0 and the segment length is negative. Otherwise it extends the filled output prefix by the segment's inner cells, each holding the reduction of that segment column. |
| Forward.ForwardRow | aten/src/ATen/native/SegmentReduce.cpp:54-112 | One outer row, with the running offset equal to the sum of the previous lengths. It fails exactly when a negative length is reached. Otherwise it extends the filled output prefix by the row's cells. |
| Forward.ForwardKernel1 | aten/src/ATen/native/SegmentReduce.cpp:32-115 | Fails exactly when a negative length is reached (never when inner is 0). Otherwise every segment lies in the data buffer and the output equals the closed-form block of segment reductions. |
| Forward.NegativeLengthBeforeMissingRow | aten/src/ATen/native/SegmentReduce.cpp:54-97 | In unsafe mode, data [2, 2] with lengths [[-1]] passes the entry checks and fails the segment-length check of the first segment. The missing length of the second outer row is never read, so the call fails with a negative length and not an out-of-bounds access. |
| Forward.ForwardSpecAt | aten/src/ATen/native/SegmentReduce.cpp:107-109 | Output cell (o, k, i) sits at (o * count + k) * inner + i and holds the reduction of segment k of row o at inner index i. |
| Forward.Launch | aten/src/ATen/native/SegmentReduce.cpp:117-141 | The output has the data's sizes with the axis (the last dimension of lengths) resized to the segment count. Its elements match those sizes. |
| Forward.ForwardKernel | aten/src/ATen/native/SegmentReduce.cpp:117-141 | The allocation plus the kernel's size loops compute the launch result. |
| Forward.CheckArguments | aten/src/ATen/native/SegmentReduce.cpp:305-315 | Accepts exactly when all of these hold: the axis wraps; the data is non-empty; lengths is given and indices is not; lengths has no more dimensions than data; the wrapped axis is the last dimension of lengths. It then returns the wrapped axis. |
| Forward.CheckLengthValues | aten/src/ATen/native/SegmentReduce.cpp:317-322 | In unsafe mode it always passes. Otherwise it passes exactly when lengths is non-empty, has no negative entry, and every row sums to the data's size along the axis. |
| Forward.ValidateAsWritten | aten/src/ATen/native/SegmentReduce.cpp:305-322 | The entry checks as the code performs them: the argument checks followed by the length-value checks. |
| Forward.Validate | aten/src/ATen/native/SegmentReduce.cpp:305-322 | The entry checks plus a check that lengths has the data's sizes before the axis. It accepts exactly what the unamended checks accept with matching leading sizes, and agrees with them whenever it accepts. |
| Forward.SegmentReduceAsWritten | aten/src/ATen/native/SegmentReduce.cpp:297-335 | A failed check is reported before anything else. Success needs every check and the reduction name to pass. |
| Forward.SegmentReduce | aten/src/ATen/native/SegmentReduce.cpp:297-335 | Errors come in order: validation, then the reduction name. A result has the data's sizes with the axis resized to the segment count. In safe mode the call succeeds exactly when validation and name parsing do. |
| Forward.RowOfValidLengths | aten/src/ATen/native/SegmentReduce.cpp:317-322 | A non-negative row summing to the axis size tiles the axis and keeps every segment inside the data buffer. |
| Forward.ValidatedShapes | aten/src/ATen/native/SegmentReduce.cpp:309-322 | After the amended safe-mode validation (`Forward.Validate`), lengths holds outer * count non-negative values and every row sums to the axis size. The checks as written do not give this: see Findings. |
| Forward.SafeModeInBounds | aten/src/ATen/native/SegmentReduce.cpp:317-322 | After the amended safe-mode validation (`Forward.Validate`), every row of lengths tiles the axis, every index the kernel computes is in bounds, and no negative length is met. The checks as written do not give this: see Findings. |
| Forward.LeadingSizesUnchecked | aten/src/ATen/native/SegmentReduce.cpp:309-322 | Data of sizes [2, 2] with lengths [[2]] on axis 1 passes every check in safe mode. The kernel would then read a length out of bounds. The amended checks reject the input. |
| Gradients.TieColumn | aten/src/ATen/native/SegmentReduce.cpp:194-218 | The max/min passes mark and count the NaN or output-equal elements, then divide the positive entries by the count when there are two or more. The column equals the closed-form tie gradient. |
| Gradients.ExclusiveProduct | aten/src/ATen/native/SegmentReduce.cpp:240-249 | The explicit loop gives the initial product times every element but the j-th, in order. |
| Gradients.ProdColumn | aten/src/ATen/native/SegmentReduce.cpp:233-254 | A zero or NaN element gets g times its exclusive product. Any other element gets g * y / x. |
| Gradients.SegmentColumn | aten/src/ATen/native/SegmentReduce.cpp:191-255 | One column of the backward kernel equals the per-kind closed-form gradient of the segment. |
| Gradients.SumGradTotal | aten/src/ATen/native/SegmentReduce.cpp:226-232 | Sum: every element receives g, so the segment's gradients add up to length * g. |
| Gradients.MeanGradTotal | aten/src/ATen/native/SegmentReduce.cpp:219-225 | Mean: every element receives the same finite share, and the shares add up to g. |
| Gradients.TieGradUnique | aten/src/ATen/native/SegmentReduce.cpp:196-210 | With a single marked element, that element receives g and every other element zero. |
| Gradients.TieGradIsSpread | aten/src/ATen/native/SegmentReduce.cpp:206-217 | With a positive g, every marked element receives g / count and every unmarked one zero. |
| Gradients.TieGradShared | aten/src/ATen/native/SegmentReduce.cpp:206-217 | With a positive g, the gradients of a segment with a marked element add up to exactly g. |
| Gradients.TieGradNotPositive | aten/src/ATen/native/SegmentReduce.cpp:214-217 | A gradient that is not positive is never divided: every marked element receives it whole, however many ties there are. |
| Gradients.TieGradAgrees | aten/src/ATen/native/SegmentReduce.cpp:208-217 | The code's rule and the averaging rule of the comment agree whenever g is positive or there are fewer than two ties. |
| Gradients.SharedTieGradTotal | aten/src/ATen/native/SegmentReduce.cpp:206-208 | Under the averaging rule the marked elements together receive exactly g, for every finite g. |
| Gradients.NegativeTiesNotShared | aten/src/ATen/native/SegmentReduce.cpp:214-217 | Two tied maxima with g = -1 each receive -1, passing back -2. The averaging rule gives each -0.5. |
| Gradients.ForwardExtremumIsMarked | aten/src/ATen/native/SegmentReduce.cpp:200-204 | The output of a max or min forward pass on a non-empty segment, without an initial value, marks at least one element, so the output gradient reaches some element. |
| Gradients.ProdCheapPath | aten/src/ATen/native/SegmentReduce.cpp:234-252 | On finite elements with y the forward product, g * y / x equals g times the exclusive product for every non-zero x. So the explicit path is needed only for zero and NaN. |
| Backward.GradAtSegment | aten/src/ATen/native/SegmentReduce.cpp:197-199 | Element j of segment k of row o at inner index i sits at (o * extent + start + j) * inner + i. It gets entry j of the segment's column gradient. |
| Backward.BackwardSpecInSegment | aten/src/ATen/native/SegmentReduce.cpp:191-254 | Every position covered by a non-empty segment holds that segment's column gradient in the returned buffer. |
| Backward.BackwardSpecPastSegments | aten/src/ATen/native/SegmentReduce.cpp:274 | Positions past the end of their row's last segment keep the zero the buffer was allocated with. |
| Backward.StoreColumn | aten/src/ATen/native/SegmentReduce.cpp:194-254 | Storing a column writes exactly its own positions, in order, and leaves every other position unchanged. |
| Backward.SegmentPass | aten/src/ATen/native/SegmentReduce.cpp:191-256 | A non-empty segment's pass over every inner index moves the written region from the segment's start to its end. |
| Backward.SegmentStep | aten/src/ATen/native/SegmentReduce.cpp:186-190 | A zero-length segment is skipped without a write. In every case the running offset advances to the next segment's start. |
| Backward.BackwardRow | aten/src/ATen/native/SegmentReduce.cpp:184-258 | One outer row from offset zero: afterwards every position of the row holds its final gradient and later rows are untouched. |
| Backward.BackwardKernel1 | aten/src/ATen/native/SegmentReduce.cpp:143-261 | Starting from zeros, the kernel produces exactly the closed-form gradient buffer, including when extent or inner is 0. |
| Backward.BackwardKernel | aten/src/ATen/native/SegmentReduce.cpp:263-293 | The gradient has the data's sizes and is the closed-form gradient for the buffers, with the initial product from lines 175-182. |
| Backward.SegmentReduceBackward | aten/src/ATen/native/SegmentReduce.cpp:348-377 | Errors come in order: axis out of range, then missing lengths, then an unknown name. It succeeds exactly when all three checks pass, with a result shaped like the data. |
| Backward.ForwardEstablishesBackward | aten/src/ATen/native/SegmentReduce.cpp:317-322 | After a successful call of the amended forward (`Forward.SegmentReduce`) in safe mode, the same data and lengths, the forward output and an output-shaped gradient meet every assumption of the backward kernel. The backward call then succeeds. |
| Backward.ColumnOfForward | aten/src/ATen/native/SegmentReduce.cpp:192-201 | When the output is the forward result, a segment column's output cell holds the reduction of exactly the elements that receive the column's gradient. |
| Backward.TieGradientConserved | aten/src/ATen/native/SegmentReduce.cpp:194-218 | After a max or min forward pass without an initial value, a positive incoming gradient is finite in every entry of a non-empty column and adds up to itself. |
| Backward.ProdGradientIsExclusive | aten/src/ATen/native/SegmentReduce.cpp:233-254 | After a prod forward pass on finite values, every element's gradient is g times the product of the other elements, whichever path the kernel takes. |

## Left out

- Dtype and index-type dispatch, the dispatch registrations, `.contiguous()` copies and the device-equality check (line 313) are not modelled. Tensors are contiguous sequences and there is one device.
- The contiguity checks of lines 124-125 always pass on contiguous tensors, so they are not modelled.
- The stride of the last dimension of contiguous lengths is 1, so lengths are read at `o * count + k`.
- Floating point: rounding, signed zero, and the half and bfloat16 formats are not modelled.
- Division by an exact zero is excluded. Every division the kernels perform has a divisor that cannot be zero on the paths modelled.
- Integers are unbounded. `int64_t` overflow of the index arithmetic is not modelled.
- The `indices` path is only rejected, as the code does.
- The body of `maybe_wrap_dim` lives in c10, outside `SegmentReduce.cpp`. `Layout.WrapDim` restates its documented rule: a dimension in [-n, n) is wrapped, and a scalar counts as rank 1.
- Accesses outside a buffer are undefined behaviour in C++. The forward model reports them as `OutOfBoundsAccess` instead of giving them a meaning. This covers a lengths entry that the kernel reaches but that does not exist, and a reached segment that runs past the data buffer. A negative length reached before either fails with the negative-length error, as the code does.
- Backward.SegmentReduceBackward covers only inputs with the shape relation that a successful call of the amended safe-mode forward (`Forward.SegmentReduce` with its checks `Forward.Validate`) produces. `Backward.ForwardEstablishesBackward` proves that such a call provides all of it. The source checks none of it. Through `Backward.BackwardShapes` and `Buffers.Valid` the model requires each of the following; the inputs it leaves out are named with each:
  - each tensor's element count matches its sizes. This is how the model represents a contiguous tensor, not a restriction.
  - lengths has rank at least 1 and no more than the ranks of output and data. With other ranks the kernel's `size(d)` and `stride(axis)` calls fall outside the tensors' dimensions, and the model does not describe the resulting error.
  - the data's stride along the axis equals the output's inner size, and the output's size along the axis equals the segment count. The kernel indexes the data with the data's own stride and the output with the output's own size (lines 198-199 and 192-193). For other shapes those indices are not the flat positions the model uses.
  - the data has exactly the output's outer size: `|data| == outer * extent * inner`, with outer and inner taken from the output. The C++ also runs in bounds when the data has more outer rows, for example data [3, 2] with output and grad [2, 1] and lengths [[2], [2]]. It then leaves the extra gradient positions zero. Those inputs are not covered.
  - grad has exactly the output's number of elements. The C++ reads grad only at output positions, so a longer grad, for example of sizes [4] with output [2, 1], runs in bounds. It is not covered.
  - lengths holds at least `outer * count` entries. The backward kernel reads every one of them, so fewer would be read out of bounds.
  - every row of lengths is non-negative and sums to at most the data's size along the axis (`Backward.RowFits`). An unsafe-mode forward call can succeed without this, for example data [2, 2] with lengths [[3], [1]]. A row that overruns the axis writes into the next outer row. A negative length is skipped but moves `lengths_cum_sum` back, so later segments overlap earlier ones. Once segments overlap, a position keeps the gradient of the last segment that writes it, and the max/min second pass divides values another segment wrote. The model's gradient assigns each position to at most one segment, so it does not describe these inputs.
- Backward.BackwardKernel has every requirement of the list above, for the same reasons.
- Backward.TieGradientConserved covers only a positive finite incoming gradient. For gradients that are not positive the code does not share, as `Gradients.NegativeTiesNotShared` shows.
- Gradients.TieGradShared covers only a positive finite gradient, for the same reason.
- Backward.ProdGradientIsExclusive covers only finite elements, a finite incoming gradient and a finite or absent initial value. With infinities the two prod paths differ in IEEE arithmetic.
- Gradients.ProdCheapPath has the same restrictions.
- Backward max/min tie averaging: the comment at lines 206-207 says the gradient is averaged over the tied elements. The code divides only entries greater than zero, so a negative gradient shared by two or more ties is not divided. The kernel model follows the code (`Gradients.TieGrad`). The averaging rule is given alongside as `Gradients.SharedTieGrad`, with `Gradients.TieGradAgrees` and `Gradients.NegativeTiesNotShared` marking where the two differ.

## Findings

| source | as written | input that shows it | evidently intended | confidence | as-written member | corrected member |
|---|---|---|---|---|---|---|
| aten/src/ATen/native/SegmentReduce.cpp:309-322 | The entry checks compare only the rank of lengths and its row sums. They never check that lengths has one row per outer row of the data. | data of sizes [2, 2], lengths [[2]], axis 1, safe mode: every check passes, and the kernel reads a length for the second outer row past the end of lengths. | lengths.sizes[..axis] == data.sizes[..axis], so that every outer row has its row of lengths | not executed; medium (the kernel indexes lengths by the data's outer index) | Forward.LeadingSizesUnchecked | Forward.SegmentReduce |
