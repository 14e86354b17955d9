/** Contiguous tensors and the index arithmetic the kernels perform on them.
    Relative to a reduction axis, a contiguous buffer of sizes `s` is an
    (outer, axis, inner) block: `outer` is the product of the sizes before the
    axis, `inner` the product of those after it, and the element at
    (o, a, i) sits at flat position `(o * s[axis] + a) * inner + i`. */
module Layout {
  import opened Results

  /** A contiguous tensor: its sizes and its elements in row-major order. */
  datatype Tensor<T> = Tensor(sizes: seq<nat>, values: seq<T>) {
    predicate Valid() {
      |values| == Product(sizes)
    }
  }

  /** Number of elements of a tensor with the given sizes (`numel`). */
  function Product(s: seq<nat>): nat
    decreases |s|
  {
    if |s| == 0 then 1 else Product(s[..|s| - 1]) * s[|s| - 1]
  }

  lemma {:induction false} ProductAppend(xs: seq<nat>, ys: seq<nat>)
    ensures Product(xs + ys) == Product(xs) * Product(ys)
    decreases |ys|
  {
    if |ys| == 0 {
      assert xs + ys == xs;
    } else {
      var zs := xs + ys;
      assert zs[..|zs| - 1] == xs + ys[..|ys| - 1];
      ProductAppend(xs, ys[..|ys| - 1]);
      assert Product(xs) * Product(ys[..|ys| - 1]) * ys[|ys| - 1]
          == Product(xs) * (Product(ys[..|ys| - 1]) * ys[|ys| - 1]);
    }
  }

  /** Product of a size list, computed the way the kernels do. */
  method SizeProduct(sizes: seq<nat>) returns (n: nat)
    ensures n == Product(sizes)
  {
    n := 1;
    var d := 0;
    while d < |sizes|
      invariant 0 <= d <= |sizes|
      invariant n == Product(sizes[..d])
    {
      assert sizes[..d + 1][..d] == sizes[..d];
      n := n * sizes[d];
      d := d + 1;
    }
    assert sizes[..d] == sizes;
  }

  /** Product of the sizes before the axis. */
  function OuterSize(sizes: seq<nat>, axis: nat): nat
    requires axis < |sizes|
  {
    Product(sizes[..axis])
  }

  /** Product of the sizes after the axis; also the stride of the axis in a
      contiguous tensor. */
  function InnerSize(sizes: seq<nat>, axis: nat): nat
    requires axis < |sizes|
  {
    Product(sizes[axis + 1..])
  }

  /** A tensor whose axis size is replaced by `n` has `outer * n * inner`
      elements; with `n == sizes[axis]` this is the tensor itself. */
  lemma ProductAroundAxis(sizes: seq<nat>, axis: nat, n: nat)
    requires axis < |sizes|
    ensures Product(sizes[axis := n]) == OuterSize(sizes, axis) * n * InnerSize(sizes, axis)
    ensures Product(sizes) == OuterSize(sizes, axis) * sizes[axis] * InnerSize(sizes, axis)
  {
    forall m: nat
      ensures Product(sizes[axis := m]) == OuterSize(sizes, axis) * m * InnerSize(sizes, axis)
    {
      var t := sizes[axis := m];
      assert t == sizes[..axis] + [m] + sizes[axis + 1..];
      ProductAppend(sizes[..axis] + [m], sizes[axis + 1..]);
      ProductAppend(sizes[..axis], [m]);
      assert Product([m]) == Product([m][..0]) * m;
    }
    assert sizes[axis := sizes[axis]] == sizes;
  }

  /** `maybe_wrap_dim(dim, ndim)`: a dimension in [-ndim, ndim) is wrapped
      into [0, ndim), a scalar being treated as one-dimensional; anything else
      is out of range. */
  function WrapDim(dim: int, ndim: nat): (r: Result<nat>)
    ensures var n := if ndim == 0 then 1 else ndim;
      && (r.Ok? <==> -n <= dim < n)
      && (r.Ok? ==> r.value < n && (r.value == dim || r.value == dim + n))
      && (r.Err? ==> r.error == DimOutOfRange)
  {
    var n := if ndim == 0 then 1 else ndim;
    if dim < -n || dim >= n then Err(DimOutOfRange)
    else if dim < 0 then Ok(dim + n)
    else Ok(dim)
  }

  /** Flat position of element (o, a, i) of an (outer, n, inner) block. */
  function Flat(o: int, a: int, i: int, n: int, inner: int): int {
    (o * n + a) * inner + i
  }

  /** The kernels spell the flat position with strides,
      `o * stride * size + a * stride + i`; in a contiguous tensor the stride
      of the axis is `inner`. */
  lemma StridedIndex(o: int, a: int, i: int, n: int, inner: int)
    ensures o * inner * n + a * inner + i == Flat(o, a, i, n, inner)
  {
    assert (o * n + a) * inner == o * n * inner + a * inner;
    assert o * inner * n == o * n * inner;
  }

  /** The inverse of `Flat`: the (outer, axis, inner) coordinates of a flat
      position. */
  function Unflatten(p: int, n: int, inner: int): (int, int, int)
    requires n > 0 && inner > 0
  {
    ((p / inner) / n, (p / inner) % n, p % inner)
  }

  lemma DivModUnique(x: int, d: int, q: int, r: int)
    requires 0 < d && 0 <= r < d && x == q * d + r
    ensures x / d == q && x % d == r
  {
    var q', r' := x / d, x % d;
    assert x == q' * d + r';
    assert (q - q') * d == r' - r;
    assert q - q' >= 1 ==> (q - q') * d >= d;
    assert q - q' <= -1 ==> (q - q') * d <= -d;
  }

  /** An index `x < m` into rows of length `inner` stays below `m * inner`. */
  lemma RowMajorBound(x: int, i: int, m: int, inner: int)
    requires 0 <= x < m && 0 <= i < inner
    ensures 0 <= x * inner + i < m * inner
  {
    assert x * inner <= (m - 1) * inner;
  }

  /** Block o of `outer` blocks of n ends inside the whole. */
  lemma BlockEnd(o: int, outer: int, n: nat)
    requires 0 <= o < outer
    ensures 0 <= o * n && o * n + n <= outer * n
  {
    var rest := outer - (o + 1);
    assert outer * n == o * n + n + rest * n;
    assert rest * n >= 0;
  }

  lemma FlatBounds(o: int, a: int, i: int, outer: nat, n: nat, inner: nat)
    requires 0 <= o * n + a < outer * n && 0 <= i < inner
    ensures 0 <= Flat(o, a, i, n, inner) < outer * n * inner
  {
    RowMajorBound(o * n + a, i, outer * n, inner);
  }

  /** Coordinates in range have a flat position inside the block. */
  lemma CellInBlock(o: int, a: int, i: int, outer: nat, n: nat, inner: nat)
    requires 0 <= o < outer && 0 <= a < n && 0 <= i < inner
    ensures 0 <= o * n + a < outer * n
    ensures 0 <= Flat(o, a, i, n, inner) < outer * n * inner
  {
    RowMajorBound(o, a, outer, n);
    FlatBounds(o, a, i, outer, n, inner);
  }

  /** Coordinates in range survive a round trip through the flat position. */
  lemma UnflattenFlat(o: int, a: int, i: int, n: int, inner: int)
    requires 0 <= a < n && 0 <= i < inner
    ensures Unflatten(Flat(o, a, i, n, inner), n, inner) == (o, a, i)
  {
    DivModUnique(Flat(o, a, i, n, inner), inner, o * n + a, i);
    DivModUnique(o * n + a, n, o, a);
  }

  /** Quotient and remainder by a positive divisor recompose the dividend. */
  lemma DivMod(x: int, d: int)
    requires 0 < d
    ensures x == (x / d) * d + x % d && 0 <= x % d < d
  {
  }

  /** A non-negative `x` below `m * d` has its quotient by d below m. */
  lemma DivBound(x: int, d: int, m: int)
    requires 0 < d && 0 <= x < m * d
    ensures 0 <= x / d < m
  {
    DivMod(x, d);
    MulCancel(-1, x / d, d);
    MulCancel(x / d, m, d);
  }

  /** A positive factor cancels from a strict inequality. */
  lemma MulCancel(a: int, b: int, d: int)
    requires 0 < d && a * d < b * d
    ensures a < b
  {
  }

  /** Every flat position of an (outer, n, inner) block has coordinates in
      range, and they lead back to it. */
  lemma FlatUnflatten(p: int, outer: nat, n: nat, inner: nat)
    requires n > 0 && inner > 0 && 0 <= p < outer * n * inner
    ensures var (o, a, i) := Unflatten(p, n, inner);
      && 0 <= o < outer && 0 <= a < n && 0 <= i < inner
      && Flat(o, a, i, n, inner) == p
  {
    var q := p / inner;
    DivBound(p, inner, outer * n);
    DivMod(p, inner);
    DivBound(q, n, outer);
    DivMod(q, n);
  }

  /** Distinct coordinates in range have distinct flat positions. */
  lemma FlatInjective(o: int, a: int, i: int, o': int, a': int, i': int, n: int, inner: int)
    requires 0 <= a < n && 0 <= i < inner && 0 <= a' < n && 0 <= i' < inner
    ensures Flat(o, a, i, n, inner) == Flat(o', a', i', n, inner) ==> o == o' && a == a' && i == i'
  {
    UnflattenFlat(o, a, i, n, inner);
    UnflattenFlat(o', a', i', n, inner);
  }
}
