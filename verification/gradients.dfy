/** The gradient the backward kernel gives the elements of one segment at one
    inner index (aten/src/ATen/native/SegmentReduce.cpp, the per-kind branches
    of `_segment_reduce_cpu_backward_kernel1`). A segment is seen here as the
    column of its elements `xs`, in axis order, together with the forward
    output `y` of that segment and the incoming gradient `g` of that output.

    Each kind has a closed form (`SegmentGrad`) and a method that computes the
    column the way the kernel does (`SegmentColumn`); the kernel's passes over
    one column read and write only that column's positions of the gradient
    buffer, which hold zero beforehand. */
module Gradients {
  import opened Results
  import R = Reduction
  import V = Values

  /** Max/min backward marks the elements that are NaN or equal the output. */
  predicate Marked(x: V.Value, y: V.Value) {
    V.IsNaN(x) || V.Equal(x, y)
  }

  /** `counter`: the number of marked elements. */
  function MarkCount(xs: seq<V.Value>, y: V.Value): nat
    decreases |xs|
  {
    if |xs| == 0 then 0
    else MarkCount(xs[..|xs| - 1], y) + (if Marked(xs[|xs| - 1], y) then 1 else 0)
  }

  /** Max/min: a marked element gets `g`, shared among the marked elements
      when there are at least two of them and `g` is positive; an unmarked
      element gets nothing. */
  function TieGrad(xs: seq<V.Value>, y: V.Value, g: V.Value): (r: seq<V.Value>)
    ensures |r| == |xs|
  {
    var c := MarkCount(xs, y);
    seq(|xs|, j requires 0 <= j < |xs| =>
      if !Marked(xs[j], y) then V.Zero
      else if c >= 2 && V.Less(V.Zero, g) then V.Div(g, V.FromNat(c))
      else g)
  }

  /** The starting value of the explicit exclusive product: the initial value
      if one was given, otherwise one (lines 175-182). */
  function InitialProd(initial: Option<V.Value>): V.Value {
    if initial.Some? then initial.value else V.One
  }

  /** The product of a segment's elements other than element j, in order,
      starting from the initial product value. */
  function Exclusive(initialProd: V.Value, xs: seq<V.Value>, j: nat): V.Value
    requires j < |xs|
  {
    R.Fold(R.Prod, initialProd, xs[..j] + xs[j + 1..])
  }

  /** Prod: an element that is zero or NaN gets `g` times the exclusive
      product; any other element gets `g * y / x`. */
  function ProdGrad(xs: seq<V.Value>, y: V.Value, g: V.Value, initialProd: V.Value): (r: seq<V.Value>)
    ensures |r| == |xs|
  {
    seq(|xs|, j requires 0 <= j < |xs| =>
      if V.IsNaN(xs[j]) || V.Equal(xs[j], V.Zero) then V.Mul(g, Exclusive(initialProd, xs, j))
      else V.Div(V.Mul(g, y), xs[j]))
  }

  /** The gradient of a non-empty segment's elements, per kind. */
  function SegmentGrad(kind: R.Kind, xs: seq<V.Value>, y: V.Value, g: V.Value, initialProd: V.Value): (r: seq<V.Value>)
    requires |xs| > 0
    ensures |r| == |xs|
  {
    match kind
    case Sum => seq(|xs|, _ => g)
    case Mean => seq(|xs|, _ => V.Div(g, V.FromNat(|xs|)))
    case Max => TieGrad(xs, y, g)
    case Min => TieGrad(xs, y, g)
    case Prod => ProdGrad(xs, y, g, initialProd)
  }

  /** The max/min branch (lines 194-218): a first pass writes `g` to the
      marked elements and counts them; with at least two, a second pass
      divides every entry that is greater than zero by the count. */
  method TieColumn(xs: seq<V.Value>, y: V.Value, g: V.Value) returns (col: seq<V.Value>)
    ensures col == TieGrad(xs, y, g)
  {
    col := seq(|xs|, _ => V.Zero);
    var counter := 0;
    var j := 0;
    while j < |xs|
      invariant 0 <= j <= |xs| && |col| == |xs|
      invariant counter == MarkCount(xs[..j], y)
      invariant forall j' :: 0 <= j' < |xs| ==>
        col[j'] == if j' < j && Marked(xs[j'], y) then g else V.Zero
    {
      assert xs[..j + 1][..j] == xs[..j];
      if Marked(xs[j], y) {
        col := col[j := g];
        counter := counter + 1;
      }
      j := j + 1;
    }
    assert xs[..|xs|] == xs;
    if counter < 2 {
      return;
    }
    j := 0;
    while j < |xs|
      invariant 0 <= j <= |xs| && |col| == |xs|
      invariant forall j' :: 0 <= j' < |xs| ==>
        col[j'] == if j' < j then TieGrad(xs, y, g)[j'] else if Marked(xs[j'], y) then g else V.Zero
    {
      if V.Less(V.Zero, col[j]) {
        col := col[j := V.Div(col[j], V.FromNat(counter))];
      }
      j := j + 1;
    }
  }

  /** The explicit exclusive product (lines 241-248): multiply in every
      element but the j-th, in order. */
  method ExclusiveProduct(initialProd: V.Value, xs: seq<V.Value>, j: nat) returns (e: V.Value)
    requires j < |xs|
    ensures e == Exclusive(initialProd, xs, j)
  {
    e := initialProd;
    var m := 0;
    while m < |xs|
      invariant 0 <= m <= |xs|
      invariant m <= j ==> e == R.Fold(R.Prod, initialProd, xs[..m])
      invariant m > j ==> e == R.Fold(R.Prod, initialProd, xs[..j] + xs[j + 1..m])
    {
      if m < j {
        assert xs[..m + 1][..m] == xs[..m];
        e := V.Mul(e, xs[m]);
      } else if m == j {
        assert xs[..j] + xs[j + 1..m + 1] == xs[..j];
      } else {
        var s := xs[..j] + xs[j + 1..m + 1];
        assert s[..|s| - 1] == xs[..j] + xs[j + 1..m];
        assert s[|s| - 1] == xs[m];
        e := V.Mul(e, xs[m]);
      }
      m := m + 1;
    }
    assert xs[j + 1..|xs|] == xs[j + 1..];
  }

  /** The prod branch (lines 233-254). */
  method ProdColumn(xs: seq<V.Value>, y: V.Value, g: V.Value, initialProd: V.Value) returns (col: seq<V.Value>)
    ensures col == ProdGrad(xs, y, g, initialProd)
  {
    var gradVal := V.Mul(g, y);
    col := seq(|xs|, _ => V.Zero);
    var j := 0;
    while j < |xs|
      invariant 0 <= j <= |xs| && |col| == |xs|
      invariant forall j' :: 0 <= j' < j ==> col[j'] == ProdGrad(xs, y, g, initialProd)[j']
    {
      if V.IsNaN(xs[j]) || V.Equal(xs[j], V.Zero) {
        var e := ExclusiveProduct(initialProd, xs, j);
        col := col[j := V.Mul(g, e)];
      } else {
        col := col[j := V.Div(gradVal, xs[j])];
      }
      j := j + 1;
    }
  }

  /** One column of `_segment_reduce_cpu_backward_kernel1` (lines 192-257):
      the entries the kernel writes for a non-empty segment at one inner
      index, in axis order. */
  method SegmentColumn(kind: R.Kind, xs: seq<V.Value>, y: V.Value, g: V.Value, initialProd: V.Value)
    returns (col: seq<V.Value>)
    requires |xs| > 0
    ensures col == SegmentGrad(kind, xs, y, g, initialProd)
  {
    if kind == R.Max || kind == R.Min {
      col := TieColumn(xs, y, g);
    } else if kind == R.Prod {
      col := ProdColumn(xs, y, g, initialProd);
    } else {
      var gradVal := if kind == R.Mean then V.Div(g, V.FromNat(|xs|)) else g;
      col := seq(|xs|, _ => V.Zero);
      var j := 0;
      while j < |xs|
        invariant 0 <= j <= |xs| && |col| == |xs|
        invariant forall j' :: 0 <= j' < j ==> col[j'] == gradVal
      {
        col := col[j := gradVal];
        j := j + 1;
      }
    }
  }

  /** n copies of c sum to n * c. */
  lemma {:induction false} ConstantSum(n: nat, c: real)
    ensures V.RealSum(seq(n, _ => V.Num(c))) == n as real * c
  {
    if n > 0 {
      var s := seq(n, _ => V.Num(c));
      assert s[..n - 1] == seq(n - 1, _ => V.Num(c));
      ConstantSum(n - 1, c);
    }
  }

  /** The value v given to the marked elements only. */
  function MarkedSpread(xs: seq<V.Value>, y: V.Value, v: real): (s: seq<V.Value>)
    ensures |s| == |xs| && forall j :: 0 <= j < |s| ==> V.IsFinite(s[j])
  {
    seq(|xs|, j requires 0 <= j < |xs| => if Marked(xs[j], y) then V.Num(v) else V.Zero)
  }

  /** n-fold repeated addition of v. */
  function Times(n: nat, v: real): real {
    if n == 0 then 0.0 else Times(n - 1, v) + v
  }

  /** Repeated addition is multiplication. */
  lemma {:induction false} TimesProduct(n: nat, v: real)
    ensures Times(n, v) == n as real * v
  {
    if n > 0 {
      TimesProduct(n - 1, v);
      assert (n - 1) as real * v + v == n as real * v;
    }
  }

  /** Spread over the marked elements, v sums to v added once per marked
      element. */
  lemma {:induction false} MarkedSum(xs: seq<V.Value>, y: V.Value, v: real)
    ensures V.RealSum(MarkedSpread(xs, y, v)) == Times(MarkCount(xs, y), v)
    decreases |xs|
  {
    if |xs| > 0 {
      var n := |xs|;
      var s := MarkedSpread(xs, y, v);
      var init := xs[..n - 1];
      assert V.RealSum(s) == V.RealSum(MarkedSpread(init, y, v)) + s[n - 1].x by {
        assert s[..n - 1] == MarkedSpread(init, y, v);
      }
      MarkedSum(init, y, v);
      if Marked(xs[n - 1], y) {
        assert s[n - 1] == V.Num(v);
      } else {
        assert s[n - 1] == V.Zero;
      }
    }
  }

  /** Sum backward: every element receives the output gradient, so a
      segment's gradients add up to length times `g`. */
  lemma SumGradTotal(xs: seq<V.Value>, y: V.Value, g: real, initialProd: V.Value)
    requires |xs| > 0
    ensures var r := SegmentGrad(R.Sum, xs, y, V.Num(g), initialProd);
      && (forall j :: 0 <= j < |r| ==> r[j] == V.Num(g))
      && V.RealSum(r) == |xs| as real * g
  {
    ConstantSum(|xs|, g);
  }

  /** Mean backward: every element receives the same share, and the shares of
      a segment add up to the output gradient. */
  lemma MeanGradTotal(xs: seq<V.Value>, y: V.Value, g: real, initialProd: V.Value)
    requires |xs| > 0
    ensures var r := SegmentGrad(R.Mean, xs, y, V.Num(g), initialProd);
      && (forall j, j' :: 0 <= j < |r| && 0 <= j' < |r| ==> r[j] == r[j'])
      && (forall j :: 0 <= j < |r| ==> V.IsFinite(r[j]))
      && V.RealSum(r) == g
  {
    var n := |xs|;
    assert SegmentGrad(R.Mean, xs, y, V.Num(g), initialProd) == seq(n, _ => V.Num(g / n as real));
    ConstantSum(n, g / n as real);
  }

  /** Max/min backward gives nothing to unmarked elements, and with a single
      marked element that element receives the whole output gradient. */
  lemma TieGradUnique(xs: seq<V.Value>, y: V.Value, g: V.Value, j: nat)
    requires j < |xs| && MarkCount(xs, y) == 1 && Marked(xs[j], y)
    ensures var r := TieGrad(xs, y, g);
      && r[j] == g
      && forall j' :: 0 <= j' < |xs| && j' != j ==> r[j'] == V.Zero
  {
    forall j' | 0 <= j' < |xs| && j' != j
      ensures !Marked(xs[j'], y)
    {
      if Marked(xs[j'], y) {
        MarkCountTwo(xs, y, j, j');
      }
    }
  }

  /** Two distinct marked elements make the count at least two. */
  lemma {:induction false} MarkCountTwo(xs: seq<V.Value>, y: V.Value, j: nat, j': nat)
    requires j < |xs| && j' < |xs| && j != j'
    requires Marked(xs[j], y) && Marked(xs[j'], y)
    ensures MarkCount(xs, y) >= 2
    decreases |xs|
  {
    var n := |xs|;
    var init := xs[..n - 1];
    if j < n - 1 && j' < n - 1 {
      assert init[j] == xs[j] && init[j'] == xs[j'];
      MarkCountTwo(init, y, j, j');
    } else {
      var other := if j < n - 1 then j else j';
      assert init[other] == xs[other];
      MarkCountOne(init, y, other);
    }
  }

  /** A marked element makes the count at least one. */
  lemma {:induction false} MarkCountOne(xs: seq<V.Value>, y: V.Value, j: nat)
    requires j < |xs| && Marked(xs[j], y)
    ensures MarkCount(xs, y) >= 1
    decreases |xs|
  {
    var n := |xs|;
    if j < n - 1 {
      var init := xs[..n - 1];
      assert init[j] == xs[j];
      MarkCountOne(init, y, j);
    }
  }

  /** Ties share a positive gradient: the segment's gradients add up to `g`
      (each marked element receiving `g / count`, see `TieGradIsSpread`). */
  lemma TieGradShared(xs: seq<V.Value>, y: V.Value, g: real)
    requires g > 0.0 && MarkCount(xs, y) >= 1
    ensures var r := TieGrad(xs, y, V.Num(g));
      V.RealSum(r) == g
  {
    TieGradIsSpread(xs, y, g);
    SpreadTotal(xs, y, g);
  }

  /** n equal shares of g add back up to g. */
  lemma ShareTotal(n: nat, g: real)
    requires n >= 1
    ensures Times(n, g / n as real) == g
  {
    TimesProduct(n, g / n as real);
  }

  /** With a positive gradient, every marked element gets the same share
      `g / count` and every unmarked one gets zero. */
  lemma TieGradIsSpread(xs: seq<V.Value>, y: V.Value, g: real)
    requires g > 0.0 && MarkCount(xs, y) >= 1
    ensures TieGrad(xs, y, V.Num(g)) == MarkedSpread(xs, y, g / MarkCount(xs, y) as real)
  {
    var c := MarkCount(xs, y);
    var v := g / c as real;
    var r := TieGrad(xs, y, V.Num(g));
    forall j | 0 <= j < |xs|
      ensures r[j] == MarkedSpread(xs, y, v)[j]
    {
      if Marked(xs[j], y) && c == 1 {
        assert v == g;
      }
    }
  }

  /** A gradient that is not positive (zero, negative or NaN) is not shared:
      every marked element receives it whole, however many ties there are. */
  lemma TieGradNotPositive(xs: seq<V.Value>, y: V.Value, g: V.Value)
    requires !V.Less(V.Zero, g)
    ensures var r := TieGrad(xs, y, g);
      forall j :: 0 <= j < |xs| ==> r[j] == if Marked(xs[j], y) then g else V.Zero
  {
  }

  /** The max/min rule the averaging comment of lines 207-208 describes:
      with at least two marked elements, every marked element receives
      `g / count`, whatever the sign of `g`. */
  function SharedTieGrad(xs: seq<V.Value>, y: V.Value, g: V.Value): (r: seq<V.Value>)
    ensures |r| == |xs|
  {
    var c := MarkCount(xs, y);
    seq(|xs|, j requires 0 <= j < |xs| =>
      if !Marked(xs[j], y) then V.Zero
      else if c >= 2 then V.Div(g, V.FromNat(c))
      else g)
  }

  /** Under the averaging rule every marked element gets `g / count` and
      every unmarked one zero, whatever the sign of `g`. */
  lemma SharedTieGradIsSpread(xs: seq<V.Value>, y: V.Value, g: real)
    requires MarkCount(xs, y) >= 1
    ensures SharedTieGrad(xs, y, V.Num(g)) == MarkedSpread(xs, y, g / MarkCount(xs, y) as real)
  {
    var c := MarkCount(xs, y);
    var v := g / c as real;
    var r := SharedTieGrad(xs, y, V.Num(g));
    forall j | 0 <= j < |xs|
      ensures r[j] == MarkedSpread(xs, y, v)[j]
    {
      if Marked(xs[j], y) && c == 1 {
        assert v == g;
      }
    }
  }

  /** Under the averaging rule the marked elements share any finite gradient:
      together they get exactly `g`. */
  lemma SharedTieGradTotal(xs: seq<V.Value>, y: V.Value, g: real)
    requires MarkCount(xs, y) >= 1
    ensures var r := SharedTieGrad(xs, y, V.Num(g));
      V.RealSum(r) == g
  {
    SharedTieGradIsSpread(xs, y, g);
    SpreadTotal(xs, y, g);
  }

  /** `g` spread evenly over the marked elements adds back up to `g`. */
  lemma SpreadTotal(xs: seq<V.Value>, y: V.Value, g: real)
    requires MarkCount(xs, y) >= 1
    ensures V.RealSum(MarkedSpread(xs, y, g / MarkCount(xs, y) as real)) == g
  {
    ShareTotal(MarkCount(xs, y), g);
    SpreadSum(xs, y, g / MarkCount(xs, y) as real, g);
  }

  /** A share v that, added once per marked element, makes g sums to g. */
  lemma SpreadSum(xs: seq<V.Value>, y: V.Value, v: real, g: real)
    requires Times(MarkCount(xs, y), v) == g
    ensures V.RealSum(MarkedSpread(xs, y, v)) == g
  {
    MarkedSum(xs, y, v);
  }

  /** The kernel's rule and the averaging rule agree except on ties with a
      gradient that is not positive. */
  lemma TieGradAgrees(xs: seq<V.Value>, y: V.Value, g: V.Value)
    requires V.Less(V.Zero, g) || MarkCount(xs, y) < 2
    ensures TieGrad(xs, y, g) == SharedTieGrad(xs, y, g)
  {
  }

  /** Two tied maxima and a negative incoming gradient: the kernel gives each
      the whole gradient, so the segment passes back twice what it received;
      the averaging rule gives each half. */
  lemma NegativeTiesNotShared()
    ensures var xs := [V.One, V.One];
      && TieGrad(xs, V.One, V.Num(-1.0)) == [V.Num(-1.0), V.Num(-1.0)]
      && V.RealSum(TieGrad(xs, V.One, V.Num(-1.0))) == -2.0
      && SharedTieGrad(xs, V.One, V.Num(-1.0)) == [V.Num(-0.5), V.Num(-0.5)]
  {
    var xs := [V.One, V.One];
    assert MarkCount([V.One], V.One) == 1 by {
      assert [V.One][..0] == [];
    }
    assert xs[..1] == [V.One];
    assert MarkCount(xs, V.One) == 2;
    var r := TieGrad(xs, V.One, V.Num(-1.0));
    assert r == [V.Num(-1.0), V.Num(-1.0)];
    assert V.RealSum([V.Num(-1.0)]) == -1.0 by {
      assert [V.Num(-1.0)][..0] == [];
    }
    assert r[..1] == [V.Num(-1.0)];
  }

  /** After a max or min forward pass without an initial value, at least one
      element of a non-empty segment is marked, so its gradient is not lost. */
  lemma ForwardExtremumIsMarked(kind: R.Kind, xs: seq<V.Value>)
    requires kind == R.Max || kind == R.Min
    requires |xs| > 0
    ensures MarkCount(xs, R.Reduce(kind, None, xs)) >= 1
  {
    var y := R.Reduce(kind, None, xs);
    var start := R.Start(kind, None);
    assert y == R.Fold(kind, start, xs);
    if exists j :: 0 <= j < |xs| && V.IsNaN(xs[j]) {
      var j :| 0 <= j < |xs| && V.IsNaN(xs[j]);
      MarkCountOne(xs, y, j);
    } else {
      R.MaxMinIsExtremum(kind, start, xs);
      if y == start {
        V.LessIsStrictTotalOrder(xs[0], y, y);
        assert !V.IsNaN(xs[0]);
        assert xs[0] == y;
        MarkCountOne(xs, y, 0);
      } else {
        var j :| 0 <= j < |xs| && y == xs[j];
        MarkCountOne(xs, y, j);
      }
    }
  }

  /** For prod, the cheap path `g * y / x` agrees with the explicit exclusive
      product whenever the elements are finite, x is not zero and y is the
      forward product: so the explicit path is needed only for zero and NaN. */
  lemma ProdCheapPath(xs: seq<V.Value>, j: nat, g: real, initialProd: real)
    requires j < |xs| && forall m :: 0 <= m < |xs| ==> V.IsFinite(xs[m])
    requires xs[j] != V.Zero
    ensures V.Div(V.Mul(V.Num(g), R.Fold(R.Prod, V.Num(initialProd), xs)), xs[j])
         == V.Mul(V.Num(g), Exclusive(V.Num(initialProd), xs, j))
  {
    var a, x, b := xs[..j], xs[j], xs[j + 1..];
    SplitAt(xs, j);
    FoldAroundElement(initialProd, a, x, b);
    CancelFactor(V.Num(g), R.Fold(R.Prod, V.Num(initialProd), a + b), x);
  }

  /** A sequence is its part before j, its j-th element and its part after j. */
  lemma SplitAt<T>(xs: seq<T>, j: nat)
    requires j < |xs|
    ensures xs == xs[..j] + [xs[j]] + xs[j + 1..]
  {
  }

  /** A product fold over finite elements is the fold without one element,
      times that element. */
  lemma {:induction false} FoldAroundElement(initialProd: real, a: seq<V.Value>, x: V.Value, b: seq<V.Value>)
    requires x.Num? && (forall m :: 0 <= m < |a| ==> V.IsFinite(a[m]))
    requires forall m :: 0 <= m < |b| ==> V.IsFinite(b[m])
    ensures R.Fold(R.Prod, V.Num(initialProd), a + b).Num?
    ensures R.Fold(R.Prod, V.Num(initialProd), a + [x] + b) == V.Mul(R.Fold(R.Prod, V.Num(initialProd), a + b), x)
    decreases |b|
  {
    if |b| == 0 {
      assert a + [x] + b == a + [x] && a + b == a;
      assert (a + [x])[..|a|] == a;
      FoldFinite(initialProd, a);
    } else {
      var init, z := b[..|b| - 1], b[|b| - 1];
      FoldAroundElement(initialProd, a, x, init);
      var f := R.Fold(R.Prod, V.Num(initialProd), a + init);
      var whole, rest := a + [x] + b, a + b;
      assert R.Fold(R.Prod, V.Num(initialProd), whole) == V.Mul(V.Mul(f, x), z) by {
        assert whole[..|whole| - 1] == a + [x] + init && whole[|whole| - 1] == z;
      }
      assert R.Fold(R.Prod, V.Num(initialProd), rest) == V.Mul(f, z) by {
        assert rest[..|rest| - 1] == a + init && rest[|rest| - 1] == z;
      }
      SwapFactors(f, x, z);
    }
  }

  /** A product fold over finite elements stays finite. */
  lemma {:induction false} FoldFinite(initialProd: real, xs: seq<V.Value>)
    requires forall m :: 0 <= m < |xs| ==> V.IsFinite(xs[m])
    ensures R.Fold(R.Prod, V.Num(initialProd), xs).Num?
    decreases |xs|
  {
    if |xs| > 0 {
      FoldFinite(initialProd, xs[..|xs| - 1]);
    }
  }

  /** Multiplying finite values by x then z is multiplying by z then x. */
  lemma SwapFactors(f: V.Value, x: V.Value, z: V.Value)
    requires f.Num? && x.Num? && z.Num?
    ensures V.Mul(V.Mul(f, x), z) == V.Mul(V.Mul(f, z), x)
    ensures V.Mul(f, z).Num?
  {
    assert f.x * x.x * z.x == f.x * z.x * x.x;
  }

  /** Dividing g * (e * x) by x leaves g * e, for finite values and x not
      zero. */
  lemma CancelFactor(g: V.Value, e: V.Value, x: V.Value)
    requires g.Num? && e.Num? && x.Num? && x != V.Zero
    ensures V.Div(V.Mul(g, V.Mul(e, x)), x) == V.Mul(g, e)
  {
    assert g.x * (e.x * x.x) == (g.x * e.x) * x.x;
  }
}
