/** The five reduction kinds and the per-kind rules of the forward kernel:
    the starting value of a segment, the step that merges one element into
    the accumulator, and the finalisation applied once per segment
    (aten/src/ATen/native/SegmentReduce.cpp, `get_reduction_enum` and the
    three numbered steps of `_segment_reduce_cpu_kernel1`). */
module Reduction {
  import opened Results
  import V = Values

  datatype Kind = Max | Mean | Min | Sum | Prod

  /** The string that selects each kind. */
  function Name(kind: Kind): string {
    match kind
    case Max => "max"
    case Mean => "mean"
    case Min => "min"
    case Sum => "sum"
    case Prod => "prod"
  }

  /** `get_reduction_enum`: exactly the five names are accepted, each one
      selecting the kind it names; anything else is an unsupported reduction. */
  function Parse(name: string): (r: Result<Kind>)
    ensures r.Ok? <==> name in {"max", "mean", "min", "sum", "prod"}
    ensures r.Ok? ==> Name(r.value) == name
    ensures r.Err? ==> r.error == UnsupportedReduction(name)
    ensures forall kind :: name == Name(kind) ==> r == Ok(kind)
  {
    if name == "max" then Ok(Max)
    else if name == "mean" then Ok(Mean)
    else if name == "min" then Ok(Min)
    else if name == "sum" then Ok(Sum)
    else if name == "prod" then Ok(Prod)
    else Err(UnsupportedReduction(name))
  }

  /** Step 1: the value a segment's accumulator starts from. */
  function Start(kind: Kind, initial: Option<V.Value>): V.Value {
    if initial.Some? then initial.value
    else match kind
      case Max => V.NegInf
      case Mean => V.Zero
      case Sum => V.Zero
      case Min => V.PosInf
      case Prod => V.One
  }

  /** Step 2: merging one element into the accumulator. For max and min a NaN
      element replaces the accumulator outright. */
  function Merge(kind: Kind, acc: V.Value, v: V.Value): V.Value {
    match kind
    case Max => if V.IsNaN(v) then v else V.Max(acc, v)
    case Mean => V.Add(acc, v)
    case Sum => V.Add(acc, v)
    case Min => if V.IsNaN(v) then v else V.Min(acc, v)
    case Prod => V.Mul(acc, v)
  }

  /** The accumulator after merging the elements of `xs` in order. */
  function Fold(kind: Kind, acc: V.Value, xs: seq<V.Value>): V.Value
    decreases |xs|
  {
    if |xs| == 0 then acc
    else Merge(kind, Fold(kind, acc, xs[..|xs| - 1]), xs[|xs| - 1])
  }

  /** Step 3: only mean finalises. An empty segment without an initial value
      gives NaN; a non-empty one is divided by its length unless the
      accumulator is already NaN. */
  function Finalize(kind: Kind, hasInitial: bool, length: nat, acc: V.Value): V.Value {
    if length == 0 && !hasInitial && kind == Mean then V.NaN
    else if kind == Mean && length > 0 && !V.IsNaN(acc) then V.Div(acc, V.FromNat(length))
    else acc
  }

  /** The value one segment reduces to. */
  function Reduce(kind: Kind, initial: Option<V.Value>, xs: seq<V.Value>): V.Value {
    Finalize(kind, initial.Some?, |xs|, Fold(kind, Start(kind, initial), xs))
  }

  /** Without an initial value the starting value is an identity of the
      merge step, for every element including NaN and the infinities. */
  lemma StartIsIdentity(kind: Kind, v: V.Value)
    ensures Merge(kind, Start(kind, None), v) == v
  {
  }

  /** A segment holding a single element reduces to that element, whatever
      the kind. */
  lemma SingletonSegment(kind: Kind, v: V.Value)
    ensures Reduce(kind, None, [v]) == v
  {
    assert [v][..0] == [];
    StartIsIdentity(kind, v);
    assert Fold(kind, Start(kind, None), [v]) == v;
    if kind == Mean && !V.IsNaN(v) {
      assert V.FromNat(1) == V.One;
      assert V.Div(v, V.One) == v;
    }
  }

  /** Mean of an empty segment: NaN without an initial value, the initial
      value itself (undivided) with one. */
  lemma EmptyMean(initial: Option<V.Value>)
    ensures Reduce(Mean, initial, []) == if initial.Some? then initial.value else V.NaN
  {
  }

  /** On finite elements a sum (or mean) fold adds the elements to the
      starting value as real numbers. */
  lemma {:induction false} SumFoldFinite(kind: Kind, b: real, xs: seq<V.Value>)
    requires kind == Sum || kind == Mean
    requires forall j :: 0 <= j < |xs| ==> V.IsFinite(xs[j])
    ensures Fold(kind, V.Num(b), xs) == V.Num(b + V.RealSum(xs))
  {
    if |xs| > 0 {
      SumFoldFinite(kind, b, xs[..|xs| - 1]);
    }
  }

  /** Sum and mean of finite elements with a finite or absent initial value
      c: the sum is c plus the elements, the mean divides that by the
      segment length. */
  lemma SumMeanOfFinite(initial: Option<V.Value>, xs: seq<V.Value>)
    requires initial.Some? ==> V.IsFinite(initial.value)
    requires forall j :: 0 <= j < |xs| ==> V.IsFinite(xs[j])
    ensures var c := if initial.Some? then initial.value.x else 0.0;
      && Reduce(Sum, initial, xs) == V.Num(c + V.RealSum(xs))
      && (|xs| > 0 ==> Reduce(Mean, initial, xs) == V.Num((c + V.RealSum(xs)) / |xs| as real))
  {
    var c := if initial.Some? then initial.value.x else 0.0;
    assert Start(Sum, initial) == V.Num(c) && Start(Mean, initial) == V.Num(c);
    SumFoldFinite(Sum, c, xs);
    SumFoldFinite(Mean, c, xs);
  }

  /** For max and min NaN is absorbing: the result is NaN exactly when the
      starting value or some element is NaN. */
  lemma {:induction false} MaxMinNaN(kind: Kind, acc: V.Value, xs: seq<V.Value>)
    requires kind == Max || kind == Min
    ensures V.IsNaN(Fold(kind, acc, xs)) <==> V.IsNaN(acc) || exists j :: 0 <= j < |xs| && V.IsNaN(xs[j])
  {
    if |xs| > 0 {
      var init := xs[..|xs| - 1];
      MaxMinNaN(kind, acc, init);
      assert forall j :: 0 <= j < |init| ==> init[j] == xs[j];
      if exists j :: 0 <= j < |xs| && V.IsNaN(xs[j]) {
        var j :| 0 <= j < |xs| && V.IsNaN(xs[j]);
        if j < |init| {
          assert V.IsNaN(init[j]);
        }
      }
    }
  }

  /** Without NaN, a max fold is the largest of the starting value and the
      elements (a min fold the smallest), and it is one of them. */
  lemma {:induction false} MaxMinIsExtremum(kind: Kind, acc: V.Value, xs: seq<V.Value>)
    requires kind == Max || kind == Min
    requires !V.IsNaN(acc) && forall j :: 0 <= j < |xs| ==> !V.IsNaN(xs[j])
    ensures var r := Fold(kind, acc, xs);
      && !V.IsNaN(r)
      && (kind == Max ==> !V.Less(r, acc) && forall j :: 0 <= j < |xs| ==> !V.Less(r, xs[j]))
      && (kind == Min ==> !V.Less(acc, r) && forall j :: 0 <= j < |xs| ==> !V.Less(xs[j], r))
      && (r == acc || exists j :: 0 <= j < |xs| && r == xs[j])
  {
    if |xs| > 0 {
      var init := xs[..|xs| - 1];
      var last := xs[|xs| - 1];
      MaxMinIsExtremum(kind, acc, init);
      var p := Fold(kind, acc, init);
      var r := Fold(kind, acc, xs);
      assert r == Merge(kind, p, last);
      forall j | 0 <= j < |xs|
        ensures kind == Max ==> !V.Less(r, xs[j])
        ensures kind == Min ==> !V.Less(xs[j], r)
      {
        V.LessIsStrictTotalOrder(xs[j], p, last);
        V.LessIsStrictTotalOrder(r, xs[j], p);
        V.LessIsStrictTotalOrder(p, r, xs[j]);
        V.LessIsStrictTotalOrder(last, p, xs[j]);
        if j < |init| {
          assert init[j] == xs[j];
        }
      }
      V.LessIsStrictTotalOrder(acc, p, last);
      V.LessIsStrictTotalOrder(p, last, acc);
      if r != acc && r != last {
        var j :| 0 <= j < |init| && p == init[j];
        assert r == xs[j];
      }
    }
  }

  /** The product of finite elements as a real number. */
  function RealProduct(xs: seq<V.Value>): real
    requires forall j :: 0 <= j < |xs| ==> V.IsFinite(xs[j])
    decreases |xs|
  {
    if |xs| == 0 then 1.0
    else assert V.IsFinite(xs[|xs| - 1]); RealProduct(xs[..|xs| - 1]) * xs[|xs| - 1].x
  }

  /** On finite elements a product fold is ordinary real multiplication. */
  lemma {:induction false} ProdFoldFinite(b: real, xs: seq<V.Value>)
    requires forall j :: 0 <= j < |xs| ==> V.IsFinite(xs[j])
    ensures Fold(Prod, V.Num(b), xs) == V.Num(b * RealProduct(xs))
  {
    if |xs| > 0 {
      var init := xs[..|xs| - 1];
      ProdFoldFinite(b, init);
      assert b * RealProduct(init) * xs[|xs| - 1].x == b * (RealProduct(init) * xs[|xs| - 1].x);
    }
  }
}
