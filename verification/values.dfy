/** The floating-point element type of the data, output and gradient buffers,
    abstracted to the extended reals plus NaN. Rounding, signed zero and the
    reduced-precision formats are not modelled; what is kept is what the
    reduction kernels branch on: NaN, the two infinities, IEEE comparison
    (false whenever NaN is involved) and IEEE equality (NaN equals nothing). */
module Values {

  datatype Value = Num(x: real) | PosInf | NegInf | NaN

  const Zero: Value := Num(0.0)
  const One: Value := Num(1.0)

  /** `at::_isnan` */
  predicate IsNaN(v: Value) {
    v.NaN?
  }

  predicate IsFinite(v: Value) {
    v.Num?
  }

  /** IEEE `a < b`. */
  predicate Less(a: Value, b: Value) {
    match (a, b)
    case (Num(x), Num(y)) => x < y
    case (NegInf, Num(_)) => true
    case (NegInf, PosInf) => true
    case (Num(_), PosInf) => true
    case _ => false
  }

  /** IEEE `a == b`. */
  predicate Equal(a: Value, b: Value) {
    !a.NaN? && a == b
  }

  /** `std::max(a, b)`, which is `(a < b) ? b : a`. */
  function Max(a: Value, b: Value): Value {
    if Less(a, b) then b else a
  }

  /** `std::min(a, b)`, which is `(b < a) ? b : a`. */
  function Min(a: Value, b: Value): Value {
    if Less(b, a) then b else a
  }

  predicate Positive(v: Value) {
    v.PosInf? || (v.Num? && v.x > 0.0)
  }

  function Add(a: Value, b: Value): Value {
    match (a, b)
    case (NaN, _) => NaN
    case (_, NaN) => NaN
    case (PosInf, NegInf) => NaN
    case (NegInf, PosInf) => NaN
    case (PosInf, _) => PosInf
    case (_, PosInf) => PosInf
    case (NegInf, _) => NegInf
    case (_, NegInf) => NegInf
    case (Num(x), Num(y)) => Num(x + y)
  }

  function Mul(a: Value, b: Value): Value {
    if a.NaN? || b.NaN? then NaN
    else if a.Num? && b.Num? then Num(a.x * b.x)
    else if a == Zero || b == Zero then NaN
    else if Positive(a) == Positive(b) then PosInf
    else NegInf
  }

  /** Division by anything but an exact zero; every division in the kernels
      has a divisor that is provably not zero. */
  function Div(a: Value, b: Value): Value
    requires b != Zero
  {
    if a.NaN? || b.NaN? then NaN
    else if a.Num? && b.Num? then Num(a.x / b.x)
    else if !a.Num? && !b.Num? then NaN
    else if a.Num? then Zero
    else if Positive(a) == Positive(b) then PosInf
    else NegInf
  }

  /** Conversion of a segment length or a tie count to the element type. */
  function FromNat(n: nat): Value {
    Num(n as real)
  }

  /** The sum of finite values as a real number. */
  function RealSum(xs: seq<Value>): real
    requires forall j :: 0 <= j < |xs| ==> IsFinite(xs[j])
    decreases |xs|
  {
    if |xs| == 0 then 0.0
    else assert IsFinite(xs[|xs| - 1]); RealSum(xs[..|xs| - 1]) + xs[|xs| - 1].x
  }

  /** Apart from NaN, `<` is a strict total order. */
  lemma LessIsStrictTotalOrder(a: Value, b: Value, c: Value)
    requires !IsNaN(a) && !IsNaN(b) && !IsNaN(c)
    ensures !Less(a, a)
    ensures Less(a, b) ==> !Less(b, a)
    ensures Less(a, b) && Less(b, c) ==> Less(a, c)
    ensures a != b ==> Less(a, b) || Less(b, a)
  {
  }
}
