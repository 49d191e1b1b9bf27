/** The few JavaScript number behaviours the app's arithmetic runs into:
    `undefined + x` and `0 / 0` give NaN, `x / 0` gives an infinity, and
    `Math.min`/`Math.max` propagate NaN. Finite values are exact reals:
    binary rounding is not modelled. */
module Numbers {

  datatype JsNumber = Finite(value: real) | NaN | PosInfinity | NegInfinity

  function Abs(x: real): (r: real)
    ensures r >= 0.0 && (r == x || r == -x)
  {
    if x < 0.0 then -x else x
  }

  function Min(a: real, b: real): (r: real)
    ensures r <= a && r <= b && (r == a || r == b)
  {
    if a <= b then a else b
  }

  /** `a / b` for two finite operands. */
  function Div(a: real, b: real): (r: JsNumber)
    ensures b != 0.0 ==> r.Finite? && r.value * b == a
    ensures b == 0.0 ==> !r.Finite?
    ensures b == 0.0 && a == 0.0 ==> r == NaN
  {
    if b != 0.0 then Finite(a / b)
    else if a > 0.0 then PosInfinity
    else if a < 0.0 then NegInfinity
    else NaN
  }

  /** `n + x` for a finite `x`. */
  function Add(n: JsNumber, x: real): (r: JsNumber)
    ensures r.Finite? <==> n.Finite?
    ensures n.Finite? ==> r.value == n.value + x
  {
    match n
    case Finite(v) => Finite(v + x)
    case _ => n
  }

  /** `n * k` for a positive finite `k`. */
  function Scale(n: JsNumber, k: real): (r: JsNumber)
    requires k > 0.0
    ensures r.Finite? <==> n.Finite?
    ensures n.Finite? ==> r.value == n.value * k
    ensures n == NaN <==> r == NaN
  {
    match n
    case Finite(v) => Finite(v * k)
    case _ => n
  }

  /** `Math.min(bound, n)`. */
  function MathMin(bound: real, n: JsNumber): (r: JsNumber)
    ensures n == NaN <==> r == NaN
    ensures r.Finite? ==> r.value <= bound
    ensures r != NaN ==> r == n || r == Finite(bound)
    ensures n.Finite? && n.value <= bound ==> r == n
    ensures (n.Finite? && n.value > bound) || n == PosInfinity ==> r == Finite(bound)
    ensures n == NegInfinity ==> r == NegInfinity
  {
    match n
    case Finite(v) => Finite(if v < bound then v else bound)
    case NaN => NaN
    case PosInfinity => Finite(bound)
    case NegInfinity => NegInfinity
  }

  /** `Math.max(bound, n)`. */
  function MathMax(bound: real, n: JsNumber): (r: JsNumber)
    ensures n == NaN <==> r == NaN
    ensures r.Finite? ==> r.value >= bound
    ensures r != NaN ==> r == n || r == Finite(bound)
    ensures n.Finite? && n.value >= bound ==> r == n
    ensures (n.Finite? && n.value < bound) || n == NegInfinity ==> r == Finite(bound)
    ensures n == PosInfinity ==> r == PosInfinity
  {
    match n
    case Finite(v) => Finite(if v > bound then v else bound)
    case NaN => NaN
    case PosInfinity => PosInfinity
    case NegInfinity => Finite(bound)
  }

  /** `(a / b) * 100`. */
  function Percent(a: real, b: real): (r: JsNumber)
    ensures b != 0.0 ==> r.Finite? && r.value * b == a * 100.0
    ensures b == 0.0 && a == 0.0 ==> r == NaN
    ensures b == 0.0 ==> !r.Finite?
  {
    var q := Div(a, b);
    assert b != 0.0 ==> q.value * b * 100.0 == a * 100.0;
    Scale(q, 100.0)
  }
}
