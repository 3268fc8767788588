/**
 * The JavaScript numbers the converter can see, with floating point abstracted
 * to Dafny's `real`: a finite value or one of the two infinities. NaN is not a
 * member; a parse that yields NaN is `None` of an `Option<JsNumber>`.
 */
module Numbers {
  datatype JsNumber = Finite(value: real) | Infinite(negative: bool)

  /** Unary minus. */
  function Negate(x: JsNumber): (r: JsNumber)
    ensures r.Finite? <==> x.Finite?
    ensures x.Finite? ==> r.value == -x.value
    ensures x.Infinite? ==> r.negative != x.negative
  {
    match x
    case Finite(v) => Finite(-v)
    case Infinite(n) => Infinite(!n)
  }

  function Abs(v: real): (r: real)
    ensures r >= 0.0 && (r == v || r == -v)
  {
    if v < 0.0 then -v else v
  }
}
