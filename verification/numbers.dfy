/** JavaScript numbers as the RT calculator uses them.
    A waypoint value is either a finite real or NaN; NaN here stands for every
    non-finite result (NaN, +Infinity, -Infinity), all of which absorb further
    arithmetic. Floating-point rounding is not modelled. */
module Numbers {

  datatype Num = NaN | Fin(v: real)

  function Add(a: Num, b: Num): Num {
    if a.Fin? && b.Fin? then Fin(a.v + b.v) else NaN
  }

  function Sub(a: Num, b: Num): Num {
    if a.Fin? && b.Fin? then Fin(a.v - b.v) else NaN
  }

  function Mul(a: Num, b: Num): Num {
    if a.Fin? && b.Fin? then Fin(a.v * b.v) else NaN
  }

  /** Division; a zero divisor yields Infinity or NaN in JavaScript, here NaN. */
  function Div(a: Num, b: Num): (r: Num)
    ensures r.Fin? <==> a.Fin? && b.Fin? && b.v != 0.0
  {
    if a.Fin? && b.Fin? && b.v != 0.0 then Fin(a.v / b.v) else NaN
  }
}
