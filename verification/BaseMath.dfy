/** The small numeric helpers that the components share; floats are exact reals. */
module BaseMath {
  datatype Vec = Vec(x: real, y: real)

  datatype Option<T> = None | Some(value: T)

  function Abs(v: real): real {
    if v < 0.0 then -v else v
  }

  /** Conversion of a float to an integer: towards zero. */
  function Truncate(f: real): int {
    if f >= 0.0 then f.Floor else -((-f).Floor)
  }

  function RoundToInt(f: real): int {
    if f > 0.0 then Truncate(f + 0.5) else Truncate(f - 0.5)
  }

  function Clamp(v: int, lo: int, hi: int): (r: int)
    requires lo <= hi
    ensures lo <= r <= hi
  {
    if v < lo then lo else if hi < v then hi else v
  }

  function ClampReal(v: real, lo: real, hi: real): real {
    if v < lo then lo else if hi < v then hi else v
  }

  lemma ZeroProduct(a: real, b: real)
    requires a * b == 0.0 && b != 0.0
    ensures a == 0.0
  {
  }
}
