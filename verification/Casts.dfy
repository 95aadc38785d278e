/** Numeric conversions of the C# runtime that the model needs explicitly. */
module Casts {

  /** The C# cast `(int)v` from a floating-point value: truncation toward zero
      (the value is assumed to lie inside the range of `int`). */
  function TruncateToInt(v: real): (i: int)
    ensures 0.0 <= v ==> 0 <= i && i as real <= v < i as real + 1.0
    ensures v < 0.0 ==> i <= 0 && i as real - 1.0 < v <= i as real
  {
    if 0.0 <= v then v.Floor else -((-v).Floor)
  }
}
