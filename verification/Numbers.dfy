/** Minimum, maximum and absolute value. */
module Numbers {
  function Min(a: int, b: int): int { if a <= b then a else b }

  function MinReal(a: real, b: real): real { if a <= b then a else b }

  function MaxReal(a: real, b: real): real { if a >= b then a else b }

  function AbsReal(a: real): real { if a < 0.0 then -a else a }
}
