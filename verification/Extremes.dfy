/** Least, greatest and absolute values. */
module Extremes {
  function Min(a: int, b: int): int {
    if a < b then a else b
  }

  function Max(a: int, b: int): int {
    if a > b then a else b
  }

  function MinReal(a: real, b: real): real {
    if a < b then a else b
  }

  function MaxReal(a: real, b: real): real {
    if a > b then a else b
  }

  function Abs(a: real): real {
    if a < 0.0 then -a else a
  }

  function Least(xs: seq<real>): (m: real)
    requires xs != []
    ensures m in xs && forall i :: 0 <= i < |xs| ==> m <= xs[i]
  {
    if |xs| == 1 then xs[0] else MinReal(Least(xs[..|xs| - 1]), xs[|xs| - 1])
  }

  function Greatest(xs: seq<real>): (m: real)
    requires xs != []
    ensures m in xs && forall i :: 0 <= i < |xs| ==> xs[i] <= m
  {
    if |xs| == 1 then xs[0] else MaxReal(Greatest(xs[..|xs| - 1]), xs[|xs| - 1])
  }
}
