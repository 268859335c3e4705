/** Rectangular grids as sequences of rows, and the small numeric helpers
    that the fire simulation borrows from Python (built-in max/min and the
    truncating int() conversion). */
module Grids {

  /** A grid is a sequence of rows; row y, column x is g[y][x]. */
  type Grid<T> = seq<seq<T>>

  /** g has exactly h rows of exactly w cells each. */
  predicate IsGrid<T>(g: Grid<T>, h: nat, w: nat) {
    |g| == h && forall y :: 0 <= y < h ==> |g[y]| == w
  }

  /** Two grids of the same shape that agree cell by cell are equal. */
  lemma GridExt<T>(a: Grid<T>, b: Grid<T>, h: nat, w: nat)
    requires IsGrid(a, h, w) && IsGrid(b, h, w)
    requires forall y, x :: 0 <= y < h && 0 <= x < w ==> a[y][x] == b[y][x]
    ensures a == b
  {
    forall y | 0 <= y < h
      ensures a[y] == b[y]
    {
      assert forall x :: 0 <= x < w ==> a[y][x] == b[y][x];
    }
  }

  function Max(a: int, b: int): int { if a >= b then a else b }

  function Min(a: int, b: int): int { if a <= b then a else b }

  /** Python's max(0, v) on a heat value; the int 0 it may return is the real 0.0 here. */
  function MaxReal(a: real, b: real): real { if a >= b then a else b }

  /** Python's int() on a float: truncation toward zero, not floor. */
  function Trunc(v: real): (n: int)
    ensures v >= 0.0 ==> 0 <= n && n as real <= v < n as real + 1.0
    ensures v < 0.0 ==> n <= 0 && n as real - 1.0 < v <= n as real
  {
    if v >= 0.0 then v.Floor else -((-v).Floor)
  }
}
