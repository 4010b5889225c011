/** Rectangular grids stored row-major as sequences of rows, the shape of a
    two-dimensional array indexed `[row][column]`. */
module Grid {

  /** Number of columns: the length of the first row, 0 for a grid with no rows. */
  function Cols<T>(g: seq<seq<T>>): nat {
    if |g| == 0 then 0 else |g[0]|
  }

  /** Every row has the same length. */
  predicate Rectangular<T>(g: seq<seq<T>>) {
    forall i :: 0 <= i < |g| ==> |g[i]| == Cols(g)
  }
}
