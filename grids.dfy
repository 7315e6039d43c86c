/** Rectangular pixel grids, the stand-in for the two-dimensional numpy arrays
    the scanner works on, and the small result types used across the model. */
module Grids {

  datatype Option<T> = None | Some(value: T)

  datatype Result<T, E> = Ok(value: T) | Err(error: E)

  /** Every row has the length of the first one (a numpy array is always rectangular). */
  predicate IsRect<T>(g: seq<seq<T>>)
  {
    forall i :: 0 <= i < |g| ==> |g[i]| == |g[0]|
  }

  /** Row-major pixel grid: `g[y][x]`. A grid without rows has width 0. */
  type Grid<T> = g: seq<seq<T>> | IsRect(g)

  function Height<T>(g: Grid<T>): nat
  {
    |g|
  }

  function Width<T>(g: Grid<T>): nat
  {
    if |g| == 0 then 0 else |g[0]|
  }

  /** Row `y`, column `x` lies inside the grid. */
  predicate InGrid<T>(g: Grid<T>, y: int, x: int)
  {
    0 <= y < Height(g) && 0 <= x < Width(g)
  }

  /** numpy's `g[y0:y1, x0:x1]` for in-range, ordered bounds. */
  function SubGrid<T>(g: Grid<T>, y0: nat, y1: nat, x0: nat, x1: nat): (r: Grid<T>)
    requires y0 <= y1 <= Height(g) && x0 <= x1 <= Width(g)
    ensures |r| == y1 - y0
    ensures forall i :: 0 <= i < |r| ==> |r[i]| == x1 - x0
    ensures forall i, j :: 0 <= i < y1 - y0 && 0 <= j < x1 - x0 ==> r[i][j] == g[y0 + i][x0 + j]
  {
    seq(y1 - y0, i requires 0 <= i < y1 - y0 => g[y0 + i][x0..x1])
  }
}
