/**
  The data model of the automaton: a generation is a grid of cells, each alive
  or dead, stored row by row (`g[y][x]` is the cell in column `x` of row `y`,
  origin top-left). A neighbourhood is an ordered list of relative offsets and
  a rule is a pair of count sets, one for survival and one for birth.
 */
module Grids {

  /** One generation: `g[y][x]` is true iff the cell at column x, row y is alive. */
  type Grid = seq<seq<bool>>

  /** A relative neighbour position: `dx` is added to the column, `dy` to the row. */
  datatype Offset = Offset(dx: int, dy: int)

  /** Survive/born rule: a live cell stays alive iff its live-neighbour count is
      in `survive`; a dead cell becomes alive iff the count is in `born`. */
  datatype Rules = Rules(survive: set<nat>, born: set<nat>)

  /** Outcome of a grid edit addressed by coordinates. */
  datatype Result<T> = Ok(value: T) | OutOfBounds

  /** Every row has the same length (a two-dimensional array). */
  predicate Rectangular(g: Grid) {
    forall y :: 0 <= y < |g| ==> |g[y]| == |g[0]|
  }

  /** `g` has exactly `h` rows of `w` cells each. */
  predicate HasShape(g: Grid, h: nat, w: nat) {
    |g| == h && forall y :: 0 <= y < |g| ==> |g[y]| == w
  }

  /** Two grids have the same number of rows and the same length row by row. */
  predicate SameShape(g: Grid, g': Grid) {
    |g| == |g'| && forall y :: 0 <= y < |g| ==> |g[y]| == |g'[y]|
  }

  /** (x, y) names a cell of `g`; there is no wrap-around on either axis. */
  predicate InBounds(g: Grid, x: int, y: int) {
    0 <= y < |g| && 0 <= x < |g[y]|
  }

  /** The position (x, y) is a cell of `g` and that cell is alive. A position
      off the grid is never alive: the edges are hard. */
  predicate Live(g: Grid, x: int, y: int) {
    InBounds(g, x, y) && g[y][x]
  }

  /** No cell of `g` is alive. */
  predicate AllDead(g: Grid) {
    forall y, x :: 0 <= y < |g| && 0 <= x < |g[y]| ==> !g[y][x]
  }
}
