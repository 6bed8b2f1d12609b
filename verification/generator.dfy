/**
  Random initial generation. The grid has one cell per `cell`-pixel square of
  the display; each cell's liveness is an independent draw, represented here
  by an oracle `fill` that says, for column x and row y, whether the draw made
  the cell alive.
 */
module Generator {
  import opened Grids
  import Edit

  /** The initial generation for a display of `width` by `height` pixels with
      square cells of side `cell`: `height / cell` rows of `width / cell` cells,
      the cell at (x, y) alive exactly when the oracle says so. */
  function GenerateMap(cell: nat, width: nat, height: nat, fill: (nat, nat) -> bool): (g: Grid)
    requires cell > 0
    ensures HasShape(g, height / cell, width / cell)
    ensures Rectangular(g)
    ensures forall y, x :: 0 <= y < |g| && 0 <= x < |g[y]| ==> (g[y][x] <==> fill(x, y))
  {
    seq(height / cell, y requires 0 <= y => seq(width / cell, x requires 0 <= x => fill(x, y)))
  }

  /** The oracle loses nothing: every grid of the right shape is the outcome of
      some sequence of draws. */
  lemma GenerateReachesEveryGrid(cell: nat, width: nat, height: nat, g: Grid)
    requires cell > 0
    requires HasShape(g, height / cell, width / cell)
    ensures GenerateMap(cell, width, height, (x: nat, y: nat) => Live(g, x, y)) == g
  {
    Edit.CellwiseEqual(GenerateMap(cell, width, height, (x: nat, y: nat) => Live(g, x, y)), g);
  }

  /** The generator as nested loops: start from the all-dead array of the
      right shape and set each cell the draw makes alive. */
  method GenerateMapLoops(cell: nat, width: nat, height: nat, fill: (nat, nat) -> bool) returns (m: Grid)
    requires cell > 0
    ensures m == GenerateMap(cell, width, height, fill)
  {
    var h, w := height / cell, width / cell;
    m := Edit.Zeros(h, w);
    var y := 0;
    while y < h
      invariant 0 <= y <= h
      invariant HasShape(m, h, w)
      invariant forall yy, xx :: 0 <= yy < y && 0 <= xx < w ==> m[yy][xx] == fill(xx, yy)
      invariant forall yy, xx :: y <= yy < h && 0 <= xx < w ==> !m[yy][xx]
    {
      var x := 0;
      while x < w
        invariant 0 <= x <= w
        invariant HasShape(m, h, w)
        invariant forall yy, xx :: 0 <= yy < y && 0 <= xx < w ==> m[yy][xx] == fill(xx, yy)
        invariant forall xx :: 0 <= xx < x ==> m[y][xx] == fill(xx, y)
        invariant forall xx :: x <= xx < w ==> !m[y][xx]
        invariant forall yy, xx :: y < yy < h && 0 <= xx < w ==> !m[yy][xx]
      {
        if fill(x, y) {
          m := m[y := m[y][x := true]];
        }
        x := x + 1;
      }
      y := y + 1;
    }
    Edit.CellwiseEqual(m, GenerateMap(cell, width, height, fill));
  }
}
