/**
  Whole-grid and single-cell edits: the all-dead grid of a given shape (what a
  fresh zero-filled array holds), clearing a grid, and toggling one cell.
 */
module Edit {
  import opened Grids

  /** The all-dead grid with `h` rows of `w` cells. */
  function Zeros(h: nat, w: nat): (r: Grid)
    ensures HasShape(r, h, w)
    ensures Rectangular(r)
    ensures AllDead(r)
  {
    seq(h, _ => seq(w, _ => false))
  }

  /** The all-dead grid of the same shape as `g`. */
  function Clear(g: Grid): (r: Grid)
    ensures SameShape(g, r)
    ensures AllDead(r)
  {
    seq(|g|, y requires 0 <= y < |g| => seq(|g[y]|, _ => false))
  }

  /** Flip the cell at column x, row y. Coordinates past the last column or row
      are rejected rather than clamped. */
  function Toggle(g: Grid, x: nat, y: nat): (r: Result<Grid>)
    ensures r.Ok? <==> InBounds(g, x, y)
    ensures r.Ok? ==> SameShape(g, r.value)
    ensures r.Ok? ==> r.value[y][x] == !g[y][x]
    ensures r.Ok? ==> forall yy, xx :: InBounds(g, xx, yy) && (xx != x || yy != y) ==> r.value[yy][xx] == g[yy][xx]
  {
    if y < |g| && x < |g[y]| then Ok(g[y := g[y][x := !g[y][x]]]) else OutOfBounds
  }

  /** Two grids of the same shape that agree on every cell are equal. */
  lemma {:induction false} CellwiseEqual(g: Grid, g': Grid)
    requires SameShape(g, g')
    requires forall y, x :: 0 <= y < |g| && 0 <= x < |g[y]| ==> g[y][x] == g'[y][x]
    ensures g == g'
  {
    forall y | 0 <= y < |g|
      ensures g[y] == g'[y]
    {
      assert forall x :: 0 <= x < |g[y]| ==> g[y][x] == g'[y][x];
    }
  }

  /** All-dead grids are exactly the fixed points of clearing. */
  lemma ClearFixedPoints(g: Grid)
    ensures Clear(g) == g <==> AllDead(g)
  {
    if AllDead(g) {
      CellwiseEqual(Clear(g), g);
    }
  }

  /** Toggling the same cell twice restores the grid. */
  lemma ToggleTwice(g: Grid, x: nat, y: nat)
    requires InBounds(g, x, y)
    ensures Toggle(g, x, y).Ok?
    ensures Toggle(Toggle(g, x, y).value, x, y) == Ok(g)
  {
    var g' := Toggle(g, x, y).value;
    CellwiseEqual(Toggle(g', x, y).value, g);
  }
}
