/**
  One synchronous generation step of a Life-like automaton with hard edges:
  every cell's next state is decided from the live-neighbour count it has in
  the current generation, and the current generation is never written.
 */
module Stepper {
  import opened Grids
  import Edit

  /** Number of offsets in `zone` whose target, relative to (x, y), is a live
      cell of `g`. Offsets that fall off the grid add nothing. Counted over the
      offsets in order, so `NeighbourCount(g, zone[..k], x, y)` is the count
      after the first `k` offsets. */
  function NeighbourCount(g: Grid, zone: seq<Offset>, x: int, y: int): (n: nat)
    ensures n <= |zone|
    ensures AllDead(g) ==> n == 0
    decreases |zone|
  {
    if |zone| == 0 then 0
    else
      var a := zone[|zone| - 1];
      NeighbourCount(g, zone[..|zone| - 1], x, y) + (if Live(g, x + a.dx, y + a.dy) then 1 else 0)
  }

  /** Reference definition of the count: the positions in `zone` whose offset
      lands on a live cell of `g`. A repeated offset is a separate position. */
  function LiveNeighbours(g: Grid, zone: seq<Offset>, x: int, y: int): set<nat> {
    set i: nat | i < |zone| && Live(g, x + zone[i].dx, y + zone[i].dy)
  }

  /** The next state of one cell from its current state and its count. */
  function NextState(alive: bool, n: nat, rules: Rules): bool {
    if alive then n in rules.survive else n in rules.born
  }

  /** The next generation. It depends only on `g`, which it does not modify. */
  function Step(g: Grid, zone: seq<Offset>, rules: Rules): (r: Grid)
    ensures SameShape(g, r)
    ensures Rectangular(g) ==> Rectangular(r)
  {
    seq(|g|, y requires 0 <= y < |g| =>
      seq(|g[y]|, x requires 0 <= x < |g[y]| =>
        NextState(g[y][x], NeighbourCount(g, zone, x, y), rules)))
  }

  /** Extending the offsets by one adds that offset's contribution. */
  lemma CountExtend(g: Grid, zone: seq<Offset>, k: nat, x: int, y: int)
    requires k < |zone|
    ensures NeighbourCount(g, zone[..k + 1], x, y) ==
      NeighbourCount(g, zone[..k], x, y) + (if Live(g, x + zone[k].dx, y + zone[k].dy) then 1 else 0)
  {
    assert zone[..k + 1][..k] == zone[..k];
  }

  /** The count over two neighbourhoods laid end to end is the sum of their
      counts: each offset contributes on its own, whatever precedes it. */
  lemma {:induction false} CountAppend(g: Grid, z1: seq<Offset>, z2: seq<Offset>, x: int, y: int)
    ensures NeighbourCount(g, z1 + z2, x, y) == NeighbourCount(g, z1, x, y) + NeighbourCount(g, z2, x, y)
    decreases |z2|
  {
    if |z2| == 0 {
      assert z1 + z2 == z1;
    } else {
      var k := |z2| - 1;
      assert (z1 + z2)[..|z1 + z2| - 1] == z1 + z2[..k];
      assert (z1 + z2)[|z1 + z2| - 1] == z2[k];
      CountAppend(g, z1, z2[..k], x, y);
    }
  }

  /** The running count agrees with the reference definition. */
  lemma {:induction false} CountIsLiveNeighbours(g: Grid, zone: seq<Offset>, x: int, y: int)
    ensures NeighbourCount(g, zone, x, y) == |LiveNeighbours(g, zone, x, y)|
    decreases |zone|
  {
    if |zone| == 0 {
      assert LiveNeighbours(g, zone, x, y) == {};
    } else {
      var k := |zone| - 1;
      var prefix := zone[..k];
      var a := zone[k];
      CountIsLiveNeighbours(g, prefix, x, y);
      assert forall i :: 0 <= i < k ==> prefix[i] == zone[i];
      if Live(g, x + a.dx, y + a.dy) {
        assert LiveNeighbours(g, zone, x, y) == LiveNeighbours(g, prefix, x, y) + {k};
      } else {
        assert LiveNeighbours(g, zone, x, y) == LiveNeighbours(g, prefix, x, y);
      }
    }
  }

  /** A live cell is alive in the next generation iff the number of its
      neighbour positions holding a live cell is a survive count. */
  lemma StepLiveCell(g: Grid, zone: seq<Offset>, rules: Rules, x: nat, y: nat)
    requires InBounds(g, x, y) && g[y][x]
    ensures Step(g, zone, rules)[y][x] <==> |LiveNeighbours(g, zone, x, y)| in rules.survive
  {
    CountIsLiveNeighbours(g, zone, x, y);
  }

  /** A dead cell is alive in the next generation iff the number of its
      neighbour positions holding a live cell is a born count. */
  lemma StepDeadCell(g: Grid, zone: seq<Offset>, rules: Rules, x: nat, y: nat)
    requires InBounds(g, x, y) && !g[y][x]
    ensures Step(g, zone, rules)[y][x] <==> |LiveNeighbours(g, zone, x, y)| in rules.born
  {
    CountIsLiveNeighbours(g, zone, x, y);
  }

  /** Two grids that agree on every position of a neighbourhood count the same
      live neighbours there. */
  lemma {:induction false} CountLocal(g: Grid, g': Grid, zone: seq<Offset>, x: int, y: int)
    requires forall i :: 0 <= i < |zone| ==> Live(g, x + zone[i].dx, y + zone[i].dy) == Live(g', x + zone[i].dx, y + zone[i].dy)
    ensures NeighbourCount(g, zone, x, y) == NeighbourCount(g', zone, x, y)
    decreases |zone|
  {
    if |zone| > 0 {
      var k := |zone| - 1;
      assert forall i :: 0 <= i < k ==> zone[..k][i] == zone[i];
      CountLocal(g, g', zone[..k], x, y);
    }
  }

  /** Synchronous update: a cell's next state is fixed by its own current state
      and the current state of the cells its neighbourhood reaches, whatever the
      rest of the grid holds. */
  lemma StepIsLocal(g: Grid, g': Grid, zone: seq<Offset>, rules: Rules, x: nat, y: nat)
    requires SameShape(g, g')
    requires InBounds(g, x, y) && g[y][x] == g'[y][x]
    requires forall i :: 0 <= i < |zone| && InBounds(g, x + zone[i].dx, y + zone[i].dy) ==>
      g[y + zone[i].dy][x + zone[i].dx] == g'[y + zone[i].dy][x + zone[i].dx]
    ensures Step(g, zone, rules)[y][x] == Step(g', zone, rules)[y][x]
  {
    CountLocal(g, g', zone, x, y);
  }

  /** If no cell is born from a count of zero, an all-dead grid stays all-dead. */
  lemma AllDeadStaysDead(g: Grid, zone: seq<Offset>, rules: Rules)
    requires AllDead(g) && 0 !in rules.born
    ensures Step(g, zone, rules) == Edit.Clear(g)
  {
    Edit.CellwiseEqual(Step(g, zone, rules), Edit.Clear(g));
  }

  /** The step as nested loops: the result starts all-dead and a cell is set
      only when the rule makes it alive; the input is only read. */
  method StepLoops(g: Grid, zone: seq<Offset>, rules: Rules) returns (newMap: Grid)
    requires Rectangular(g)
    ensures newMap == Step(g, zone, rules)
  {
    ghost var next := Step(g, zone, rules);
    newMap := Edit.Clear(g);
    var y := 0;
    while y < |g|
      invariant 0 <= y <= |g|
      invariant SameShape(g, newMap)
      invariant forall yy, xx :: 0 <= yy < y && 0 <= xx < |g[yy]| ==> newMap[yy][xx] == next[yy][xx]
      invariant forall yy, xx :: y <= yy < |g| && 0 <= xx < |g[yy]| ==> !newMap[yy][xx]
    {
      var x := 0;
      while x < |g[y]|
        invariant 0 <= x <= |g[y]|
        invariant SameShape(g, newMap)
        invariant forall yy, xx :: 0 <= yy < y && 0 <= xx < |g[yy]| ==> newMap[yy][xx] == next[yy][xx]
        invariant forall xx :: 0 <= xx < x ==> newMap[y][xx] == next[y][xx]
        invariant forall xx :: x <= xx < |g[y]| ==> !newMap[y][xx]
        invariant forall yy, xx :: y < yy < |g| && 0 <= xx < |g[yy]| ==> !newMap[yy][xx]
      {
        var n := 0;
        var k := 0;
        while k < |zone|
          invariant 0 <= k <= |zone|
          invariant n == NeighbourCount(g, zone[..k], x, y)
        {
          var a := zone[k];
          var cx, cy := x + a.dx, y + a.dy;
          CountExtend(g, zone, k, x, y);
          if !(cx >= |g[y]| || cx < 0) && !(cy >= |g| || cy < 0) {
            if g[cy][cx] {
              n := n + 1;
            }
          }
          k := k + 1;
        }
        assert zone[..|zone|] == zone;
        if g[y][x] {
          if n in rules.survive {
            newMap := newMap[y := newMap[y][x := true]];
          }
        } else {
          if n in rules.born {
            newMap := newMap[y := newMap[y][x := true]];
          }
        }
        x := x + 1;
      }
      y := y + 1;
    }
    Edit.CellwiseEqual(newMap, next);
  }
}
