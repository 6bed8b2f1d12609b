/**
  The configuration the program runs with: Conway's rule (survive on 2 or 3
  neighbours, born on 3) and the eight-cell Moore neighbourhood in the
  program's order.
 */
module Conway {
  import opened Grids
  import Edit
  import Stepper

  const ConwayRules := Rules({2, 3}, {3})

  const Moore: seq<Offset> := [
    Offset(-1, -1), Offset(0, -1), Offset(1, -1), Offset(-1, 0),
    Offset(1, 0), Offset(-1, 1), Offset(0, 1), Offset(1, 1)
  ]

  /** 1 for a live position, 0 otherwise. */
  function Bit(b: bool): nat {
    if b then 1 else 0
  }

  /** The Moore count as the sum of its eight positions. */
  function MooreSum(g: Grid, x: int, y: int): nat {
    Bit(Live(g, x - 1, y - 1)) + Bit(Live(g, x, y - 1)) + Bit(Live(g, x + 1, y - 1)) +
    Bit(Live(g, x - 1, y)) + Bit(Live(g, x + 1, y)) +
    Bit(Live(g, x - 1, y + 1)) + Bit(Live(g, x, y + 1)) + Bit(Live(g, x + 1, y + 1))
  }

  /** Under the configured rule a cell's next state is decided by its Moore sum. */
  lemma StepByMooreSum(g: Grid, x: nat, y: nat)
    requires InBounds(g, x, y)
    ensures Stepper.Step(g, Moore, ConwayRules)[y][x] ==
      if g[y][x] then MooreSum(g, x, y) == 2 || MooreSum(g, x, y) == 3 else MooreSum(g, x, y) == 3
  {
    MooreCount(g, x, y);
  }

  /** The Moore count written out as the sum of its eight positions. */
  lemma MooreCount(g: Grid, x: int, y: int)
    ensures Stepper.NeighbourCount(g, Moore, x, y) == MooreSum(g, x, y)
  {
    Stepper.CountExtend(g, Moore, 0, x, y);
    Stepper.CountExtend(g, Moore, 1, x, y);
    Stepper.CountExtend(g, Moore, 2, x, y);
    Stepper.CountExtend(g, Moore, 3, x, y);
    Stepper.CountExtend(g, Moore, 4, x, y);
    Stepper.CountExtend(g, Moore, 5, x, y);
    Stepper.CountExtend(g, Moore, 6, x, y);
    Stepper.CountExtend(g, Moore, 7, x, y);
    assert Moore[..8] == Moore;
  }

  /** Under the configured rule, an all-dead grid is its own next generation. */
  lemma AllDeadStepsToAllDead(g: Grid)
    requires AllDead(g)
    ensures Stepper.Step(g, Moore, ConwayRules) == g
  {
    Stepper.AllDeadStaysDead(g, Moore, ConwayRules);
    Edit.ClearFixedPoints(g);
  }

  /** The only live cell of `g` is the corner (0, 0). */
  predicate LoneCorner(g: Grid) {
    InBounds(g, 0, 0) &&
    forall y, x :: 0 <= y < |g| && 0 <= x < |g[y]| ==> (g[y][x] <==> x == 0 && y == 0)
  }

  /** A corner cell has only three Moore positions on the grid, so its
      neighbour count is at most 3. */
  lemma CornerHasThreeCandidates(g: Grid)
    ensures |set i: nat | i < |Moore| && InBounds(g, Moore[i].dx, Moore[i].dy)| <= 3
    ensures Stepper.NeighbourCount(g, Moore, 0, 0) <= 3
  {
    MooreCount(g, 0, 0);
    var s := set i: nat | i < |Moore| && InBounds(g, Moore[i].dx, Moore[i].dy);
    assert s <= {4, 6, 7};
    assert |{4, 6, 7}| == 3;
    SubsetCardinality(s, {4, 6, 7});
  }

  /** A subset is no larger than its superset. */
  lemma {:induction false} SubsetCardinality(a: set<nat>, b: set<nat>)
    requires a <= b
    ensures |a| <= |b|
    decreases |b|
  {
    if a != {} {
      var e :| e in a;
      SubsetCardinality(a - {e}, b - {e});
    }
  }

  /** Under the configured rule, a lone live cell in the corner has no live
      neighbour and dies, and no cell is born next to it: the next generation
      is all-dead. */
  lemma LoneCornerDies(g: Grid)
    requires LoneCorner(g)
    ensures !Stepper.Step(g, Moore, ConwayRules)[0][0]
    ensures AllDead(Stepper.Step(g, Moore, ConwayRules))
  {
    var next := Stepper.Step(g, Moore, ConwayRules);
    forall y, x | 0 <= y < |next| && 0 <= x < |next[y]|
      ensures !next[y][x]
    {
      MooreCount(g, x, y);
      assert Stepper.NeighbourCount(g, Moore, x, y) <= 1;
    }
  }

  /** The cells of a 2 by 2 block with its top-left cell at (left, top). */
  predicate BlockAt(left: int, top: int, x: int, y: int) {
    left <= x <= left + 1 && top <= y <= top + 1
  }

  /** The cells of a line of three centred on (cx, cy): along row `cy` when
      `horizontal`, along column `cx` otherwise. */
  predicate BlinkerAt(cx: int, cy: int, horizontal: bool, x: int, y: int) {
    if horizontal then y == cy && cx - 1 <= x <= cx + 1 else x == cx && cy - 1 <= y <= cy + 1
  }

  /** A 2 by 2 block with its top-left cell at (left, top), inside a rectangular
      field that is otherwise dead; the block may touch the edges. */
  predicate IsBlock(g: Grid, left: nat, top: nat) {
    Rectangular(g) && |g| >= top + 2 && |g[0]| >= left + 2 &&
    forall y, x :: 0 <= y < |g| && 0 <= x < |g[y]| ==> g[y][x] == BlockAt(left, top, x, y)
  }

  /** A blinker centred on (cx, cy) in a rectangular field that is otherwise
      dead, with room for the line in both orientations. */
  predicate IsBlinker(g: Grid, cx: nat, cy: nat, horizontal: bool) {
    Rectangular(g) && 1 <= cy && cy + 1 < |g| && 1 <= cx && cx + 1 < |g[0]| &&
    forall y, x :: 0 <= y < |g| && 0 <= x < |g[y]| ==> g[y][x] == BlinkerAt(cx, cy, horizontal, x, y)
  }

  /** One cell of a block's next generation. */
  lemma BlockCell(g: Grid, left: nat, top: nat, x: nat, y: nat)
    requires IsBlock(g, left, top) && InBounds(g, x, y)
    ensures Stepper.Step(g, Moore, ConwayRules)[y][x] == BlockAt(left, top, x, y)
  {
    assert forall a, b :: Live(g, a, b) <==> BlockAt(left, top, a, b);
    StepByMooreSum(g, x, y);
  }

  /** The block is a still life: wherever it sits, it is its own next
      generation. */
  lemma BlockIsStill(g: Grid, left: nat, top: nat)
    requires IsBlock(g, left, top)
    ensures Stepper.Step(g, Moore, ConwayRules) == g
  {
    var next := Stepper.Step(g, Moore, ConwayRules);
    forall y, x | 0 <= y < |next| && 0 <= x < |next[y]|
      ensures next[y][x] == g[y][x]
    {
      BlockCell(g, left, top, x, y);
    }
    Edit.CellwiseEqual(next, g);
  }

  /** One cell of a blinker's next generation. */
  lemma BlinkerCell(g: Grid, cx: nat, cy: nat, horizontal: bool, x: nat, y: nat)
    requires IsBlinker(g, cx, cy, horizontal) && InBounds(g, x, y)
    ensures Stepper.Step(g, Moore, ConwayRules)[y][x] == BlinkerAt(cx, cy, !horizontal, x, y)
  {
    assert forall a, b :: Live(g, a, b) <==> BlinkerAt(cx, cy, horizontal, a, b);
    StepByMooreSum(g, x, y);
  }

  /** A blinker turns into the other orientation about the same centre at
      every step. */
  lemma BlinkerFlips(g: Grid, cx: nat, cy: nat, horizontal: bool)
    requires IsBlinker(g, cx, cy, horizontal)
    ensures IsBlinker(Stepper.Step(g, Moore, ConwayRules), cx, cy, !horizontal)
  {
    var next := Stepper.Step(g, Moore, ConwayRules);
    forall y, x | 0 <= y < |next| && 0 <= x < |next[y]|
      ensures next[y][x] == BlinkerAt(cx, cy, !horizontal, x, y)
    {
      BlinkerCell(g, cx, cy, horizontal, x, y);
    }
  }

  /** A blinker oscillates with period 2: two steps restore it. */
  lemma BlinkerPeriodTwo(g: Grid, cx: nat, cy: nat, horizontal: bool)
    requires IsBlinker(g, cx, cy, horizontal)
    ensures Stepper.Step(Stepper.Step(g, Moore, ConwayRules), Moore, ConwayRules) == g
  {
    var next := Stepper.Step(g, Moore, ConwayRules);
    BlinkerFlips(g, cx, cy, horizontal);
    BlinkerFlips(next, cx, cy, !horizontal);
    Edit.CellwiseEqual(Stepper.Step(next, Moore, ConwayRules), g);
  }
}
