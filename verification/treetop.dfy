/** Day 8, "Treetop Tree House": a grid of tree heights; a tree is visible
    from outside when every tree between it and an edge is shorter, and it
    sees as far as the first tree at least as tall. */
module Treetop {
  import opened Wrappers
  import Text

  /** Rows of heights, top row first. */
  type Grid = seq<seq<nat>>

  datatype Dir = Up | Down | Left | Right

  /** All rows have the same length. The source indexes `pts[n][j]` along a
      column and would panic on a ragged grid, so every operation below
      asks for a rectangular one. */
  predicate Rectangular(g: Grid)
  {
    forall r :: 0 <= r < |g| ==> |g[r]| == Width(g)
  }

  /** The length of the first row. */
  function Width(g: Grid): nat { if |g| == 0 then 0 else |g[0]| }

  predicate InGrid(g: Grid, i: nat, j: nat) { i < |g| && j < |g[i]| }

  /** How many trees lie between `(i, j)` and the edge in direction `dir`. */
  function Reach(g: Grid, dir: Dir, i: nat, j: nat): nat
    requires InGrid(g, i, j)
  {
    match dir
    case Up => i
    case Down => |g| - 1 - i
    case Left => j
    case Right => |g[i]| - 1 - j
  }

  /** The height of the `k`-th tree from `(i, j)` in direction `dir`. */
  function Cell(g: Grid, dir: Dir, i: nat, j: nat, k: nat): nat
    requires Rectangular(g) && InGrid(g, i, j) && 1 <= k <= Reach(g, dir, i, j)
  {
    match dir
    case Up => g[i - k][j]
    case Down => g[i + k][j]
    case Left => g[i][j - k]
    case Right => g[i][j + k]
  }

  /** Every tree between `(i, j)` and the edge is shorter than it. */
  predicate Visible(g: Grid, dir: Dir, i: nat, j: nat)
    requires Rectangular(g) && InGrid(g, i, j)
  {
    forall k :: 1 <= k <= Reach(g, dir, i, j) ==> Cell(g, dir, i, j, k) < g[i][j]
  }

  /** `visible_from`: walk the line of trees towards the edge and fail at
      the first one at least as tall. (The source walks the upward and
      leftward lines from the edge inwards; the answer does not depend on
      the order.) */
  method VisibleFrom(dir: Dir, i: nat, j: nat, g: Grid) returns (b: bool)
    requires Rectangular(g) && InGrid(g, i, j)
    ensures b <==> Visible(g, dir, i, j)
  {
    var height := g[i][j];
    var k := 1;
    while k <= Reach(g, dir, i, j)
      invariant 1 <= k <= Reach(g, dir, i, j) + 1
      invariant forall k' :: 1 <= k' < k ==> Cell(g, dir, i, j, k') < height
    {
      if Cell(g, dir, i, j, k) >= height {
        return false;
      }
      k := k + 1;
    }
    return true;
  }

  /** The viewing distance as a reference search: the first tree from the
      `k`-th on that is at least as tall, counted from `(i, j)`, or the
      distance to the edge. */
  function DistanceFrom(g: Grid, dir: Dir, i: nat, j: nat, k: nat): (d: nat)
    requires Rectangular(g) && InGrid(g, i, j) && 1 <= k <= Reach(g, dir, i, j) + 1
    ensures k <= d <= Reach(g, dir, i, j) || (d == k - 1 == Reach(g, dir, i, j))
    decreases Reach(g, dir, i, j) + 1 - k
  {
    if k > Reach(g, dir, i, j) then Reach(g, dir, i, j)
    else if Cell(g, dir, i, j, k) >= g[i][j] then k
    else DistanceFrom(g, dir, i, j, k + 1)
  }

  /** The search passes only shorter trees and stops at a tall one or at
      the edge. */
  lemma {:induction false} DistanceFromStops(g: Grid, dir: Dir, i: nat, j: nat, k: nat)
    requires Rectangular(g) && InGrid(g, i, j) && 1 <= k <= Reach(g, dir, i, j) + 1
    ensures forall m :: k <= m < DistanceFrom(g, dir, i, j, k) ==> Cell(g, dir, i, j, m) < g[i][j]
    ensures DistanceFrom(g, dir, i, j, k) < Reach(g, dir, i, j) ==>
      Cell(g, dir, i, j, DistanceFrom(g, dir, i, j, k)) >= g[i][j]
    decreases Reach(g, dir, i, j) + 1 - k
  {
    if k <= Reach(g, dir, i, j) && Cell(g, dir, i, j, k) < g[i][j] {
      DistanceFromStops(g, dir, i, j, k + 1);
    }
  }

  /** How many trees `(i, j)` sees in direction `dir`: up to and including
      the first one at least as tall, or up to the edge. */
  function Distance(g: Grid, dir: Dir, i: nat, j: nat): (d: nat)
    requires Rectangular(g) && InGrid(g, i, j)
    ensures d <= Reach(g, dir, i, j)
    ensures d == 0 <==> Reach(g, dir, i, j) == 0
  {
    DistanceFrom(g, dir, i, j, 1)
  }

  /** Every tree before the viewing distance is shorter, and the tree at it
      is at least as tall unless it is the last one before the edge. */
  lemma DistanceStops(g: Grid, dir: Dir, i: nat, j: nat)
    requires Rectangular(g) && InGrid(g, i, j)
    ensures forall m :: 1 <= m < Distance(g, dir, i, j) ==> Cell(g, dir, i, j, m) < g[i][j]
    ensures 0 < Distance(g, dir, i, j) < Reach(g, dir, i, j) ==>
      Cell(g, dir, i, j, Distance(g, dir, i, j)) >= g[i][j]
  {
    DistanceFromStops(g, dir, i, j, 1);
  }

  /** `viewing_distance`: count the trees walked past, stopping after the
      first that is at least as tall. */
  method ViewingDistance(dir: Dir, i: nat, j: nat, g: Grid) returns (distance: nat)
    requires Rectangular(g) && InGrid(g, i, j)
    ensures distance == Distance(g, dir, i, j)
  {
    var height := g[i][j];
    distance := 0;
    var k := 1;
    while k <= Reach(g, dir, i, j)
      invariant 1 <= k <= Reach(g, dir, i, j) + 1
      invariant distance == k - 1
      invariant DistanceFrom(g, dir, i, j, 1) == DistanceFrom(g, dir, i, j, k)
    {
      distance := distance + 1;
      if Cell(g, dir, i, j, k) >= height {
        return;
      }
      k := k + 1;
    }
  }

  /** A tree visible from a direction sees all the way to that edge. */
  lemma VisibleSeesEdge(g: Grid, dir: Dir, i: nat, j: nat)
    requires Rectangular(g) && InGrid(g, i, j) && Visible(g, dir, i, j)
    ensures Distance(g, dir, i, j) == Reach(g, dir, i, j)
  {
    DistanceStops(g, dir, i, j);
  }

  /** Seeing the edge over only shorter trees is being visible from it. */
  lemma VisibleIffClearView(g: Grid, dir: Dir, i: nat, j: nat)
    requires Rectangular(g) && InGrid(g, i, j)
    ensures Visible(g, dir, i, j) <==>
      Distance(g, dir, i, j) == Reach(g, dir, i, j)
      && (Reach(g, dir, i, j) == 0 || Cell(g, dir, i, j, Reach(g, dir, i, j)) < g[i][j])
  {
    DistanceStops(g, dir, i, j);
  }

  /** Visible from at least one of the four directions. */
  predicate IsVisible(g: Grid, i: nat, j: nat)
    requires Rectangular(g) && InGrid(g, i, j)
  {
    Visible(g, Up, i, j) || Visible(g, Down, i, j) || Visible(g, Left, i, j) || Visible(g, Right, i, j)
  }

  /** A tree on the edge of the grid is always visible. */
  lemma EdgeVisible(g: Grid, i: nat, j: nat)
    requires Rectangular(g) && InGrid(g, i, j)
    requires i == 0 || j == 0 || i == |g| - 1 || j == |g[i]| - 1
    ensures IsVisible(g, i, j)
  {
    if i == 0 {
      assert Visible(g, Up, i, j);
    } else if j == 0 {
      assert Visible(g, Left, i, j);
    } else if i == |g| - 1 {
      assert Visible(g, Down, i, j);
    } else {
      assert Visible(g, Right, i, j);
    }
  }

  /** The number of visible trees in row `i` before column `m`. */
  function RowVisible(g: Grid, i: nat, m: nat): (n: nat)
    requires Rectangular(g) && i < |g| && m <= |g[i]|
    ensures n <= m
  {
    if m == 0 then 0 else RowVisible(g, i, m - 1) + (if IsVisible(g, i, m - 1) then 1 else 0)
  }

  /** The number of visible trees in the rows before row `n`. */
  function GridVisible(g: Grid, n: nat): nat
    requires Rectangular(g) && n <= |g|
  {
    if n == 0 then 0 else GridVisible(g, n - 1) + RowVisible(g, n - 1, |g[n - 1]|)
  }

  /** `visible`: for every tree, try the four directions in turn and count
      it once if any of them sees it. */
  method CountVisible(g: Grid) returns (visible: nat)
    requires Rectangular(g)
    ensures visible == GridVisible(g, |g|)
  {
    visible := 0;
    var i := 0;
    while i < |g|
      invariant 0 <= i <= |g|
      invariant visible == GridVisible(g, i)
    {
      var j := 0;
      var row := 0;
      while j < |g[i]|
        invariant 0 <= j <= |g[i]|
        invariant row == RowVisible(g, i, j)
      {
        // The four directions in turn, stopping at the first that sees it.
        var seen := VisibleFrom(Up, i, j, g);
        if !seen {
          seen := VisibleFrom(Down, i, j, g);
        }
        if !seen {
          seen := VisibleFrom(Left, i, j, g);
        }
        if !seen {
          seen := VisibleFrom(Right, i, j, g);
        }
        if seen {
          row := row + 1;
        }
        j := j + 1;
      }
      visible := visible + row;
      i := i + 1;
    }
  }

  /** The number of trees in the rows before row `n`. */
  function Trees(g: Grid, n: nat): nat
    requires n <= |g|
  {
    if n == 0 then 0 else Trees(g, n - 1) + |g[n - 1]|
  }

  /** No more trees are visible than there are trees. */
  lemma {:induction false} VisibleAtMostTrees(g: Grid, n: nat)
    requires Rectangular(g) && n <= |g|
    ensures GridVisible(g, n) <= Trees(g, n)
  {
    if n > 0 {
      VisibleAtMostTrees(g, n - 1);
    }
  }

  /** In a single row every tree is on the edge, so all are visible. */
  lemma {:induction false} SingleRowAllVisible(g: Grid, m: nat)
    requires |g| == 1 && m <= |g[0]|
    ensures RowVisible(g, 0, m) == m
  {
    if m > 0 {
      SingleRowAllVisible(g, m - 1);
      EdgeVisible(g, 0, m - 1);
    }
  }

  /** `scenic_score`: the product of the four viewing distances. */
  function ScenicScore(g: Grid, i: nat, j: nat): nat
    requires Rectangular(g) && InGrid(g, i, j)
  {
    Product(Product(Distance(g, Up, i, j), Distance(g, Down, i, j)),
      Product(Distance(g, Left, i, j), Distance(g, Right, i, j)))
  }

  function Product(a: nat, b: nat): (p: nat)
    ensures p == 0 <==> a == 0 || b == 0
  {
    a * b
  }

  /** A tree on the edge sees nothing in one direction, so scores 0. */
  lemma EdgeScoresZero(g: Grid, i: nat, j: nat)
    requires Rectangular(g) && InGrid(g, i, j)
    requires i == 0 || j == 0 || i == |g| - 1 || j == |g[i]| - 1
    ensures ScenicScore(g, i, j) == 0
  {
  }

  /** The scores of row `i` before column `m`, left to right. */
  function RowScores(g: Grid, i: nat, m: nat): (r: seq<nat>)
    requires Rectangular(g) && i < |g| && m <= |g[i]|
    ensures |r| == m
  {
    if m == 0 then [] else RowScores(g, i, m - 1) + [ScenicScore(g, i, m - 1)]
  }

  /** The scores of the rows before row `n`, in the order `points_iter`
      visits the trees. */
  function AllScores(g: Grid, n: nat): (r: seq<nat>)
    requires Rectangular(g) && n <= |g|
    ensures |r| == Trees(g, n)
  {
    if n == 0 then [] else AllScores(g, n - 1) + RowScores(g, n - 1, |g[n - 1]|)
  }

  /** The largest element of a list, if any (`iter().max()`). */
  function MaxOf(xs: seq<nat>): (r: Option<nat>)
    ensures r.None? <==> |xs| == 0
    ensures r.Some? ==> r.value in xs && forall k :: 0 <= k < |xs| ==> xs[k] <= r.value
  {
    if |xs| == 0 then None
    else
      var rest := MaxOf(xs[..|xs| - 1]);
      assert xs == xs[..|xs| - 1] + [xs[|xs| - 1]];
      if rest.None? || xs[|xs| - 1] > rest.value then Some(xs[|xs| - 1]) else rest
  }

  /** `max_scenic_score`: collect every tree's score, then take the
      largest; `None` for a grid without trees, where the source's
      `unwrap` panics. */
  method MaxScenicScore(g: Grid) returns (r: Option<nat>)
    requires Rectangular(g)
    ensures r == MaxOf(AllScores(g, |g|))
  {
    var scores := CollectScores(g);
    r := MaxOf(scores);
  }

  /** The outer loop of `points_iter` and the scoring, row by row. */
  method CollectScores(g: Grid) returns (scores: seq<nat>)
    requires Rectangular(g)
    ensures scores == AllScores(g, |g|)
  {
    scores := [];
    var i := 0;
    while i < |g|
      invariant 0 <= i <= |g|
      invariant scores == AllScores(g, i)
    {
      var row := CollectRow(g, i);
      NextRowScores(g, i, scores, row);
      scores := scores + row;
      i := i + 1;
    }
  }

  lemma NextRowScores(g: Grid, i: nat, before: seq<nat>, row: seq<nat>)
    requires Rectangular(g) && i < |g|
    requires before == AllScores(g, i) && row == RowScores(g, i, |g[i]|)
    ensures before + row == AllScores(g, i + 1)
  {
  }

  /** The inner loop of `points_iter` and the scoring, for one row. */
  method CollectRow(g: Grid, i: nat) returns (row: seq<nat>)
    requires Rectangular(g) && i < |g|
    ensures row == RowScores(g, i, |g[i]|)
  {
    var j := 0;
    row := [];
    while j < |g[i]|
      invariant 0 <= j <= |g[i]|
      invariant row == RowScores(g, i, j)
    {
      row := row + [ScenicScore(g, i, j)];
      j := j + 1;
    }
  }

  /** Every tree's score is among the collected ones, so the answer is the
      best score of any tree, and there is one exactly when there are trees. */
  lemma MaxScenicScoreIsBest(g: Grid, i: nat, j: nat)
    requires Rectangular(g) && InGrid(g, i, j)
    ensures MaxOf(AllScores(g, |g|)).Some?
    ensures ScenicScore(g, i, j) <= MaxOf(AllScores(g, |g|)).value
  {
    ScoreCollected(g, |g|, i, j);
  }

  lemma {:induction false} ScoreCollected(g: Grid, n: nat, i: nat, j: nat)
    requires Rectangular(g) && n <= |g| && i < n && j < |g[i]|
    ensures ScenicScore(g, i, j) in AllScores(g, n)
  {
    var before, row := AllScores(g, n - 1), RowScores(g, n - 1, |g[n - 1]|);
    assert AllScores(g, n) == before + row;
    if i < n - 1 {
      ScoreCollected(g, n - 1, i, j);
    } else {
      RowScoreCollected(g, i, |g[i]|, j);
    }
  }

  lemma {:induction false} RowScoreCollected(g: Grid, i: nat, m: nat, j: nat)
    requires Rectangular(g) && i < |g| && j < m <= |g[i]|
    ensures ScenicScore(g, i, j) in RowScores(g, i, m)
  {
    if j < m - 1 {
      RowScoreCollected(g, i, m - 1, j);
    }
  }

  /** `string_to_points`: one row per line, one digit per tree; `None` for
      a character that is not a digit, where the source's `unwrap` panics. */
  function ParseGrid(input: string): (r: Option<Grid>)
    ensures r.Some? ==> |r.value| == |Text.Lines(input)|
    ensures r.Some? ==> forall i :: 0 <= i < |r.value| ==> |r.value[i]| == |Text.Lines(input)[i]|
  {
    MapAll(Text.Lines(input), ParseRow)
  }

  function ParseRow(line: string): (r: Option<seq<nat>>)
    ensures r.Some? <==> Text.AllDigits(line)
    ensures r.Some? ==> |r.value| == |line| && forall k :: 0 <= k < |line| ==> r.value[k] == Text.DigitValue(line[k])
  {
    MapAll(line, (c: char) => if Text.IsDigit(c) then Some(Text.DigitValue(c)) else None)
  }

  /** The 3 x 3 grid with a low centre shows 8 trees. */
  lemma HiddenCentre()
    ensures GridVisible([[1, 1, 1], [1, 0, 1], [1, 1, 1]], 3) == 8
  {
    var g: Grid := [[1, 1, 1], [1, 0, 1], [1, 1, 1]];
    forall i, j | InGrid(g, i, j) && (i != 1 || j != 1)
      ensures IsVisible(g, i, j)
    {
      EdgeVisible(g, i, j);
    }
    assert !Visible(g, Up, 1, 1) by { assert Cell(g, Up, 1, 1, 1) == 1; }
    assert !Visible(g, Down, 1, 1) by { assert Cell(g, Down, 1, 1, 1) == 1; }
    assert !Visible(g, Left, 1, 1) by { assert Cell(g, Left, 1, 1, 1) == 1; }
    assert !Visible(g, Right, 1, 1) by { assert Cell(g, Right, 1, 1, 1) == 1; }
  }
}
