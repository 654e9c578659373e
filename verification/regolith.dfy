/** Day 14, "Regolith Reservoir": rock paths drawn into a grid of blocked
    cells, and grains of sand that fall from (500, 0) until they come to
    rest. A point `(x, y)` is the `Cell(x, y)`; the grid is indexed
    `space[y][x]`, `y` growing downwards. */
module Regolith {
  import opened Wrappers
  import opened Coords
  import Text

  /** Where the sand enters (`START`). */
  const Source := Cell(500, 0)

  /** The width of every row of the grid `space` builds. */
  const Width := 1001

  type Grid = seq<seq<bool>>

  predicate OnGrid(space: Grid, c: Cell)
  {
    c.j < |space| && c.i < |space[c.j]|
  }

  /** Whether a cell is blocked; `None` off the grid, where indexing panics. */
  function Blocked(space: Grid, x: nat, y: nat): (r: Option<bool>)
    ensures r.Some? <==> OnGrid(space, Cell(x, y))
    ensures r.Some? ==> r.value == space[y][x]
  {
    if y < |space| && x < |space[y]| then Some(space[y][x]) else None
  }

  /** `move_sand_down`: `Some(Some(q))` when the grain moves to `q`,
      `Some(None)` when it is stuck, and `None` where the source panics (a
      cell it looks at is off the grid, or `x - 1` underflows). */
  function MoveSandDown(p: Cell, space: Grid): (r: Option<Option<Cell>>)
    ensures r.Some? && r.value.Some? ==>
      var q := r.value.value;
      q.j == p.j + 1 && p.i <= q.i + 1 && q.i <= p.i + 1 && OnGrid(space, q) && !space[q.j][q.i]
    ensures Blocked(space, p.i, p.j + 1) == Some(false) ==> r == Some(Some(Cell(p.i, p.j + 1)))
    ensures p.i > 0 && Blocked(space, p.i, p.j + 1) == Some(true) && Blocked(space, p.i - 1, p.j + 1) == Some(false) ==>
      r == Some(Some(Cell(p.i - 1, p.j + 1)))
    ensures (p.i > 0 && Blocked(space, p.i, p.j + 1) == Some(true) && Blocked(space, p.i - 1, p.j + 1) == Some(true)
      && Blocked(space, p.i + 1, p.j + 1) == Some(false)) ==> r == Some(Some(Cell(p.i + 1, p.j + 1)))
    ensures r == Some(None) <==>
      p.i > 0 && Blocked(space, p.i, p.j + 1) == Some(true) && Blocked(space, p.i - 1, p.j + 1) == Some(true)
      && Blocked(space, p.i + 1, p.j + 1) == Some(true)
  {
    var below :- Blocked(space, p.i, p.j + 1);
    if !below then Some(Some(Cell(p.i, p.j + 1)))
    else if p.i == 0 then None
    else
      var left := space[p.j + 1][p.i - 1];
      if !left then Some(Some(Cell(p.i - 1, p.j + 1)))
      else
        var right :- Blocked(space, p.i + 1, p.j + 1);
        if !right then Some(Some(Cell(p.i + 1, p.j + 1))) else Some(None)
  }

  /** The source's three single moves on a three-wide grid. */
  lemma MoveExamples()
    ensures MoveSandDown(Cell(1, 0), [[false, false, false], [false, false, false], [true, true, true]]) == Some(Some(Cell(1, 1)))
    ensures MoveSandDown(Cell(1, 0), [[false, false, false], [false, true, false], [true, true, true]]) == Some(Some(Cell(0, 1)))
    ensures MoveSandDown(Cell(1, 0), [[false, false, false], [true, true, false], [true, true, true]]) == Some(Some(Cell(2, 1)))
  {
  }

  /** The loop of `sand_filled`: move until stuck. The resting place is
      stuck, no higher than the start, and a free cell unless it is the
      start itself. */
  function Fall(p: Cell, space: Grid): (r: Option<Cell>)
    ensures r.Some? ==> MoveSandDown(r.value, space) == Some(None)
    ensures r.Some? ==> r.value.j >= p.j
    ensures r.Some? && r.value != p ==> OnGrid(space, r.value) && !space[r.value.j][r.value.i]
    decreases |space| - p.j
  {
    var m :- MoveSandDown(p, space);
    match m
    case None => Some(p)
    case Some(q) => Fall(q, space)
  }

  /** The loop of `sand_falls_to_floor`: move until stuck, or until the
      grain is on one of the last two rows. */
  function FallToFloor(p: Cell, space: Grid): (r: Option<Cell>)
    ensures r.Some? ==> MoveSandDown(r.value, space) == Some(None) || r.value.j + 1 >= |space|
    ensures r.Some? ==> r.value.j >= p.j
    ensures r.Some? && r.value != p ==> OnGrid(space, r.value) && !space[r.value.j][r.value.i]
    decreases |space| - p.j
  {
    var m :- MoveSandDown(p, space);
    match m
    case None => Some(p)
    case Some(q) => if q.j + 1 >= |space| then Some(q) else FallToFloor(q, space)
  }

  /** Until the last two rows the two loops agree: a grain that comes to
      rest higher up rests in the same place either way. */
  lemma {:induction false} FallsAgree(p: Cell, space: Grid)
    requires FallToFloor(p, space).Some? && FallToFloor(p, space).value.j + 1 < |space|
    ensures Fall(p, space) == FallToFloor(p, space)
    decreases |space| - p.j
  {
    var m := MoveSandDown(p, space).value;
    if m.Some? {
      FallsAgree(m.value, space);
    }
  }

  /** One cell set to blocked; every other cell as it was. */
  function Mark(space: Grid, c: Cell): (r: Grid)
    requires OnGrid(space, c)
    ensures |r| == |space| && forall y :: 0 <= y < |r| ==> |r[y]| == |space[y]|
    ensures r[c.j][c.i]
    ensures forall y, x :: 0 <= y < |r| && 0 <= x < |r[y]| && Cell(x, y) != c ==> r[y][x] == space[y][x]
  {
    space[c.j := space[c.j][c.i := true]]
  }

  /** `sand_falls_to_floor`: the grain's resting cell is marked, and the
      answer is whether it rests within the last three rows. `None` where
      the source panics: a move off the grid, a resting cell off the grid,
      or fewer than three rows. */
  function SandFallsToFloor(start: Cell, space: Grid): (r: Option<(Grid, bool)>)
    ensures r.Some? ==> FallToFloor(start, space).Some?
    ensures r.Some? ==>
      var rest := FallToFloor(start, space).value;
      OnGrid(space, rest) && r.value.0 == Mark(space, rest) && (r.value.1 <==> rest.j + 3 >= |space|)
  {
    var rest :- FallToFloor(start, space);
    if !OnGrid(space, rest) || |space| < 3 then None
    else Some((Mark(space, rest), rest.j >= |space| - 3))
  }

  /** The source's fixtures: a grain stopped by a floor comes to rest on
      it, above the last three rows. */
  lemma FloorExample()
    ensures var space := [[false, false, false], [false, false, false], [true, true, true], [false, false, false], [true, true, true]];
      SandFallsToFloor(Cell(1, 0), space) == Some((Mark(space, Cell(1, 1)), false))
  {
    var space := [[false, false, false], [false, false, false], [true, true, true], [false, false, false], [true, true, true]];
    assert MoveSandDown(Cell(1, 1), space) == Some(None);
  }

  /** `sand_filled`: the grain's resting cell is marked, and the answer is
      whether it rested at the source. */
  function SandFilled(start: Cell, space: Grid): (r: Option<(Grid, bool)>)
    ensures r.Some? ==> Fall(start, space).Some?
    ensures r.Some? ==>
      var rest := Fall(start, space).value;
      OnGrid(space, rest) && r.value.0 == Mark(space, rest) && (r.value.1 <==> rest == Source)
  {
    var rest :- Fall(start, space);
    if !OnGrid(space, rest) then None
    else Some((Mark(space, rest), rest == Source))
  }

  /** A grain that does not come to rest at its start adds a blocked cell
      that was free before: the sand in the grid grows by one grain. */
  lemma GrainTakesFreeCell(start: Cell, space: Grid)
    requires SandFilled(start, space).Some?
    requires Fall(start, space).value != start
    ensures var rest := Fall(start, space).value;
      !space[rest.j][rest.i] && SandFilled(start, space).value.0[rest.j][rest.i]
  {
  }

  /** The deepest row among the points and the source. */
  function Depth(points: seq<Cell>): (d: nat)
    ensures forall k :: 0 <= k < |points| ==> points[k].j <= d
    ensures d == Source.j || exists k :: 0 <= k < |points| && points[k].j == d
  {
    if |points| == 0 then Source.j
    else
      var rest := Depth(points[1..]);
      assert forall k :: 1 <= k < |points| ==> points[k] == points[1..][k - 1];
      if points[0].j > rest then points[0].j else rest
  }

  /** `space`: the source is added to the points; there are `depth + 2`
      open rows of width 1001, then a row that is all rock; every point
      is marked. `None` when a point lies beyond the width, where the
      source's indexing panics. */
  function Space(points: seq<Cell>): (r: Option<Grid>)
    ensures r.Some? <==> forall k :: 0 <= k < |points| ==> points[k].i < Width
    ensures r.Some? ==> |r.value| == Depth(points) + 3
    ensures r.Some? ==> forall y :: 0 <= y < |r.value| ==> |r.value[y]| == Width
    ensures r.Some? ==> forall y, x :: 0 <= y < |r.value| && 0 <= x < Width ==>
      (r.value[y][x] <==> y == |r.value| - 1 || Cell(x, y) in points || Cell(x, y) == Source)
  {
    if exists k :: 0 <= k < |points| && points[k].i >= Width then None
    else
      var depth := Depth(points);
      Some(seq(depth + 3, y requires 0 <= y < depth + 3 =>
        seq(Width, x requires 0 <= x < Width =>
          y == depth + 2 || Cell(x, y) in points || Cell(x, y) == Source)))
  }

  /** The source's example: the deepest point is at row 30, so there are
      33 rows. */
  lemma SpaceExample()
    ensures var space := Space([Cell(0, 1), Cell(20, 30), Cell(600, 25)]);
      space.Some? && |space.value| == 33 && space.value[1][0] && !space.value[2][0]
  {
    var points := [Cell(0, 1), Cell(20, 30), Cell(600, 25)];
    assert Depth(points) == 30;
    assert Cell(0, 1) in points;
    assert Cell(0, 2) !in points;
  }

  /** Every cell between two corners, the first coordinate outermost (the
      two nested ranges of `parse_input`); for a horizontal or vertical
      segment these are the points on it. */
  function Box(a: Cell, b: Cell): (r: seq<Cell>)
    ensures forall q :: q in r <==> InBox(a, b, q)
  {
    var x0 := if a.i <= b.i then a.i else b.i;
    var x1 := if a.i <= b.i then b.i else a.i;
    var y0 := if a.j <= b.j then a.j else b.j;
    var y1 := if a.j <= b.j then b.j else a.j;
    Columns(x0, x1, y0, y1)
  }

  predicate InBox(a: Cell, b: Cell, q: Cell)
  {
    (a.i <= q.i <= b.i || b.i <= q.i <= a.i) && (a.j <= q.j <= b.j || b.j <= q.j <= a.j)
  }

  function Columns(x: nat, x1: nat, y0: nat, y1: nat): (r: seq<Cell>)
    ensures forall q :: q in r <==> x <= q.i <= x1 && y0 <= q.j <= y1
    decreases x1 + 1 - x
  {
    if x > x1 then [] else Column(x, y0, y1) + Columns(x + 1, x1, y0, y1)
  }

  function Column(x: nat, y: nat, y1: nat): (r: seq<Cell>)
    ensures forall q :: q in r <==> q.i == x && y <= q.j <= y1
    decreases y1 + 1 - y
  {
    if y > y1 then [] else [Cell(x, y)] + Column(x, y + 1, y1)
  }

  /** `x,y`: every comma-separated part must parse, and the first two are
      the point. */
  function ParsePoint(s: string): (r: Option<Cell>)
  {
    var values :- MapAll(Text.Split(s, ','), Text.ParseNat);
    if |values| < 2 then None else Some(Cell(values[0], values[1]))
  }

  /** The `k`-th segment of a line's points, when both ends parse. */
  ghost predicate OnSegment(points: seq<string>, k: int, q: Cell)
  {
    0 <= k < |points| - 1 && ParsePoint(points[k]).Some? && ParsePoint(points[k + 1]).Some?
    && InBox(ParsePoint(points[k]).value, ParsePoint(points[k + 1]).value, q)
  }

  ghost predicate OnSomeSegment(points: seq<string>, q: Cell)
  {
    exists k :: OnSegment(points, k, q)
  }

  /** The loop over a line's windows of two points: each segment's cells
      are added, then the list is sorted and deduplicated. */
  function AddSegments(points: seq<string>, ret: seq<Cell>): (r: Option<seq<Cell>>)
    requires Increasing(ret)
    ensures r.Some? ==> Increasing(r.value)
    ensures r.Some? ==> forall q :: q in r.value <==> q in ret || OnSomeSegment(points, q)
    decreases |points|
  {
    if |points| < 2 then Some(ret)
    else
      var a :- ParsePoint(points[0]);
      var b :- ParsePoint(points[1]);
      var next := SortDedup(ret + Box(a, b));
      var r := AddSegments(points[1..], next);
      assert r.Some? ==> forall q :: q in r.value <==> q in ret || OnSomeSegment(points, q) by {
        if r.Some? {
          SegmentsShift(points, r.value, next, ret, a, b);
        }
      }
      r
  }

  lemma SegmentsShift(points: seq<string>, r: seq<Cell>, next: seq<Cell>, ret: seq<Cell>, a: Cell, b: Cell)
    requires |points| >= 2 && ParsePoint(points[0]) == Some(a) && ParsePoint(points[1]) == Some(b)
    requires forall q :: q in next <==> q in ret || InBox(a, b, q)
    requires forall q :: q in r <==> q in next || OnSomeSegment(points[1..], q)
    ensures forall q :: q in r <==> q in ret || OnSomeSegment(points, q)
  {
    forall q
      ensures q in r <==> q in ret || OnSomeSegment(points, q)
    {
      if OnSomeSegment(points[1..], q) {
        var k :| OnSegment(points[1..], k, q);
        SegmentShift(points, k + 1, q);
      }
      if OnSomeSegment(points, q) {
        var k :| OnSegment(points, k, q);
        if k > 0 {
          SegmentShift(points, k, q);
        }
      }
      if InBox(a, b, q) {
        assert OnSegment(points, 0, q);
      }
    }
  }

  /** Segment `k` of a line is segment `k - 1` of its tail. */
  lemma SegmentShift(points: seq<string>, k: nat, q: Cell)
    requires 0 < k && |points| >= 2
    ensures OnSegment(points, k, q) <==> OnSegment(points[1..], k - 1, q)
  {
    if k < |points| - 1 {
      assert points[1..][k - 1] == points[k] && points[1..][k] == points[k + 1];
    }
  }

  /** Some segment of some line holds the cell. */
  ghost predicate InRock(lines: seq<string>, q: Cell)
  {
    exists l :: 0 <= l < |lines| && OnSomeSegment(Text.SplitOn(lines[l], " -> "), q)
  }

  /** The loop over the lines of `parse_input`. */
  function AddLines(lines: seq<string>, ret: seq<Cell>): (r: Option<seq<Cell>>)
    requires Increasing(ret)
    ensures r.Some? ==> Increasing(r.value)
    ensures r.Some? ==> forall q :: q in r.value <==> q in ret || InRock(lines, q)
    decreases |lines|
  {
    if |lines| == 0 then Some(ret)
    else
      var next :- AddSegments(Text.SplitOn(lines[0], " -> "), ret);
      assert forall q :: q in next <==> q in ret || OnSomeSegment(Text.SplitOn(lines[0], " -> "), q);
      var r := AddLines(lines[1..], next);
      assert r.Some? ==> forall q :: q in r.value <==> q in ret || InRock(lines, q) by {
        if r.Some? {
          LinesShift(lines, r.value, next, ret);
        }
      }
      r
  }

  lemma LinesShift(lines: seq<string>, r: seq<Cell>, next: seq<Cell>, ret: seq<Cell>)
    requires |lines| > 0
    requires forall q :: q in next <==> q in ret || OnSomeSegment(Text.SplitOn(lines[0], " -> "), q)
    requires forall q :: q in r <==> q in next || InRock(lines[1..], q)
    ensures forall q :: q in r <==> q in ret || InRock(lines, q)
  {
    forall q
      ensures q in r <==> q in ret || InRock(lines, q)
    {
      if InRock(lines[1..], q) {
        var l :| 0 <= l < |lines[1..]| && OnSomeSegment(Text.SplitOn(lines[1..][l], " -> "), q);
        assert lines[1..][l] == lines[l + 1];
        assert InRock(lines, q);
      }
      if InRock(lines, q) {
        var l :| 0 <= l < |lines| && OnSomeSegment(Text.SplitOn(lines[l], " -> "), q);
        if l > 0 {
          assert lines[1..][l - 1] == lines[l];
          assert InRock(lines[1..], q);
        }
      }
    }
  }

  /** `parse_input`: the cells of every rock segment, sorted and without
      duplicates. `None` where a point does not parse. */
  function ParseInput(input: string): (r: Option<seq<Cell>>)
    ensures r.Some? ==> Increasing(r.value)
    ensures r.Some? ==> forall q :: q in r.value <==> InRock(Text.Lines(input), q)
  {
    AddLines(Text.Lines(input), [])
  }

  /** The first loop of `main`: pour grains until one comes to rest in the
      last three rows, counting the grains before it. `None` when the fuel
      runs out first. */
  function PourToFloor(space: Grid, count: nat, fuel: nat): (r: Option<(nat, Grid)>)
    ensures r.Some? ==> r.value.0 >= count && |r.value.1| == |space|
    decreases fuel
  {
    if fuel == 0 then None
    else
      var (next, floor) :- SandFallsToFloor(Source, space);
      if floor then Some((count, next)) else PourToFloor(next, count + 1, fuel - 1)
  }

  /** The second loop: pour grains until one comes to rest at the source. */
  function PourUntilFilled(space: Grid, count: nat, fuel: nat): (r: Option<(nat, Grid)>)
    ensures r.Some? ==> r.value.0 >= count && |r.value.1| == |space|
    decreases fuel
  {
    if fuel == 0 then None
    else
      var (next, full) :- SandFilled(Source, space);
      if full then Some((count, next)) else PourUntilFilled(next, count + 1, fuel - 1)
  }

  /** The two counts `main` prints: the grains before the first reaches the
      floor rows, and the total once the source is blocked, the grain that
      reached the floor rows and the last one included. */
  function Answers(input: string, fuel: nat): (r: Option<(nat, nat)>)
    ensures r.Some? ==> r.value.1 >= r.value.0 + 2
  {
    var points :- ParseInput(input);
    var space :- Space(points);
    var (first, after) :- PourToFloor(space, 0, fuel);
    var (second, _) :- PourUntilFilled(after, first + 1, fuel);
    Some((first, second + 1))
  }
}
