/** Day 17, "Pyroclastic Flow": five rock shapes fall in turn into a
    chamber seven units wide. Each tick a jet of gas pushes the falling
    rock one unit sideways (when nothing is in the way) and then the rock
    falls one unit, or comes to rest on the floor or on earlier rock. */
module Tetris {
  import opened Wrappers
  import opened Arith

  const RowSize := 7
  const ShapeCount := 5

  /** One layer of the chamber, left to right; `true` is rock. */
  type Row = seq<bool>
  /** A rock as four layers of four cells, bottom layer first: `b[y][x]`. */
  type Shape = seq<seq<bool>>

  const EmptyRow: Row := [false, false, false, false, false, false, false]
  const FullRow: Row := [true, true, true, true, true, true, true]

  predicate IsShape(b: Shape)
  {
    |b| == 4 && forall y :: 0 <= y < 4 ==> |b[y]| == 4
  }

  predicate WellFormedRows(rows: seq<Row>)
  {
    forall i :: 0 <= i < |rows| ==> |rows[i]| == RowSize
  }

  const Blank: seq<bool> := [false, false, false, false]

  const Bar: Shape := [[true, true, true, true], Blank, Blank, Blank]
  const Plus: Shape := [[false, true, false, false], [true, true, true, false], [false, true, false, false], Blank]
  /** The corner has its bend at the bottom right. */
  const Corner: Shape := [[true, true, true, false], [false, false, true, false], [false, false, true, false], Blank]
  const Post: Shape := [[true, false, false, false], [true, false, false, false], [true, false, false, false], [true, false, false, false]]
  const Square: Shape := [[true, true, false, false], [true, true, false, false], Blank, Blank]

  /** `BLOCKS`: the shapes in the order they fall. */
  const Blocks: seq<Shape> := [Bar, Plus, Corner, Post, Square]

  // ---------------------------------------------------------------------
  // Height of a stack of layers

  /** `height`: the number of layers holding some rock. */
  function Height(rows: seq<Row>): (h: nat)
    ensures h <= |rows|
  {
    if |rows| == 0 then 0
    else (if true in rows[0] then 1 else 0) + Height(rows[1..])
  }

  /** The layers holding rock are exactly the bottom `k` ones. */
  predicate StackedTo(rows: seq<Row>, k: nat)
  {
    k <= |rows| && forall i :: 0 <= i < |rows| ==> (true in rows[i] <==> i < k)
  }

  /** No empty layer lies below a layer holding rock, so the height is
      also the index of the first empty layer. */
  predicate Stacked(rows: seq<Row>)
  {
    StackedTo(rows, Height(rows))
  }

  /** When the rock fills exactly the bottom `k` layers, the height is `k`. */
  lemma {:induction false} HeightOfStack(rows: seq<Row>, k: nat)
    requires StackedTo(rows, k)
    ensures Height(rows) == k
    ensures Stacked(rows)
  {
    if |rows| > 0 {
      var k' := if k > 0 then k - 1 else 0;
      assert StackedTo(rows[1..], k') by {
        forall i | 0 <= i < |rows[1..]|
          ensures true in rows[1..][i] <==> i < k'
        {
          assert rows[1..][i] == rows[i + 1];
        }
      }
      HeightOfStack(rows[1..], k');
    }
  }

  /** Every shape has four layers of four cells and fills its bottom
      layers without a gap. */
  lemma BlockFacts()
    ensures |Blocks| == ShapeCount
    ensures forall b :: b in Blocks ==> IsShape(b) && Stacked(b)
    ensures Height(Bar) == 1 && Height(Plus) == 3 && Height(Corner) == 3
    ensures Height(Post) == 4 && Height(Square) == 2
  {
    HeightOfStack(Bar, 1);
    HeightOfStack(Plus, 3);
    HeightOfStack(Corner, 3);
    HeightOfStack(Post, 4);
    HeightOfStack(Square, 2);
  }

  /** The facts about one of the five shapes the invariant needs. */
  lemma ShapeFacts(b: Shape)
    requires b in Blocks
    ensures IsShape(b) && Stacked(b) && Height(b) <= 4
  {
    BlockFacts();
  }

  // ---------------------------------------------------------------------
  // Scanning a shape's cells

  /** Cell `(i, j)` (column `i`, layer `j`) comes at or after cell
      `(x1, y1)` in the scan the source uses: column by column, each
      column bottom to top. */
  predicate AtOrAfter(i: int, j: int, x1: int, y1: int)
  {
    i > x1 || (i == x1 && j >= y1)
  }

  /** The running maximum of `Block::width` from scan position `(x1, y1)`. */
  function WidthFrom(b: Shape, x1: nat, y1: nat, ret: nat): (r: nat)
    requires IsShape(b) && x1 <= 4 && y1 < 4 && ret <= 4
    ensures ret <= r <= 4
    ensures forall i, j :: 0 <= i < 4 && 0 <= j < 4 && AtOrAfter(i, j, x1, y1) && b[j][i] ==> i < r
    ensures r == ret || exists j :: 0 <= j < 4 && b[j][r - 1]
    decreases 4 - x1, 4 - y1
  {
    if x1 == 4 then ret
    else
      var ret' := if ret < x1 + 1 && b[y1][x1] then x1 + 1 else ret;
      if y1 < 3 then WidthFrom(b, x1, y1 + 1, ret') else WidthFrom(b, x1 + 1, 0, ret')
  }

  /** `Block::width`: one more than the rightmost column holding rock,
      or 0 for a shape with no rock. */
  function Width(b: Shape): (r: nat)
    requires IsShape(b)
    ensures r <= 4
    ensures forall i, j :: 0 <= i < 4 && 0 <= j < 4 && b[j][i] ==> i < r
    ensures r == 0 || exists j :: 0 <= j < 4 && b[j][r - 1]
  {
    WidthFrom(b, 0, 0, 0)
  }

  /** The width is `k` when column `k - 1` holds rock (witnessed in
      layer `j`) and no column to its right does. */
  lemma WidthIs(b: Shape, k: nat, j: nat)
    requires IsShape(b) && 0 < k <= 4 && j < 4 && b[j][k - 1]
    requires forall i, j' :: 0 <= i < 4 && 0 <= j' < 4 && b[j'][i] ==> i < k
    ensures Width(b) == k
  {
  }

  /** The widths of the five shapes: 4, 3, 3, 1 and 2. */
  lemma BarWidth()
    ensures IsShape(Bar) && Width(Bar) == 4
  {
    WidthIs(Bar, 4, 0);
  }

  lemma PlusWidth()
    ensures IsShape(Plus) && Width(Plus) == 3
  {
    WidthIs(Plus, 3, 1);
  }

  lemma CornerWidth()
    ensures IsShape(Corner) && Width(Corner) == 3
  {
    WidthIs(Corner, 3, 0);
  }

  lemma PostWidth()
    ensures IsShape(Post) && Width(Post) == 1
  {
    WidthIs(Post, 1, 0);
  }

  lemma SquareWidth()
    ensures IsShape(Square) && Width(Square) == 2
  {
    WidthIs(Square, 2, 0);
  }

  /** Every rock cell of `b`, with its bottom-left corner at `(cx, cy)`,
      lies inside the layers and between the chamber's walls. */
  predicate Fits(rows: seq<Row>, b: Shape, cx: nat, cy: nat)
  {
    WellFormedRows(rows) &&
    forall j, i :: 0 <= j < |b| && 0 <= i < |b[j]| && b[j][i] ==> cy + j < |rows| && cx + i < RowSize
  }

  /** No rock cell of `b` at corner `(cx, cy)` meets rock in the chamber. */
  predicate Clear(rows: seq<Row>, b: Shape, cx: nat, cy: nat)
    requires Fits(rows, b, cx, cy)
  {
    forall j, i :: 0 <= j < |b| && 0 <= i < |b[j]| && b[j][i] ==> !rows[cy + j][cx + i]
  }

  /** The collision scan of the `can_move_*` loops from `(x1, y1)`: false
      as soon as a rock cell of the shape meets rock. */
  function ClearFrom(rows: seq<Row>, b: Shape, cx: nat, cy: nat, x1: nat, y1: nat): (r: bool)
    requires IsShape(b) && Fits(rows, b, cx, cy) && x1 <= 4 && y1 < 4
    ensures r <==> forall i, j :: 0 <= i < 4 && 0 <= j < 4 && AtOrAfter(i, j, x1, y1) && b[j][i] ==> !rows[cy + j][cx + i]
    decreases 4 - x1, 4 - y1
  {
    if x1 == 4 then true
    else if b[y1][x1] && rows[cy + y1][cx + x1] then false
    else if y1 < 3 then ClearFrom(rows, b, cx, cy, x1, y1 + 1)
    else ClearFrom(rows, b, cx, cy, x1 + 1, 0)
  }

  /** The whole scan decides `Clear`. */
  function ScanClear(rows: seq<Row>, b: Shape, cx: nat, cy: nat): (r: bool)
    requires IsShape(b) && Fits(rows, b, cx, cy)
    ensures r <==> Clear(rows, b, cx, cy)
  {
    ClearFrom(rows, b, cx, cy, 0, 0)
  }

  /** `block_can_move_right`: the shape one column to the right stays
      inside the right wall and meets no rock. */
  function CanMoveRight(rows: seq<Row>, b: Shape, x: nat, y: nat): (r: bool)
    requires IsShape(b) && Fits(rows, b, x, y)
    ensures r <==> x + Width(b) < RowSize && Fits(rows, b, x + 1, y) && Clear(rows, b, x + 1, y)
    ensures r ==> x + 1 + Width(b) <= RowSize
  {
    if x + Width(b) >= RowSize then false
    else ScanClear(rows, b, x + 1, y)
  }

  /** `block_can_move_left`: the shape is not against the left wall and
      one column to the left meets no rock. */
  function CanMoveLeft(rows: seq<Row>, b: Shape, x: nat, y: nat): (r: bool)
    requires IsShape(b) && Fits(rows, b, x, y)
    ensures r <==> x > 0 && Clear(rows, b, x - 1, y)
  {
    if x == 0 then false
    else ScanClear(rows, b, x - 1, y)
  }

  /** `block_can_move_down`: the shape is not on the floor and one layer
      lower meets no rock. */
  function CanMoveDown(rows: seq<Row>, b: Shape, x: nat, y: nat): (r: bool)
    requires IsShape(b) && Fits(rows, b, x, y)
    ensures r <==> y > 0 && Clear(rows, b, x, y - 1)
  {
    if y == 0 then false
    else ScanClear(rows, b, x, y - 1)
  }

  // ---------------------------------------------------------------------
  // Placing a shape

  /** Chamber cell `(i, j)` (layer `i`, column `j`) is a rock cell of `b`
      at corner `(x, y)`. */
  predicate Covers(b: Shape, x: nat, y: nat, i: int, j: int)
  {
    y <= i < y + |b| && x <= j && j - x < |b[i - y]| && b[i - y][j - x]
  }

  /** As `Covers`, for the cells at or after scan position `(x1, y1)`. */
  predicate CoversFrom(b: Shape, x: nat, y: nat, x1: nat, y1: nat, i: int, j: int)
  {
    Covers(b, x, y, i, j) && AtOrAfter(j - x, i - y, x1, y1)
  }

  /** The loop of `place_block` from scan position `(x1, y1)`. */
  function PlaceFrom(rows: seq<Row>, b: Shape, x: nat, y: nat, x1: nat, y1: nat): (r: seq<Row>)
    requires IsShape(b) && Fits(rows, b, x, y) && x1 <= 4 && y1 < 4
    ensures |r| == |rows| && WellFormedRows(r)
    ensures forall i, j :: 0 <= i < |r| && 0 <= j < RowSize ==>
      (r[i][j] <==> rows[i][j] || CoversFrom(b, x, y, x1, y1, i, j))
    decreases 4 - x1, 4 - y1
  {
    if x1 == 4 then rows
    else
      var rows' := if b[y1][x1] then rows[y + y1 := rows[y + y1][x + x1 := true]] else rows;
      assert Fits(rows', b, x, y);
      if y1 < 3 then PlaceFrom(rows', b, x, y, x1, y1 + 1) else PlaceFrom(rows', b, x, y, x1 + 1, 0)
  }

  /** `place_block`: the shape's rock cells become rock and no other cell
      changes. */
  function PlaceBlock(rows: seq<Row>, b: Shape, x: nat, y: nat): (r: seq<Row>)
    requires IsShape(b) && Fits(rows, b, x, y)
    ensures |r| == |rows| && WellFormedRows(r)
    ensures forall i, j :: 0 <= i < |r| && 0 <= j < RowSize ==>
      (r[i][j] <==> rows[i][j] || Covers(b, x, y, i, j))
  {
    PlaceFrom(rows, b, x, y, 0, 0)
  }

  /** Which layers hold rock after placing `b` at `(x, y)`: a layer of the
      old stack, or a layer of the shape holding rock. */
  lemma PlacedLayer(rows: seq<Row>, b: Shape, x: nat, y: nat, i: nat)
    requires IsShape(b) && Fits(rows, b, x, y) && i < |rows|
    ensures (true in PlaceBlock(rows, b, x, y)[i]) <==>
      (true in rows[i]) || (y <= i < y + 4 && true in b[i - y])
  {
    if true in rows[i] {
      KeptLayer(rows, b, x, y, i);
    } else if y <= i < y + 4 && true in b[i - y] {
      ShapeLayer(rows, b, x, y, i);
    } else {
      EmptyLayer(rows, b, x, y, i);
    }
  }

  lemma KeptLayer(rows: seq<Row>, b: Shape, x: nat, y: nat, i: nat)
    requires IsShape(b) && Fits(rows, b, x, y) && i < |rows| && true in rows[i]
    ensures true in PlaceBlock(rows, b, x, y)[i]
  {
    var r := PlaceBlock(rows, b, x, y);
    var c :| 0 <= c < |rows[i]| && rows[i][c];
    assert r[i][c];
  }

  lemma ShapeLayer(rows: seq<Row>, b: Shape, x: nat, y: nat, i: nat)
    requires IsShape(b) && Fits(rows, b, x, y) && i < |rows| && y <= i < y + 4 && true in b[i - y]
    ensures true in PlaceBlock(rows, b, x, y)[i]
  {
    var r := PlaceBlock(rows, b, x, y);
    var c :| 0 <= c < |b[i - y]| && b[i - y][c];
    assert Covers(b, x, y, i, x + c);
    assert r[i][x + c];
  }

  lemma EmptyLayer(rows: seq<Row>, b: Shape, x: nat, y: nat, i: nat)
    requires IsShape(b) && Fits(rows, b, x, y) && i < |rows|
    requires !(true in rows[i]) && !(y <= i < y + 4 && true in b[i - y])
    ensures !(true in PlaceBlock(rows, b, x, y)[i])
  {
    var r := PlaceBlock(rows, b, x, y);
    forall j | 0 <= j < |r[i]|
      ensures !r[i][j]
    {
      assert !rows[i][j];
      assert !Covers(b, x, y, i, j);
    }
  }

  /** Placing a shape that fills its bottom layers without a gap, at or
      below the top of a gap-free stack, leaves a gap-free stack as high
      as the higher of the old stack and the shape's top. */
  lemma PlaceStacked(rows: seq<Row>, b: Shape, x: nat, y: nat)
    requires IsShape(b) && Stacked(b) && Stacked(rows) && Fits(rows, b, x, y)
    requires y <= Height(rows)
    ensures StackedTo(PlaceBlock(rows, b, x, y), Max(Height(rows), y + Height(b)))
  {
    ShapeTopFits(rows, b, x, y);
    var hb := Height(b);
    var k := Max(Height(rows), y + hb);
    StackedLayers(rows, b, x, y, hb, k);
  }

  lemma StackedLayers(rows: seq<Row>, b: Shape, x: nat, y: nat, hb: nat, k: int)
    requires IsShape(b) && Stacked(b) && Stacked(rows) && Fits(rows, b, x, y)
    requires y <= Height(rows) && hb == Height(b) && k == Max(Height(rows), y + hb)
    ensures forall i :: 0 <= i < |rows| ==> ((true in PlaceBlock(rows, b, x, y)[i]) <==> i < k)
  {
    forall i | 0 <= i < |rows|
      ensures (true in PlaceBlock(rows, b, x, y)[i]) <==> i < k
    {
      StackedLayer(rows, b, x, y, i, hb, k);
    }
  }

  /** One layer after placing a stacked shape on a stacked pile holds rock
      exactly when it lies below the new height. */
  lemma StackedLayer(rows: seq<Row>, b: Shape, x: nat, y: nat, i: nat, hb: nat, k: int)
    requires IsShape(b) && Stacked(b) && Stacked(rows) && Fits(rows, b, x, y) && i < |rows|
    requires y <= Height(rows) && hb == Height(b) && k == Max(Height(rows), y + hb)
    ensures (true in PlaceBlock(rows, b, x, y)[i]) <==> i < k
  {
    var hr := Height(rows);
    PlacedLayer(rows, b, x, y, i);
    assert (true in rows[i]) <==> i < hr by {
      assert StackedTo(rows, hr);
    }
    if y <= i < y + 4 {
      assert (true in b[i - y]) <==> i - y < hb by {
        assert StackedTo(b, hb);
      }
    }
  }

  /** A placed shape's top layer holding rock lies inside the chamber. */
  lemma ShapeTopFits(rows: seq<Row>, b: Shape, x: nat, y: nat)
    requires IsShape(b) && Stacked(b) && Fits(rows, b, x, y)
    ensures Height(b) > 0 ==> y + Height(b) <= |rows|
  {
    var hb := Height(b);
    if hb > 0 {
      var l := hb - 1;
      assert true in b[l];
      var c :| 0 <= c < |b[l]| && b[l][c];
      assert y + l < |rows|;
    }
  }

  /** A shape that cannot move down rests no higher than the top of a
      gap-free stack: either it is on the floor or rock lies right below
      one of its cells. */
  lemma LandsLow(rows: seq<Row>, b: Shape, x: nat, y: nat)
    requires IsShape(b) && Stacked(rows) && Fits(rows, b, x, y)
    requires !CanMoveDown(rows, b, x, y)
    ensures y <= Height(rows)
  {
    if y > 0 {
      assert !Clear(rows, b, x, y - 1);
      var j, i :| 0 <= j < |b| && 0 <= i < |b[j]| && b[j][i] && rows[y - 1 + j][x + i];
      assert true in rows[y - 1 + j];
    }
  }

  // ---------------------------------------------------------------------
  // The level

  datatype Jet = Right | Left

  /** `PositionedBlock`: a falling shape and its bottom-left corner. */
  datatype Falling = Falling(shape: Shape, x: nat, y: nat)

  /** `Level`: the chamber's layers bottom first, the number of shapes
      spawned so far and the falling shape, if any. */
  datatype Level = Level(rows: seq<Row>, counter: nat, block: Option<Falling>)

  /** What `tick` returns when a shape comes to rest: the top component,
      the index of the jet that just blew and the index of the shape after
      the one now falling. */
  datatype Snapshot = Snapshot(top: seq<Row>, jet: nat, next: nat)

  /** `Level::new`: three empty layers, nothing spawned, nothing falling. */
  const NewLevel := Level([EmptyRow, EmptyRow, EmptyRow], 0, None)

  /** `trim_top_rows`: drops layers above the fourth one over the stack;
      when the stack is gap-free only empty layers go. */
  function TrimTopRows(rows: seq<Row>): (r: seq<Row>)
    ensures |r| <= |rows| && |r| <= Height(rows) + 4 && r == rows[..|r|]
    ensures |rows| <= Height(rows) + 4 ==> r == rows
    ensures |rows| > Height(rows) + 4 ==> |r| == Height(rows) + 4
    ensures Stacked(rows) ==> StackedTo(r, Height(rows))
  {
    var h := Height(rows);
    if |rows| <= h + 4 then rows else rows[..h + 4]
  }

  /** `next_block`: spawns the next shape in turn two columns from the left
      wall and three empty layers above the stack, and leaves four empty
      layers over the trimmed chamber. */
  function NextBlock(l: Level): (r: Level)
    ensures r.counter == l.counter + 1
    ensures r.block == Some(Falling(Blocks[l.counter % ShapeCount], 2, Height(l.rows) + 3))
    ensures |r.rows| >= 4 && r.rows[..|r.rows| - 4] == TrimTopRows(l.rows)
    ensures forall i :: |r.rows| - 4 <= i < |r.rows| ==> r.rows[i] == EmptyRow
    ensures WellFormedRows(l.rows) ==> WellFormedRows(r.rows)
    ensures Stacked(l.rows) ==> StackedTo(r.rows, Height(l.rows)) && Height(r.rows) == Height(l.rows)
    ensures Stacked(l.rows) && Height(l.rows) + 3 <= |l.rows| ==> Height(l.rows) + 7 <= |r.rows|
  {
    var h := Height(l.rows);
    var r := Level(TrimTopRows(l.rows) + [EmptyRow, EmptyRow, EmptyRow, EmptyRow], l.counter + 1,
                   Some(Falling(Blocks[l.counter % ShapeCount], 2, h + 3)));
    assert r.rows[..|r.rows| - 4] == TrimTopRows(l.rows);
    NextBlockStacked(l.rows, r.rows);
    r
  }

  lemma NextBlockStacked(rows: seq<Row>, r: seq<Row>)
    requires r == TrimTopRows(rows) + [EmptyRow, EmptyRow, EmptyRow, EmptyRow]
    ensures Stacked(rows) ==> StackedTo(r, Height(rows)) && Height(r) == Height(rows)
  {
    if Stacked(rows) {
      var t := TrimTopRows(rows);
      forall i | 0 <= i < |r|
        ensures true in r[i] <==> i < Height(rows)
      {
        if i < |t| {
          assert r[i] == t[i];
        } else {
          assert r[i] == EmptyRow;
        }
      }
      HeightOfStack(r, Height(rows));
    }
  }

  /** `tick` starts by spawning a shape when none is falling. */
  function Spawn(l: Level): (r: Level)
    ensures r.block.Some?
    ensures r.counter == l.counter + (if l.block.None? then 1 else 0)
  {
    if l.block.None? then NextBlock(l) else l
  }

  /** What `tick` needs to index the chamber safely: every rock cell of the
      falling shape (spawned first if need be) lies inside the chamber. */
  predicate Ready(l: Level)
  {
    var s := Spawn(l);
    WellFormedRows(l.rows) && IsShape(s.block.value.shape) &&
    Fits(s.rows, s.block.value.shape, s.block.value.x, s.block.value.y)
  }

  /** The jet's push: the shape moves one column its way exactly when it
      stays inside the walls and meets no rock there. */
  function Push(l: Level, dir: Jet): (r: Level)
    requires l.block.Some? && IsShape(l.block.value.shape)
    requires Fits(l.rows, l.block.value.shape, l.block.value.x, l.block.value.y)
    ensures r.rows == l.rows && r.counter == l.counter && r.block.Some?
    ensures r.block.value.shape == l.block.value.shape && r.block.value.y == l.block.value.y
    ensures Fits(r.rows, r.block.value.shape, r.block.value.x, r.block.value.y)
    ensures var f := l.block.value;
      dir == Right ==> r.block.value.x == if CanMoveRight(l.rows, f.shape, f.x, f.y) then f.x + 1 else f.x
    ensures var f := l.block.value;
      dir == Left ==> r.block.value.x == if CanMoveLeft(l.rows, f.shape, f.x, f.y) then f.x - 1 else f.x
  {
    var g := if dir == Right then ShiftRight(l.rows, l.block.value) else ShiftLeft(l.rows, l.block.value);
    l.(block := Some(g))
  }

  /** A push that moves the shape puts it where it meets no rock. */
  lemma PushClear(l: Level, dir: Jet)
    requires l.block.Some? && IsShape(l.block.value.shape)
    requires Fits(l.rows, l.block.value.shape, l.block.value.x, l.block.value.y)
    ensures var r := Push(l, dir);
      r.block.value.x != l.block.value.x ==> Clear(r.rows, r.block.value.shape, r.block.value.x, r.block.value.y)
  {
  }

  /** A push to the right: one column over exactly when the shape stays
      inside the right wall and meets no rock there. */
  function ShiftRight(rows: seq<Row>, f: Falling): (g: Falling)
    requires IsShape(f.shape) && Fits(rows, f.shape, f.x, f.y)
    ensures g.shape == f.shape && g.y == f.y && Fits(rows, g.shape, g.x, g.y)
    ensures g.x == if CanMoveRight(rows, f.shape, f.x, f.y) then f.x + 1 else f.x
  {
    if CanMoveRight(rows, f.shape, f.x, f.y) then Falling(f.shape, f.x + 1, f.y) else f
  }

  /** A push to the left: one column over exactly when the shape is off
      the left wall and meets no rock there. */
  function ShiftLeft(rows: seq<Row>, f: Falling): (g: Falling)
    requires IsShape(f.shape) && Fits(rows, f.shape, f.x, f.y)
    ensures g.shape == f.shape && g.y == f.y && Fits(rows, g.shape, g.x, g.y)
    ensures g.x == if CanMoveLeft(rows, f.shape, f.x, f.y) then f.x - 1 else f.x
    ensures g.x != f.x ==> Clear(rows, g.shape, g.x, g.y)
  {
    if CanMoveLeft(rows, f.shape, f.x, f.y) then Falling(f.shape, f.x - 1, f.y) else f
  }

  /** The fall: the shape drops one layer, or, when it is on the floor or
      rock lies right below it, it is placed, the next shape spawns and a
      snapshot is returned. */
  function Settle(l: Level, jet: nat): (r: (Level, Option<Snapshot>))
    requires l.block.Some? && IsShape(l.block.value.shape)
    requires Fits(l.rows, l.block.value.shape, l.block.value.x, l.block.value.y)
    ensures r.1.None? <==> l.block.value.y > 0 && Clear(l.rows, l.block.value.shape, l.block.value.x, l.block.value.y - 1)
    ensures WellFormedRows(r.0.rows)
    ensures r.1.None? ==>
      (r.0.rows == l.rows && r.0.counter == l.counter &&
       r.0.block == Some(l.block.value.(y := l.block.value.y - 1)))
    ensures r.1.Some? ==>
      (r.0.counter == l.counter + 1 && r.0.block.Some? &&
       r.0 == Spawn(Level(PlaceBlock(l.rows, l.block.value.shape, l.block.value.x, l.block.value.y), l.counter, None)))
    ensures r.1.Some? ==> r.1.value == Snapshot(TopComponent(r.0.rows), jet, r.0.counter % ShapeCount)
  {
    var f := l.block.value;
    if !CanMoveDown(l.rows, f.shape, f.x, f.y) then
      var placed := NextBlock(Level(PlaceBlock(l.rows, f.shape, f.x, f.y), l.counter, None));
      (placed, Some(Snapshot(TopComponent(placed.rows), jet, placed.counter % ShapeCount)))
    else
      (l.(block := Some(f.(y := f.y - 1))), None)
  }

  /** `tick`, given what the jet iterator's `next()` yields: spawn a shape
      if none is falling, then, if a jet blows, push and drop it. A
      snapshot comes back exactly when the shape came to rest, and then
      the next shape has spawned. */
  function Tick(l: Level, jet: Option<(nat, Jet)>): (r: (Level, Option<Snapshot>))
    requires Ready(l)
    ensures r.0.block.Some?
    ensures jet.None? ==> r.0 == Spawn(l) && r.1.None?
    ensures r.1.None? ==> r.0.counter == Spawn(l).counter
    ensures jet.Some? && r.1.None? ==> r.0.block.value.y + 1 == Spawn(l).block.value.y
    ensures WellFormedRows(r.0.rows)
    ensures r.1.Some? ==>
      (jet.Some? && r.0.counter == Spawn(l).counter + 1 &&
       r.1.value == Snapshot(TopComponent(r.0.rows), jet.value.0, r.0.counter % ShapeCount))
  {
    var s := Spawn(l);
    match jet
    case None => (s, None)
    case Some((i, dir)) => Settle(Push(s, dir), i)
  }

  // ---------------------------------------------------------------------
  // The invariant `tick` keeps

  /** A level reached from `Level::new`: the stack has no gaps; while
      nothing falls there are at least three layers over the stack; a
      falling shape is one of the five, at most three layers over the
      stack, inside a chamber seven layers taller than the stack, and
      meets no rock; and each shape placed so far raised the stack by at
      most four layers. */
  predicate Good(l: Level)
  {
    var h := Height(l.rows);
    WellFormedRows(l.rows) && Stacked(l.rows) &&
    match l.block
    case None => h + 3 <= |l.rows| && h <= 4 * l.counter
    case Some(f) =>
      f.shape in Blocks && f.y <= h + 3 && h + 7 <= |l.rows| && h + 4 <= 4 * l.counter &&
      Fits(l.rows, f.shape, f.x, f.y) && Clear(l.rows, f.shape, f.x, f.y)
  }

  lemma NewLevelGood()
    ensures Good(NewLevel) && Height(NewLevel.rows) == 0
  {
    HeightOfStack(NewLevel.rows, 0);
  }

  /** Spawning from a good level gives a good level. */
  lemma SpawnGood(l: Level)
    requires Good(l)
    ensures Good(Spawn(l))
  {
    if l.block.None? {
      var r := NextBlock(l);
      var h := Height(l.rows);
      var b := Blocks[l.counter % ShapeCount];
      assert b in Blocks;
      ShapeFacts(b);
      forall j, i | 0 <= j < |b| && 0 <= i < |b[j]| && b[j][i]
        ensures h + 3 + j < |r.rows| && 2 + i < RowSize && !r.rows[h + 3 + j][2 + i]
      {
        assert !(true in r.rows[h + 3 + j]);
      }
    }
  }

  /** A good level is ready for `tick`. */
  lemma GoodReady(l: Level)
    requires Good(l)
    ensures Ready(l)
  {
    SpawnGood(l);
    ShapeFacts(Spawn(l).block.value.shape);
  }

  /** A push keeps a level with a falling shape good. */
  lemma PushGood(l: Level, dir: Jet)
    requires Good(l) && l.block.Some?
    ensures IsShape(l.block.value.shape) && Good(Push(l, dir))
  {
    ShapeFacts(l.block.value.shape);
    PushClear(l, dir);
  }

  /** Placing a good level's shape where it cannot move down leaves a
      good level with nothing falling. */
  lemma LandGood(l: Level)
    requires Good(l) && l.block.Some?
    requires IsShape(l.block.value.shape)
    requires !CanMoveDown(l.rows, l.block.value.shape, l.block.value.x, l.block.value.y)
    ensures Good(Level(PlaceBlock(l.rows, l.block.value.shape, l.block.value.x, l.block.value.y), l.counter, None))
  {
    var f := l.block.value;
    ShapeFacts(f.shape);
    var h := Height(l.rows);
    LandsLow(l.rows, f.shape, f.x, f.y);
    PlaceStacked(l.rows, f.shape, f.x, f.y);
    var r := PlaceBlock(l.rows, f.shape, f.x, f.y);
    var k := Max(h, f.y + Height(f.shape));
    HeightOfStack(r, k);
    assert k <= h + 4;
    assert Good(Level(r, l.counter, None));
  }

  /** A fall keeps a level with a falling shape good. */
  lemma SettleGood(l: Level, jet: nat)
    requires Good(l) && l.block.Some?
    ensures IsShape(l.block.value.shape) && Good(Settle(l, jet).0)
  {
    var f := l.block.value;
    ShapeFacts(f.shape);
    if !CanMoveDown(l.rows, f.shape, f.x, f.y) {
      LandGood(l);
      SpawnGood(Level(PlaceBlock(l.rows, f.shape, f.x, f.y), l.counter, None));
    }
  }

  /** `tick` keeps a level good, so the chamber never runs out of layers
      for the falling shape however long the simulation runs. */
  lemma TickGood(l: Level, jet: Option<(nat, Jet)>)
    requires Good(l)
    ensures Ready(l) && Good(Tick(l, jet).0)
  {
    GoodReady(l);
    SpawnGood(l);
    if jet.Some? {
      var s := Spawn(l);
      PushGood(s, jet.value.1);
      SettleGood(Push(s, jet.value.1), jet.value.0);
    }
  }

  // ---------------------------------------------------------------------
  // The top component

  /** The free cells directly below the previous row's connected cells. */
  function Below(prev: Row, occ: Row): (r: Row)
    requires |prev| == RowSize && |occ| == RowSize
    ensures |r| == RowSize
    ensures forall i :: 0 <= i < RowSize ==> (r[i] <==> prev[i] && !occ[i])
  {
    seq(RowSize, i requires 0 <= i < RowSize => prev[i] && !occ[i])
  }

  /** Cell `i` is off, free, and next to a cell that is on. */
  predicate Spreads(c: Row, occ: Row, i: nat)
    requires |c| == RowSize && |occ| == RowSize && i < RowSize
  {
    !c[i] && !occ[i] && ((i > 0 && c[i - 1]) || (i < RowSize - 1 && c[i + 1]))
  }

  /** No cell can spread: `c` is closed under moving sideways into free cells. */
  predicate Closed(c: Row, occ: Row)
    requires |c| == RowSize && |occ| == RowSize
  {
    forall i :: 0 <= i < RowSize ==> !Spreads(c, occ, i)
  }

  /** Every cell on in `a` is on in `b`. */
  predicate Sub(a: Row, b: Row)
    requires |a| == RowSize && |b| == RowSize
  {
    forall i :: 0 <= i < RowSize ==> a[i] ==> b[i]
  }

  /** Switching cell `i` on when it spreads. */
  function SpreadCell(c: Row, occ: Row, i: nat): (r: Row)
    requires |c| == RowSize && |occ| == RowSize && i < RowSize
    ensures |r| == RowSize && Sub(c, r)
    ensures forall k :: 0 <= k < RowSize && r[k] ==> c[k] || !occ[k]
    ensures r == c <==> !Spreads(c, occ, i)
  {
    if Spreads(c, occ, i) then c[i := true] else c
  }

  /** A closed row containing `c` contains the cell that spreads from it. */
  lemma SpreadCellLeast(c: Row, occ: Row, i: nat, s: Row)
    requires |c| == RowSize && |occ| == RowSize && |s| == RowSize && i < RowSize
    requires Sub(c, s) && Closed(s, occ)
    ensures Sub(SpreadCell(c, occ, i), s)
  {
    assert !Spreads(s, occ, i);
  }

  /** The order one pass of the `while changes > 0` loop visits the cells
      in: the two end cells, then the inner cells left to right. */
  const SweepOrder: seq<nat> := [0, RowSize - 1, 1, 2, 3, 4, 5]

  /** The `while changes > 0` loop, one cell at a time: `start` is the row
      as the current pass began and `p` the position in `SweepOrder` the
      pass has reached, each cell seeing the updates before it. A pass that
      changes nothing ends the loop; otherwise another pass begins. While
      the pass has changed nothing, none of the cells it visited spreads. */
  function Spreading(start: Row, c: Row, occ: Row, p: nat): (r: Row)
    requires |start| == RowSize && |c| == RowSize && |occ| == RowSize && p <= |SweepOrder|
    requires Sub(start, c)
    requires c == start ==> forall q :: 0 <= q < p ==> !Spreads(start, occ, SweepOrder[q])
    ensures |r| == RowSize && Sub(c, r) && Closed(r, occ)
    ensures forall k :: 0 <= k < RowSize && r[k] ==> c[k] || !occ[k]
    decreases Offs(start), |SweepOrder| - p
  {
    if p < |SweepOrder| then
      var c' := SpreadCell(c, occ, SweepOrder[p]);
      SpreadingStep(start, c, c', occ, p);
      Spreading(start, c', occ, p + 1)
    else if c == start then
      SweepDone(c, occ);
      c
    else
      OffsShrink(start, c);
      Spreading(c, c, occ, 0)
  }

  /** Where cell `i` comes in a pass. */
  function SweepPos(i: nat): (p: nat)
    requires i < RowSize
    ensures p < |SweepOrder| && SweepOrder[p] == i
  {
    if i == 0 then 0 else if i == RowSize - 1 then 1 else i + 1
  }

  /** A pass that visited every cell without a change ends on a closed row. */
  lemma SweepDone(c: Row, occ: Row)
    requires |c| == RowSize && |occ| == RowSize
    requires forall q :: 0 <= q < |SweepOrder| ==> !Spreads(c, occ, SweepOrder[q])
    ensures Closed(c, occ)
  {
    forall i | 0 <= i < RowSize
      ensures !Spreads(c, occ, i)
    {
      var q := SweepPos(i);
      assert !Spreads(c, occ, SweepOrder[q]);
    }
  }

  lemma SpreadingStep(start: Row, c: Row, c': Row, occ: Row, p: nat)
    requires |start| == RowSize && |c| == RowSize && |occ| == RowSize && p < |SweepOrder|
    requires Sub(start, c)
    requires c == start ==> forall q :: 0 <= q < p ==> !Spreads(start, occ, SweepOrder[q])
    requires c' == SpreadCell(c, occ, SweepOrder[p])
    ensures Sub(start, c')
    ensures c' == start ==> forall q :: 0 <= q < p + 1 ==> !Spreads(start, occ, SweepOrder[q])
  {
    if c' == start {
      assert c == start by {
        forall k | 0 <= k < RowSize
          ensures c[k] == start[k]
        {
          assert c[k] ==> c'[k];
        }
      }
    }
  }

  /** The spreading loop stops at the least closed row containing `c`:
      any closed row containing `c` contains the result. */
  lemma {:induction false} SpreadingLeast(start: Row, c: Row, occ: Row, p: nat, s: Row)
    requires |start| == RowSize && |c| == RowSize && |occ| == RowSize && p <= |SweepOrder|
    requires Sub(start, c)
    requires c == start ==> forall q :: 0 <= q < p ==> !Spreads(start, occ, SweepOrder[q])
    requires |s| == RowSize && Sub(c, s) && Closed(s, occ)
    ensures Sub(Spreading(start, c, occ, p), s)
    decreases Offs(start), |SweepOrder| - p
  {
    if p < |SweepOrder| {
      var c' := SpreadCell(c, occ, SweepOrder[p]);
      SpreadingStep(start, c, c', occ, p);
      SpreadCellLeast(c, occ, SweepOrder[p], s);
      SpreadingLeast(start, c', occ, p + 1, s);
    } else if c != start {
      OffsShrink(start, c);
      SpreadingLeast(c, c, occ, 0, s);
    }
  }

  /** The number of cells still off. */
  function Offs(c: seq<bool>): nat
  {
    if |c| == 0 then 0 else (if c[0] then 0 else 1) + Offs(c[1..])
  }

  /** Switching cells on never raises the count of cells off, and lowers
      it when anything changed. */
  lemma {:induction false} OffsShrink(a: seq<bool>, b: seq<bool>)
    requires |a| == |b| && forall i :: 0 <= i < |a| ==> a[i] ==> b[i]
    ensures Offs(b) <= Offs(a)
    ensures a != b ==> Offs(b) < Offs(a)
  {
    if |a| > 0 {
      OffsShrink(a[1..], b[1..]);
      if a != b && a[0] == b[0] {
        assert a[1..] != b[1..] by {
          assert a == [a[0]] + a[1..] && b == [b[0]] + b[1..];
        }
      }
    }
  }

  /** The `while changes > 0` loop from `c`: sweep until a sweep changes
      nothing. The result is the least closed row containing `c`: the free
      cells reachable sideways from `c`. */
  function Spread(c: Row, occ: Row): (r: Row)
    requires |c| == RowSize && |occ| == RowSize
    ensures |r| == RowSize && Sub(c, r) && Closed(r, occ)
    ensures forall k :: 0 <= k < RowSize && r[k] ==> c[k] || !occ[k]
  {
    Spreading(c, c, occ, 0)
  }

  /** Any closed row containing `c` contains its spread. */
  lemma SpreadLeast(c: Row, occ: Row, s: Row)
    requires |c| == RowSize && |occ| == RowSize && |s| == RowSize
    requires Sub(c, s) && Closed(s, occ)
    ensures Sub(Spread(c, occ), s)
  {
    SpreadingLeast(c, c, occ, 0, s);
  }

  /** Some cell of the row is on: the row differs from `EMPTY_ROW`. */
  predicate AnyOn(c: Row)
    requires |c| == RowSize
  {
    c[0] || c[1] || c[2] || c[3] || c[4] || c[5] || c[6]
  }

  /** `top_component`'s walk down from the top layer `k - 1`, starting
      from the previous connected row `prev`. */
  function TopFrom(rows: seq<Row>, k: nat, prev: Row): (r: seq<Row>)
    requires WellFormedRows(rows) && k <= |rows| && |prev| == RowSize
    ensures |r| <= k && (k > 0 ==> |r| > 0)
    ensures forall n :: 0 <= n < |r| ==> |r[n]| == RowSize
    decreases k
  {
    if k == 0 then []
    else
      if !AnyOn(Below(prev, rows[k - 1])) then [EmptyRow]
      else
        var c := Connected(prev, rows[k - 1]);
        [c] + TopFrom(rows, k - 1, c)
  }

  /** One layer of the walk: the free cells below the previous connected
      row, stopping at once when there are none, and otherwise spread
      sideways. Only free cells are reached. */
  function Connected(prev: Row, occ: Row): (r: Row)
    requires |prev| == RowSize && |occ| == RowSize
    ensures |r| == RowSize && Sub(Below(prev, occ), r)
    ensures forall j :: 0 <= j < RowSize && r[j] ==> !occ[j]
  {
    var down := Below(prev, occ);
    if !AnyOn(down) then down else Spread(down, occ)
  }

  /** A layer of the walk is the least closed row containing the free
      cells straight below the previous connected row: it holds those
      cells, nothing more can spread into it, and every closed row holding
      them holds it. */
  lemma ConnectedLeast(prev: Row, occ: Row, s: Row)
    requires |prev| == RowSize && |occ| == RowSize && |s| == RowSize
    ensures Sub(Below(prev, occ), Connected(prev, occ)) && Closed(Connected(prev, occ), occ)
    ensures Sub(Below(prev, occ), s) && Closed(s, occ) ==> Sub(Connected(prev, occ), s)
  {
    var down := Below(prev, occ);
    if AnyOn(down) {
      if Sub(down, s) && Closed(s, occ) {
        SpreadLeast(down, occ, s);
      }
    } else {
      assert Closed(down, occ);
    }
  }

  /** `top_component`: from an all-open row above the chamber, going down
      layer by layer, the cells reachable from above through free cells
      moving down, left and right; one row per layer, stopping after the
      first row with no reachable cell. */
  function TopComponent(rows: seq<Row>): (r: seq<Row>)
    requires WellFormedRows(rows)
    ensures |r| <= |rows| && (|rows| > 0 ==> |r| > 0)
    ensures forall n :: 0 <= n < |r| ==> |r[n]| == RowSize
  {
    TopFrom(rows, |rows|, FullRow)
  }

  /** Row `n` of the top component reaches only free cells of layer
      `|rows| - 1 - n`; every row but the last reaches some cell, and the
      walk stops before the floor only after a row reaching none. */
  lemma TopComponentFacts(rows: seq<Row>, r: seq<Row>)
    requires WellFormedRows(rows) && r == TopComponent(rows)
    ensures forall n :: 0 <= n < |r| ==> |r[n]| == RowSize
    ensures forall n, j :: 0 <= n < |r| && 0 <= j < RowSize && r[n][j] ==> !rows[|rows| - 1 - n][j]
    ensures forall n :: 0 <= n < |r| - 1 ==> AnyOn(r[n])
    ensures |r| < |rows| ==> !AnyOn(r[|r| - 1])
  {
    TopFromFacts(rows, |rows|, FullRow, r);
  }

  /** The three facts about a walk `r` down from layer `k - 1`. */
  lemma TopFromFacts(rows: seq<Row>, k: nat, prev: Row, r: seq<Row>)
    requires WellFormedRows(rows) && k <= |rows| && |prev| == RowSize
    requires r == TopFrom(rows, k, prev)
    ensures forall n :: 0 <= n < |r| ==> |r[n]| == RowSize
    ensures forall n, j :: 0 <= n < |r| && 0 <= j < RowSize && r[n][j] ==> !rows[k - 1 - n][j]
    ensures forall n :: 0 <= n < |r| - 1 ==> AnyOn(r[n])
    ensures |r| < k ==> !AnyOn(r[|r| - 1])
  {
    TopFromFree(rows, k, prev);
    TopFromLast(rows, k, prev);
    TopFromOn(rows, k, prev);
  }

  /** Every cell on in `c` is free in `occ`. */
  predicate FreeIn(c: Row, occ: Row)
    requires |c| == RowSize && |occ| == RowSize
  {
    forall j :: 0 <= j < RowSize && c[j] ==> !occ[j]
  }

  /** The walk reaches only free cells: row `n` of the walk lies on free
      cells of layer `k - 1 - n`. */
  lemma {:induction false} TopFromFreeAt(rows: seq<Row>, k: nat, prev: Row, n: nat)
    requires WellFormedRows(rows) && k <= |rows| && |prev| == RowSize
    requires n < |TopFrom(rows, k, prev)|
    ensures FreeIn(TopFrom(rows, k, prev)[n], rows[k - 1 - n])
    decreases k
  {
    if n == 0 {
      TopFromHeadFree(rows, k, prev);
    } else {
      var r := TopFrom(rows, k, prev);
      var c := TopFromTail(rows, k, prev);
      TopFromFreeAt(rows, k - 1, c, n - 1);
      assert TopFrom(rows, k - 1, c)[n - 1] == r[n];
      assert rows[k - 1 - 1 - (n - 1)] == rows[k - 1 - n];
    }
  }

  /** The first row of the walk reaches only free cells of layer `k - 1`. */
  lemma TopFromHeadFree(rows: seq<Row>, k: nat, prev: Row)
    requires WellFormedRows(rows) && k <= |rows| && |prev| == RowSize
    requires 0 < |TopFrom(rows, k, prev)|
    ensures FreeIn(TopFrom(rows, k, prev)[0], rows[k - 1])
  {
  }

  /** Past its first row, the walk is the walk from the next layer down. */
  lemma TopFromTail(rows: seq<Row>, k: nat, prev: Row) returns (c: Row)
    requires WellFormedRows(rows) && k <= |rows| && |prev| == RowSize
    requires 1 < |TopFrom(rows, k, prev)|
    ensures 0 < k && |c| == RowSize
    ensures TopFrom(rows, k, prev)[1..] == TopFrom(rows, k - 1, c)
  {
    c := Connected(prev, rows[k - 1]);
  }

  lemma TopFromFree(rows: seq<Row>, k: nat, prev: Row)
    requires WellFormedRows(rows) && k <= |rows| && |prev| == RowSize
    ensures forall n, j :: 0 <= n < |TopFrom(rows, k, prev)| && 0 <= j < RowSize && TopFrom(rows, k, prev)[n][j] ==>
      !rows[k - 1 - n][j]
  {
    forall n, j | 0 <= n < |TopFrom(rows, k, prev)| && 0 <= j < RowSize && TopFrom(rows, k, prev)[n][j]
      ensures !rows[k - 1 - n][j]
    {
      TopFromFreeAt(rows, k, prev, n);
    }
  }

  /** Every row of the walk but the last reaches some cell. */
  lemma {:induction false} TopFromOnAt(rows: seq<Row>, k: nat, prev: Row, n: nat)
    requires WellFormedRows(rows) && k <= |rows| && |prev| == RowSize
    requires n + 1 < |TopFrom(rows, k, prev)|
    ensures AnyOn(TopFrom(rows, k, prev)[n])
    decreases k
  {
    var r := TopFrom(rows, k, prev);
    var c := Connected(prev, rows[k - 1]);
    if n > 0 {
      var rest := TopFrom(rows, k - 1, c);
      assert r[n] == rest[n - 1];
      TopFromOnAt(rows, k - 1, c, n - 1);
    }
  }

  lemma TopFromOn(rows: seq<Row>, k: nat, prev: Row)
    requires WellFormedRows(rows) && k <= |rows| && |prev| == RowSize
    ensures forall n :: 0 <= n < |TopFrom(rows, k, prev)| - 1 ==> AnyOn(TopFrom(rows, k, prev)[n])
  {
    forall n | 0 <= n < |TopFrom(rows, k, prev)| - 1
      ensures AnyOn(TopFrom(rows, k, prev)[n])
    {
      TopFromOnAt(rows, k, prev, n);
    }
  }

  /** The walk stops before the floor only after a row reaching no cell. */
  lemma {:induction false} TopFromLast(rows: seq<Row>, k: nat, prev: Row)
    requires WellFormedRows(rows) && k <= |rows| && |prev| == RowSize
    ensures |TopFrom(rows, k, prev)| < k ==> !AnyOn(TopFrom(rows, k, prev)[|TopFrom(rows, k, prev)| - 1])
    decreases k
  {
    if k > 0 {
      var r := TopFrom(rows, k, prev);
      if AnyOn(Below(prev, rows[k - 1])) {
        var c := Connected(prev, rows[k - 1]);
        TopFromLast(rows, k - 1, c);
        var rest := TopFrom(rows, k - 1, c);
        if |r| < k {
          assert r[|r| - 1] == rest[|rest| - 1];
        }
      }
    }
  }


}
