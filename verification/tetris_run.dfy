/** Day 17's main loop and the worked examples of the chamber's tests. */
module TetrisRun {
  import opened Wrappers
  import opened Tetris

  /** The jet iterator `jets.iter().enumerate().cycle()`: its `t`-th item,
      none at all when there are no jets. */
  function CycleJet(jets: seq<Jet>, t: nat): (r: Option<(nat, Jet)>)
    ensures r.None? <==> |jets| == 0
    ensures r.Some? ==> r.value.0 < |jets| && r.value.1 == jets[r.value.0]
  {
    if |jets| == 0 then None else Some((t % |jets|, jets[t % |jets|]))
  }

  /** The loop `while level.block_counter <= TARGET1 { level.tick(..) }`,
      from the `t`-th jet on: it ends once shape `target + 1` has spawned,
      that is, once `target` shapes have come to rest. */
  function Drop(l: Level, jets: seq<Jet>, t: nat, target: nat): (r: Level)
    requires Good(l) && |jets| > 0
    ensures Good(r) && r.counter > target
    ensures l.counter <= target ==> r.counter == target + 1 && r.block.Some?
    decreases target + 1 - l.counter, if l.block.Some? then l.block.value.y + 1 else 0
  {
    if l.counter > target then l
    else
      var jet := CycleJet(jets, t);
      TickGood(l, jet);
      SpawnFalls(l, jet);
      Drop(Tick(l, jet).0, jets, t + 1, target)
  }

  /** A shape never comes to rest in the tick it spawns in: it spawns three
      layers over the stack. */
  lemma SpawnFalls(l: Level, jet: Option<(nat, Jet)>)
    requires Good(l)
    ensures Ready(l)
    ensures l.block.None? ==> Tick(l, jet).1.None?
  {
    GoodReady(l);
    if l.block.None? && jet.Some? {
      var s := Spawn(l);
      SpawnGood(l);
      var p := Push(s, jet.value.1);
      assert Tick(l, jet) == Settle(p, jet.value.0);
      SettleFalls(p, jet.value.0);
    }
  }

  /** A shape more than one layer above a gap-free stack falls. */
  lemma SettleFalls(l: Level, jet: nat)
    requires l.block.Some? && IsShape(l.block.value.shape) && Stacked(l.rows)
    requires Fits(l.rows, l.block.value.shape, l.block.value.x, l.block.value.y)
    requires l.block.value.y > Height(l.rows)
    ensures Settle(l, jet).1.None?
  {
    var f := l.block.value;
    FitsLower(l.rows, f.shape, f.x, f.y);
    ClearOverStack(l.rows, f.shape, f.x, f.y - 1);
  }

  /** A shape that fits fits one layer lower too. */
  lemma FitsLower(rows: seq<Row>, b: Shape, x: nat, y: nat)
    requires Fits(rows, b, x, y) && y > 0
    ensures Fits(rows, b, x, y - 1)
  {
  }

  /** A shape wholly above a gap-free stack meets no rock. */
  lemma ClearOverStack(rows: seq<Row>, b: Shape, x: nat, y: nat)
    requires Stacked(rows) && Fits(rows, b, x, y) && y >= Height(rows)
    ensures Clear(rows, b, x, y)
  {
    forall j, i | 0 <= j < |b| && 0 <= i < |b[j]| && b[j][i]
      ensures !rows[y + j][x + i]
    {
      assert !(true in rows[y + j]);
    }
  }

  /** Part 1: the height of the tower once `target` shapes have come to
      rest. Each shape adds at most four layers. */
  function TowerHeight(jets: seq<Jet>, target: nat): (h: nat)
    requires |jets| > 0
    ensures h <= 4 * target
  {
    NewLevelGood();
    var r := Drop(NewLevel, jets, 0, target);
    Height(r.rows)
  }

  // ---------------------------------------------------------------------
  // Worked examples

  /** `Level::new` has three empty layers and a height of 0. */
  lemma NewLevelExample()
    ensures NewLevel.rows == [EmptyRow, EmptyRow, EmptyRow] && NewLevel.counter == 0 && NewLevel.block.None?
    ensures Height(NewLevel.rows) == 0
  {
    NewLevelGood();
  }

  const Pole: Row := [true, false, false, false, false, false, false]

  /** Two layers with rock in the first column have height 2. */
  lemma LevelHeightExample()
    ensures Height([Pole, Pole, EmptyRow]) == 2
  {
    HeightOfStack([Pole, Pole, EmptyRow], 2);
  }

  const SevenEmpty: seq<Row> := [EmptyRow, EmptyRow, EmptyRow, EmptyRow, EmptyRow, EmptyRow, EmptyRow]

  const FirstSpawned := Level(SevenEmpty, 1, Some(Falling(Bar, 2, 3)))
  const FirstPushed := Level(SevenEmpty, 1, Some(Falling(Bar, 3, 3)))

  lemma FirstSpawn()
    ensures Spawn(NewLevel) == FirstSpawned
  {
    NewLevelGood();
    assert TrimTopRows(NewLevel.rows) == NewLevel.rows;
  }

  /** A shape fits wherever its rock layers and columns lie inside the
      chamber. */
  lemma FitsWithin(rows: seq<Row>, b: Shape, x: nat, y: nat)
    requires IsShape(b) && Stacked(b) && WellFormedRows(rows)
    requires y + Height(b) <= |rows| && x + Width(b) <= RowSize
    ensures Fits(rows, b, x, y)
  {
    forall j, i | 0 <= j < |b| && 0 <= i < |b[j]| && b[j][i]
      ensures y + j < |rows| && x + i < RowSize
    {
      assert true in b[j];
    }
  }

  lemma SevenEmptyRows()
    ensures WellFormedRows(SevenEmpty) && Height(SevenEmpty) == 0 && Stacked(SevenEmpty)
  {
    HeightOfStack(SevenEmpty, 0);
  }

  lemma FirstPush()
    ensures IsShape(Bar) && Fits(SevenEmpty, Bar, 2, 3)
    ensures Push(FirstSpawned, Right) == FirstPushed
  {
    FirstFits();
  }

  lemma BarStack()
    ensures Stacked(Bar) && Height(Bar) == 1
  {
    HeightOfStack(Bar, 1);
  }

  lemma FirstFits()
    ensures IsShape(Bar) && Width(Bar) == 4
    ensures Fits(SevenEmpty, Bar, 2, 3) && Fits(SevenEmpty, Bar, 3, 3) && Clear(SevenEmpty, Bar, 3, 3)
  {
    BarWidth();
    BarStack();
    SevenEmptyRows();
    FitsWithin(SevenEmpty, Bar, 2, 3);
    FitsWithin(SevenEmpty, Bar, 3, 3);
    ClearOverStack(SevenEmpty, Bar, 3, 3);
  }

  /** The first tick of an empty chamber with a jet to the right: the bar
      spawns at column 2, layer 3, moves right and falls one layer. */
  lemma FirstRockExample()
    ensures Ready(NewLevel)
    ensures Tick(NewLevel, Some((0, Right))) == (Level(SevenEmpty, 1, Some(Falling(Bar, 3, 2))), None)
  {
    NewLevelGood();
    GoodReady(NewLevel);
    FirstSpawn();
    FirstPush();
    SevenEmptyRows();
    SettleFalls(FirstPushed, 0);
  }

  /** Cell `j`, when on in `e`, is on in `d` or next to a cell on in `d`. */
  predicate Near(d: Row, e: Row, j: nat)
    requires |d| == RowSize && |e| == RowSize && j < RowSize
  {
    e[j] ==> d[j] || (j > 0 && d[j - 1]) || (j < RowSize - 1 && d[j + 1])
  }

  /** A layer of the walk, when every reached cell lies below the previous
      row or right next to such a cell: the connected row is the closed row
      holding exactly those cells. */
  lemma ConnectedNear(prev: Row, occ: Row, e: Row)
    requires |prev| == RowSize && |occ| == RowSize && |e| == RowSize
    requires Sub(Below(prev, occ), e) && Closed(e, occ)
    requires forall j :: 0 <= j < RowSize && e[j] ==> !occ[j]
    requires forall j :: 0 <= j < RowSize ==> Near(Below(prev, occ), e, j)
    ensures Connected(prev, occ) == e
  {
    var c := Connected(prev, occ);
    ConnectedLeast(prev, occ, e);
    forall j | 0 <= j < RowSize && e[j]
      ensures c[j]
    {
      var d := Below(prev, occ);
      assert Near(d, e, j);
      if !d[j] {
        if j > 0 && d[j - 1] {
          assert c[j - 1];
        } else {
          assert d[j + 1] && c[j + 1];
        }
        assert !Spreads(c, occ, j);
      }
    }
    assert c == e;
  }

  /** One layer of the walk that reaches some cell. */
  lemma LayerOn(rows: seq<Row>, k: nat, prev: Row, c: Row, rest: seq<Row>)
    requires WellFormedRows(rows) && 0 < k <= |rows| && |prev| == RowSize
    requires AnyOn(Below(prev, rows[k - 1])) && Connected(prev, rows[k - 1]) == c && TopFrom(rows, k - 1, c) == rest
    ensures TopFrom(rows, k, prev) == [c] + rest
  {
  }

  /** The layer of the walk that reaches nothing ends it. */
  lemma LayerOff(rows: seq<Row>, k: nat, prev: Row)
    requires WellFormedRows(rows) && 0 < k <= |rows| && |prev| == RowSize
    requires !AnyOn(Below(prev, rows[k - 1]))
    ensures TopFrom(rows, k, prev) == [EmptyRow]
  {
  }

  const Floor: seq<Row> := [FullRow, EmptyRow, EmptyRow]

  /** Over a full bottom layer the component holds the two empty layers
      and then an empty row for the full one. */
  lemma FloorOpen()
    ensures Connected(FullRow, EmptyRow) == FullRow
  {
    ConnectedNear(FullRow, EmptyRow, FullRow);
  }

  lemma BasicTopExample()
    ensures TopComponent(Floor) == [FullRow, FullRow, EmptyRow]
  {
    FloorOpen();
    LayerOff(Floor, 1, FullRow);
    LayerOn(Floor, 2, FullRow, FullRow, [EmptyRow]);
    LayerOn(Floor, 3, FullRow, FullRow, [FullRow, EmptyRow]);
  }

  const Cave: seq<Row> := [CaveFloor, CaveLow, CaveHigh, EmptyRow]
  const CaveFloor: Row := [false, true, true, true, true, true, true]
  const CaveLow: Row := [true, true, false, false, true, false, false]
  const CaveHigh: Row := [false, true, false, true, true, true, false]
  const CaveTop: Row := [true, false, true, false, false, false, true]
  const CaveMid: Row := [false, false, true, true, false, true, true]

  lemma CaveRows()
    ensures WellFormedRows(Cave)
  {
    assert |CaveFloor| == |CaveLow| == |CaveHigh| == |EmptyRow| == RowSize;
  }

  lemma CaveTopLayer()
    ensures Connected(FullRow, CaveHigh) == CaveTop
  {
    ConnectedNear(FullRow, CaveHigh, CaveTop);
  }

  lemma CaveMidLayer()
    ensures Connected(CaveTop, CaveLow) == CaveMid
  {
    ConnectedNear(CaveTop, CaveLow, CaveMid);
  }

  lemma CaveBelowMid()
    ensures TopFrom(Cave, 2, CaveTop) == [CaveMid, EmptyRow]
  {
    CaveRows();
    CaveMidLayer();
    LayerOff(Cave, 1, CaveMid);
    LayerOn(Cave, 2, CaveTop, CaveMid, [EmptyRow]);
  }

  lemma CaveBelowTop()
    ensures TopFrom(Cave, 3, FullRow) == [CaveTop, CaveMid, EmptyRow]
  {
    CaveRows();
    CaveTopLayer();
    CaveBelowMid();
    LayerOn(Cave, 3, FullRow, CaveTop, [CaveMid, EmptyRow]);
  }

  /** The component reaches down through gaps and sideways along free
      cells until a layer where nothing more is reachable. */
  lemma AdvancedTopExample()
    ensures TopComponent(Cave) == [FullRow, CaveTop, CaveMid, EmptyRow]
  {
    CaveRows();
    FloorOpen();
    CaveBelowTop();
    LayerOn(Cave, 4, FullRow, FullRow, [CaveTop, CaveMid, EmptyRow]);
  }
}
