/** Day 24, "Blizzard Basin": the valley of blizzards. A basin is a
    rectangle of interior cells `1..=width` by `1..=height`, with an entry
    gap in the top wall (row 0) and an exit gap in the bottom wall
    (row `height + 1`). Each blizzard moves one cell per minute in its
    direction and reappears on the opposite side of the interior, so its
    position is a function of the minute, periodic in `lcm(width, height)`. */
module BlizzardBasin {
  import opened Wrappers
  import opened Arith
  import Text

  datatype Direction = W | N | E | S

  /** The order in which `neighbours` and `free` consider the directions. */
  const Directions: seq<Direction> := [N, S, E, W]

  datatype Point = Point(x: nat, y: nat)

  function Opposite(d: Direction): (r: Direction)
    ensures r != d
    ensures DeltaX(r) == -DeltaX(d) && DeltaY(r) == -DeltaY(d)
  {
    match d
    case N => S
    case W => E
    case E => W
    case S => N
  }

  lemma OppositeInvolution(d: Direction)
    ensures Opposite(Opposite(d)) == d
  {
  }

  /** Column change of one step; west decreases `x`. */
  function DeltaX(d: Direction): int
  {
    match d
    case W => -1
    case E => 1
    case _ => 0
  }

  /** Row change of one step; north decreases `y`. */
  function DeltaY(d: Direction): int
  {
    match d
    case N => -1
    case S => 1
    case _ => 0
  }

  /** Column change of `n` steps. */
  function ShiftX(d: Direction, n: int): int
  {
    match d
    case W => -n
    case E => n
    case _ => 0
  }

  /** Row change of `n` steps. */
  function ShiftY(d: Direction, n: int): int
  {
    match d
    case N => -n
    case S => n
    case _ => 0
  }

  predicate Adjacent(p: Point, q: Point)
  {
    Abs(p.x - q.x) + Abs(p.y - q.y) == 1
  }

  /** One step in direction `d`, or `None` when it would leave the
      non-negative quadrant (the source's `checked_sub` failing). */
  function Take(d: Direction, p: Point): (r: Option<Point>)
    ensures r.None? <==> (d == W && p.x == 0) || (d == N && p.y == 0)
    ensures r.Some? ==> r.value.x == p.x + DeltaX(d) && r.value.y == p.y + DeltaY(d)
  {
    match d
    case W => if p.x == 0 then None else Some(Point(p.x - 1, p.y))
    case N => if p.y == 0 then None else Some(Point(p.x, p.y - 1))
    case E => Some(Point(p.x + 1, p.y))
    case S => Some(Point(p.x, p.y + 1))
  }

  /** A step can always be undone by a step in the opposite direction. */
  lemma TakeOpposite(d: Direction, p: Point)
    requires Take(d, p).Some?
    ensures Take(Opposite(d), Take(d, p).value) == Some(p)
    ensures Adjacent(p, Take(d, p).value)
  {
  }

  /** `TryFrom<char> for Direction`. */
  function ParseGlyph(c: char): (r: Option<Direction>)
    ensures r.Some? <==> c in "^>v<"
  {
    match c
    case '^' => Some(N)
    case '>' => Some(E)
    case 'v' => Some(S)
    case '<' => Some(W)
    case _ => None
  }

  /** `From<Direction> for char`. */
  function Glyph(d: Direction): char
  {
    match d
    case W => '<'
    case N => '^'
    case E => '>'
    case S => 'v'
  }

  /** The two conversions are inverse to each other. */
  lemma GlyphRoundTrip(d: Direction, c: char)
    ensures ParseGlyph(Glyph(d)) == Some(d)
    ensures ParseGlyph(c) == Some(d) ==> Glyph(d) == c
  {
  }

  datatype Blizzard = Blizzard(point: Point, dir: Direction)

  /** `points` is the set of cells an expedition may stand on; `blizzards`
      holds at most one blizzard per cell, keyed by its starting cell. */
  datatype Basin = Basin(
    start: Point,
    end: Point,
    width: nat,
    height: nat,
    points: set<Point>,
    blizzards: map<Point, Blizzard>)

  predicate Interior(b: Basin, p: Point)
  {
    1 <= p.x <= b.width && 1 <= p.y <= b.height
  }

  /** The interior cells, as `from` enumerates them row by row. */
  function InteriorCells(b: Basin): set<Point>
  {
    set x: nat, y: nat | 1 <= x <= b.width && 1 <= y <= b.height :: Point(x, y)
  }

  /** The shape every parsed basin has. */
  predicate WellFormed(b: Basin)
  {
    && b.start.y == 0
    && b.end.y == b.height + 1
    && b.points == {b.start, b.end} + InteriorCells(b)
    && (forall p :: p in b.blizzards ==> Interior(b, p) && b.blizzards[p].point == p)
  }

  /** The basin is non-degenerate, so that wrapping around it is defined. */
  predicate Positive(b: Basin)
  {
    b.width > 0 && b.height > 0
  }

  /** `Basin::from`: the first and last lines are walls holding the entry
      and exit gaps; every interior character is either ground or a
      blizzard glyph. Each `unwrap` and each `usize` underflow of the
      source is an `Err`. */
  function FromText(text: string): (r: Result<Basin>)
    ensures r.Ok? <==> ValidLayout(Text.Lines(text))
    ensures r.Ok? ==> WellFormed(r.value) && Describes(Text.Lines(text), r.value)
  {
    FromLines(Text.Lines(text))
  }

  /** The layout conditions under which `from` does not panic: two wall
      lines each with a gap, and interior lines long enough to read. */
  predicate ValidLayout(ls: seq<string>)
  {
    && |ls| >= 2
    && |ls[0]| >= 2
    && '.' in ls[0]
    && '.' in ls[|ls| - 1]
    && RowsLongEnough(ls, |ls[0]| - 2)
  }

  predicate RowsLongEnough(ls: seq<string>, w: nat)
  {
    forall y :: 1 <= y < |ls| - 1 ==> |ls[y]| > w
  }

  /** The basin `b` is the one drawn by the lines `ls`: its size, its
      entry and exit at the first gap of each wall, and a blizzard exactly
      where the drawing shows one. */
  predicate Describes(ls: seq<string>, b: Basin)
  {
    && |ls| == b.height + 2 && |ls[0]| == b.width + 2
    && b.start.x < |ls[0]| && ls[0][b.start.x] == '.' && '.' !in ls[0][..b.start.x]
    && b.end.x < |ls[b.height + 1]| && ls[b.height + 1][b.end.x] == '.' && '.' !in ls[b.height + 1][..b.end.x]
    && RowsLongEnough(ls, b.width)
    && (forall p :: p in InteriorCells(b) ==> (p in b.blizzards <==> ls[p.y][p.x] in "^>v<"))
    && (forall p :: p in b.blizzards ==> p in InteriorCells(b) && Glyph(b.blizzards[p].dir) == ls[p.y][p.x])
  }

  function FromLines(ls: seq<string>): (r: Result<Basin>)
    ensures r.Ok? <==> ValidLayout(ls)
    ensures r.Ok? ==> WellFormed(r.value) && Describes(ls, r.value)
  {
    if |ls| < 2 then Err("basin height underflows")
    else if |ls[0]| < 2 then Err("basin width underflows")
    else
      var h, w := |ls| - 2, |ls[0]| - 2;
      match Text.IndexOf(ls[0], '.')
      case None => Err("no entry gap")
      case Some(sx) =>
        match Text.IndexOf(ls[h + 1], '.')
        case None => Err("no exit gap")
        case Some(ex) =>
          if !RowsLongEnough(ls, w) then Err("short basin row")
          else Ok(Populate(ls, Basin(Point(sx, 0), Point(ex, h + 1), w, h, {}, map[])))
  }

  /** Fills in the cells and blizzards of a basin whose frame is known. */
  function Populate(ls: seq<string>, b0: Basin): (b: Basin)
    requires |ls| == b0.height + 2 && RowsLongEnough(ls, b0.width)
    requires b0.start.y == 0 && b0.end.y == b0.height + 1
    ensures b.start == b0.start && b.end == b0.end && b.width == b0.width && b.height == b0.height
    ensures WellFormed(b)
    ensures forall p :: p in InteriorCells(b) ==> (p in b.blizzards <==> ls[p.y][p.x] in "^>v<")
    ensures forall p :: p in b.blizzards ==> p in InteriorCells(b) && Glyph(b.blizzards[p].dir) == ls[p.y][p.x]
  {
    var cells := InteriorCells(b0);
    var blizzards := map p | p in cells && ParseGlyph(ls[p.y][p.x]).Some? ::
      Blizzard(p, ParseGlyph(ls[p.y][p.x]).value);
    b0.(points := {b0.start, b0.end} + cells, blizzards := blizzards)
  }

  /** `lcm`: the blizzard pattern repeats with this period. */
  function Period(b: Basin): (r: nat)
    ensures Positive(b) ==> r > 0 && Divides(b.width, r) && Divides(b.height, r)
    ensures Positive(b) ==>
      forall m: nat :: Divides(b.width, m) && Divides(b.height, m) ==> Divides(r, m)
  {
    LcmFacts(b.width, b.height);
    Lcm(b.width, b.height)
  }

  lemma LcmFacts(w: nat, h: nat)
    ensures w > 0 && h > 0 ==> Lcm(w, h) > 0 && Divides(w, Lcm(w, h)) && Divides(h, Lcm(w, h))
    ensures w > 0 && h > 0 ==> forall m: nat :: Divides(w, m) && Divides(h, m) ==> Divides(Lcm(w, h), m)
  {
    if w > 0 && h > 0 {
      LcmIsCommonMultiple(w, h);
      forall m: nat | Divides(w, m) && Divides(h, m)
        ensures Divides(Lcm(w, h), m)
      {
        LcmIsLeast(w, h, m);
      }
    }
  }

  lemma PeriodExample()
    ensures Lcm(4, 6) == 12
    ensures Period(Basin(Point(1, 0), Point(3, 8), 5, 7, {}, map[])) == 35
  {
  }

  /** One coordinate brought back into `1..=m`, keeping its residue. */
  function WrapCoord(v: nat, m: nat): (r: nat)
    requires m > 0
    ensures 1 <= r <= m && Divides(m, r - v)
  {
    var r := v % m;
    ModCongruent(v, m);
    if r == 0 then
      DividesSum(m, r - v, m, 1, 1);
      m
    else r
  }

  /** `v % m` differs from `v` by a multiple of `m`. */
  lemma ModCongruent(v: int, m: nat)
    requires m > 0
    ensures Divides(m, v % m - v)
  {
    assert v % m - v == m * -(v / m);
    MultipleDivides(m, -(v / m));
  }

  /** Congruence modulo `m` is transitive. */
  lemma CongruentTrans(m: nat, a: int, b: int, c: int)
    requires Divides(m, a - b) && Divides(m, b - c)
    ensures Divides(m, a - c)
  {
    DividesSum(m, a - b, b - c, 1, 1);
  }

  /** Two values in `1..=m` with the same residue are equal. */
  lemma CongruentInRange(m: nat, a: int, b: int)
    requires 1 <= a <= m && 1 <= b <= m && Divides(m, a - b)
    ensures a == b
  {
    if a < b {
      DivModUnique(a - b, m, -1, a - b + m);
    } else if a > b {
      DivModUnique(a - b, m, 0, a - b);
    }
  }

  /** `wrap`: the interior cell a point outside `1..=width` by `1..=height` stands for. */
  function Wrap(b: Basin, p: Point): (r: Point)
    requires Positive(b)
    ensures Interior(b, r)
    ensures Divides(b.width, r.x - p.x) && Divides(b.height, r.y - p.y)
  {
    Point(WrapCoord(p.x, b.width), WrapCoord(p.y, b.height))
  }

  /** The interior cell a point lies on, up to the period of each axis. */
  predicate SameCell(b: Basin, r: Point, x: int, y: int)
    requires Positive(b)
  {
    Interior(b, r) && Divides(b.width, r.x - x) && Divides(b.height, r.y - y)
  }

  /** There is only one interior cell for a given pair of residues. */
  lemma SameCellUnique(b: Basin, r1: Point, r2: Point, x: int, y: int)
    requires Positive(b) && SameCell(b, r1, x, y) && SameCell(b, r2, x, y)
    ensures r1 == r2
  {
    DividesSum(b.width, r1.x - x, r2.x - x, 1, -1);
    DividesSum(b.height, r1.y - y, r2.y - y, 1, -1);
    CongruentInRange(b.width, r1.x, r2.x);
    CongruentInRange(b.height, r1.y, r2.y);
  }

  /** `take_n`: where something that moves `n` cells in direction `d`
      from `p`, wrapping around the interior, ends up. With `n == 0` the
      point is returned unchanged, even a wall point. */
  function TakeN(b: Basin, d: Direction, p: Point, n: nat): (r: Point)
    requires n == 0 || Positive(b)
    ensures n == 0 ==> r == p
    ensures n > 0 ==> SameCell(b, r, p.x + ShiftX(d, n), p.y + ShiftY(d, n))
  {
    if n == 0 then p
    else
      var w, h := b.width, b.height;
      var q := match d
        case W => Point((p.x + w - n % w) % w, p.y)
        case N => Point(p.x, (p.y + h - n % h) % h)
        case E => Point((p.x + n) % w, p.y)
        case S => Point(p.x, (p.y + n) % h);
      var r := Wrap(b, q);
      TakeNResidue(b, d, p, n, q);
      CongruentTrans(w, r.x, q.x, p.x + ShiftX(d, n));
      CongruentTrans(h, r.y, q.y, p.y + ShiftY(d, n));
      r
  }

  lemma TakeNResidue(b: Basin, d: Direction, p: Point, n: nat, q: Point)
    requires Positive(b)
    requires q == match d
      case W => Point((p.x + b.width - n % b.width) % b.width, p.y)
      case N => Point(p.x, (p.y + b.height - n % b.height) % b.height)
      case E => Point((p.x + n) % b.width, p.y)
      case S => Point(p.x, (p.y + n) % b.height)
    ensures Divides(b.width, q.x - (p.x + ShiftX(d, n)))
    ensures Divides(b.height, q.y - (p.y + ShiftY(d, n)))
  {
    var w, h := b.width, b.height;
    MultipleDivides(w, 0);
    MultipleDivides(h, 0);
    match d {
      case W =>
        ModCongruent(p.x + w - n % w, w);
        ModCongruent(n, w);
        DividesSum(w, (p.x + w - n % w) % w - (p.x + w - n % w), n % w - n, 1, -1);
        MultipleDivides(w, 1);
        DividesSum(w, q.x - (p.x + w - n) , w, 1, 1);
        assert q.x - (p.x - n) == (q.x - (p.x + w - n)) + w;
      case N =>
        ModCongruent(p.y + h - n % h, h);
        ModCongruent(n, h);
        DividesSum(h, (p.y + h - n % h) % h - (p.y + h - n % h), n % h - n, 1, -1);
        MultipleDivides(h, 1);
        DividesSum(h, q.y - (p.y + h - n), h, 1, 1);
        assert q.y - (p.y - n) == (q.y - (p.y + h - n)) + h;
      case E =>
        ModCongruent(p.x + n, w);
      case S =>
        ModCongruent(p.y + n, h);
    }
  }

  /** Moving `n` cells one way and `n` cells back returns to the start:
      for interior cells `p` and `q`, `q` is `n` cells from `p` in
      direction `d` exactly when `p` is `n` cells from `q` the other way. */
  lemma TakeNInverse(b: Basin, d: Direction, p: Point, q: Point, n: nat)
    requires Positive(b) && Interior(b, p) && Interior(b, q)
    ensures TakeN(b, d, p, n) == q <==> TakeN(b, Opposite(d), q, n) == p
  {
    if TakeN(b, d, p, n) == q {
      TakeNBack(b, d, p, q, n);
    }
    if TakeN(b, Opposite(d), q, n) == p {
      TakeNBack(b, Opposite(d), q, p, n);
      OppositeInvolution(d);
    }
  }

  lemma TakeNBack(b: Basin, d: Direction, p: Point, q: Point, n: nat)
    requires Positive(b) && Interior(b, p) && Interior(b, q)
    requires TakeN(b, d, p, n) == q
    ensures TakeN(b, Opposite(d), q, n) == p
  {
    if n > 0 {
      var dx, dy := ShiftX(d, n), ShiftY(d, n);
      var o := Opposite(d);
      assert ShiftX(o, n) == -dx && ShiftY(o, n) == -dy;
      // q ≡ p + δ, so p ≡ q - δ
      DividesSum(b.width, q.x - (p.x + dx), 0, -1, 0);
      DividesSum(b.height, q.y - (p.y + dy), 0, -1, 0);
      assert SameCell(b, p, q.x - dx, q.y - dy);
      SameCellUnique(b, p, TakeN(b, o, q, n), q.x - dx, q.y - dy);
    }
  }

  /** Adding whole periods to the minute does not move an interior cell's image. */
  lemma TakeNPeriodic(b: Basin, d: Direction, p: Point, n: nat, k: nat)
    requires Positive(b) && (Interior(b, p) || n > 0)
    ensures TakeN(b, d, p, n + k * Period(b)) == TakeN(b, d, p, n)
  {
    var L := Period(b);
    PeriodMultiple(b.width, L, k);
    PeriodMultiple(b.height, L, k);
    TakeNShifted(b, d, p, n, k * L);
  }

  /** Moving `P` more cells, a multiple of both sides, lands on the same cell. */
  lemma TakeNShifted(b: Basin, d: Direction, p: Point, n: nat, P: nat)
    requires Positive(b) && (Interior(b, p) || n > 0)
    requires Divides(b.width, P) && Divides(b.height, P)
    ensures TakeN(b, d, p, n + P) == TakeN(b, d, p, n)
  {
    if P != 0 {
      var r1, r2 := TakeN(b, d, p, n), TakeN(b, d, p, n + P);
      ShiftDivides(b.width, d, P);
      ShiftDivides(b.height, d, P);
      assert ShiftX(d, n + P) == ShiftX(d, n) + ShiftX(d, P);
      assert ShiftY(d, n + P) == ShiftY(d, n) + ShiftY(d, P);
      SameCellShift(b, r2, p.x + ShiftX(d, n), p.y + ShiftY(d, n), ShiftX(d, P), ShiftY(d, P));
      if n == 0 {
        SameCellItself(b, p);
      }
      SameCellUnique(b, r1, r2, p.x + ShiftX(d, n), p.y + ShiftY(d, n));
    }
  }

  lemma SameCellShift(b: Basin, r: Point, x: int, y: int, dx: int, dy: int)
    requires Positive(b) && SameCell(b, r, x + dx, y + dy)
    requires Divides(b.width, dx) && Divides(b.height, dy)
    ensures SameCell(b, r, x, y)
  {
    DividesSum(b.width, r.x - (x + dx), dx, 1, 1);
    DividesSum(b.height, r.y - (y + dy), dy, 1, 1);
  }

  lemma SameCellItself(b: Basin, p: Point)
    requires Positive(b) && Interior(b, p)
    ensures SameCell(b, p, p.x, p.y)
  {
    MultipleDivides(b.width, 0);
    MultipleDivides(b.height, 0);
  }

  lemma PeriodMultiple(m: nat, L: nat, k: nat)
    requires Divides(m, L)
    ensures Divides(m, k * L)
  {
    DividesSum(m, L, 0, k, 0);
  }

  lemma ShiftDivides(m: nat, d: Direction, P: int)
    requires Divides(m, P)
    ensures Divides(m, ShiftX(d, P)) && Divides(m, ShiftY(d, P))
  {
    DividesSum(m, P, P, 0, 0);
    DividesSum(m, P, P, -1, 0);
  }

  /** Where a blizzard is after `t` minutes. */
  function Position(b: Basin, z: Blizzard, t: nat): Point
    requires t == 0 || Positive(b)
  {
    TakeN(b, z.dir, z.point, t)
  }

  /** Some blizzard stands on `p` at minute `t`. */
  predicate Occupied(b: Basin, p: Point, t: nat)
    requires t == 0 || Positive(b)
  {
    exists c :: c in b.blizzards && Position(b, b.blizzards[c], t) == p
  }

  /** Does the blizzard found `t` cells away from `p` in direction `d` travel towards `p`? */
  predicate Oncoming(b: Basin, d: Direction, p: Point, t: nat)
    requires t == 0 || Positive(b)
  {
    var c := TakeN(b, d, p, t);
    c in b.blizzards && Opposite(b.blizzards[c].dir) == d
  }

  /** `free`: the entry and the exit are always free; any other cell is
      free unless, in one of the four directions, the cell `t` steps away
      holds a blizzard heading back towards it. */
  function Free(b: Basin, p: Point, t: nat): (r: bool)
    requires t == 0 || Positive(b)
    ensures r <==> p == b.start || p == b.end || forall d: Direction :: !Oncoming(b, d, p, t)
  {
    if p == b.start || p == b.end then true
    else
      !Oncoming(b, N, p, t) && !Oncoming(b, S, p, t) && !Oncoming(b, E, p, t) && !Oncoming(b, W, p, t)
  }

  /** What `free` computes is what it is for: a cell of the basin is free
      at minute `t` exactly when it is the entry, the exit, or no blizzard
      has moved onto it by then. */
  lemma FreeIffUnoccupied(b: Basin, p: Point, t: nat)
    requires WellFormed(b) && Positive(b) && p in b.points
    ensures Free(b, p, t) <==> p == b.start || p == b.end || !Occupied(b, p, t)
  {
    if p != b.start && p != b.end {
      assert Interior(b, p);
      if Occupied(b, p, t) {
        var c :| c in b.blizzards && Position(b, b.blizzards[c], t) == p;
        OccupiedHasOncoming(b, p, t, c);
      }
      if !Free(b, p, t) {
        var d :| Oncoming(b, d, p, t);
        OncomingOccupies(b, p, t, d);
      }
    }
  }

  lemma OccupiedHasOncoming(b: Basin, p: Point, t: nat, c: Point)
    requires WellFormed(b) && Positive(b) && Interior(b, p)
    requires c in b.blizzards && Position(b, b.blizzards[c], t) == p
    ensures Oncoming(b, Opposite(b.blizzards[c].dir), p, t)
  {
    var z := b.blizzards[c];
    OppositeInvolution(z.dir);
    TakeNBack(b, z.dir, c, p, t);
  }

  lemma OncomingOccupies(b: Basin, p: Point, t: nat, d: Direction)
    requires WellFormed(b) && Positive(b) && Interior(b, p)
    requires Oncoming(b, d, p, t)
    ensures Occupied(b, p, t)
  {
    var c := TakeN(b, d, p, t);
    assert Interior(b, c);
    TakeNBack(b, d, p, c, t);
    assert Position(b, b.blizzards[c], t) == p;
  }

  /** Blizzards repeat with the basin's period, so freedom does too. */
  lemma FreePeriodic(b: Basin, p: Point, t: nat, k: nat)
    requires WellFormed(b) && Positive(b) && p in b.points
    ensures Free(b, p, t + k * Period(b)) == Free(b, p, t)
  {
    if p != b.start && p != b.end {
      forall d: Direction
        ensures TakeN(b, d, p, t + k * Period(b)) == TakeN(b, d, p, t)
      {
        TakeNPeriodic(b, d, p, t, k);
      }
    }
  }

  /** The tiny basin of the source's tests: width 2, height 2, a west
      blizzard at (1,1) and an east blizzard at (2,2). */
  function TinyBasin(): Basin
  {
    Basin(Point(1, 0), Point(2, 3), 2, 2,
      {Point(1, 0), Point(2, 3), Point(1, 1), Point(1, 2), Point(2, 1), Point(2, 2)},
      map[Point(1, 1) := Blizzard(Point(1, 1), W), Point(2, 2) := Blizzard(Point(2, 2), E)])
  }

  lemma TinyBasinFreeAtStart()
    ensures !Free(TinyBasin(), Point(1, 1), 0) && Free(TinyBasin(), Point(1, 2), 0)
    ensures Free(TinyBasin(), Point(2, 1), 0) && !Free(TinyBasin(), Point(2, 2), 0)
  {
  }

  lemma TinyBasinFreeAfterOne()
    ensures Free(TinyBasin(), Point(1, 1), 1) && !Free(TinyBasin(), Point(1, 2), 1)
  {
  }

  lemma TinyBasinFreeAfterOneMore()
    ensures !Free(TinyBasin(), Point(2, 1), 1) && Free(TinyBasin(), Point(2, 2), 1)
  {
  }

  /** `neighbours`: the cells of the basin one step away, each once, in
      the order north, south, east, west. */
  function Neighbours(b: Basin, p: Point): (r: seq<Point>)
    ensures forall q :: q in r <==> q in b.points && Adjacent(p, q)
    ensures forall i, j :: 0 <= i < j < |r| ==> r[i] != r[j]
    ensures |r| <= 4
  {
    var steps := [Take(N, p), Take(S, p), Take(E, p), Take(W, p)];
    var r := Keep(b, steps);
    forall q | q in b.points && Adjacent(p, q)
      ensures q in r
    {
      AdjacentIsStep(p, q);
    }
    r
  }

  /** The steps that exist and stay inside the basin, in order. */
  function Keep(b: Basin, steps: seq<Option<Point>>): (r: seq<Point>)
    ensures forall q :: q in r <==> q in b.points && Some(q) in steps
    ensures |r| <= |steps|
    ensures Distinct(steps) ==> forall i, j :: 0 <= i < j < |r| ==> r[i] != r[j]
  {
    if |steps| == 0 then []
    else
      var rest := Keep(b, steps[1..]);
      if steps[0].Some? && steps[0].value in b.points then [steps[0].value] + rest else rest
  }

  /** No value occurs twice among the existing steps. */
  predicate Distinct(steps: seq<Option<Point>>)
  {
    forall i, j :: 0 <= i < j < |steps| && steps[i].Some? ==> steps[i] != steps[j]
  }

  lemma AdjacentIsStep(p: Point, q: Point)
    requires Adjacent(p, q)
    ensures Some(q) in [Take(N, p), Take(S, p), Take(E, p), Take(W, p)]
  {
    if q.x == p.x + 1 {
      assert Take(E, p) == Some(q);
    } else if q.x + 1 == p.x {
      assert Take(W, p) == Some(q);
    } else if q.y == p.y + 1 {
      assert Take(S, p) == Some(q);
    } else {
      assert Take(N, p) == Some(q);
    }
  }

  /** `neighbours_and_self`: the neighbours followed by the point itself (waiting is a move). */
  function NeighboursAndSelf(b: Basin, p: Point): (r: seq<Point>)
    ensures |r| > 0 && r[|r| - 1] == p
    ensures forall q :: q in r <==> q == p || (q in b.points && Adjacent(p, q))
  {
    Neighbours(b, p) + [p]
  }

  lemma InteriorCell(b: Basin, p: Point)
    ensures p in InteriorCells(b) <==> Interior(b, p)
  {
    if Interior(b, p) {
      assert p == Point(p.x, p.y);
    }
  }
}
