/** Day 12, "Hill Climbing Algorithm": a breadth-first search over a height
    map, one step up at most per move, marking squares as visited. */
module HillClimbing {
  import opened Wrappers
  import opened Coords
  import Text

  const StartMark := 'S'
  const EndMark := 'E'

  /** `Square::height`: `S` is as low as `a`, `E` as high as `z`, and any
      other character is its byte (the low eight bits of the code point,
      as `as u8` keeps) minus 97. `None` below 97, where the `u8`
      subtraction overflows and the source panics. */
  function Height(c: char): (r: Option<nat>)
    ensures c == StartMark ==> r == Some(0)
    ensures c == EndMark ==> r == Some(25)
    ensures 'a' <= c <= 'z' ==> r == Some(c as int - 'a' as int)
    ensures r.Some? <==> c == StartMark || c == EndMark || c as int % 256 >= 97
  {
    if c == StartMark then Some(0)
    else if c == EndMark then Some(25)
    else if c as int % 256 < 97 then None
    else Some(c as int % 256 - 97)
  }

  datatype Square = Square(elevation: char, visited: bool)

  type Hill = seq<seq<Square>>

  /** Every row as long as the first, which bounds the column index, and
      every square with a height. */
  predicate WellFormed(hill: Hill)
  {
    (forall r :: 0 <= r < |hill| ==> |hill[r]| == Cols(hill))
    && forall r, c :: 0 <= r < |hill| && 0 <= c < |hill[r]| ==> Height(hill[r][c].elevation).Some?
  }

  function Cols(hill: Hill): nat { if |hill| == 0 then 0 else |hill[0]| }

  predicate InBounds(p: Cell, rows: nat, cols: nat) { p.i < rows && p.j < cols }

  predicate OnHill(hill: Hill, p: Cell) { p.i < |hill| && p.j < |hill[p.i]| }

  /** On a well-formed map, the bounds `neighbour_coords` checks are the
      squares of the map. */
  lemma InBoundsOnHill(hill: Hill, p: Cell)
    requires WellFormed(hill)
    ensures InBounds(p, |hill|, Cols(hill)) <==> OnHill(hill, p)
  {
  }

  /** One step up, down, left or right. */
  predicate Adjacent(p: Cell, q: Cell)
  {
    (p.i == q.i && (p.j == q.j + 1 || q.j == p.j + 1))
    || (p.j == q.j && (p.i == q.i + 1 || q.i == p.i + 1))
  }

  /** The cell at an offset, if it is on a `rows` by `cols` map. */
  function Offset(p: Cell, di: int, dj: int, rows: nat, cols: nat): seq<Cell>
  {
    if 0 <= p.i + di < rows && 0 <= p.j + dj < cols then [Cell(p.i + di, p.j + dj)] else []
  }

  /** `neighbour_coords`: the cells above, below, left and right, in that
      order, that lie on the map. */
  function NeighbourCoords(p: Cell, rows: nat, cols: nat): (r: seq<Cell>)
    ensures forall k :: 0 <= k < |r| ==> InBounds(r[k], rows, cols) && Adjacent(p, r[k])
    ensures forall q :: InBounds(q, rows, cols) && Adjacent(p, q) ==> q in r
    ensures |r| <= 4
  {
    Offset(p, -1, 0, rows, cols) + Offset(p, 1, 0, rows, cols)
    + Offset(p, 0, -1, rows, cols) + Offset(p, 0, 1, rows, cols)
  }

  /** The source's tests on a 3 by 4 map. */
  lemma NeighbourExamples()
    ensures NeighbourCoords(Cell(0, 0), 3, 4) == [Cell(1, 0), Cell(0, 1)]
    ensures NeighbourCoords(Cell(1, 0), 3, 4) == [Cell(0, 0), Cell(2, 0), Cell(1, 1)]
    ensures NeighbourCoords(Cell(0, 1), 3, 4) == [Cell(1, 1), Cell(0, 0), Cell(0, 2)]
    ensures NeighbourCoords(Cell(1, 1), 3, 4) == [Cell(0, 1), Cell(2, 1), Cell(1, 0), Cell(1, 2)]
    ensures NeighbourCoords(Cell(1, 3), 3, 4) == [Cell(0, 3), Cell(2, 3), Cell(1, 2)]
    ensures NeighbourCoords(Cell(2, 1), 3, 4) == [Cell(1, 1), Cell(2, 0), Cell(2, 2)]
  {
  }

  function HeightAt(hill: Hill, p: Cell): nat
    requires WellFormed(hill) && OnHill(hill, p)
  {
    Height(hill[p.i][p.j].elevation).value
  }

  /** A move from `p` to `q` climbs at most one. */
  predicate CanClimb(hill: Hill, p: Cell, q: Cell)
    requires WellFormed(hill) && OnHill(hill, p) && OnHill(hill, q)
  {
    HeightAt(hill, q) <= HeightAt(hill, p) + 1
  }

  /** The cells of `cs` that are unvisited and climbable from `p`, in order. */
  function Climbable(hill: Hill, p: Cell, cs: seq<Cell>): (r: seq<Cell>)
    requires WellFormed(hill) && OnHill(hill, p)
    requires forall q :: q in cs ==> OnHill(hill, q)
    ensures forall q :: q in r <==> q in cs && OnHill(hill, q) && !hill[q.i][q.j].visited && CanClimb(hill, p, q)
  {
    if |cs| == 0 then []
    else
      var rest := Climbable(hill, p, cs[1..]);
      var q := cs[0];
      assert q in cs;
      assert OnHill(hill, q);
      if !hill[q.i][q.j].visited && CanClimb(hill, p, q) then [q] + rest else rest
  }

  /** `unvisited_neighbours`: the neighbours not yet visited that are at
      most one higher. */
  function UnvisitedNeighbours(hill: Hill, p: Cell): (r: seq<Cell>)
    requires WellFormed(hill) && OnHill(hill, p)
    ensures forall q :: q in r <==>
      OnHill(hill, q) && Adjacent(p, q) && !hill[q.i][q.j].visited && CanClimb(hill, p, q)
  {
    forall q ensures InBounds(q, |hill|, Cols(hill)) <==> OnHill(hill, q) {
      InBoundsOnHill(hill, q);
    }
    Climbable(hill, p, NeighbourCoords(p, |hill|, Cols(hill)))
  }

  /** Both maps have the same shape and heights. */
  predicate SameTerrain(h1: Hill, h2: Hill)
  {
    |h1| == |h2|
    && (forall a :: 0 <= a < |h1| ==> |h1[a]| == |h2[a]|)
    && forall a, b :: 0 <= a < |h1| && 0 <= b < |h1[a]| ==> h1[a][b].elevation == h2[a][b].elevation
  }

  /** Marking the frontier: a square is visited afterwards when it was
      before or is in `cs`; heights never change. */
  function Mark(hill: Hill, cs: seq<Cell>): (r: Hill)
    ensures |r| == |hill|
    ensures forall a :: 0 <= a < |hill| ==> |r[a]| == |hill[a]|
    ensures SameTerrain(hill, r)
    ensures forall a, b :: 0 <= a < |hill| && 0 <= b < |hill[a]| ==>
      (r[a][b].visited <==> hill[a][b].visited || Cell(a, b) in cs)
  {
    seq(|hill|, a requires 0 <= a < |hill| =>
      seq(|hill[a]|, b requires 0 <= b < |hill[a]| =>
        Square(hill[a][b].elevation, hill[a][b].visited || Cell(a, b) in cs)))
  }

  /** `reset_visitors`: every square unvisited, heights unchanged. */
  function Reset(hill: Hill): (r: Hill)
    ensures |r| == |hill|
    ensures forall a :: 0 <= a < |hill| ==> |r[a]| == |hill[a]|
    ensures SameTerrain(hill, r)
    ensures forall a, b :: 0 <= a < |hill| && 0 <= b < |hill[a]| ==> !r[a][b].visited
  {
    seq(|hill|, a requires 0 <= a < |hill| =>
      seq(|hill[a]|, b requires 0 <= b < |hill[a]| => Square(hill[a][b].elevation, false)))
  }

  /** Marking keeps a map well formed and its squares where they were. */
  lemma SameTerrainKeeps(h1: Hill, h2: Hill)
    requires SameTerrain(h1, h2)
    ensures WellFormed(h1) ==> WellFormed(h2)
    ensures Cols(h1) == Cols(h2)
    ensures forall p :: OnHill(h1, p) <==> OnHill(h2, p)
  {
  }

  /** Marking twice still leaves the terrain of the first map. */
  lemma SameTerrainTrans(h1: Hill, h2: Hill, h3: Hill)
    requires SameTerrain(h1, h2) && SameTerrain(h2, h3)
    ensures SameTerrain(h1, h3)
  {
  }

  /** The next frontier: all unvisited climbable neighbours of the current
      one (`flat_map`). */
  function Expand(hill: Hill, recent: seq<Cell>): (r: seq<Cell>)
    requires WellFormed(hill) && forall p :: p in recent ==> OnHill(hill, p)
    ensures forall q :: q in r <==> exists p :: p in recent && q in UnvisitedNeighbours(hill, p)
    ensures forall q :: q in r ==> OnHill(hill, q)
  {
    if |recent| == 0 then []
    else UnvisitedNeighbours(hill, recent[0]) + Expand(hill, recent[1..])
  }

  /** Why the search stopped: a frontier reached `E`, or the bound passed
      in was reached first. */
  datatype Outcome = Reached(n: nat) | Capped(n: nat)

  function Steps(o: Outcome): nat { o.n }

  predicate HasEnd(hill: Hill, cs: seq<Cell>)
    requires forall q :: q in cs ==> OnHill(hill, q)
  {
    exists q :: q in cs && OnHill(hill, q) && hill[q.i][q.j].elevation == EndMark
  }

  /** The body of the loop up to the count: the next frontier, sorted
      and deduplicated, and the map with it marked. */
  function Round(hill: Hill, recent: seq<Cell>): (r: (Hill, seq<Cell>))
    requires WellFormed(hill) && forall p :: p in recent ==> OnHill(hill, p)
    ensures WellFormed(r.0) && SameTerrain(hill, r.0)
    ensures forall q :: q in r.1 ==> OnHill(r.0, q)
  {
    var next := SortDedup(Expand(hill, recent));
    var marked := Mark(hill, next);
    SameTerrainKeeps(hill, marked);
    (marked, next)
  }

  /** One round of `shortest_path` after `n` rounds, with `fuel` rounds to
      spare: expand, sort and dedup, mark, count, then stop on reaching `E`
      or the bound. `None` when the fuel runs out: the source loops for
      ever when `E` cannot be reached and there is no bound. */
  function Search(hill: Hill, recent: seq<Cell>, n: nat, min: Option<nat>, fuel: nat): (r: Option<Outcome>)
    requires WellFormed(hill) && forall p :: p in recent ==> OnHill(hill, p)
    ensures r.Some? ==> Steps(r.value) > n
    ensures r.Some? && min.None? ==> r.value.Reached?
    decreases fuel
  {
    if fuel == 0 then None
    else
      var (marked, next) := Round(hill, recent);
      if HasEnd(marked, next) then Some(Reached(n + 1))
      else if min.Some? && min.value <= n + 1 then Some(Capped(n + 1))
      else Search(marked, next, n + 1, min, fuel - 1)
  }

  /** With a bound `m`, the search stops by round `m` (or the first round,
      if `m` is 0). */
  lemma {:induction false} SearchBounded(hill: Hill, recent: seq<Cell>, n: nat, m: nat, fuel: nat)
    requires WellFormed(hill) && forall p :: p in recent ==> OnHill(hill, p)
    requires Search(hill, recent, n, Some(m), fuel).Some?
    ensures Steps(Search(hill, recent, n, Some(m), fuel).value) <= if m > n then m else n + 1
    decreases fuel
  {
    var (marked, next) := Round(hill, recent);
    if !HasEnd(marked, next) && m > n + 1 {
      SearchBounded(marked, next, n + 1, m, fuel - 1);
    }
  }

  /** With a bound `m`, fuel for the rounds up to `m` always suffices. */
  lemma {:induction false} SearchTerminates(hill: Hill, recent: seq<Cell>, n: nat, m: nat, fuel: nat)
    requires WellFormed(hill) && forall p :: p in recent ==> OnHill(hill, p)
    requires fuel > 0 && fuel >= m - n
    ensures Search(hill, recent, n, Some(m), fuel).Some?
    decreases fuel
  {
    var (marked, next) := Round(hill, recent);
    if !HasEnd(marked, next) && m > n + 1 {
      SearchTerminates(marked, next, n + 1, m, fuel - 1);
    }
  }

  /** `shortest_path` from `start`, with `fuel` rounds at most. */
  function ShortestPath(hill: Hill, start: Cell, min: Option<nat>, fuel: nat): (r: Option<nat>)
    requires WellFormed(hill) && OnHill(hill, start)
    ensures r.Some? ==> r.value >= 1
  {
    var o :- Search(hill, [start], 0, min, fuel);
    Some(Steps(o))
  }

  /** With `Some(m)`, `m >= 1`, the answer is at most `m`, and `m` rounds
      of fuel always suffice. */
  lemma ShortestPathBounded(hill: Hill, start: Cell, m: nat, fuel: nat)
    requires WellFormed(hill) && OnHill(hill, start) && m >= 1
    ensures ShortestPath(hill, start, Some(m), fuel).Some? ==> ShortestPath(hill, start, Some(m), fuel).value <= m
    ensures fuel >= m ==> ShortestPath(hill, start, Some(m), fuel).Some?
  {
    if ShortestPath(hill, start, Some(m), fuel).Some? {
      SearchBounded(hill, [start], 0, m, fuel);
    }
    if fuel >= m {
      SearchTerminates(hill, [start], 0, m, fuel);
    }
  }

  /** The cells reachable from `start` in at most `k` climbing moves. */
  function Within(hill: Hill, start: Cell, k: nat): (r: set<Cell>)
    requires WellFormed(hill) && OnHill(hill, start)
    ensures forall q :: q in r ==> OnHill(hill, q)
  {
    if k == 0 then {start}
    else
      var prev := Within(hill, start, k - 1);
      prev + set p, q | p in prev && q in NeighbourCoords(p, |hill|, Cols(hill)) && CanClimb(hill, p, q) :: q
  }

  /** Marking squares leaves the climbing rules alone. */
  lemma SameTerrainWithin(h1: Hill, h2: Hill, start: Cell, k: nat)
    requires WellFormed(h1) && WellFormed(h2) && SameTerrain(h1, h2) && OnHill(h1, start)
    ensures Within(h1, start, k) == Within(h2, start, k)
  {
    if k > 0 {
      SameTerrainWithin(h1, h2, start, k - 1);
    }
  }

  /** One more round reaches only cells one more move away. */
  lemma ExpandWithin(h0: Hill, hill: Hill, start: Cell, recent: seq<Cell>, n: nat)
    requires WellFormed(h0) && WellFormed(hill) && SameTerrain(h0, hill) && OnHill(h0, start)
    requires forall p :: p in recent ==> OnHill(hill, p) && p in Within(h0, start, n)
    ensures forall q :: q in Expand(hill, recent) ==> q in Within(h0, start, n + 1)
  {
    SameTerrainWithin(h0, hill, start, n + 1);
    SameTerrainWithin(h0, hill, start, n);
    forall q | q in Expand(hill, recent)
      ensures q in Within(hill, start, n + 1)
    {
      var p :| p in recent && q in UnvisitedNeighbours(hill, p);
      assert q in NeighbourCoords(p, |hill|, Cols(hill));
    }
  }

  /** The frontier a round produces lies one move further out. */
  lemma RoundWithin(h0: Hill, hill: Hill, start: Cell, recent: seq<Cell>, n: nat)
    requires WellFormed(h0) && WellFormed(hill) && SameTerrain(h0, hill) && OnHill(h0, start)
    requires forall p :: p in recent ==> OnHill(hill, p) && p in Within(h0, start, n)
    ensures forall q :: q in Round(hill, recent).1 ==> q in Within(h0, start, n + 1)
  {
    ExpandWithin(h0, hill, start, recent, n);
  }

  /** One round from a frontier within `n` moves of `start`: the marked map
      keeps the terrain, and the next frontier lies within `n + 1` moves. */
  lemma NextFrontier(h0: Hill, hill: Hill, start: Cell, recent: seq<Cell>, n: nat) returns (marked: Hill, next: seq<Cell>)
    requires WellFormed(h0) && WellFormed(hill) && SameTerrain(h0, hill) && OnHill(h0, start)
    requires forall p :: p in recent ==> OnHill(hill, p) && p in Within(h0, start, n)
    ensures (marked, next) == Round(hill, recent)
    ensures WellFormed(marked) && SameTerrain(h0, marked)
    ensures forall q :: q in next ==> OnHill(marked, q) && q in Within(h0, start, n + 1)
  {
    marked, next := Round(hill, recent).0, Round(hill, recent).1;
    SameTerrainTrans(h0, hill, marked);
    RoundWithin(h0, hill, start, recent, n);
  }

  /** An `E` in a frontier within `k` moves is an `E` within `k` moves. */
  lemma EndWithin(h0: Hill, hill: Hill, start: Cell, next: seq<Cell>, k: nat) returns (e: Cell)
    requires WellFormed(h0) && SameTerrain(h0, hill) && OnHill(h0, start)
    requires forall q :: q in next ==> OnHill(hill, q) && q in Within(h0, start, k)
    requires HasEnd(hill, next)
    ensures e in Within(h0, start, k) && h0[e.i][e.j].elevation == EndMark
  {
    e :| e in next && OnHill(hill, e) && hill[e.i][e.j].elevation == EndMark;
  }

  /** The search is sound: every frontier holds only cells within that
      many moves of the start, so when it reports reaching `E` after `n`
      rounds, an `E` square is within `n` climbing moves. */
  lemma {:induction false} SearchSound(h0: Hill, hill: Hill, start: Cell, recent: seq<Cell>, n: nat, min: Option<nat>, fuel: nat)
    returns (e: Cell)
    requires WellFormed(h0) && WellFormed(hill) && SameTerrain(h0, hill) && OnHill(h0, start)
    requires forall p :: p in recent ==> OnHill(hill, p) && p in Within(h0, start, n)
    requires Search(hill, recent, n, min, fuel).Some? && Search(hill, recent, n, min, fuel).value.Reached?
    ensures e in Within(h0, start, Steps(Search(hill, recent, n, min, fuel).value))
    ensures h0[e.i][e.j].elevation == EndMark
    decreases fuel
  {
    var marked, next := NextFrontier(h0, hill, start, recent, n);
    if HasEnd(marked, next) {
      assert Search(hill, recent, n, min, fuel) == Some(Reached(n + 1));
      e := EndWithin(h0, marked, start, next, n + 1);
    } else {
      assert Search(hill, recent, n, min, fuel) == Search(marked, next, n + 1, min, fuel - 1);
      e := SearchSound(h0, marked, start, next, n + 1, min, fuel - 1);
    }
  }

  /** The answer of `shortest_path` from `start`, when it finds `E`. */
  lemma ShortestPathSound(hill: Hill, start: Cell, fuel: nat)
    requires WellFormed(hill) && OnHill(hill, start)
    requires Search(hill, [start], 0, None, fuel).Some?
    ensures exists q :: (q in Within(hill, start, ShortestPath(hill, start, None, fuel).value)
      && hill[q.i][q.j].elevation == EndMark)
  {
    var e := SearchSound(hill, hill, start, [start], 0, None, fuel);
  }

  /** Reaching further never loses a cell. */
  lemma {:induction false} WithinGrows(hill: Hill, start: Cell, a: nat, b: nat)
    requires WellFormed(hill) && OnHill(hill, start) && a <= b
    ensures Within(hill, start, a) <= Within(hill, start, b)
    decreases b
  {
    if a < b {
      WithinGrows(hill, start, a, b - 1);
    }
  }

  /** `q` is exactly `n` climbing moves from the start: within `n` and not
      within fewer. */
  predicate NewAt(hill: Hill, start: Cell, n: nat, q: Cell)
    requires WellFormed(hill) && OnHill(hill, start)
  {
    q in Within(hill, start, n) && (n == 0 || q !in Within(hill, start, n - 1))
  }

  /** Square `p` of `hill` has been visited. */
  predicate Visited(hill: Hill, p: Cell)
  {
    OnHill(hill, p) && hill[p.i][p.j].visited
  }

  /** The breadth-first invariant after `n` rounds from `start` on `h0`:
      `hill` is `h0` with some squares marked, the frontier `recent` lies
      within `n` moves and holds every cell first reached in `n` moves,
      and every visited square is within `n` moves. */
  ghost predicate Frontier(h0: Hill, hill: Hill, start: Cell, recent: seq<Cell>, n: nat)
  {
    && WellFormed(h0) && WellFormed(hill) && SameTerrain(h0, hill) && OnHill(h0, start)
    && (forall p :: p in recent ==> OnHill(hill, p) && p in Within(h0, start, n))
    && (forall q {:trigger NewAt(h0, start, n, q)} :: NewAt(h0, start, n, q) ==> q in recent)
    && (forall p {:trigger Visited(hill, p)} :: Visited(hill, p) ==> p in Within(h0, start, n))
  }

  /** A cell first reached in `n + 1` moves comes from one first reached in
      `n` moves. */
  lemma NewFrom(hill: Hill, start: Cell, n: nat, q: Cell) returns (p: Cell)
    requires WellFormed(hill) && OnHill(hill, start) && NewAt(hill, start, n + 1, q)
    ensures NewAt(hill, start, n, p) && OnHill(hill, p) && OnHill(hill, q)
    ensures q in NeighbourCoords(p, |hill|, Cols(hill)) && CanClimb(hill, p, q)
  {
    var prev := Within(hill, start, n);
    p :| p in prev && q in NeighbourCoords(p, |hill|, Cols(hill)) && CanClimb(hill, p, q);
  }

  /** The round after a frontier holding every cell first reached in `n`
      moves, on a map whose visited squares are all within `n` moves, holds
      every cell first reached in `n + 1` moves, and marks only squares
      within `n + 1` moves. */
  lemma RoundComplete(h0: Hill, hill: Hill, start: Cell, recent: seq<Cell>, n: nat, m: nat) returns (marked: Hill, next: seq<Cell>)
    requires Frontier(h0, hill, start, recent, n) && m == n + 1
    ensures (marked, next) == Round(hill, recent)
    ensures Frontier(h0, marked, start, next, m)
  {
    marked, next := NextFrontier(h0, hill, start, recent, n);
    SameTerrainKeeps(h0, hill);
    forall q | NewAt(h0, start, m, q)
      ensures q in next
    {
      var p := NewFrom(h0, start, n, q);
      assert !Visited(hill, q);
      assert q in UnvisitedNeighbours(hill, p);
      assert q in Expand(hill, recent);
    }
    WithinGrows(h0, start, n, m);
    forall p | Visited(marked, p)
      ensures p in Within(h0, start, m)
    {
      if p !in next {
        assert Visited(hill, p);
      }
    }
  }

  /** No square within fewer than `k` moves of the start, other than the
      start itself, is `E`. */
  predicate NoEndBefore(hill: Hill, start: Cell, k: nat)
    requires WellFormed(hill) && OnHill(hill, start)
  {
    forall j: nat, q :: j < k && q in Within(hill, start, j) && q != start ==> hill[q.i][q.j].elevation != EndMark
  }

  /** No `E` but the start within fewer than `m` moves, and none among the
      round's new frontier, which holds every cell first reached in `m`
      moves: then none within fewer than `m + 1` moves either. */
  lemma NoEndFurther(h0: Hill, marked: Hill, start: Cell, next: seq<Cell>, m: nat)
    requires m > 0 && Frontier(h0, marked, start, next, m) && !HasEnd(marked, next)
    requires NoEndBefore(h0, start, m)
    ensures NoEndBefore(h0, start, m + 1)
  {
    forall j: nat, q | j < m + 1 && q in Within(h0, start, j) && q != start
      ensures h0[q.i][q.j].elevation != EndMark
    {
      if j == m && q !in Within(h0, start, m - 1) {
        assert NewAt(h0, start, m, q);
        assert OnHill(marked, q);
      }
    }
  }

  /** One round of the search, given the round's result: it stops after
      this round on reaching `E` or the bound, and otherwise goes on. */
  lemma SearchStep(hill: Hill, recent: seq<Cell>, n: nat, m: nat, min: Option<nat>, fuel: nat, f: nat, marked: Hill, next: seq<Cell>)
    requires WellFormed(hill) && forall p :: p in recent ==> OnHill(hill, p)
    requires Search(hill, recent, n, min, fuel).Some? && (marked, next) == Round(hill, recent)
    requires m == n + 1 && fuel == f + 1
    ensures WellFormed(marked) && forall q :: q in next ==> OnHill(marked, q)
    ensures HasEnd(marked, next) || (min.Some? && min.value <= m) ==> Rounds(hill, recent, n, min, fuel) == m
    ensures !HasEnd(marked, next) && !(min.Some? && min.value <= m) ==>
      Search(marked, next, m, min, f).Some? && Rounds(hill, recent, n, min, fuel) == Rounds(marked, next, m, min, f)
  {
  }

  /** The search starts from a frontier of just the start square, on a map
      with nothing visited. */
  lemma FrontierStart(hill: Hill, start: Cell)
    requires WellFormed(hill) && OnHill(hill, start)
    requires forall a, b :: 0 <= a < |hill| && 0 <= b < |hill[a]| ==> !hill[a][b].visited
    ensures Frontier(hill, hill, start, [start], 0) && NoEndBefore(hill, start, 0 + 1)
  {
    assert Within(hill, start, 0) == {start};
    forall p
      ensures !Visited(hill, p)
    {
      if OnHill(hill, p) {
        assert !hill[p.i][p.j].visited;
      }
    }
    forall j: nat, q | j < 0 + 1 && q in Within(hill, start, j)
      ensures q == start
    {
      assert j == 0;
    }
  }

  /** The number of rounds the search counts when it stops. */
  function Rounds(hill: Hill, recent: seq<Cell>, n: nat, min: Option<nat>, fuel: nat): nat
    requires WellFormed(hill) && forall p :: p in recent ==> OnHill(hill, p)
    requires Search(hill, recent, n, min, fuel).Some?
  {
    Steps(Search(hill, recent, n, min, fuel).value)
  }

  /** The search is complete: from a frontier as `Frontier` describes,
      with no `E` but the start within `n` moves, no `E` but the start lies
      within fewer moves than the round the search stops at. */
  lemma {:induction false} SearchMinimal(h0: Hill, hill: Hill, start: Cell, recent: seq<Cell>, n: nat, min: Option<nat>, fuel: nat)
    requires Frontier(h0, hill, start, recent, n) && NoEndBefore(h0, start, n + 1)
    requires Search(hill, recent, n, min, fuel).Some?
    ensures NoEndBefore(h0, start, Rounds(hill, recent, n, min, fuel))
    decreases fuel, 1
  {
    var m: nat := n + 1;
    assert fuel > 0;
    var f: nat := fuel - 1;
    var marked, next := RoundComplete(h0, hill, start, recent, n, m);
    SearchStep(hill, recent, n, m, min, fuel, f, marked, next);
    if !HasEnd(marked, next) && !(min.Some? && min.value <= m) {
      SearchGoesOn(h0, marked, start, next, m, min, f);
    }
  }

  /** The search going on from round `m`, after a round that met no `E`,
      is complete in the same sense. */
  lemma {:induction false} SearchGoesOn(h0: Hill, marked: Hill, start: Cell, next: seq<Cell>, m: nat, min: Option<nat>, fuel: nat)
    requires m > 0 && Frontier(h0, marked, start, next, m) && !HasEnd(marked, next) && NoEndBefore(h0, start, m)
    requires Search(marked, next, m, min, fuel).Some?
    ensures NoEndBefore(h0, start, Rounds(marked, next, m, min, fuel))
    decreases fuel + 1, 0
  {
    NoEndFurther(h0, marked, start, next, m);
    SearchMinimal(h0, marked, start, next, m, min, fuel);
  }

  /** `shortest_path`'s answer is the search's count of rounds. */
  lemma ShortestPathSearch(hill: Hill, start: Cell, min: Option<nat>, fuel: nat)
    requires WellFormed(hill) && OnHill(hill, start)
    requires ShortestPath(hill, start, min, fuel).Some?
    ensures Search(hill, [start], 0, min, fuel).Some?
    ensures ShortestPath(hill, start, min, fuel).value == Steps(Search(hill, [start], 0, min, fuel).value)
  {
  }

  /** The answer of `shortest_path` on a map with nothing visited is the
      least number of moves reaching `E`: no `E` other than the start lies
      within fewer moves. */
  lemma ShortestPathMinimal(hill: Hill, start: Cell, min: Option<nat>, fuel: nat)
    requires WellFormed(hill) && OnHill(hill, start)
    requires forall a, b :: 0 <= a < |hill| && 0 <= b < |hill[a]| ==> !hill[a][b].visited
    requires ShortestPath(hill, start, min, fuel).Some?
    ensures forall n: nat, q :: n < ShortestPath(hill, start, min, fuel).value && q in Within(hill, start, n) && q != start ==>
      hill[q.i][q.j].elevation != EndMark
  {
    ShortestPathSearch(hill, start, min, fuel);
    FrontierStart(hill, start);
    SearchMinimal(hill, hill, start, [start], 0, min, fuel);
  }

  /** The cells of rows `i` onwards, column `j` onwards in row `i`, whose
      square satisfies `f`, in row-major order. */
  function RowCells(hill: Hill, i: nat, j: nat, f: char -> bool): (r: seq<Cell>)
    requires i < |hill|
    ensures forall k :: 0 <= k < |r| ==> r[k].i == i && r[k].j >= j
    ensures Increasing(r)
    ensures forall q :: q in r <==> q.i == i && j <= q.j < |hill[i]| && f(hill[i][q.j].elevation)
    decreases |hill[i]| - j
  {
    if j >= |hill[i]| then []
    else (if f(hill[i][j].elevation) then [Cell(i, j)] else []) + RowCells(hill, i, j + 1, f)
  }

  function CellsWhere(hill: Hill, i: nat, f: char -> bool): (r: seq<Cell>)
    ensures forall k :: 0 <= k < |r| ==> r[k].i >= i
    ensures Increasing(r)
    ensures forall q :: q in r <==> i <= q.i && OnHill(hill, q) && f(hill[q.i][q.j].elevation)
    decreases |hill| - i
  {
    if i >= |hill| then []
    else
      var row := RowCells(hill, i, 0, f);
      var rest := CellsWhere(hill, i + 1, f);
      assert forall x, y :: 0 <= x < |row| && 0 <= y < |rest| ==> Before(row[x], rest[y]);
      row + rest
  }

  predicate Lowest(c: char) { Height(c) == Some(0) }

  predicate IsStart(c: char) { c == StartMark }

  /** One unvisited square per character. */
  function Unvisited(lines: seq<string>): (hill: Hill)
    ensures |hill| == |lines|
    ensures forall i :: 0 <= i < |hill| ==> |hill[i]| == |lines[i]|
    ensures forall i, j :: 0 <= i < |hill| && 0 <= j < |hill[i]| ==> hill[i][j] == Square(lines[i][j], false)
  {
    seq(|lines|, i requires 0 <= i < |lines| =>
      seq(|lines[i]|, j requires 0 <= j < |lines[i]| => Square(lines[i][j], false)))
  }

  /** `initialise_map`: one row of unvisited squares per line, the start
      square, and every square of height 0 in reading order. `None` when some character has
      no height, where the source panics. */
  function InitialiseMap(input: string): (r: Option<(Hill, Cell, seq<Cell>)>)
    ensures var lines := Text.Lines(input);
      r.Some? <==> forall i, j :: 0 <= i < |lines| && 0 <= j < |lines[i]| ==> Height(lines[i][j]).Some?
    ensures r.Some? ==> var (hill, start, starts) := r.value; var lines := Text.Lines(input);
      |hill| == |lines|
      && (forall i :: 0 <= i < |hill| ==> |hill[i]| == |lines[i]|)
      && (forall i, j :: 0 <= i < |hill| && 0 <= j < |hill[i]| ==> hill[i][j] == Square(lines[i][j], false))
      && start == LastStart(hill)
      && Increasing(starts)
      && (forall q :: q in starts <==> OnHill(hill, q) && Height(hill[q.i][q.j].elevation) == Some(0))
  {
    var lines := Text.Lines(input);
    if exists i, j :: 0 <= i < |lines| && 0 <= j < |lines[i]| && Height(lines[i][j]).None? then None
    else
      var hill := Unvisited(lines);
      Some((hill, LastStart(hill), CellsWhere(hill, 0, Lowest)))
  }

  /** The start `initialise_map` reports: an `S` with no `S` after it in
      reading order, or `(0, 0)` when the map has no `S`. */
  function LastStart(hill: Hill): (start: Cell)
    ensures if exists q :: OnHill(hill, q) && hill[q.i][q.j].elevation == StartMark then
        OnHill(hill, start) && hill[start.i][start.j].elevation == StartMark
        && forall q :: OnHill(hill, q) && hill[q.i][q.j].elevation == StartMark ==> q == start || Before(q, start)
      else start == Cell(0, 0)
  {
    var marks := CellsWhere(hill, 0, IsStart);
    StartCells(hill);
    if |marks| == 0 then
      Cell(0, 0)
    else
      var last := marks[|marks| - 1];
      assert forall q :: OnHill(hill, q) && hill[q.i][q.j].elevation == StartMark ==> q == last || Before(q, last) by {
        forall q | OnHill(hill, q) && hill[q.i][q.j].elevation == StartMark
          ensures q == last || Before(q, last)
        {
          LastIsGreatest(marks, q);
        }
      }
      last
  }

  /** The `S` squares, in reading order. */
  lemma StartCells(hill: Hill)
    ensures Increasing(CellsWhere(hill, 0, IsStart))
    ensures forall q :: q in CellsWhere(hill, 0, IsStart) <==> OnHill(hill, q) && hill[q.i][q.j].elevation == StartMark
  {
    var marks := CellsWhere(hill, 0, IsStart);
    forall q ensures q in marks <==> OnHill(hill, q) && hill[q.i][q.j].elevation == StartMark {
      if OnHill(hill, q) {
        assert IsStart(hill[q.i][q.j].elevation) <==> hill[q.i][q.j].elevation == StartMark;
      }
    }
  }

  /** Every member of an increasing list is its last element or comes before it. */
  lemma LastIsGreatest(s: seq<Cell>, q: Cell)
    requires Increasing(s) && q in s
    ensures q == s[|s| - 1] || Before(q, s[|s| - 1])
  {
    var k :| 0 <= k < |s| && s[k] == q;
    if k < |s| - 1 {
      assert Before(s[k], s[|s| - 1]);
    }
  }

  /** The loop of `main` over the other starting squares: reset the map,
      then search with the best length so far as the bound. */
  function BestFrom(hill: Hill, starts: seq<Cell>, min: nat, fuel: nat): (r: Option<nat>)
    requires WellFormed(hill) && forall q :: q in starts ==> OnHill(hill, q)
    requires min >= 1
    ensures r.Some? ==> 1 <= r.value <= min
    decreases |starts|
  {
    if |starts| == 0 then Some(min)
    else
      var cleared := Reset(hill);
      SameTerrainKeeps(hill, cleared);
      ShortestPathBounded(cleared, starts[0], min, fuel);
      var m :- ShortestPath(cleared, starts[0], Some(min), fuel);
      BestFrom(hill, starts[1..], m, fuel)
  }

  /** Enough fuel for `min` rounds lets every bounded search finish, since
      the bound never grows. */
  lemma {:induction false} BestFromTerminates(hill: Hill, starts: seq<Cell>, min: nat, fuel: nat)
    requires WellFormed(hill) && forall q :: q in starts ==> OnHill(hill, q)
    requires 1 <= min <= fuel
    ensures BestFrom(hill, starts, min, fuel).Some?
    decreases |starts|
  {
    if |starts| > 0 {
      var cleared := Reset(hill);
      SameTerrainKeeps(hill, cleared);
      ShortestPathBounded(cleared, starts[0], min, fuel);
      var m := ShortestPath(cleared, starts[0], Some(min), fuel).value;
      BestFromTerminates(hill, starts[1..], m, fuel);
    }
  }

  /** The two answers `main` prints: the search from `S`, then the best
      over every square of height 0. */
  function Answers(input: string, fuel: nat): (r: Option<(nat, nat)>)
    ensures r.Some? ==> 1 <= r.value.1 <= r.value.0
  {
    var (hill, start, starts) :- InitialiseMap(input);
    if !WellFormed(hill) || !OnHill(hill, start) then None
    else
      var first :- ShortestPath(hill, start, None, fuel);
      var best :- BestFrom(hill, starts, first, fuel);
      Some((first, best))
  }
}
