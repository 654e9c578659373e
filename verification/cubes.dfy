/** Day 18, "Boiling Boulders": a droplet scanned as unit cubes on a 3-D
    grid. Part 1 counts the faces not touching another cube; part 2 floods
    the air around the droplet from the faces of a bounding box and counts
    the cube faces the flood reaches. */
module Cubes {
  import opened Wrappers
  import opened Arith

  datatype Cube = Cube(x: int, y: int, z: int)

  /** `UnitCube::distance`: the Manhattan distance. */
  function Distance(a: Cube, b: Cube): nat
  {
    Abs(a.x - b.x) + Abs(a.y - b.y) + Abs(a.z - b.z)
  }

  lemma DistanceSymmetric(a: Cube, b: Cube)
    ensures Distance(a, b) == Distance(b, a)
  {
  }

  lemma DistanceZero(a: Cube, b: Cube)
    ensures Distance(a, b) == 0 <==> a == b
  {
  }

  /** Two cubes share a face. */
  predicate Adjacent(a: Cube, b: Cube)
  {
    Distance(a, b) == 1
  }

  /** The `d`-th face neighbour in the order `external_faces` tries them:
      axis `d / 2` (x, y, z), first one step down, then one step up. */
  function Neighbour(c: Cube, d: nat): (a: Cube)
    requires d < 6
    ensures Adjacent(c, a)
  {
    var step := if d % 2 == 0 then -1 else 1;
    if d / 2 == 0 then c.(x := c.x + step)
    else if d / 2 == 1 then c.(y := c.y + step)
    else c.(z := c.z + step)
  }

  /** The six face neighbours are all the adjacent cubes. */
  function NeighbourIndex(c: Cube, a: Cube): (d: nat)
    requires Adjacent(c, a)
    ensures d < 6 && Neighbour(c, d) == a
  {
    if a.x == c.x - 1 then 0
    else if a.x == c.x + 1 then 1
    else if a.y == c.y - 1 then 2
    else if a.y == c.y + 1 then 3
    else if a.z == c.z - 1 then 4
    else 5
  }

  function Neighbours(c: Cube): set<Cube>
  {
    {Neighbour(c, 0), Neighbour(c, 1), Neighbour(c, 2), Neighbour(c, 3), Neighbour(c, 4), Neighbour(c, 5)}
  }

  lemma NeighboursAdjacent(c: Cube, a: Cube)
    ensures a in Neighbours(c) <==> Adjacent(c, a)
  {
    if Adjacent(c, a) {
      var d := NeighbourIndex(c, a);
    }
  }

  // ---------------------------------------------------------------------
  // Part 1: the surface area

  /** How many cubes of `s` share a face with `c`. */
  function CountAdjacent(s: seq<Cube>, c: Cube): (n: nat)
    ensures n <= |s|
  {
    if |s| == 0 then 0
    else CountAdjacent(s[..|s| - 1], c) + (if Adjacent(s[|s| - 1], c) then 1 else 0)
  }

  /** The pairs `(n, m)`, `n < m`, with cube `m` adjacent to cube `n`,
      counted for `n` below `k`. */
  function PairsUpTo(s: seq<Cube>, k: nat): nat
    requires k <= |s|
  {
    if k == 0 then 0 else PairsUpTo(s, k - 1) + CountAdjacent(s[k..], s[k - 1])
  }

  /** All adjacent pairs. */
  function Pairs(s: seq<Cube>): nat
  {
    PairsUpTo(s, |s|)
  }

  /** The faces of the cubes of `u` touching a cube of `s`. */
  function Touching(s: seq<Cube>, u: seq<Cube>): nat
  {
    if |u| == 0 then 0 else Touching(s, u[..|u| - 1]) + CountAdjacent(s, u[|u| - 1])
  }

  /** The faces of the cubes of `u` not touching a cube of `s`: six per
      cube less the touching ones. */
  function Exposed(s: seq<Cube>, u: seq<Cube>): int
  {
    if |u| == 0 then 0 else Exposed(s, u[..|u| - 1]) + 6 - CountAdjacent(s, u[|u| - 1])
  }

  predicate NoDup(s: seq<Cube>)
  {
    forall i, j :: 0 <= i < j < |s| ==> s[i] != s[j]
  }

  /** The loops of `main` counting adjacencies, then `6 * cubes.len() - 2 *
      adjacencies` on `usize`. The source's `0..(cubes.len() - 1)` has no
      value for an empty scan, and the subtraction none when duplicate
      cubes make the pairs outnumber three per cube. For distinct cubes
      the result is every cube's faces that touch no other cube. */
  method SurfaceArea(cubes: seq<Cube>) returns (area: Option<nat>)
    ensures |cubes| == 0 ==> area.None?
    ensures |cubes| > 0 ==> (area.Some? <==> 2 * Pairs(cubes) <= 6 * |cubes|)
    ensures area.Some? ==> area.value + 2 * Pairs(cubes) == 6 * |cubes|
    ensures |cubes| > 0 && NoDup(cubes) ==> area.Some? && area.value == Exposed(cubes, cubes)
  {
    if |cubes| == 0 {
      return None;
    }
    var adjacencies := 0;
    var n := 0;
    while n < |cubes| - 1
      invariant n <= |cubes| - 1
      invariant adjacencies == PairsUpTo(cubes, n)
    {
      var count := CountLater(cubes, n);
      adjacencies := adjacencies + count;
      n := n + 1;
    }
    assert Pairs(cubes) == adjacencies;
    PairsTouching(cubes);
    ExposedTouching(cubes, cubes);
    if NoDup(cubes) {
      TouchingBound(cubes, cubes);
    }
    if 2 * adjacencies > 6 * |cubes| {
      return None;
    }
    return Some(6 * |cubes| - 2 * adjacencies);
  }

  lemma CountAdjacentPair(a: Cube, b: Cube, c: Cube)
    ensures CountAdjacent([a, b], c) == (if Adjacent(a, c) then 1 else 0) + (if Adjacent(b, c) then 1 else 0)
  {
    assert [a, b][..1] == [a];
    assert [a][..0] == [];
  }

  /** Two cubes side by side: one adjacent pair, so ten faces show. */
  lemma TwoCubes(a: Cube, b: Cube)
    requires Adjacent(a, b)
    ensures Pairs([a, b]) == 1
    ensures Exposed([a, b], [a, b]) == 10
  {
    var s := [a, b];
    DistanceZero(a, a);
    DistanceZero(b, b);
    DistanceSymmetric(a, b);
    CountAdjacentPair(a, b, a);
    CountAdjacentPair(a, b, b);
    assert s[1..] == [b] && s[2..] == [];
    assert [b][..0] == [];
    assert CountAdjacent([b], a) == 1;
    assert PairsUpTo(s, 1) == 1;
    assert Pairs(s) == PairsUpTo(s, 1) + CountAdjacent(s[2..], b);
    assert s[..1] == [a] && [a][..0] == [];
    assert Exposed(s, [a]) == 5;
    assert Exposed(s, s) == Exposed(s, [a]) + 6 - CountAdjacent(s, b);
  }

  /** The inner loop of `main`: the cubes after position `n` adjacent to
      cube `n`. */
  method CountLater(cubes: seq<Cube>, n: nat) returns (count: nat)
    requires n < |cubes|
    ensures count == CountAdjacent(cubes[n + 1..], cubes[n])
  {
    var m := n + 1;
    count := 0;
    while m < |cubes|
      invariant n + 1 <= m <= |cubes|
      invariant count == CountAdjacent(cubes[n + 1..m], cubes[n])
    {
      assert cubes[n + 1..m + 1][..m - n - 1] == cubes[n + 1..m];
      if Distance(cubes[n], cubes[m]) == 1 {
        count := count + 1;
      }
      m := m + 1;
    }
    assert cubes[n + 1..m] == cubes[n + 1..];
  }

  lemma {:induction false} ExposedTouching(s: seq<Cube>, u: seq<Cube>)
    ensures Exposed(s, u) == 6 * |u| - Touching(s, u)
  {
    if |u| > 0 {
      ExposedTouching(s, u[..|u| - 1]);
    }
  }

  /** Each adjacent pair is two touching faces. */
  lemma {:induction false} PairsTouching(s: seq<Cube>)
    ensures 2 * Pairs(s) == Touching(s, s)
  {
    if |s| > 0 {
      var t, c := s[..|s| - 1], s[|s| - 1];
      assert s == t + [c];
      PairsTouching(t);
      PairsAppend(t, c, |t|);
      assert t[..|t|] == t;
      assert PairsUpTo(s, |s|) == PairsUpTo(s, |t|) + CountAdjacent(s[|s|..], s[|t|]);
      assert s[|s|..] == [];
      TouchingAppend(t, c, t);
      assert Touching(s, s) == Touching(s, t) + CountAdjacent(s, c);
      assert CountAdjacent(s, c) == CountAdjacent(t, c) by {
        DistanceZero(c, c);
      }
    }
  }

  /** Appending a cube adds its adjacencies with the earlier cubes. */
  lemma {:induction false} PairsAppend(t: seq<Cube>, c: Cube, k: nat)
    requires k <= |t|
    ensures PairsUpTo(t + [c], k) == PairsUpTo(t, k) + CountAdjacent(t[..k], c)
  {
    if k > 0 {
      PairsAppend(t, c, k - 1);
      var s := t + [c];
      assert s[k..] == t[k..] + [c];
      assert (t[k..] + [c])[..|t[k..]|] == t[k..];
      assert t[..k][..k - 1] == t[..k - 1];
      DistanceSymmetric(t[k - 1], c);
    }
  }

  /** Touching faces against one more cube `c`. */
  lemma {:induction false} TouchingAppend(t: seq<Cube>, c: Cube, u: seq<Cube>)
    ensures Touching(t + [c], u) == Touching(t, u) + CountAdjacent(u, c)
  {
    if |u| > 0 {
      TouchingAppend(t, c, u[..|u| - 1]);
      assert (t + [c])[..|t|] == t;
      DistanceSymmetric(u[|u| - 1], c);
    }
  }

  /** With no duplicates, no cube touches more than six others. */
  lemma {:induction false} TouchingBound(s: seq<Cube>, u: seq<Cube>)
    requires NoDup(s)
    ensures Touching(s, u) <= 6 * |u|
  {
    if |u| > 0 {
      TouchingBound(s, u[..|u| - 1]);
      AdjacentBound(s, u[|u| - 1]);
    }
  }

  lemma AdjacentBound(s: seq<Cube>, c: Cube)
    requires NoDup(s)
    ensures CountAdjacent(s, c) <= 6
  {
    AdjacentSet(s, c);
    var a := AdjacentCells(s, c);
    forall x | x in a
      ensures x in Neighbours(c)
    {
      NeighboursAdjacent(c, x);
      DistanceSymmetric(c, x);
    }
    SubsetCard(a, Neighbours(c));
  }

  /** The adjacent cubes of a sequence without duplicates are as many as
      the set of them. */
  lemma {:induction false} AdjacentSet(s: seq<Cube>, c: Cube)
    requires NoDup(s)
    ensures CountAdjacent(s, c) == |AdjacentCells(s, c)|
  {
    if |s| > 0 {
      var t, last := s[..|s| - 1], s[|s| - 1];
      assert s == t + [last];
      AdjacentSet(t, c);
      assert last !in AdjacentCells(t, c);
      AdjacentCellsSnoc(t, last, c);
    }
  }

  /** The cubes of `s` adjacent to `c`. */
  function AdjacentCells(s: seq<Cube>, c: Cube): set<Cube>
  {
    set x | x in s && Adjacent(x, c)
  }

  lemma AdjacentCellsSnoc(t: seq<Cube>, last: Cube, c: Cube)
    ensures AdjacentCells(t + [last], c) == AdjacentCells(t, c) + (if Adjacent(last, c) then {last} else {})
  {
    assert forall x :: x in t + [last] <==> x in t || x == last;
  }

  lemma {:induction false} SubsetCard<T>(a: set<T>, b: set<T>)
    requires a <= b
    ensures |a| <= |b|
    decreases |a|
  {
    if a != {} {
      var x :| x in a;
      SubsetCard(a - {x}, b - {x});
    }
  }

  // ---------------------------------------------------------------------
  // Part 2: the bounding box and the flood

  /** The three `RangeInclusive`s of `boundary`, as two corners. */
  datatype Box = Box(lo: Cube, hi: Cube)

  predicate InBox(b: Box, c: Cube)
  {
    b.lo.x <= c.x <= b.hi.x && b.lo.y <= c.y <= b.hi.y && b.lo.z <= c.z <= b.hi.z
  }

  /** Every axis of the box is a non-empty range. */
  predicate Proper(b: Box)
  {
    b.lo.x <= b.hi.x && b.lo.y <= b.hi.y && b.lo.z <= b.hi.z
  }

  predicate StrictlyInside(b: Box, c: Cube)
  {
    b.lo.x < c.x < b.hi.x && b.lo.y < c.y < b.hi.y && b.lo.z < c.z < b.hi.z
  }

  /** `iter().min().unwrap()`: defined on non-empty sequences only. */
  function Min(s: seq<int>): (m: int)
    requires |s| > 0
    ensures m in s && forall v :: v in s ==> m <= v
  {
    if |s| == 1 then s[0]
    else
      var m := Min(s[1..]);
      assert forall v :: v in s[1..] ==> v in s;
      assert forall v :: v in s ==> v == s[0] || v in s[1..];
      if s[0] <= m then s[0] else m
  }

  function MaxOf(s: seq<int>): (m: int)
    requires |s| > 0
    ensures m in s && forall v :: v in s ==> v <= m
  {
    if |s| == 1 then s[0]
    else
      var m := MaxOf(s[1..]);
      assert forall v :: v in s ==> v == s[0] || v in s[1..];
      if s[0] >= m then s[0] else m
  }

  function Xs(cubes: seq<Cube>): (r: seq<int>)
    ensures |r| == |cubes| && forall i :: 0 <= i < |cubes| ==> r[i] == cubes[i].x
  {
    seq(|cubes|, i requires 0 <= i < |cubes| => cubes[i].x)
  }

  function Ys(cubes: seq<Cube>): (r: seq<int>)
    ensures |r| == |cubes| && forall i :: 0 <= i < |cubes| ==> r[i] == cubes[i].y
  {
    seq(|cubes|, i requires 0 <= i < |cubes| => cubes[i].y)
  }

  function Zs(cubes: seq<Cube>): (r: seq<int>)
    ensures |r| == |cubes| && forall i :: 0 <= i < |cubes| ==> r[i] == cubes[i].z
  {
    seq(|cubes|, i requires 0 <= i < |cubes| => cubes[i].z)
  }

  /** `boundary`: one beyond the smallest and largest coordinate on each
      axis, so every cube lies strictly inside. The source unwraps the
      minimum, so there must be a cube. */
  function Boundary(cubes: seq<Cube>): (b: Box)
    requires |cubes| > 0
    ensures forall c :: c in cubes ==> StrictlyInside(b, c)
  {
    var b := Box(Cube(Min(Xs(cubes)) - 1, Min(Ys(cubes)) - 1, Min(Zs(cubes)) - 1),
                 Cube(MaxOf(Xs(cubes)) + 1, MaxOf(Ys(cubes)) + 1, MaxOf(Zs(cubes)) + 1));
    assert forall i :: 0 <= i < |cubes| ==> cubes[i].x in Xs(cubes) && cubes[i].y in Ys(cubes) && cubes[i].z in Zs(cubes);
    b
  }

  /** The boundary is the tightest box with every cube strictly inside:
      any other such box contains it. */
  lemma BoundaryLeast(cubes: seq<Cube>, other: Box)
    requires |cubes| > 0 && forall c :: c in cubes ==> StrictlyInside(other, c)
    ensures other.lo.x <= Boundary(cubes).lo.x && Boundary(cubes).hi.x <= other.hi.x
    ensures other.lo.y <= Boundary(cubes).lo.y && Boundary(cubes).hi.y <= other.hi.y
    ensures other.lo.z <= Boundary(cubes).lo.z && Boundary(cubes).hi.z <= other.hi.z
  {
    var xs, ys, zs := Xs(cubes), Ys(cubes), Zs(cubes);
    var i0 :| 0 <= i0 < |xs| && xs[i0] == Min(xs);
    var i1 :| 0 <= i1 < |xs| && xs[i1] == MaxOf(xs);
    var j0 :| 0 <= j0 < |ys| && ys[j0] == Min(ys);
    var j1 :| 0 <= j1 < |ys| && ys[j1] == MaxOf(ys);
    var k0 :| 0 <= k0 < |zs| && zs[k0] == Min(zs);
    var k1 :| 0 <= k1 < |zs| && zs[k1] == MaxOf(zs);
    assert StrictlyInside(other, cubes[i0]) && StrictlyInside(other, cubes[i1]);
    assert StrictlyInside(other, cubes[j0]) && StrictlyInside(other, cubes[j1]);
    assert StrictlyInside(other, cubes[k0]) && StrictlyInside(other, cubes[k1]);
  }

  /** The range `lo..=hi`, ascending. */
  function Range(lo: int, hi: int): (r: seq<int>)
    ensures forall v :: v in r <==> lo <= v <= hi
    decreases hi - lo
  {
    if lo > hi then [] else [lo] + Range(lo + 1, hi)
  }

  /** Three nested `for` loops over `xs`, `ys` and `zs`, innermost `z`. */
  function Grid(xs: seq<int>, ys: seq<int>, zs: seq<int>): (r: seq<Cube>)
    ensures forall c :: c in r <==> c.x in xs && c.y in ys && c.z in zs
  {
    if |xs| == 0 then [] else Plane(xs[0], ys, zs) + Grid(xs[1..], ys, zs)
  }

  function Plane(x: int, ys: seq<int>, zs: seq<int>): (r: seq<Cube>)
    ensures forall c :: c in r <==> c.x == x && c.y in ys && c.z in zs
  {
    if |ys| == 0 then [] else Line(x, ys[0], zs) + Plane(x, ys[1..], zs)
  }

  function Line(x: int, y: int, zs: seq<int>): (r: seq<Cube>)
    ensures forall c :: c in r <==> c.x == x && c.y == y && c.z in zs
  {
    if |zs| == 0 then [] else [Cube(x, y, zs[0])] + Line(x, y, zs[1..])
  }

  predicate OnSurface(b: Box, c: Cube)
  {
    c.x == b.lo.x || c.x == b.hi.x || c.y == b.lo.y || c.y == b.hi.y || c.z == b.lo.z || c.z == b.hi.z
  }

  /** `boundary_faces`: the two x-faces, then the two y-faces, then the two
      z-faces of the box (edges and corners come more than once). */
  function BoundaryFaces(b: Box): (r: seq<Cube>)
  {
    var xs, ys, zs := Range(b.lo.x, b.hi.x), Range(b.lo.y, b.hi.y), Range(b.lo.z, b.hi.z);
    Grid([b.lo.x, b.hi.x], ys, zs) + Grid(xs, [b.lo.y, b.hi.y], zs) + Grid(xs, ys, [b.lo.z, b.hi.z])
  }

  /** The boundary faces are exactly the cells of the box on its surface. */
  lemma BoundaryFacesSurface(b: Box, c: Cube)
    requires Proper(b)
    ensures c in BoundaryFaces(b) <==> InBox(b, c) && OnSurface(b, c)
  {
    var xs, ys, zs := Range(b.lo.x, b.hi.x), Range(b.lo.y, b.hi.y), Range(b.lo.z, b.hi.z);
    var g1, g2, g3 := Grid([b.lo.x, b.hi.x], ys, zs), Grid(xs, [b.lo.y, b.hi.y], zs), Grid(xs, ys, [b.lo.z, b.hi.z]);
    assert BoundaryFaces(b) == g1 + g2 + g3;
    assert c in g1 + g2 + g3 <==> c in g1 || c in g2 || c in g3;
    assert c in g1 <==> (c.x == b.lo.x || c.x == b.hi.x) && c.y in ys && c.z in zs;
    assert c in g2 <==> c.x in xs && (c.y == b.lo.y || c.y == b.hi.y) && c.z in zs;
    assert c in g3 <==> c.x in xs && c.y in ys && (c.z == b.lo.z || c.z == b.hi.z);
  }

  /** The cells of the box. */
  function BoxCells(b: Box): (r: set<Cube>)
    ensures forall c :: c in r <==> InBox(b, c)
  {
    set x, y, z | b.lo.x <= x <= b.hi.x && b.lo.y <= y <= b.hi.y && b.lo.z <= z <= b.hi.z :: Cube(x, y, z)
  }

  /** In the boundary of the droplet, the surface cells are all air. */
  lemma SurfaceIsAir(cubes: seq<Cube>, c: Cube)
    requires |cubes| > 0 && c in BoundaryFaces(Boundary(cubes))
    ensures c !in cubes
  {
    assert StrictlyInside(Boundary(cubes), cubes[0]);
    BoundaryFacesSurface(Boundary(cubes), c);
  }

  /** The state of one call of `external_faces` part way through its
      loop: faces found, `next_to_visit`, and `visited`. */
  datatype Round = Round(faces: nat, next: seq<Cube>, visited: seq<Cube>)

  /** How many of the neighbours `d..6` of `c` lie in the box and are cubes. */
  function FacesFrom(b: Box, cubes: seq<Cube>, c: Cube, d: nat): (n: nat)
    requires d <= 6
    ensures n <= 6 - d
    decreases 6 - d
  {
    if d == 6 then 0
    else (if InBox(b, Neighbour(c, d)) && Neighbour(c, d) in cubes then 1 else 0) + FacesFrom(b, cubes, c, d + 1)
  }

  /** The cells queued for the next call are new: in the box, air, not
      being visited now, not visited before, and not queued twice. */
  predicate Fresh(b: Box, cubes: seq<Cube>, toVisit: seq<Cube>, visited: seq<Cube>, next: seq<Cube>)
  {
    NoDup(next) &&
    forall a :: a in next ==> InBox(b, a) && a !in cubes && a !in toVisit && a !in visited
  }

  /** One neighbour `a` in the inner loops of `external_faces`: outside
      the box it is skipped, a cube is a face, and air is queued unless
      already known. */
  function LookAt(b: Box, cubes: seq<Cube>, toVisit: seq<Cube>, a: Cube, r: Round): (r': Round)
    ensures r'.visited == r.visited
    ensures r'.faces == r.faces + (if InBox(b, a) && a in cubes then 1 else 0)
    ensures r'.next == r.next || r'.next == r.next + [a]
    ensures Fresh(b, cubes, toVisit, r.visited, r.next) ==> Fresh(b, cubes, toVisit, r'.visited, r'.next)
  {
    if !InBox(b, a) then r
    else if a in cubes then r.(faces := r.faces + 1)
    else if a !in toVisit && a !in r.next && a !in r.visited then
      FreshAppend(b, cubes, toVisit, r.visited, r.next, a);
      r.(next := r.next + [a])
    else r
  }

  lemma FreshAppend(b: Box, cubes: seq<Cube>, toVisit: seq<Cube>, visited: seq<Cube>, next: seq<Cube>, a: Cube)
    requires InBox(b, a) && a !in cubes && a !in toVisit && a !in visited && a !in next
    ensures Fresh(b, cubes, toVisit, visited, next) ==> Fresh(b, cubes, toVisit, visited, next + [a])
  {
  }

  /** The inner loops of `external_faces` for cube `c`, from neighbour `d`. */
  function Look(b: Box, cubes: seq<Cube>, toVisit: seq<Cube>, c: Cube, d: nat, r: Round): (r': Round)
    requires d <= 6
    ensures r'.visited == r.visited
    ensures r'.faces == r.faces + FacesFrom(b, cubes, c, d)
    ensures Fresh(b, cubes, toVisit, r.visited, r.next) ==> Fresh(b, cubes, toVisit, r'.visited, r'.next)
    decreases 6 - d
  {
    if d == 6 then r
    else Look(b, cubes, toVisit, c, d + 1, LookAt(b, cubes, toVisit, Neighbour(c, d), r))
  }

  /** The loop over `to_visit` from position `i`: each cube is marked
      visited and its neighbours looked at. */
  function RoundFrom(b: Box, cubes: seq<Cube>, toVisit: seq<Cube>, i: nat, r: Round): (r': Round)
    requires i <= |toVisit|
    ensures r'.visited == r.visited + toVisit[i..]
    ensures r'.faces <= r.faces + 6 * (|toVisit| - i)
    ensures Fresh(b, cubes, toVisit, r.visited, r.next) ==> Fresh(b, cubes, toVisit, r'.visited, r'.next)
    decreases |toVisit| - i
  {
    if i == |toVisit| then r
    else
      var c := toVisit[i];
      var r1 := Look(b, cubes, toVisit, c, 0, r.(visited := r.visited + [c]));
      var r' := RoundFrom(b, cubes, toVisit, i + 1, r1);
      VisitStep(r.visited, toVisit, i);
      r'
  }

  lemma VisitStep(v: seq<Cube>, t: seq<Cube>, i: nat)
    requires i < |t|
    ensures v + t[i..] == v + [t[i]] + t[i + 1..]
  {
    assert t[i..] == [t[i]] + t[i + 1..];
  }

  function Cells(s: seq<Cube>): set<Cube>
  {
    set c | c in s
  }

  /** What one call's loop leaves: every cube of `to_visit` visited, at
      most six faces per cube, and only new cells queued. */
  lemma RoundFacts(b: Box, cubes: seq<Cube>, toVisit: seq<Cube>, visited: seq<Cube>)
    ensures var r := RoundFrom(b, cubes, toVisit, 0, Round(0, [], visited));
      r.visited == visited + toVisit && r.faces <= 6 * |toVisit| &&
      Fresh(b, cubes, toVisit, r.visited, r.next)
  {
    assert toVisit[0..] == toVisit;
    assert Fresh(b, cubes, toVisit, visited, []);
  }

  lemma CellsAppend(s: seq<Cube>, t: seq<Cube>)
    ensures Cells(s + t) == Cells(s) + Cells(t)
  {
    assert forall c :: c in s + t <==> c in s || c in t;
  }

  /** The cells of the box that are neither visited nor queued. */
  function Unseen(b: Box, visited: seq<Cube>, toVisit: seq<Cube>): set<Cube>
  {
    BoxCells(b) - Cells(visited) - Cells(toVisit)
  }

  /** `external_faces`: one breadth-first layer of the flood through the
      air of the box, then the next layer while there is one. The unseen
      cells of the box shrink with every call, so the flood ends; and
      since each cell is queued at most once, it finds at most six faces
      per cell queued now or later. */
  function ExternalFaces(b: Box, cubes: seq<Cube>, toVisit: seq<Cube>, visited: seq<Cube>): (n: nat)
    requires forall c :: c in toVisit ==> InBox(b, c)
    requires forall c :: c in visited ==> InBox(b, c)
    ensures n <= 6 * |toVisit| + 6 * |Unseen(b, visited, toVisit)|
    decreases |Unseen(b, visited, toVisit)|
  {
    var r := RoundFrom(b, cubes, toVisit, 0, Round(0, [], visited));
    RoundFacts(b, cubes, toVisit, visited);
    if |r.next| > 0 then
      FloodShrinks(b, cubes, toVisit, visited, r);
      r.faces + ExternalFaces(b, cubes, r.next, r.visited)
    else
      r.faces
  }

  /** The cells queued for the next layer come out of the unseen ones. */
  lemma FloodShrinks(b: Box, cubes: seq<Cube>, toVisit: seq<Cube>, visited: seq<Cube>, r: Round)
    requires forall c :: c in toVisit ==> InBox(b, c)
    requires forall c :: c in visited ==> InBox(b, c)
    requires r.visited == visited + toVisit
    requires Fresh(b, cubes, toVisit, r.visited, r.next)
    ensures forall c :: c in r.visited ==> InBox(b, c)
    ensures forall c :: c in r.next ==> InBox(b, c)
    ensures |Unseen(b, r.visited, r.next)| + |r.next| == |Unseen(b, visited, toVisit)|
  {
    var before := Unseen(b, visited, toVisit);
    var t := Cells(r.next);
    CellsAppend(visited, toVisit);
    assert Unseen(b, r.visited, r.next) == before - t;
    assert t <= before by {
      forall a | a in t
        ensures a in before
      {
        assert InBox(b, a) && a !in visited && a !in toVisit;
      }
    }
    DistinctCard(r.next);
    DifferenceCard(before, t);
  }

  lemma DifferenceCard<T>(u: set<T>, t: set<T>)
    requires t <= u
    ensures |u - t| == |u| - |t|
  {
    assert u == (u - t) + t;
  }

  lemma {:induction false} DistinctCard(s: seq<Cube>)
    requires NoDup(s)
    ensures |Cells(s)| == |s|
  {
    if |s| > 0 {
      var t := s[..|s| - 1];
      DistinctCard(t);
      assert Cells(s) == Cells(t) + {s[|s| - 1]};
      assert s[|s| - 1] !in Cells(t);
    }
  }

  /** Part 2: the flood from every surface cell of the boundary, with
      nothing visited yet. */
  function ExternalSurface(cubes: seq<Cube>): (n: nat)
    requires |cubes| > 0
  {
    var b := Boundary(cubes);
    assert StrictlyInside(b, cubes[0]);
    assert forall c :: c in BoundaryFaces(b) ==> InBox(b, c) by {
      forall c | c in BoundaryFaces(b)
        ensures InBox(b, c)
      {
        BoundaryFacesSurface(b, c);
      }
    }
    ExternalFaces(b, cubes, BoundaryFaces(b), [])
  }
}
