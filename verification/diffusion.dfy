/** Day 23, "Unstable Diffusion": elves spread out over a grove in rounds.
    In the first half of a round each elf with a neighbour proposes a step
    in the first direction of the current order whose three cells ahead are
    empty; proposals shared by several elves are dropped. In the second half
    the remaining proposals are carried out and the order rotates. */
module Diffusion {
  import opened Wrappers

  datatype Point = Point(x: int, y: int)

  datatype Direction = N | S | E | W

  /** `Direction::go`: one unit; north is towards smaller `y`. */
  function Go(d: Direction, p: Point): (r: Point)
    ensures d == N || d == S ==> r.x == p.x && (r.y - p.y == 1 || p.y - r.y == 1)
    ensures d == E || d == W ==> r.y == p.y && (r.x - p.x == 1 || p.x - r.x == 1)
  {
    match d
    case N => Point(p.x, p.y - 1)
    case S => Point(p.x, p.y + 1)
    case E => Point(p.x + 1, p.y)
    case W => Point(p.x - 1, p.y)
  }

  function Reverse(d: Direction): Direction
  {
    match d
    case N => S
    case S => N
    case E => W
    case W => E
  }

  /** Going one way and back returns to the start. */
  lemma GoBack(d: Direction, p: Point)
    ensures Go(Reverse(d), Go(d, p)) == p
  {
  }

  lemma GoExample()
    ensures Go(N, Point(-1, 4)) == Point(-1, 3)
  {
  }

  /** `q` is one of the eight cells around `p`. */
  predicate Near(p: Point, q: Point)
  {
    q != p && -1 <= q.x - p.x <= 1 && -1 <= q.y - p.y <= 1
  }

  /** `q` lies on the row or column one step from `p` in direction `d`. */
  predicate Towards(d: Direction, p: Point, q: Point)
  {
    match d
    case N => q.y == p.y - 1
    case S => q.y == p.y + 1
    case E => q.x == p.x + 1
    case W => q.x == p.x - 1
  }

  /** `Direction::adjacencies`: the eight cells around a point. */
  function Adjacencies(p: Point): (r: seq<Point>)
    ensures |r| == 8
    ensures forall q :: q in r <==> Near(p, q)
  {
    var r := [Go(N, Go(W, p)), Go(N, p), Go(N, Go(E, p)),
              Go(W, p), Go(E, p),
              Go(S, Go(W, p)), Go(S, p), Go(S, Go(E, p))];
    assert forall q :: Near(p, q) ==> q in r by {
      forall q | Near(p, q)
        ensures q in r
      {
        NearIsListed(p, q, r);
      }
    }
    r
  }

  lemma NearIsListed(p: Point, q: Point, r: seq<Point>)
    requires Near(p, q)
    requires r == [Point(p.x - 1, p.y - 1), Point(p.x, p.y - 1), Point(p.x + 1, p.y - 1),
                   Point(p.x - 1, p.y), Point(p.x + 1, p.y),
                   Point(p.x - 1, p.y + 1), Point(p.x, p.y + 1), Point(p.x + 1, p.y + 1)]
    ensures q in r
  {
    if q.y == p.y - 1 {
      if q.x == p.x - 1 { assert q == r[0]; }
      else if q.x == p.x { assert q == r[1]; }
      else { assert q == r[2]; }
    } else if q.y == p.y {
      if q.x == p.x - 1 { assert q == r[3]; }
      else { assert q == r[4]; }
    } else {
      if q.x == p.x - 1 { assert q == r[5]; }
      else if q.x == p.x { assert q == r[6]; }
      else { assert q == r[7]; }
    }
  }

  /** `Direction::points_to_check`: the three cells ahead in a direction,
      straight on and both diagonals. */
  function PointsToCheck(d: Direction, p: Point): (r: seq<Point>)
    ensures |r| == 3 && r[0] == Go(d, p)
    ensures forall q :: q in r <==> Near(p, q) && Towards(d, p, q)
  {
    match d
    case N => [Go(N, p), Go(N, Go(W, p)), Go(N, Go(E, p))]
    case S => [Go(S, p), Go(S, Go(W, p)), Go(S, Go(E, p))]
    case E => [Go(E, p), Go(N, Go(E, p)), Go(S, Go(E, p))]
    case W => [Go(W, p), Go(N, Go(W, p)), Go(S, Go(W, p))]
  }

  /** An elf's identity. The source draws a random `Uuid` per elf; here an
      elf is any value, and `Distinct` asks that no two elves share one. */
  datatype Elf = Elf(id: nat)

  /** `Grove`: the elves by position. */
  datatype Grove = Grove(elves: map<Point, Elf>)

  predicate Distinct(g: Grove)
  {
    forall p, q :: p in g.elves && q in g.elves && p != q ==> g.elves[p] != g.elves[q]
  }

  /** Some point of `ps` holds an elf. */
  function AnyIn(ps: seq<Point>, g: Grove): (r: bool)
    ensures r <==> exists i :: 0 <= i < |ps| && ps[i] in g.elves
  {
    if |ps| == 0 then false
    else if ps[0] in g.elves then true
    else AnyIn(ps[1..], g)
  }

  /** `Grove::consider`: an elf at `p` proposes to go in direction `d` when
      none of the three cells that way is occupied and some cell around it
      is. */
  function Consider(g: Grove, p: Point, d: Direction): (r: bool)
    ensures r ==> Go(d, p) !in g.elves
  {
    !AnyIn(PointsToCheck(d, p), g) && AnyIn(Adjacencies(p), g)
  }

  /** An elf proposes to go in direction `d` exactly when no elf stands on
      the three cells that way and some elf stands on one of the eight cells
      around it. */
  lemma ConsiderMeans(g: Grove, p: Point, d: Direction)
    ensures Consider(g, p, d) <==>
      && (forall q :: q in g.elves && Near(p, q) ==> !Towards(d, p, q))
      && (exists q :: q in g.elves && Near(p, q))
  {
    var ahead := PointsToCheck(d, p);
    var around := Adjacencies(p);
    assert forall q :: q in g.elves && Near(p, q) && Towards(d, p, q) ==> q in ahead;
    assert forall i :: 0 <= i < |around| ==> Near(p, around[i]);
  }

  /** An elf with no neighbour never proposes. */
  lemma LoneElfStays(g: Grove, p: Point, d: Direction)
    requires forall q :: q in g.elves ==> !Near(p, q)
    ensures !Consider(g, p, d)
  {
    ConsiderMeans(g, p, d);
  }

  lemma ConsiderExamples()
    ensures !Consider(Grove(map[Point(0, 0) := Elf(0), Point(1, 1) := Elf(1)]), Point(1, 1), N)
    ensures !Consider(Grove(map[Point(0, 0) := Elf(0)]), Point(0, 0), N)
  {
    var diagonal := Grove(map[Point(0, 0) := Elf(0), Point(1, 1) := Elf(1)]);
    ConsiderMeans(diagonal, Point(1, 1), N);
    assert Point(0, 0) in diagonal.elves && Near(Point(1, 1), Point(0, 0));
    LoneElfStays(Grove(map[Point(0, 0) := Elf(0)]), Point(0, 0), N);
  }

  /** The proposal of the elf at `p`: a step in the first direction of the
      order that `consider` accepts, if any. */
  function Propose(g: Grove, order: seq<Direction>, p: Point): (r: Option<Point>)
    ensures r.None? <==> forall i :: 0 <= i < |order| ==> !Consider(g, p, order[i])
    ensures r.Some? ==> Near(p, r.value) && r.value !in g.elves
  {
    if |order| == 0 then None
    else if Consider(g, p, order[0]) then Some(Go(order[0], p))
    else Propose(g, order[1..], p)
  }

  /** The proposal is the step in the first accepted direction. */
  lemma {:induction false} ProposalIsFirst(g: Grove, order: seq<Direction>, p: Point) returns (i: nat)
    requires Propose(g, order, p).Some?
    ensures i < |order| && Consider(g, p, order[i]) && Propose(g, order, p) == Some(Go(order[i], p))
    ensures forall j :: 0 <= j < i ==> !Consider(g, p, order[j])
  {
    if Consider(g, p, order[0]) {
      i := 0;
    } else {
      var k := ProposalIsFirst(g, order[1..], p);
      i := k + 1;
    }
  }

  /** The decisions of the first loop of `first_half`, before duplicates are
      dropped: each proposing elf with its target. */
  function Proposals(g: Grove, order: seq<Direction>): (r: map<Elf, Point>)
    requires Distinct(g)
  {
    map p | p in g.elves && Propose(g, order, p).Some? :: g.elves[p] := Propose(g, order, p).value
  }

  /** `Turn::decisions_rev`: the elves grouped by the target they chose. */
  function DecisionsRev(d: map<Elf, Point>): (r: map<Point, set<Elf>>)
    ensures r.Keys == d.Values
    ensures forall t, e :: t in r ==> (e in r[t] <==> e in d && d[e] == t)
  {
    map t | t in d.Values :: set e | e in d && d[e] == t
  }

  datatype Turn = Turn(grove: Grove, order: seq<Direction>, decisions: map<Elf, Point>)

  /** `Turn::first_half`: the proposals, without those whose target another
      elf chose as well. */
  function FirstHalf(t: Turn): (r: Turn)
    requires Distinct(t.grove)
    ensures r.grove == t.grove && r.order == t.order
  {
    var proposals := Proposals(t.grove, t.order);
    var groups := DecisionsRev(proposals);
    Turn(t.grove, t.order, map e | e in proposals && |groups[proposals[e]]| == 1 :: proposals[e])
  }

  lemma TwoInSet<T>(s: set<T>, a: T, b: T)
    requires a in s && b in s && a != b
    ensures |s| >= 2
  {
    var t := s - {a};
    assert b in t;
    assert |t| == |s| - 1;
    assert t != {};
  }

  /** The elf at `p` is among the proposals exactly when it proposes, with
      its proposal as the target. */
  lemma ProposalsOf(g: Grove, order: seq<Direction>, p: Point)
    requires Distinct(g) && p in g.elves
    ensures g.elves[p] in Proposals(g, order) <==> Propose(g, order, p).Some?
    ensures g.elves[p] in Proposals(g, order) ==> Proposals(g, order)[g.elves[p]] == Propose(g, order, p).value
  {
  }

  /** Every proposing elf stands somewhere. */
  lemma ProposalsOwner(g: Grove, order: seq<Direction>, e: Elf) returns (q: Point)
    requires Distinct(g) && e in Proposals(g, order)
    ensures q in g.elves && g.elves[q] == e && Propose(g, order, q).Some?
    ensures Proposals(g, order)[e] == Propose(g, order, q).value
  {
    q :| q in g.elves && Propose(g, order, q).Some? && g.elves[q] == e;
  }

  /** An elf's group holds it alone exactly when no other elf chose the
      same target. */
  lemma AloneInGroup(d: map<Elf, Point>, e: Elf)
    requires e in d
    ensures |DecisionsRev(d)[d[e]]| == 1 <==> forall other :: other in d && d[other] == d[e] ==> other == e
  {
    var group := DecisionsRev(d)[d[e]];
    if forall other :: other in d && d[other] == d[e] ==> other == e {
      assert group == {e};
    } else {
      var other :| other in d && d[other] == d[e] && other != e;
      TwoInSet(group, e, other);
    }
  }

  /** An elf keeps its decision exactly when it proposed a target and no
      other elf proposed the same one; the decision is its proposal. */
  lemma FirstHalfDecides(t: Turn, p: Point)
    requires Distinct(t.grove) && p in t.grove.elves
    ensures var g := t.grove; var e := g.elves[p]; var d := FirstHalf(t).decisions;
      && (e in d <==> (Propose(g, t.order, p).Some? &&
            forall q :: q in g.elves && q != p ==> Propose(g, t.order, q) != Propose(g, t.order, p)))
      && (e in d ==> d[e] == Propose(g, t.order, p).value)
  {
    var g := t.grove;
    var e := g.elves[p];
    var proposals := Proposals(g, t.order);
    ProposalsOf(g, t.order, p);
    if e in proposals {
      AloneInGroup(proposals, e);
      UncontestedIffAlone(g, t.order, p);
    }
  }

  lemma UncontestedIffAlone(g: Grove, order: seq<Direction>, p: Point)
    requires Distinct(g) && p in g.elves && g.elves[p] in Proposals(g, order)
    ensures var proposals := Proposals(g, order); var e := g.elves[p];
      (forall other :: other in proposals && proposals[other] == proposals[e] ==> other == e) <==>
      (forall q :: q in g.elves && q != p ==> Propose(g, order, q) != Propose(g, order, p))
  {
    var proposals := Proposals(g, order);
    var e := g.elves[p];
    if forall other :: other in proposals && proposals[other] == proposals[e] ==> other == e {
      AloneUncontested(g, order, p);
    } else {
      ContestedNotAlone(g, order, p);
    }
  }

  lemma AloneUncontested(g: Grove, order: seq<Direction>, p: Point)
    requires Distinct(g) && p in g.elves && g.elves[p] in Proposals(g, order)
    requires var proposals := Proposals(g, order); var e := g.elves[p];
      forall other :: other in proposals && proposals[other] == proposals[e] ==> other == e
    ensures forall q :: q in g.elves && q != p ==> Propose(g, order, q) != Propose(g, order, p)
  {
    forall q | q in g.elves && q != p
      ensures Propose(g, order, q) != Propose(g, order, p)
    {
      AloneMeansUncontested(g, order, p, q);
    }
  }

  lemma ContestedNotAlone(g: Grove, order: seq<Direction>, p: Point)
    requires Distinct(g) && p in g.elves && g.elves[p] in Proposals(g, order)
    requires var proposals := Proposals(g, order); var e := g.elves[p];
      !forall other :: other in proposals && proposals[other] == proposals[e] ==> other == e
    ensures !forall q :: q in g.elves && q != p ==> Propose(g, order, q) != Propose(g, order, p)
  {
    var proposals := Proposals(g, order);
    var e := g.elves[p];
    var other :| other in proposals && proposals[other] == proposals[e] && other != e;
    var q := ProposalsOwner(g, order, other);
    ProposalsOf(g, order, p);
    assert q in g.elves && q != p && Propose(g, order, q) == Propose(g, order, p);
  }

  lemma AloneMeansUncontested(g: Grove, order: seq<Direction>, p: Point, q: Point)
    requires Distinct(g) && p in g.elves && q in g.elves && p != q && g.elves[p] in Proposals(g, order)
    requires var proposals := Proposals(g, order); var e := g.elves[p];
      forall other :: other in proposals && proposals[other] == proposals[e] ==> other == e
    ensures Propose(g, order, q) != Propose(g, order, p)
  {
    ProposalsOf(g, order, p);
    if Propose(g, order, q) == Propose(g, order, p) {
      OtherProposal(g, order, p, q);
    }
  }

  /** Another elf proposing the same target shows up in the proposals with
      that target. */
  lemma OtherProposal(g: Grove, order: seq<Direction>, p: Point, q: Point)
    requires Distinct(g) && p in g.elves && q in g.elves && p != q
    requires Propose(g, order, q) == Propose(g, order, p) && Propose(g, order, p).Some?
    ensures var proposals := Proposals(g, order);
      && g.elves[q] in proposals && g.elves[p] in proposals
      && proposals[g.elves[q]] == proposals[g.elves[p]] && g.elves[q] != g.elves[p]
  {
    ProposalsOf(g, order, p);
    ProposalsOf(g, order, q);
  }

  /** No two decisions share a target. */
  lemma FirstHalfTargetsDistinct(t: Turn, e1: Elf, e2: Elf)
    requires Distinct(t.grove)
    requires e1 in FirstHalf(t).decisions && e2 in FirstHalf(t).decisions && e1 != e2
    ensures FirstHalf(t).decisions[e1] != FirstHalf(t).decisions[e2]
  {
    var proposals := Proposals(t.grove, t.order);
    var groups := DecisionsRev(proposals);
    if proposals[e1] == proposals[e2] {
      TwoInSet(groups[proposals[e1]], e1, e2);
    }
  }

  /** Every decision targets an empty cell next to its elf. */
  lemma FirstHalfTargetsVacant(t: Turn, p: Point)
    requires Distinct(t.grove) && p in t.grove.elves && t.grove.elves[p] in FirstHalf(t).decisions
    ensures var target := FirstHalf(t).decisions[t.grove.elves[p]];
      target !in t.grove.elves && Near(p, target)
  {
    FirstHalfDecides(t, p);
  }

  /** Where the elf at `p` ends the round: its target when it has a decision,
      its own cell otherwise. */
  function Dest(g: Grove, d: map<Elf, Point>, p: Point): Point
    requires p in g.elves
  {
    if g.elves[p] in d then d[g.elves[p]] else p
  }

  /** `entries` lists the keys of the grove once each, in the map's
      iteration order. */
  predicate Lists(entries: seq<Point>, g: Grove)
  {
    && (forall i :: 0 <= i < |entries| ==> entries[i] in g.elves)
    && (forall p :: p in g.elves ==> p in entries)
    && (forall i, j :: 0 <= i < j < |entries| ==> entries[i] != entries[j])
  }

  /** The loop of `second_half` over the rest of the iteration order. */
  function Place(g: Grove, d: map<Elf, Point>, entries: seq<Point>, acc: map<Point, Elf>): map<Point, Elf>
    requires forall i :: 0 <= i < |entries| ==> entries[i] in g.elves
  {
    if |entries| == 0 then acc
    else
      var p := entries[0];
      Place(g, d, entries[1..], acc[Dest(g, d, p) := g.elves[p]])
  }

  /** `Turn::second_half`: every elf goes to its decision or stays, and the
      first direction of the order moves to the back. An empty order makes
      `pop_front().unwrap()` panic, here `None`. */
  function SecondHalf(t: Turn, entries: seq<Point>): (r: Option<Turn>)
    requires Lists(entries, t.grove)
    ensures r.None? <==> |t.order| == 0
    ensures r.Some? ==> r.value.order == t.order[1..] + [t.order[0]] && r.value.decisions == map[]
  {
    var elves := Place(t.grove, t.decisions, entries, map[]);
    if |t.order| == 0 then None
    else Some(Turn(Grove(elves), t.order[1..] + [t.order[0]], map[]))
  }

  /** The destinations of the listed elves, in order. */
  function Dests(g: Grove, d: map<Elf, Point>, entries: seq<Point>): (r: seq<Point>)
    requires forall i :: 0 <= i < |entries| ==> entries[i] in g.elves
    ensures |r| == |entries| && forall i :: 0 <= i < |r| ==> r[i] == Dest(g, d, entries[i])
  {
    seq(|entries|, i requires 0 <= i < |entries| => Dest(g, d, entries[i]))
  }

  predicate NoRepeats(ps: seq<Point>)
  {
    forall i, j :: 0 <= i < j < |ps| ==> ps[i] != ps[j]
  }

  lemma DestsTail(g: Grove, d: map<Elf, Point>, entries: seq<Point>)
    requires |entries| > 0 && forall i :: 0 <= i < |entries| ==> entries[i] in g.elves
    ensures Dests(g, d, entries) == [Dest(g, d, entries[0])] + Dests(g, d, entries[1..])
  {
  }

  /** The cells filled by placing the listed elves are the cells already
      filled and their destinations. */
  lemma {:induction false} PlaceKeys(g: Grove, d: map<Elf, Point>, entries: seq<Point>, acc: map<Point, Elf>)
    requires forall i :: 0 <= i < |entries| ==> entries[i] in g.elves
    ensures forall q :: q in Place(g, d, entries, acc) <==> q in acc || q in Dests(g, d, entries)
    decreases |entries|
  {
    if |entries| > 0 {
      DestsTail(g, d, entries);
      PlaceKeys(g, d, entries[1..], acc[Dest(g, d, entries[0]) := g.elves[entries[0]]]);
    }
  }

  /** With distinct destinations none of them already filled, each elf
      ends on its destination, the earlier cells keep their elves, and the
      count grows by one per elf. */
  lemma {:induction false} PlaceValues(g: Grove, d: map<Elf, Point>, entries: seq<Point>, acc: map<Point, Elf>)
    requires forall i :: 0 <= i < |entries| ==> entries[i] in g.elves
    requires NoRepeats(Dests(g, d, entries))
    requires forall q :: q in Dests(g, d, entries) ==> q !in acc
    ensures var r := Place(g, d, entries, acc);
      && |r| == |acc| + |entries|
      && (forall i :: 0 <= i < |entries| ==> Dest(g, d, entries[i]) in r && r[Dest(g, d, entries[i])] == g.elves[entries[i]])
      && (forall q :: q in acc ==> q in r && r[q] == acc[q])
    decreases |entries|
  {
    if |entries| > 0 {
      var p := entries[0];
      var next := acc[Dest(g, d, p) := g.elves[p]];
      var rest := entries[1..];
      DestsTail(g, d, entries);
      var ds := Dests(g, d, entries);
      assert forall i :: 0 <= i < |rest| ==> Dests(g, d, rest)[i] == ds[i + 1];
      PlaceValues(g, d, rest, next);
      var r := Place(g, d, rest, next);
      forall i | 0 <= i < |entries|
        ensures Dest(g, d, entries[i]) in r && r[Dest(g, d, entries[i])] == g.elves[entries[i]]
      {
        if i > 0 {
          assert entries[i] == rest[i - 1];
        }
      }
    }
  }

  lemma {:induction false} ListsCount(entries: seq<Point>, g: Grove)
    requires Lists(entries, g)
    ensures |g.elves| == |entries|
    decreases |entries|
  {
    if |entries| == 0 {
      assert g.elves == map[];
    } else {
      var p := entries[0];
      var smaller := Grove(g.elves - {p});
      forall q | q in smaller.elves
        ensures q in entries[1..]
      {
        var i :| 0 <= i < |entries| && entries[i] == q;
        assert i > 0;
        assert q == entries[1..][i - 1];
      }
      ListsCount(entries[1..], smaller);
    }
  }

  /** A whole round keeps every elf: each one moves to its decision or stays,
      no two end on the same cell, and the number of elves is unchanged. */
  lemma RoundKeepsElves(t: Turn, entries: seq<Point>)
    requires Distinct(t.grove) && Lists(entries, t.grove) && |t.order| > 0
    ensures var h := FirstHalf(t); var r := SecondHalf(h, entries).value;
      && |r.grove.elves| == |t.grove.elves|
      && (forall p :: p in t.grove.elves ==>
            Dest(t.grove, h.decisions, p) in r.grove.elves
            && r.grove.elves[Dest(t.grove, h.decisions, p)] == t.grove.elves[p])
      && (forall q :: q in r.grove.elves <==> q in Dests(t.grove, h.decisions, entries))
  {
    var g := t.grove;
    var d := FirstHalf(t).decisions;
    var ds := Dests(g, d, entries);
    forall i, j | 0 <= i < j < |ds|
      ensures ds[i] != ds[j]
    {
      DestInjective(t, entries[i], entries[j]);
    }
    PlaceValues(g, d, entries, map[]);
    PlaceKeys(g, d, entries, map[]);
    ListsCount(entries, g);
    forall p | p in g.elves
      ensures exists i :: 0 <= i < |entries| && entries[i] == p
    {
      assert p in entries;
    }
  }

  /** After the first half, no two elves are sent to the same cell. */
  lemma DestInjective(t: Turn, p: Point, q: Point)
    requires Distinct(t.grove) && p in t.grove.elves && q in t.grove.elves && p != q
    ensures Dest(t.grove, FirstHalf(t).decisions, p) != Dest(t.grove, FirstHalf(t).decisions, q)
  {
    var g := t.grove;
    var d := FirstHalf(t).decisions;
    if g.elves[p] in d && g.elves[q] in d {
      FirstHalfTargetsDistinct(t, g.elves[p], g.elves[q]);
    } else if g.elves[p] in d {
      FirstHalfTargetsVacant(t, p);
    } else if g.elves[q] in d {
      FirstHalfTargetsVacant(t, q);
    }
  }

  lemma ColumnDistinct()
    ensures Distinct(ColumnGrove)
  {
  }

  /** In the column with a gap, the outer elves step outwards and the inner
      two both choose the gap. */
  lemma ColumnProposals()
    ensures Propose(ColumnGrove, [N, S], Point(0, 0)) == Some(Point(0, -1))
    ensures Propose(ColumnGrove, [N, S], Point(0, 1)) == Some(Point(0, 2))
    ensures Propose(ColumnGrove, [N, S], Point(0, 3)) == Some(Point(0, 2))
    ensures Propose(ColumnGrove, [N, S], Point(0, 4)) == Some(Point(0, 5))
  {
    ColumnProposesFirst();
    ColumnProposesSecond();
    ColumnProposesThird();
    ColumnProposesFourth();
  }

  lemma ColumnProposesFirst()
    ensures Propose(ColumnGrove, [N, S], Point(0, 0)) == Some(Point(0, -1))
  {
    ColumnCells();
    forall q | q in ColumnGrove.elves && Near(Point(0, 0), q)
      ensures !Towards(N, Point(0, 0), q)
    {
    }
    assert Point(0, 1) in ColumnGrove.elves && Near(Point(0, 0), Point(0, 1));
    ConsiderMeans(ColumnGrove, Point(0, 0), N);
  }

  lemma ColumnProposesSecond()
    ensures Propose(ColumnGrove, [N, S], Point(0, 1)) == Some(Point(0, 2))
  {
    ColumnCells();
    ConsiderMeans(ColumnGrove, Point(0, 1), N);
    assert Point(0, 0) in ColumnGrove.elves && Near(Point(0, 1), Point(0, 0)) && Towards(N, Point(0, 1), Point(0, 0));
    forall q | q in ColumnGrove.elves && Near(Point(0, 1), q)
      ensures !Towards(S, Point(0, 1), q)
    {
    }
    assert Point(0, 0) in ColumnGrove.elves && Near(Point(0, 1), Point(0, 0));
    ConsiderMeans(ColumnGrove, Point(0, 1), S);
  }

  lemma ColumnProposesThird()
    ensures Propose(ColumnGrove, [N, S], Point(0, 3)) == Some(Point(0, 2))
  {
    ColumnCells();
    forall q | q in ColumnGrove.elves && Near(Point(0, 3), q)
      ensures !Towards(N, Point(0, 3), q)
    {
    }
    assert Point(0, 4) in ColumnGrove.elves && Near(Point(0, 3), Point(0, 4));
    ConsiderMeans(ColumnGrove, Point(0, 3), N);
  }

  lemma ColumnProposesFourth()
    ensures Propose(ColumnGrove, [N, S], Point(0, 4)) == Some(Point(0, 5))
  {
    ColumnCells();
    ConsiderMeans(ColumnGrove, Point(0, 4), N);
    assert Point(0, 3) in ColumnGrove.elves && Near(Point(0, 4), Point(0, 3)) && Towards(N, Point(0, 4), Point(0, 3));
    forall q | q in ColumnGrove.elves && Near(Point(0, 4), q)
      ensures !Towards(S, Point(0, 4), q)
    {
    }
    assert Point(0, 3) in ColumnGrove.elves && Near(Point(0, 4), Point(0, 3));
    ConsiderMeans(ColumnGrove, Point(0, 4), S);
  }

  /** The first half keeps the decision of an elf whose proposal no other
      elf shares. */
  lemma KeepsUncontested(t: Turn, p: Point)
    requires Distinct(t.grove) && p in t.grove.elves && Propose(t.grove, t.order, p).Some?
    requires forall q :: q in t.grove.elves && q != p ==> Propose(t.grove, t.order, q) != Propose(t.grove, t.order, p)
    ensures t.grove.elves[p] in FirstHalf(t).decisions
    ensures FirstHalf(t).decisions[t.grove.elves[p]] == Propose(t.grove, t.order, p).value
  {
    FirstHalfDecides(t, p);
  }

  lemma ColumnKeepsTop()
    ensures Distinct(ColumnGrove)
    ensures var d := FirstHalf(Turn(ColumnGrove, [N, S], map[])).decisions;
      Elf(0) in d && d[Elf(0)] == Point(0, -1)
  {
    ColumnDistinct();
    ColumnCells();
    ColumnUncontestedTop();
    ColumnProposals();
    KeepsUncontested(Turn(ColumnGrove, [N, S], map[]), Point(0, 0));
  }

  lemma ColumnUncontestedTop()
    ensures forall q :: q in ColumnGrove.elves && q != Point(0, 0) ==>
      Propose(ColumnGrove, [N, S], q) != Propose(ColumnGrove, [N, S], Point(0, 0))
  {
    ColumnCells();
    ColumnProposals();
    forall q | q in ColumnGrove.elves && q != Point(0, 0)
      ensures Propose(ColumnGrove, [N, S], q) != Propose(ColumnGrove, [N, S], Point(0, 0))
    {
      if q == Point(0, 1) || q == Point(0, 3) {
        assert Propose(ColumnGrove, [N, S], q) == Some(Point(0, 2));
      }
    }
  }

  lemma ColumnKeepsBottom()
    ensures Distinct(ColumnGrove)
    ensures var d := FirstHalf(Turn(ColumnGrove, [N, S], map[])).decisions;
      Elf(3) in d && d[Elf(3)] == Point(0, 5)
  {
    ColumnDistinct();
    ColumnCells();
    ColumnUncontestedBottom();
    ColumnProposals();
    KeepsUncontested(Turn(ColumnGrove, [N, S], map[]), Point(0, 4));
  }

  lemma ColumnUncontestedBottom()
    ensures forall q :: q in ColumnGrove.elves && q != Point(0, 4) ==>
      Propose(ColumnGrove, [N, S], q) != Propose(ColumnGrove, [N, S], Point(0, 4))
  {
    ColumnCells();
    ColumnProposals();
    forall q | q in ColumnGrove.elves && q != Point(0, 4)
      ensures Propose(ColumnGrove, [N, S], q) != Propose(ColumnGrove, [N, S], Point(0, 4))
    {
      if q == Point(0, 1) || q == Point(0, 3) {
        assert Propose(ColumnGrove, [N, S], q) == Some(Point(0, 2));
      }
    }
  }

  /** Two elves proposing the same target both lose their decision. */
  lemma ContestedDropped(t: Turn, p: Point, q: Point)
    requires Distinct(t.grove) && p in t.grove.elves && q in t.grove.elves && p != q
    requires Propose(t.grove, t.order, p) == Propose(t.grove, t.order, q)
    ensures t.grove.elves[p] !in FirstHalf(t).decisions
  {
    FirstHalfDecides(t, p);
  }

  lemma ColumnDropsMiddle()
    ensures Distinct(ColumnGrove)
    ensures var d := FirstHalf(Turn(ColumnGrove, [N, S], map[])).decisions;
      Elf(1) !in d && Elf(2) !in d
  {
    ColumnDistinct();
    ColumnProposals();
    ColumnCells();
    ContestedDropped(Turn(ColumnGrove, [N, S], map[]), Point(0, 1), Point(0, 3));
    ContestedDropped(Turn(ColumnGrove, [N, S], map[]), Point(0, 3), Point(0, 1));
  }

  /** The duplicate-proposal test: the two elves that chose the gap are
      dropped, leaving two decisions. */
  lemma DuplicateProposalExample()
    ensures Distinct(ColumnGrove)
    ensures FirstHalf(Turn(ColumnGrove, [N, S], map[])).decisions == map[Elf(0) := Point(0, -1), Elf(3) := Point(0, 5)]
  {
    ColumnDistinct();
    var d := FirstHalf(Turn(ColumnGrove, [N, S], map[])).decisions;
    ColumnKeepsTop();
    ColumnKeepsBottom();
    ColumnOnlyEnds();
    TwoEntries(d, Elf(0), Point(0, -1), Elf(3), Point(0, 5));
  }

  /** The movement test: the outer elves step away, the inner two stay. */
  lemma ElvesMoveExample()
    ensures Distinct(ColumnGrove) && Lists(ColumnEntries, ColumnGrove)
    ensures var r := SecondHalf(FirstHalf(Turn(ColumnGrove, [N, S], map[])), ColumnEntries);
      r.Some? && r.value.grove.elves.Keys == {Point(0, -1), Point(0, 1), Point(0, 3), Point(0, 5)}
  {
    ColumnListed();
    DuplicateProposalExample();
    var t := Turn(ColumnGrove, [N, S], map[]);
    var h := FirstHalf(t);
    RoundKeepsElves(t, ColumnEntries);
    ColumnDests(h.decisions);
    MovedKeys(SecondHalf(h, ColumnEntries).value.grove.elves, Dests(ColumnGrove, h.decisions, ColumnEntries));
  }

  lemma MovedKeys(r: map<Point, Elf>, ds: seq<Point>)
    requires ds == [Point(0, -1), Point(0, 1), Point(0, 3), Point(0, 5)]
    requires forall q :: q in r <==> q in ds
    ensures r.Keys == {Point(0, -1), Point(0, 1), Point(0, 3), Point(0, 5)}
  {
  }

  lemma ColumnDests(d: map<Elf, Point>)
    requires d == map[Elf(0) := Point(0, -1), Elf(3) := Point(0, 5)]
    ensures Dests(ColumnGrove, d, ColumnEntries) == [Point(0, -1), Point(0, 1), Point(0, 3), Point(0, 5)]
  {
    ColumnCells();
  }

  /** Only the elves at the two ends keep a decision. */
  lemma ColumnOnlyEnds()
    ensures Distinct(ColumnGrove)
    ensures forall e :: e in FirstHalf(Turn(ColumnGrove, [N, S], map[])).decisions ==> e == Elf(0) || e == Elf(3)
  {
    ColumnDistinct();
    ColumnDropsMiddle();
    var t := Turn(ColumnGrove, [N, S], map[]);
    forall e | e in FirstHalf(t).decisions
      ensures e == Elf(0) || e == Elf(3)
    {
      var q := DecisionOwner(t, e);
      ColumnElfAtEnd(q, e);
    }
  }

  lemma ColumnElfAtEnd(q: Point, e: Elf)
    requires q in ColumnGrove.elves && ColumnGrove.elves[q] == e && e != Elf(1) && e != Elf(2)
    ensures e == Elf(0) || e == Elf(3)
  {
    ColumnCells();
  }

  /** Every elf with a decision stands somewhere. */
  lemma DecisionOwner(t: Turn, e: Elf) returns (q: Point)
    requires Distinct(t.grove) && e in FirstHalf(t).decisions
    ensures q in t.grove.elves && t.grove.elves[q] == e
  {
    q := ProposalsOwner(t.grove, t.order, e);
  }

  /** A map with entries for `a` and `b` and no other key is the map of
      those two entries. */
  lemma TwoEntries(m: map<Elf, Point>, a: Elf, x: Point, b: Elf, y: Point)
    requires a in m && m[a] == x && b in m && m[b] == y
    requires forall k :: k in m ==> k == a || k == b
    ensures m == map[a := x, b := y]
  {
  }

  /** The proposal order after four rounds is the starting one again. */
  const StartingOrder: seq<Direction> := [N, S, W, E]

  function Rotate(order: seq<Direction>): (r: seq<Direction>)
    requires |order| > 0
    ensures |r| == |order| && r[|r| - 1] == order[0]
    ensures forall i :: 0 <= i < |order| - 1 ==> r[i] == order[i + 1]
  {
    order[1..] + [order[0]]
  }

  lemma OrderCycles()
    ensures Rotate(Rotate(Rotate(Rotate(StartingOrder)))) == StartingOrder
    ensures Rotate([N, S]) == [S, N]
  {
  }

  function Coord(p: Point, horizontal: bool): int
  {
    if horizontal then p.x else p.y
  }

  /** The least and greatest of a coordinate over a non-empty list of
      points: the `min()` and `max()` of the source. */
  function Least(ps: seq<Point>, horizontal: bool): (r: int)
    requires |ps| > 0
    ensures forall i :: 0 <= i < |ps| ==> r <= Coord(ps[i], horizontal)
  {
    if |ps| == 1 then Coord(ps[0], horizontal)
    else
      var rest := Least(ps[1..], horizontal);
      assert forall i :: 1 <= i < |ps| ==> ps[i] == ps[1..][i - 1];
      if Coord(ps[0], horizontal) <= rest then Coord(ps[0], horizontal) else rest
  }

  function Greatest(ps: seq<Point>, horizontal: bool): (r: int)
    requires |ps| > 0
    ensures forall i :: 0 <= i < |ps| ==> Coord(ps[i], horizontal) <= r
  {
    if |ps| == 1 then Coord(ps[0], horizontal)
    else
      var rest := Greatest(ps[1..], horizontal);
      assert forall i :: 1 <= i < |ps| ==> ps[i] == ps[1..][i - 1];
      if Coord(ps[0], horizontal) >= rest then Coord(ps[0], horizontal) else rest
  }

  /** The least and the greatest are each some point's coordinate. */
  lemma {:induction false} ExtremesAttained(ps: seq<Point>, horizontal: bool) returns (lo: nat, hi: nat)
    requires |ps| > 0
    ensures lo < |ps| && Coord(ps[lo], horizontal) == Least(ps, horizontal)
    ensures hi < |ps| && Coord(ps[hi], horizontal) == Greatest(ps, horizontal)
  {
    if |ps| == 1 {
      lo, hi := 0, 0;
    } else {
      var l, h := ExtremesAttained(ps[1..], horizontal);
      lo := if Coord(ps[0], horizontal) <= Least(ps[1..], horizontal) then 0 else l + 1;
      hi := if Coord(ps[0], horizontal) >= Greatest(ps[1..], horizontal) then 0 else h + 1;
    }
  }

  /** `Grove::rectangle` and `rectangle_area`: the area of the rectangle
      spanned by the least and greatest coordinates of the elves, over the
      keys in iteration order. An empty grove makes the source's
      `min().unwrap()` panic, here `None`. */
  function RectangleArea(g: Grove, entries: seq<Point>): (r: Option<nat>)
    requires Lists(entries, g)
    ensures r.None? <==> |g.elves| == 0
  {
    ListsCount(entries, g);
    if |entries| == 0 then None
    else
      var x0, x1 := Least(entries, true), Greatest(entries, true);
      var y0, y1 := Least(entries, false), Greatest(entries, false);
      assert x0 <= Coord(entries[0], true) <= x1 && y0 <= Coord(entries[0], false) <= y1;
      Some(Area(x0, x1, y0, y1))
  }

  /** The number of cells of a rectangle given by its corners. */
  function Area(x0: int, x1: int, y0: int, y1: int): nat
    requires x0 <= x1 && y0 <= y1
  {
    (x1 - x0 + 1) * (y1 - y0 + 1)
  }

  /** Every elf lies within the rectangle. */
  lemma RectangleHoldsElves(g: Grove, entries: seq<Point>)
    requires Lists(entries, g) && |entries| > 0
    ensures var x0, x1 := Least(entries, true), Greatest(entries, true);
      var y0, y1 := Least(entries, false), Greatest(entries, false);
      forall p :: p in g.elves ==> x0 <= p.x <= x1 && y0 <= p.y <= y1
  {
    forall p | p in g.elves
      ensures Least(entries, true) <= p.x <= Greatest(entries, true)
      ensures Least(entries, false) <= p.y <= Greatest(entries, false)
    {
      var i :| 0 <= i < |entries| && entries[i] == p;
      assert Coord(entries[i], true) == p.x && Coord(entries[i], false) == p.y;
    }
  }

  /** Each side of the rectangle touches an elf, so no smaller rectangle
      holds them all. */
  lemma RectangleIsTight(g: Grove, entries: seq<Point>) returns (left: Point, right: Point, top: Point, bottom: Point)
    requires Lists(entries, g) && |entries| > 0
    ensures left in g.elves && left.x == Least(entries, true)
    ensures right in g.elves && right.x == Greatest(entries, true)
    ensures top in g.elves && top.y == Least(entries, false)
    ensures bottom in g.elves && bottom.y == Greatest(entries, false)
  {
    var l, r := ExtremesAttained(entries, true);
    var t, b := ExtremesAttained(entries, false);
    left, right, top, bottom := entries[l], entries[r], entries[t], entries[b];
  }

  /** The four elves of the rectangle, empty-ground and movement tests,
      in one column with a gap. */
  const ColumnGrove := Grove(map[Point(0, 0) := Elf(0), Point(0, 1) := Elf(1), Point(0, 3) := Elf(2), Point(0, 4) := Elf(3)])
  const ColumnEntries := [Point(0, 0), Point(0, 1), Point(0, 3), Point(0, 4)]

  lemma ColumnCells()
    ensures forall q :: q in ColumnGrove.elves <==> q == Point(0, 0) || q == Point(0, 1) || q == Point(0, 3) || q == Point(0, 4)
    ensures ColumnGrove.elves[Point(0, 0)] == Elf(0) && ColumnGrove.elves[Point(0, 1)] == Elf(1)
    ensures ColumnGrove.elves[Point(0, 3)] == Elf(2) && ColumnGrove.elves[Point(0, 4)] == Elf(3)
  {
  }

  lemma ColumnListed()
    ensures Lists(ColumnEntries, ColumnGrove) && |ColumnGrove.elves| == 4
  {
    assert ColumnGrove.elves.Keys == {Point(0, 0), Point(0, 1), Point(0, 3), Point(0, 4)};
  }

  lemma ColumnExtremes()
    ensures Least(ColumnEntries, true) == 0 == Greatest(ColumnEntries, true)
    ensures Least(ColumnEntries, false) == 0 && Greatest(ColumnEntries, false) == 4
  {
  }

  /** The rectangle and empty-ground tests: four elves in a column of
      five cells leave one cell empty. */
  lemma RectangleExample()
    ensures Lists(ColumnEntries, ColumnGrove)
    ensures RectangleArea(ColumnGrove, ColumnEntries) == Some(5)
    ensures EmptyGround(ColumnGrove, ColumnEntries) == Some(1)
  {
    ColumnListed();
    ColumnExtremes();
  }

  /** Points within a column segment number at most its length. */
  lemma {:induction false} ColumnCount(s: set<Point>, x: int, y0: int, y1: int)
    requires forall p :: p in s ==> p.x == x && y0 <= p.y <= y1
    ensures |s| <= if y1 < y0 then 0 else y1 - y0 + 1
    decreases y1 - y0
  {
    if y1 < y0 {
      assert s == {};
    } else {
      var top := Point(x, y1);
      ColumnCount(s - {top}, x, y0, y1 - 1);
    }
  }

  /** Points within a rectangle number at most its area. */
  lemma {:induction false} BoxCount(s: set<Point>, x0: int, x1: int, y0: int, y1: int)
    requires y0 <= y1
    requires forall p :: p in s ==> x0 <= p.x <= x1 && y0 <= p.y <= y1
    ensures |s| <= if x1 < x0 then 0 else Area(x0, x1, y0, y1)
    decreases x1 - x0
  {
    if x1 < x0 {
      assert s == {};
    } else {
      var column := set p | p in s && p.x == x1;
      var rest := s - column;
      ColumnCount(column, x1, y0, y1);
      BoxCount(rest, x0, x1 - 1, y0, y1);
      assert s == column + rest && column !! rest;
      AreaStep(x0, x1, y0, y1);
    }
  }

  /** Dropping the right-most column removes one column's worth of cells. */
  lemma AreaStep(x0: int, x1: int, y0: int, y1: int)
    requires x0 <= x1 && y0 <= y1
    ensures Area(x0, x1, y0, y1) == (if x0 < x1 then Area(x0, x1 - 1, y0, y1) else 0) + (y1 - y0 + 1)
  {
    assert (x1 - x0 + 1) * (y1 - y0 + 1) == (x1 - x0) * (y1 - y0 + 1) + (y1 - y0 + 1);
  }

  /** `Grove::empty_ground`: the cells of the rectangle without an elf. The
      rectangle holds every elf, so the `usize` subtraction never wraps. */
  function EmptyGround(g: Grove, entries: seq<Point>): (r: Option<nat>)
    requires Lists(entries, g)
    ensures r.None? <==> |g.elves| == 0
    ensures r.Some? ==> r.value + |g.elves| == RectangleArea(g, entries).value
  {
    match RectangleArea(g, entries)
    case None => None
    case Some(area) =>
      RectangleHoldsElves(g, entries);
      var x0, x1 := Least(entries, true), Greatest(entries, true);
      var y0, y1 := Least(entries, false), Greatest(entries, false);
      BoxCount(g.elves.Keys, x0, x1, y0, y1);
      Some(area - |g.elves|)
  }
}
