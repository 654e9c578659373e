/** Day 16, "Proboscidea Volcanium": valves with flow rates, a table of
    travel times between them, and a branch-and-bound search for the most
    pressure released before time runs out, alone or with an elephant.

    The graph reduction and Dijkstra's shortest paths are a foreign
    library's work; the search sees only their result, the table of
    distances, which is a parameter here. */
module Valves {
  import opened Wrappers
  import opened Arith

  /** The valves `0..n` with their flow rates, which of them is the start,
      and the distance from each valve to each other one. */
  datatype Network = Network(flow: seq<nat>, starting: seq<bool>, dist: seq<seq<nat>>)

  predicate WellFormed(net: Network)
  {
    && |net.starting| == |net.flow|
    && |net.dist| == |net.flow|
    && forall i :: 0 <= i < |net.dist| ==> |net.dist[i]| == |net.flow|
  }

  predicate IsValve(net: Network, v: nat)
  {
    v < |net.flow|
  }

  /** Shortest distances obey the triangle inequality. */
  predicate Triangle(net: Network)
    requires WellFormed(net)
  {
    forall i, j, k :: 0 <= i < |net.flow| && 0 <= j < |net.flow| && 0 <= k < |net.flow| ==>
      net.dist[i][k] <= net.dist[i][j] + net.dist[j][k]
  }

  /** `GraphDetails`: where we stand, the valves still closed, the time
      left and the pressure already secured. */
  datatype Config = Config(position: nat, remaining: seq<nat>, time: nat, pressure: nat)

  predicate ValidConfig(net: Network, c: Config)
  {
    WellFormed(net) && IsValve(net, c.position) && forall v :: v in c.remaining ==> IsValve(net, v)
  }

  function Dist(net: Network, a: nat, b: nat): nat
    requires WellFormed(net) && IsValve(net, a) && IsValve(net, b)
  {
    net.dist[a][b]
  }

  /** The pressure a valve would release if we walked straight to it and
      opened it: its flow times the time left afterwards, or nothing when
      it cannot be reached and opened in time. */
  function Potential(net: Network, from: nat, time: nat, v: nat): (r: nat)
    requires WellFormed(net) && IsValve(net, from) && IsValve(net, v)
    ensures Dist(net, from, v) + 1 > time ==> r == 0
  {
    var d := Dist(net, from, v);
    if d + 1 > time then 0 else net.flow[v] * (time - (d + 1))
  }

  function PotentialSum(net: Network, from: nat, time: nat, vs: seq<nat>): nat
    requires WellFormed(net) && IsValve(net, from) && forall v :: v in vs ==> IsValve(net, v)
  {
    if |vs| == 0 then 0 else Potential(net, from, time, vs[0]) + PotentialSum(net, from, time, vs[1..])
  }

  /** `upper_bound`: the pressure every remaining valve would release if
      each were the next one opened. */
  function UpperBound(net: Network, c: Config): nat
    requires ValidConfig(net, c)
  {
    PotentialSum(net, c.position, c.time, c.remaining)
  }

  /** `remaining` without every copy of `v`. */
  function Without(vs: seq<nat>, v: nat): (r: seq<nat>)
    ensures forall x :: x in r <==> x in vs && x != v
    ensures |r| <= |vs|
    ensures v in vs ==> |r| < |vs|
  {
    if |vs| == 0 then []
    else if vs[0] == v then Without(vs[1..], v)
    else [vs[0]] + Without(vs[1..], v)
  }

  /** The valve can be reached and opened with time to spare. */
  predicate CanOpen(net: Network, c: Config, v: nat)
    requires ValidConfig(net, c) && IsValve(net, v)
  {
    Dist(net, c.position, v) + 1 <= c.time
  }

  /** Walking to `v` and opening it: the time drops by the distance plus
      one minute, and `v` then releases its flow for every minute left. */
  function Step(net: Network, c: Config, v: nat): (r: Config)
    requires ValidConfig(net, c) && v in c.remaining && CanOpen(net, c, v)
    ensures ValidConfig(net, r)
    ensures r.position == v && r.time + Dist(net, c.position, v) + 1 == c.time
    ensures r.pressure == c.pressure + r.time * net.flow[v]
    ensures |r.remaining| < |c.remaining|
    ensures forall x :: x in r.remaining <==> x in c.remaining && x != v
  {
    var t := c.time - (Dist(net, c.position, v) + 1);
    Config(v, Without(c.remaining, v), t, c.pressure + t * net.flow[v])
  }

  /** The reference answer: the most pressure any order of opening the
      remaining valves secures, found without pruning. */
  function Best(net: Network, c: Config): (r: nat)
    requires ValidConfig(net, c)
    ensures r >= c.pressure
    decreases |c.remaining|, 1
  {
    BestOf(net, c, c.remaining)
  }

  /** The best over opening one of `todo` next, or stopping here. */
  function BestOf(net: Network, c: Config, todo: seq<nat>): (r: nat)
    requires ValidConfig(net, c) && forall v :: v in todo ==> v in c.remaining
    ensures r >= c.pressure
    decreases |c.remaining|, 0, |todo|
  {
    if |todo| == 0 then c.pressure
    else
      var rest := BestOf(net, c, todo[1..]);
      if CanOpen(net, c, todo[0]) then Max(Best(net, Step(net, c, todo[0])), rest) else rest
  }

  /** `process_routes`, returning the final `lower_bound`: record the
      pressure secured so far, give up when even the upper bound cannot
      beat the best known, and otherwise try each reachable valve next.
      It never lowers the bound, and it never claims more than some order
      of opening valves secures. */
  function ProcessRoutes(net: Network, c: Config, lb: nat): (r: nat)
    requires ValidConfig(net, c)
    ensures r >= lb && r >= c.pressure
    ensures r <= Max(lb, Best(net, c))
    decreases |c.remaining|, 1
  {
    var lb1 := Max(c.pressure, lb);
    if c.pressure + UpperBound(net, c) < lb1 then lb1
    else Explore(net, c, c.remaining, lb1)
  }

  /** The `for next in &config.remaining` loop, threading the bound. */
  function Explore(net: Network, c: Config, todo: seq<nat>, lb: nat): (r: nat)
    requires ValidConfig(net, c) && forall v :: v in todo ==> v in c.remaining
    ensures r >= lb
    ensures r <= Max(lb, BestOf(net, c, todo))
    decreases |c.remaining|, 0, |todo|
  {
    if |todo| == 0 then lb
    else if !CanOpen(net, c, todo[0]) then Explore(net, c, todo[1..], lb)
    else
      var lb1 := ProcessRoutes(net, Step(net, c, todo[0]), lb);
      Explore(net, c, todo[1..], lb1)
  }

  lemma MulMono(f: nat, a: nat, b: nat)
    requires a <= b
    ensures f * a <= f * b
  {
  }

  /** With the triangle inequality, opening `v` first can only lower what
      any other valve could still release. */
  lemma {:induction false} PotentialAfterStep(net: Network, c: Config, v: nat, vs: seq<nat>)
    requires ValidConfig(net, c) && v in c.remaining && CanOpen(net, c, v) && Triangle(net)
    requires forall x :: x in vs ==> IsValve(net, x)
    ensures PotentialSum(net, v, Step(net, c, v).time, vs) <= PotentialSum(net, c.position, c.time, vs)
  {
    if |vs| > 0 {
      PotentialAfterStep(net, c, v, vs[1..]);
      var u, t1 := vs[0], Step(net, c, v).time;
      assert Dist(net, c.position, u) <= Dist(net, c.position, v) + Dist(net, v, u);
      if Dist(net, v, u) + 1 <= t1 {
        MulMono(net.flow[u], t1 - (Dist(net, v, u) + 1), c.time - (Dist(net, c.position, u) + 1));
      }
    }
  }

  /** The sum over a list holds the sum without `v` plus `v`'s share. */
  lemma {:induction false} PotentialSumWithout(net: Network, from: nat, time: nat, vs: seq<nat>, v: nat)
    requires WellFormed(net) && IsValve(net, from) && forall x :: x in vs ==> IsValve(net, x)
    requires v in vs
    ensures PotentialSum(net, from, time, vs) >= Potential(net, from, time, v) + PotentialSum(net, from, time, Without(vs, v))
  {
    if vs[0] == v {
      if v in vs[1..] {
        PotentialSumWithout(net, from, time, vs[1..], v);
      } else {
        WithoutAbsent(vs[1..], v);
      }
    } else {
      PotentialSumWithout(net, from, time, vs[1..], v);
      assert Without(vs, v) == [vs[0]] + Without(vs[1..], v);
      assert ([vs[0]] + Without(vs[1..], v))[1..] == Without(vs[1..], v);
    }
  }

  lemma {:induction false} WithoutAbsent(vs: seq<nat>, v: nat)
    requires v !in vs
    ensures Without(vs, v) == vs
  {
    if |vs| > 0 {
      WithoutAbsent(vs[1..], v);
      assert vs == [vs[0]] + vs[1..];
    }
  }

  /** The bound is sound: no order of opening valves secures more than
      the pressure so far plus `upper_bound`, as long as the distances
      obey the triangle inequality. */
  lemma {:induction false} BestWithinBound(net: Network, c: Config)
    requires ValidConfig(net, c) && Triangle(net)
    ensures Best(net, c) <= c.pressure + UpperBound(net, c)
    decreases |c.remaining|, 1
  {
    BestOfWithinBound(net, c, c.remaining);
  }

  lemma {:induction false} BestOfWithinBound(net: Network, c: Config, todo: seq<nat>)
    requires ValidConfig(net, c) && Triangle(net) && forall v :: v in todo ==> v in c.remaining
    ensures BestOf(net, c, todo) <= c.pressure + UpperBound(net, c)
    decreases |c.remaining|, 0, |todo|
  {
    if |todo| > 0 {
      BestOfWithinBound(net, c, todo[1..]);
      var v := todo[0];
      if CanOpen(net, c, v) {
        var c1 := Step(net, c, v);
        BestWithinBound(net, c1);
        PotentialAfterStep(net, c, v, c1.remaining);
        PotentialSumWithout(net, c.position, c.time, c.remaining, v);
      }
    }
  }

  /** With the triangle inequality the pruning loses nothing: the search
      finds exactly the best pressure (or keeps a better bound it was
      given). */
  lemma {:induction false} ProcessRoutesExact(net: Network, c: Config, lb: nat)
    requires ValidConfig(net, c) && Triangle(net)
    ensures ProcessRoutes(net, c, lb) == Max(lb, Best(net, c))
    decreases |c.remaining|, 1
  {
    var lb1 := Max(c.pressure, lb);
    if c.pressure + UpperBound(net, c) < lb1 {
      BestWithinBound(net, c);
    } else {
      ExploreExact(net, c, c.remaining, lb1);
    }
  }

  lemma {:induction false} ExploreExact(net: Network, c: Config, todo: seq<nat>, lb: nat)
    requires ValidConfig(net, c) && Triangle(net) && forall v :: v in todo ==> v in c.remaining
    requires lb >= c.pressure
    ensures Explore(net, c, todo, lb) == Max(lb, BestOf(net, c, todo))
    decreases |c.remaining|, 0, |todo|
  {
    if |todo| > 0 {
      if !CanOpen(net, c, todo[0]) {
        ExploreExact(net, c, todo[1..], lb);
      } else {
        var c1 := Step(net, c, todo[0]);
        ProcessRoutesExact(net, c1, lb);
        ExploreExact(net, c, todo[1..], ProcessRoutes(net, c1, lb));
      }
    }
  }

  /** Opening valves in the order `route`, each still closed and reachable
      in time; `None` when the route is not feasible. */
  function Walk(net: Network, c: Config, route: seq<nat>): (r: Option<Config>)
    requires ValidConfig(net, c)
    ensures r.Some? ==> ValidConfig(net, r.value) && r.value.pressure >= c.pressure
    decreases |route|
  {
    if |route| == 0 then Some(c)
    else if route[0] in c.remaining && IsValve(net, route[0]) && CanOpen(net, c, route[0]) then
      Walk(net, Step(net, c, route[0]), route[1..])
    else None
  }

  /** No feasible route beats the reference answer... */
  lemma {:induction false} WalkWithinBest(net: Network, c: Config, route: seq<nat>)
    requires ValidConfig(net, c) && Walk(net, c, route).Some?
    ensures Walk(net, c, route).value.pressure <= Best(net, c)
    decreases |route|
  {
    if |route| > 0 {
      var c1 := Step(net, c, route[0]);
      WalkWithinBest(net, c1, route[1..]);
      BestOfCovers(net, c, c.remaining, route[0]);
    }
  }

  lemma {:induction false} BestOfCovers(net: Network, c: Config, todo: seq<nat>, v: nat)
    requires ValidConfig(net, c) && forall x :: x in todo ==> x in c.remaining
    requires v in todo && CanOpen(net, c, v)
    ensures Best(net, Step(net, c, v)) <= BestOf(net, c, todo)
    decreases |todo|
  {
    if todo[0] != v {
      BestOfCovers(net, c, todo[1..], v);
    }
  }

  /** ...and some feasible route attains it. */
  lemma {:induction false} BestIsWalked(net: Network, c: Config) returns (route: seq<nat>)
    requires ValidConfig(net, c)
    ensures Walk(net, c, route).Some? && Walk(net, c, route).value.pressure == Best(net, c)
    decreases |c.remaining|, 1
  {
    route := BestOfIsWalked(net, c, c.remaining);
  }

  lemma {:induction false} BestOfIsWalked(net: Network, c: Config, todo: seq<nat>) returns (route: seq<nat>)
    requires ValidConfig(net, c) && forall v :: v in todo ==> v in c.remaining
    ensures Walk(net, c, route).Some? && Walk(net, c, route).value.pressure == BestOf(net, c, todo)
    decreases |c.remaining|, 0, |todo|
  {
    if |todo| == 0 {
      route := [];
    } else {
      var v := todo[0];
      if CanOpen(net, c, v) && Best(net, Step(net, c, v)) >= BestOf(net, c, todo[1..]) {
        var rest := BestIsWalked(net, Step(net, c, v));
        route := [v] + rest;
        assert route[1..] == rest;
      } else {
        route := BestOfIsWalked(net, c, todo[1..]);
      }
    }
  }

  /** `start`: the first valve marked as the start; `None` where the source
      panics because there is none. */
  function Start(net: Network): (r: Option<nat>)
    requires WellFormed(net)
    ensures r.Some? ==> IsValve(net, r.value) && net.starting[r.value]
    ensures r.Some? ==> forall i :: 0 <= i < r.value ==> !net.starting[i]
    ensures r.None? ==> forall i :: 0 <= i < |net.starting| ==> !net.starting[i]
  {
    FirstStart(net, 0)
  }

  function FirstStart(net: Network, i: nat): (r: Option<nat>)
    requires WellFormed(net) && i <= |net.flow|
    ensures r.Some? ==> i <= r.value < |net.flow| && net.starting[r.value]
    ensures r.Some? ==> forall k :: i <= k < r.value ==> !net.starting[k]
    ensures r.None? ==> forall k :: i <= k < |net.starting| ==> !net.starting[k]
    decreases |net.flow| - i
  {
    if i == |net.flow| then None
    else if net.starting[i] then Some(i)
    else FirstStart(net, i + 1)
  }

  /** The valves `i..n` other than `start`, in index order. */
  function Others(n: nat, i: nat, start: nat): (r: seq<nat>)
    requires i <= n
    ensures forall v :: v in r <==> i <= v < n && v != start
    decreases n - i
  {
    if i == n then []
    else if i == start then Others(n, i + 1, start)
    else [i] + Others(n, i + 1, start)
  }

  /** One search from the start with the given valves to open. */
  function Solo(net: Network, start: nat, valves: seq<nat>, time: nat): (r: nat)
    requires WellFormed(net) && IsValve(net, start) && forall v :: v in valves ==> IsValve(net, v)
  {
    ProcessRoutes(net, Config(start, valves, time, 0), 0)
  }

  /** `max_pressure_solo`: the search from the start over every other
      valve; with the triangle inequality it is the best any route does. */
  function MaxPressureSolo(net: Network, time: nat): (r: Option<nat>)
    requires WellFormed(net)
    ensures r.Some? <==> Start(net).Some?
    ensures r.Some? && Triangle(net) ==>
      r.value == Best(net, Config(Start(net).value, Others(|net.flow|, 0, Start(net).value), time, 0))
  {
    var start :- Start(net);
    var c := Config(start, Others(|net.flow|, 0, start), time, 0);
    SearchIsBest(net, c);
    Some(ProcessRoutes(net, c, 0))
  }

  lemma SearchIsBest(net: Network, c: Config)
    requires ValidConfig(net, c)
    ensures Triangle(net) ==> ProcessRoutes(net, c, 0) == Best(net, c)
  {
    if Triangle(net) {
      ProcessRoutesExact(net, c, 0);
    }
  }

  /** `itertools::powerset`: every sub-list of `vs`, keeping order. */
  function Powerset(vs: seq<nat>): (r: seq<seq<nat>>)
    ensures |r| > 0
    ensures forall k :: 0 <= k < |r| ==> forall v :: v in r[k] ==> v in vs
    decreases |vs|
  {
    if |vs| == 0 then [[]]
    else
      var rest := Powerset(vs[1..]);
      rest + Prepend(vs[0], rest)
  }

  function Prepend(v: nat, ss: seq<seq<nat>>): (r: seq<seq<nat>>)
    ensures |r| == |ss|
    ensures forall k :: 0 <= k < |r| ==> r[k] == [v] + ss[k]
  {
    if |ss| == 0 then [] else [[v] + ss[0]] + Prepend(v, ss[1..])
  }

  /** The sub-list of `vs` that a mask picks. */
  function Select(vs: seq<nat>, mask: seq<bool>): (r: seq<nat>)
    requires |mask| == |vs|
    ensures forall v :: v in r ==> v in vs
  {
    if |vs| == 0 then []
    else if mask[0] then [vs[0]] + Select(vs[1..], mask[1..])
    else Select(vs[1..], mask[1..])
  }

  /** Every choice of valves appears among the subsets tried. */
  lemma {:induction false} PowersetComplete(vs: seq<nat>, mask: seq<bool>)
    requires |mask| == |vs|
    ensures Select(vs, mask) in Powerset(vs)
    decreases |vs|
  {
    if |vs| > 0 {
      PowersetComplete(vs[1..], mask[1..]);
      var rest := Powerset(vs[1..]);
      var k :| 0 <= k < |rest| && rest[k] == Select(vs[1..], mask[1..]);
      if mask[0] {
        assert Prepend(vs[0], rest)[k] == Select(vs, mask);
        assert (rest + Prepend(vs[0], rest))[|rest| + k] == Select(vs, mask);
      } else {
        assert (rest + Prepend(vs[0], rest))[k] == Select(vs, mask);
      }
    }
  }

  /** The valves of `vs` not in `mine`: what the elephant opens. */
  function Complement(vs: seq<nat>, mine: seq<nat>): (r: seq<nat>)
    ensures forall v :: v in r <==> v in vs && v !in mine
  {
    if |vs| == 0 then []
    else if vs[0] in mine then Complement(vs[1..], mine)
    else [vs[0]] + Complement(vs[1..], mine)
  }

  /** What one split achieves: my search plus the elephant's. */
  function SplitValue(net: Network, start: nat, all: seq<nat>, mine: seq<nat>, time: nat): nat
    requires WellFormed(net) && IsValve(net, start) && forall v :: v in all ==> IsValve(net, v)
    requires forall v :: v in mine ==> v in all
  {
    Solo(net, start, mine, time) + Solo(net, start, Complement(all, mine), time)
  }

  /** The best split among `splits`, or 0 when there are none. */
  function BestSplit(net: Network, start: nat, all: seq<nat>, splits: seq<seq<nat>>, time: nat): (r: nat)
    requires WellFormed(net) && IsValve(net, start) && forall v :: v in all ==> IsValve(net, v)
    requires forall k :: 0 <= k < |splits| ==> forall v :: v in splits[k] ==> v in all
    ensures forall k :: 0 <= k < |splits| ==> SplitValue(net, start, all, splits[k], time) <= r
  {
    if |splits| == 0 then 0
    else
      var rest := BestSplit(net, start, all, splits[1..], time);
      var here := SplitValue(net, start, all, splits[0], time);
      assert forall k :: 1 <= k < |splits| ==> splits[k] == splits[1..][k - 1];
      Max(here, rest)
  }

  /** A non-empty list of splits has one that attains the best. */
  lemma {:induction false} BestSplitAttained(net: Network, start: nat, all: seq<nat>, splits: seq<seq<nat>>, time: nat)
    returns (k: nat)
    requires WellFormed(net) && IsValve(net, start) && forall v :: v in all ==> IsValve(net, v)
    requires forall k :: 0 <= k < |splits| ==> forall v :: v in splits[k] ==> v in all
    requires |splits| > 0
    ensures k < |splits| && BestSplit(net, start, all, splits, time) == SplitValue(net, start, all, splits[k], time)
  {
    var rest := BestSplit(net, start, all, splits[1..], time);
    if |splits| == 1 || SplitValue(net, start, all, splits[0], time) >= rest {
      k := 0;
    } else {
      var j := BestSplitAttained(net, start, all, splits[1..], time);
      k := j + 1;
    }
  }

  /** `max_pressure_with_elephant`: the best, over every way of sharing
      the non-start valves, of my search plus the elephant's. */
  function MaxPressureWithElephant(net: Network, time: nat): (r: Option<nat>)
    requires WellFormed(net)
    ensures r.Some? <==> Start(net).Some?
  {
    var start :- Start(net);
    var all := Others(|net.flow|, 0, start);
    Some(BestSplit(net, start, all, Powerset(all), time))
  }

  /** The pair's answer is at least what any sharing of the valves
      achieves... */
  lemma ElephantBeatsEverySplit(net: Network, time: nat, mask: seq<bool>)
    requires WellFormed(net) && Start(net).Some?
    requires |mask| == |Others(|net.flow|, 0, Start(net).value)|
    ensures var all := Others(|net.flow|, 0, Start(net).value);
      SplitValue(net, Start(net).value, all, Select(all, mask), time) <= MaxPressureWithElephant(net, time).value
  {
    var all := Others(|net.flow|, 0, Start(net).value);
    PowersetComplete(all, mask);
    var k :| 0 <= k < |Powerset(all)| && Powerset(all)[k] == Select(all, mask);
  }

  /** ...and some sharing achieves it. */
  lemma ElephantIsSomeSplit(net: Network, time: nat) returns (mask: seq<bool>)
    requires WellFormed(net) && Start(net).Some?
    ensures var all := Others(|net.flow|, 0, Start(net).value);
      |mask| == |all| &&
      SplitValue(net, Start(net).value, all, Select(all, mask), time) == MaxPressureWithElephant(net, time).value
  {
    var start := Start(net).value;
    var all := Others(|net.flow|, 0, start);
    var splits := Powerset(all);
    var k := BestSplitAttained(net, start, all, splits, time);
    mask := PowersetSound(all, k);
  }

  /** Every subset tried is the choice of some mask. */
  lemma {:induction false} PowersetSound(vs: seq<nat>, k: nat) returns (mask: seq<bool>)
    requires k < |Powerset(vs)|
    ensures |mask| == |vs| && Select(vs, mask) == Powerset(vs)[k]
    decreases |vs|
  {
    if |vs| == 0 {
      mask := [];
    } else {
      var rest := Powerset(vs[1..]);
      if k < |rest| {
        var m := PowersetSound(vs[1..], k);
        mask := [false] + m;
        assert mask[1..] == m;
      } else {
        var m := PowersetSound(vs[1..], k - |rest|);
        mask := [true] + m;
        assert mask[1..] == m;
        assert Powerset(vs)[k] == Prepend(vs[0], rest)[k - |rest|];
      }
    }
  }

  /** Sharing never hurts: giving the elephant everything is one of the
      splits, so the pair does at least as well as one searcher alone. */
  lemma ElephantAtLeastSolo(net: Network, time: nat)
    requires WellFormed(net) && Start(net).Some?
    ensures MaxPressureWithElephant(net, time).value >= MaxPressureSolo(net, time).value
  {
    var start := Start(net).value;
    var all := Others(|net.flow|, 0, start);
    var mask := seq(|all|, _ => false);
    SelectNone(all, mask);
    ComplementEmpty(all);
    ElephantBeatsEverySplit(net, time, mask);
    assert SplitValue(net, start, all, [], time) == Solo(net, start, [], time) + Solo(net, start, all, time);
  }

  lemma {:induction false} SelectNone(vs: seq<nat>, mask: seq<bool>)
    requires |mask| == |vs| && forall k :: 0 <= k < |mask| ==> !mask[k]
    ensures Select(vs, mask) == []
  {
    if |vs| > 0 {
      SelectNone(vs[1..], mask[1..]);
    }
  }

  lemma {:induction false} ComplementEmpty(vs: seq<nat>)
    ensures Complement(vs, []) == vs
  {
    if |vs| > 0 {
      ComplementEmpty(vs[1..]);
      assert vs == [vs[0]] + vs[1..];
    }
  }

  /** Valve 0 is the start; valve 1 (flow 13) and valve 2 (flow 2) lie
      10 and 20 minutes away. Opening them straight from the start would
      release 19 times 13 plus 9 times 2. */
  lemma UpperBoundExample()
    ensures UpperBound(Network([0, 13, 2], [true, false, false], [[0, 10, 20], [10, 0, 10], [20, 10, 0]]),
      Config(0, [1, 2], 30, 0)) == 265
  {
  }

  /** A start with no flow, then valves of flow 13 and 2 in a line: the
      best is to open the near one at minute 2 and the far one at minute 4,
      releasing 13 times 28 plus 2 times 26. */
  const LineNetwork := Network([0, 13, 2], [true, false, false], [[0, 1, 2], [1, 0, 1], [2, 1, 0]])

  lemma LineTriangle()
    ensures WellFormed(LineNetwork) && Triangle(LineNetwork)
  {
  }

  lemma LineNearFirst()
    ensures Best(LineNetwork, Config(1, [2], 28, 364)) == 416
  {
    assert Step(LineNetwork, Config(1, [2], 28, 364), 2) == Config(2, [], 26, 416);
  }

  lemma LineFarFirst()
    ensures Best(LineNetwork, Config(2, [1], 27, 54)) == 379
  {
    assert Step(LineNetwork, Config(2, [1], 27, 54), 1) == Config(1, [], 25, 379);
  }

  lemma MinimalRouteExample()
    ensures ProcessRoutes(LineNetwork, Config(0, [1, 2], 30, 0), 0) == 416
  {
    var c := Config(0, [1, 2], 30, 0);
    LineTriangle();
    ProcessRoutesExact(LineNetwork, c, 0);
    assert Step(LineNetwork, c, 1) == Config(1, [2], 28, 364);
    assert Step(LineNetwork, c, 2) == Config(2, [1], 27, 54);
    LineNearFirst();
    LineFarFirst();
  }
}
