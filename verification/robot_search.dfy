/** Day 19, the search: `max_geodes_and_path` tries each robot kind
    next, waits until it is built, and recurses on the minutes left,
    pruned by a lower bound (a fixed purchase order) and two upper
    bounds. */
module RobotSearch {
  import opened Wrappers
  import opened Robots

  /** `n` copies of `m`. */
  function Repeat(m: Material, n: nat): (r: seq<Material>)
    ensures |r| == n && forall i :: 0 <= i < n ==> r[i] == m
  {
    if n == 0 then [] else [m] + Repeat(m, n - 1)
  }

  /** A purchase order that, after `prefix`, asks for geode robots for
      ever: `robot_order.iter().chain([Geode].iter().cycle())`. */
  function OrderAt(prefix: seq<Material>, k: nat): Material
  {
    if k < |prefix| then prefix[k] else Geode
  }

  /** `PurchaseOrder::process`: `time` ticks, moving to the next robot of
      the order after each build. */
  function Process(bp: Blueprint, prefix: seq<Material>, k: nat, time: nat, inv: Inventory): Inventory
    decreases time
  {
    if time == 0 then inv
    else
      var t := Tick(bp, inv, OrderAt(prefix, k));
      Process(bp, prefix, if t.built then k + 1 else k, time - 1, t.inv)
  }

  /** The robots a `Process` run tries, minute by minute. */
  function ProcessTries(bp: Blueprint, prefix: seq<Material>, k: nat, time: nat, inv: Inventory): (ms: seq<Material>)
    ensures |ms| == time
    ensures Process(bp, prefix, k, time, inv) == Play(bp, inv, ms)
    decreases time
  {
    if time == 0 then []
    else
      var t := Tick(bp, inv, OrderAt(prefix, k));
      var rest := ProcessTries(bp, prefix, if t.built then k + 1 else k, time - 1, t.inv);
      assert ([OrderAt(prefix, k)] + rest)[1..] == rest;
      [OrderAt(prefix, k)] + rest
  }

  /** The blueprints `lower_bound` can run on: each of ore, clay and
      obsidian is in some price (`blueprint.max(..).unwrap()` panics
      otherwise). */
  predicate Usable(bp: Blueprint)
  {
    MaxCost(bp, Ore).Some? && MaxCost(bp, Clay).Some? && MaxCost(bp, Obsidian).Some?
  }

  /** No robot is paid for in geodes, as in every blueprint of the
      puzzle; then `blueprint.max(&Geode)` is `None`. */
  predicate GeodeFree(bp: Blueprint)
  {
    MaxCost(bp, Geode).None?
  }

  function MaterialIndex(m: Material): (i: nat)
    ensures i < 4 && Materials[i] == m
  {
    match m
    case Ore => 0
    case Clay => 1
    case Obsidian => 2
    case Geode => 3
  }

  /** How many robots of `m` the loop `(current + 1)..=max` adds. */
  function Missing(bp: Blueprint, inv: Inventory, m: Material): (n: nat)
    requires MaxCost(bp, m).Some?
    ensures Get(inv.robots, m) + n >= MaxCost(bp, m).value
    ensures n > 0 ==> Get(inv.robots, m) + n == MaxCost(bp, m).value
  {
    var current, max := Get(inv.robots, m), MaxCost(bp, m).value;
    if max > current then max - current else 0
  }

  /** The order of `lower_bound`: ore robots, then clay, then obsidian,
      each up to the most any robot costs in that material. */
  function RobotOrder(bp: Blueprint, inv: Inventory): seq<Material>
    requires Usable(bp)
  {
    Repeat(Ore, Missing(bp, inv, Ore)) + Repeat(Clay, Missing(bp, inv, Clay)) + Repeat(Obsidian, Missing(bp, inv, Obsidian))
  }

  /** `lower_bound`: the purchase order above, then geode robots, for
      `time` minutes. */
  function LowerBound(bp: Blueprint, inv: Inventory, time: nat): Inventory
    requires Usable(bp)
  {
    Process(bp, RobotOrder(bp, inv), 0, time, inv)
  }

  /** The lower bound is a real play, so it never beats the optimistic
      bound. */
  lemma LowerBoundBelowUpper(bp: Blueprint, inv: Inventory, time: nat)
    requires Usable(bp)
    ensures Dominated(LowerBound(bp, inv, time), UpperBounds(bp, inv, time))
  {
    var ms := ProcessTries(bp, RobotOrder(bp, inv), 0, time, inv);
    UpperBoundsSound(bp, inv, ms);
  }

  /** Every play keeps its geode robots, which bring their count each
      minute. */
  lemma {:induction false} PlayGeodes(bp: Blueprint, inv: Inventory, ms: seq<Material>)
    requires GeodeFree(bp)
    ensures Play(bp, inv, ms).materials.geode >= inv.materials.geode + |ms| * inv.robots.geode
    ensures Play(bp, inv, ms).robots.geode >= inv.robots.geode
    decreases |ms|
  {
    if |ms| > 0 {
      var a := Tick(bp, inv, ms[0]).inv;
      TickEffect(bp, inv, ms[0]);
      assert Geode !in CostOf(bp, ms[0]) by {
        assert CostOf(bp, ms[0]) == Costs(bp)[MaterialIndex(ms[0])];
      }
      assert Get(a.materials, Geode) >= Get(inv.materials, Geode) + Get(inv.robots, Geode);
      assert Get(a.robots, Geode) >= Get(inv.robots, Geode);
      PlayGeodes(bp, a, ms[1..]);
      MulMonotone(|ms| - 1, inv.robots.geode, a.robots.geode);
      MulSucc(|ms| - 1, inv.robots.geode);
    }
  }

  lemma LowerBoundGeodes(bp: Blueprint, inv: Inventory, time: nat)
    requires Usable(bp) && GeodeFree(bp)
    ensures LowerBound(bp, inv, time).materials.geode >= inv.materials.geode + time * inv.robots.geode
  {
    var ms := ProcessTries(bp, RobotOrder(bp, inv), 0, time, inv);
    PlayGeodes(bp, inv, ms);
  }

  /** The waiting of `ticks_till_build` is a play of the one robot kind:
      `k` minutes for `Some(k)`, all `time` minutes for `None`. */
  lemma {:induction false} WaitIsPlay(bp: Blueprint, time: nat, inv: Inventory, m: Material, ret: nat)
    requires ret < time
    ensures var r := WaitFrom(bp, time, inv, m, ret);
      r.inv == Play(bp, inv, Repeat(m, if r.ticks.Some? then r.ticks.value - ret else time - ret))
    decreases time - ret
  {
    var t := Tick(bp, inv, m);
    var r := WaitFrom(bp, time, inv, m, ret);
    var n := if r.ticks.Some? then r.ticks.value - ret else time - ret;
    assert Repeat(m, n)[1..] == Repeat(m, n - 1);
    if ret + 1 < time && !t.built {
      WaitIsPlay(bp, time, t.inv, m, ret + 1);
    } else {
      assert Repeat(m, n - 1) == [];
    }
  }

  /** Playing first and bounding afterwards never beats bounding from the
      start. */
  lemma {:induction false} UpperBoundsAfterPlay(bp: Blueprint, inv: Inventory, ms: seq<Material>, time: nat)
    requires |ms| <= time
    ensures Dominated(UpperBounds(bp, Play(bp, inv, ms), time - |ms|), UpperBounds(bp, inv, time))
    decreases |ms|
  {
    if |ms| > 0 {
      var a := Tick(bp, inv, ms[0]).inv;
      UpperBoundsAfterPlay(bp, a, ms[1..], time - 1);
      assert Dominated(inv, inv);
      TickDominated(bp, inv, inv, ms[0]);
      UpperBoundsMonotone(bp, a, Optimist(bp, inv), time - 1);
    }
  }

  /** The best count found so far and the robots bought to reach it. */
  datatype Best = Best(geodes: nat, route: seq<Material>)

  function Max(a: nat, b: nat): nat
  {
    if a >= b then a else b
  }

  /** `max_geodes_and_path`: with no time left the current geodes;
      otherwise prune when the best known reaches either upper bound,
      and else try each robot kind next. */
  function MaxGeodes(bp: Blueprint, time: nat, inv: Inventory, currentBest: nat): (r: Best)
    requires Usable(bp)
    ensures time == 0 ==> r == Best(inv.materials.geode, [])
    decreases time, 1
  {
    if time == 0 then Best(inv.materials.geode, [])
    else
      var best := Max(currentBest, LowerBound(bp, inv, time).materials.geode);
      var ub := inv.materials.geode + inv.robots.geode * time + time * (time + 1) / 2;
      var ub2 := UpperBounds(bp, inv, time).materials.geode;
      if best >= ub || best >= ub2 then Best(best, [])
      else TryRobots(bp, time, inv, 0, Best(best, []))
  }

  /** The search reports at least the caller's best and the lower bound,
      and names a route only when it found strictly more. */
  lemma MaxGeodesAtLeast(bp: Blueprint, time: nat, inv: Inventory, currentBest: nat)
    requires Usable(bp) && time > 0
    ensures var r := MaxGeodes(bp, time, inv, currentBest);
      var best := Max(currentBest, LowerBound(bp, inv, time).materials.geode);
      r.geodes >= best && (r.route != [] ==> r.geodes > best)
  {
  }

  /** The loop of `max_geodes_and_path` over `Material::iter()` from
      position `i`: skip a kind already owned as often as any robot's
      price needs it, and otherwise try it. */
  function TryRobots(bp: Blueprint, time: nat, inv: Inventory, i: nat, acc: Best): (r: Best)
    requires Usable(bp) && time > 0 && i <= 4
    ensures r.geodes >= acc.geodes
    ensures r.geodes == acc.geodes ==> r == acc
    decreases time, 0, 4 - i
  {
    if i == 4 then acc
    else
      var m := Materials[i];
      var max := MaxCost(bp, m);
      if max.Some? && Get(inv.robots, m) >= max.value then
        TryRobots(bp, time, inv, i + 1, acc)
      else
        TryRobots(bp, time, inv, i + 1, TryRobot(bp, time, inv, m, acc))
  }

  /** One pass of that loop: wait for robot `m`; when it is built in time
      search on from there, and otherwise count the geodes at the end;
      keep the result only if it is strictly better. */
  function TryRobot(bp: Blueprint, time: nat, inv: Inventory, m: Material, acc: Best): (r: Best)
    requires Usable(bp) && time > 0
    ensures r.geodes >= acc.geodes
    ensures r.geodes == acc.geodes ==> r == acc
    decreases time, 0, 0
  {
    var w := TicksTillBuild(bp, time, inv, m);
    if w.ticks.Some? then
      var sub := MaxGeodes(bp, time - w.ticks.value, w.inv, acc.geodes);
      if acc.geodes < sub.geodes then Best(sub.geodes, [m] + sub.route) else acc
    else
      var g := w.inv.materials.geode;
      if acc.geodes < g then Best(g, []) else acc
  }

  /** The search never reports more geodes than the optimistic bound
      allows, unless the caller's best already did. */
  lemma {:induction false} MaxGeodesSound(bp: Blueprint, time: nat, inv: Inventory, currentBest: nat)
    requires Usable(bp)
    ensures MaxGeodes(bp, time, inv, currentBest).geodes <= Max(currentBest, UpperBounds(bp, inv, time).materials.geode)
    decreases time, 1, 1
  {
    if time > 0 {
      var ub2 := UpperBounds(bp, inv, time).materials.geode;
      var best := Max(currentBest, LowerBound(bp, inv, time).materials.geode);
      LowerBoundBelowUpper(bp, inv, time);
      var ub := inv.materials.geode + inv.robots.geode * time + time * (time + 1) / 2;
      if !(best >= ub || best >= ub2) {
        TryRobotsSound(bp, time, inv, 0, Best(best, []), Max(currentBest, ub2));
      }
    }
  }

  lemma {:induction false} TryRobotsSound(bp: Blueprint, time: nat, inv: Inventory, i: nat, acc: Best, cap: nat)
    requires Usable(bp) && time > 0 && i <= 4
    requires cap >= UpperBounds(bp, inv, time).materials.geode && acc.geodes <= cap
    ensures TryRobots(bp, time, inv, i, acc).geodes <= cap
    decreases time, 0, 6 - i
  {
    if i < 4 {
      var m := Materials[i];
      var max := MaxCost(bp, m);
      if !(max.Some? && Get(inv.robots, m) >= max.value) {
        TryRobotSound(bp, time, inv, m, acc, cap);
        TryRobotsSound(bp, time, inv, i + 1, TryRobot(bp, time, inv, m, acc), cap);
      } else {
        TryRobotsSound(bp, time, inv, i + 1, acc, cap);
      }
    }
  }

  lemma {:induction false} TryRobotSound(bp: Blueprint, time: nat, inv: Inventory, m: Material, acc: Best, cap: nat)
    requires Usable(bp) && time > 0
    requires cap >= UpperBounds(bp, inv, time).materials.geode && acc.geodes <= cap
    ensures TryRobot(bp, time, inv, m, acc).geodes <= cap
    decreases time, 0, 1
  {
    var w := TicksTillBuild(bp, time, inv, m);
    TicksTillBuildPlay(bp, time, inv, m);
    if w.ticks.Some? {
      var rest := time - w.ticks.value;
      var sub := MaxGeodes(bp, rest, w.inv, acc.geodes);
      SearchOnSound(bp, time, inv, m, w.ticks.value, rest, w.inv, acc.geodes, cap);
      assert TryRobot(bp, time, inv, m, acc) == if acc.geodes < sub.geodes then Best(sub.geodes, [m] + sub.route) else acc;
    } else {
      UpperBoundsSound(bp, inv, Repeat(m, time));
      assert TryRobot(bp, time, inv, m, acc) == if acc.geodes < w.inv.materials.geode then Best(w.inv.materials.geode, []) else acc;
    }
  }

  /** `ticks_till_build` plays robot `m` for its `k` minutes, or for all
      `time` minutes when it gives up. */
  lemma TicksTillBuildPlay(bp: Blueprint, time: nat, inv: Inventory, m: Material)
    requires time > 0
    ensures var w := TicksTillBuild(bp, time, inv, m);
      w.inv == Play(bp, inv, Repeat(m, if w.ticks.Some? then w.ticks.value else time))
  {
    WaitIsPlay(bp, time, inv, m, 0);
  }

  /** Searching on after `k` minutes spent on robot `m` stays under the
      cap that bounds the whole `time`. */
  lemma SearchOnSound(bp: Blueprint, time: nat, inv: Inventory, m: Material, k: nat, rest: nat, w: Inventory, best: nat, cap: nat)
    requires Usable(bp) && 1 <= k <= time && rest == time - k
    requires w == Play(bp, inv, Repeat(m, k))
    requires cap >= UpperBounds(bp, inv, time).materials.geode && best <= cap
    ensures MaxGeodes(bp, rest, w, best).geodes <= cap
    decreases time, 0, 0
  {
    CapAfterPlay(bp, time, inv, Repeat(m, k), w, rest, cap);
    CapSearch(bp, rest, w, best, cap);
  }

  lemma CapAfterPlay(bp: Blueprint, time: nat, inv: Inventory, ms: seq<Material>, w: Inventory, rest: nat, cap: nat)
    requires |ms| <= time && rest == time - |ms| && w == Play(bp, inv, ms)
    requires cap >= UpperBounds(bp, inv, time).materials.geode
    ensures UpperBounds(bp, w, rest).materials.geode <= cap
  {
    UpperBoundsAfterPlay(bp, inv, ms, time);
  }

  lemma CapSearch(bp: Blueprint, time: nat, inv: Inventory, best: nat, cap: nat)
    requires Usable(bp)
    requires UpperBounds(bp, inv, time).materials.geode <= cap && best <= cap
    ensures MaxGeodes(bp, time, inv, best).geodes <= cap
    decreases time, 1, 2
  {
    MaxGeodesSound(bp, time, inv, best);
  }

  /** When the optimistic bound promises no more geodes than the geode
      robots already owned bring, the search stops at once with that
      count and an empty route. */
  lemma PrunedAtOnce(bp: Blueprint, time: nat, inv: Inventory)
    requires Usable(bp) && GeodeFree(bp) && time > 0
    requires UpperBounds(bp, inv, time).materials.geode == inv.materials.geode + time * inv.robots.geode
    ensures MaxGeodes(bp, time, inv, 0) == Best(inv.materials.geode + time * inv.robots.geode, [])
  {
    LowerBoundGeodes(bp, inv, time);
    LowerBoundBelowUpper(bp, inv, time);
  }

  // ---------------------------------------------------------------------
  // The blueprint of the tests, with three geode robots from the start

  const TestBlueprint := Blueprint(map[Ore := 2], map[Ore := 3], map[Ore := 3, Clay := 8], map[Ore := 3, Obsidian := 12])

  lemma TestBlueprintFacts()
    ensures Usable(TestBlueprint) && GeodeFree(TestBlueprint)
  {
    var cs := Costs(TestBlueprint);
    assert Ore in cs[0] && Clay in cs[2] && Obsidian in cs[3];
    assert forall i :: 0 <= i < |cs| ==> Geode !in cs[i];
  }

  /** `Inventory::new()` with three geode robots inserted. */
  const GeodeStart := Inventory(Amounts(0, 0, 0, 0), Amounts(1, 0, 0, 3))

  lemma GeodeStartIsNew()
    ensures GeodeStart == NewInventory().(robots := NewInventory().robots.(geode := 3))
  {
  }

  /** The optimistic minutes from `GeodeStart`: ore robots from the third
      minute on, clay robots from the fourth, never an obsidian robot. */
  const Optimists: seq<Inventory> := [
    GeodeStart,
    Inventory(Amounts(1, 0, 0, 3), Amounts(1, 0, 0, 3)),
    Inventory(Amounts(2, 0, 0, 6), Amounts(1, 0, 0, 3)),
    Inventory(Amounts(3, 0, 0, 9), Amounts(2, 0, 0, 3)),
    Inventory(Amounts(5, 0, 0, 12), Amounts(3, 1, 0, 3)),
    Inventory(Amounts(8, 1, 0, 15), Amounts(4, 2, 0, 3)),
    Inventory(Amounts(12, 3, 0, 18), Amounts(5, 3, 0, 3))
  ]

  lemma OptimistSteps(i: nat)
    requires i < 6
    ensures Optimist(TestBlueprint, Optimists[i]) == Optimists[i + 1]
  {
  }

  /** Along a run of optimistic minutes, `upper_bounds` of `n` minutes
      lands `n` entries further on. */
  lemma {:induction false} UpperBoundsAlong(bp: Blueprint, run: seq<Inventory>, i: nat, n: nat)
    requires i + n < |run|
    requires forall j :: 0 <= j < |run| - 1 ==> Optimist(bp, run[j]) == run[j + 1]
    ensures UpperBounds(bp, run[i], n) == run[i + n]
    decreases n
  {
    if n > 0 {
      UpperBoundsAlong(bp, run, i + 1, n - 1);
    }
  }

  lemma TestUpperBounds(n: nat)
    requires n <= 6
    ensures UpperBounds(TestBlueprint, GeodeStart, n).materials.geode == GeodeStart.materials.geode + n * GeodeStart.robots.geode
  {
    forall j | 0 <= j < |Optimists| - 1
      ensures Optimist(TestBlueprint, Optimists[j]) == Optimists[j + 1]
    {
      OptimistSteps(j);
    }
    UpperBoundsAlong(TestBlueprint, Optimists, 0, n);
  }

  /** With three geode robots, one, two, three and six minutes yield 3, 6,
      9 and 18 geodes, with nothing to buy. */
  lemma GeodeRobotsExample(n: nat)
    requires n == 1 || n == 2 || n == 3 || n == 6
    ensures MaxGeodes(TestBlueprint, n, GeodeStart, 0) == Best(3 * n, [])
  {
    TestBlueprintFacts();
    TestUpperBounds(n);
    PrunedAtOnce(TestBlueprint, n, GeodeStart);
  }
}
