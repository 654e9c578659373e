/** Day 19, "Not Enough Minerals": robots that each gather one unit of
    their material per minute, and blueprints giving the price of each
    robot. This module holds the inventory, one minute of a purchase
    order, and the two bounds the search prunes with. */
module Robots {
  import opened Wrappers

  datatype Material = Ore | Clay | Obsidian | Geode

  /** `Material::iter()`: the declaration order. */
  const Materials: seq<Material> := [Ore, Clay, Obsidian, Geode]

  /** One count per material: the `HashMap<Material, usize>`s of an
      inventory, which always hold all four keys. */
  datatype Amounts = Amounts(ore: nat, clay: nat, obsidian: nat, geode: nat)

  function Get(a: Amounts, m: Material): nat
  {
    match m
    case Ore => a.ore
    case Clay => a.clay
    case Obsidian => a.obsidian
    case Geode => a.geode
  }

  /** One more of material `m`. */
  function Inc(a: Amounts, m: Material): Amounts
  {
    match m
    case Ore => a.(ore := a.ore + 1)
    case Clay => a.(clay := a.clay + 1)
    case Obsidian => a.(obsidian := a.obsidian + 1)
    case Geode => a.(geode := a.geode + 1)
  }

  /** Componentwise `a <= b`. */
  predicate AtMost(a: Amounts, b: Amounts)
  {
    a.ore <= b.ore && a.clay <= b.clay && a.obsidian <= b.obsidian && a.geode <= b.geode
  }

  lemma AtMostGet(a: Amounts, b: Amounts)
    ensures AtMost(a, b) <==> forall k :: Get(a, k) <= Get(b, k)
  {
    if forall k :: Get(a, k) <= Get(b, k) {
      assert Get(a, Ore) <= Get(b, Ore) && Get(a, Clay) <= Get(b, Clay);
      assert Get(a, Obsidian) <= Get(b, Obsidian) && Get(a, Geode) <= Get(b, Geode);
    }
  }

  /** A robot's price: `Cost(HashMap<Material, usize>)`, which lists only
      the materials it needs. */
  type Cost = map<Material, nat>

  function Price(c: Cost, m: Material): nat
  {
    if m in c then c[m] else 0
  }

  /** The price of each of the four robots. A `Blueprint` missing one
      makes the source's `costs.get(..).unwrap()` panic; here every
      blueprint has all four. */
  datatype Blueprint = Blueprint(ore: Cost, clay: Cost, obsidian: Cost, geode: Cost)

  function CostOf(bp: Blueprint, m: Material): Cost
  {
    match m
    case Ore => bp.ore
    case Clay => bp.clay
    case Obsidian => bp.obsidian
    case Geode => bp.geode
  }

  /** `Blueprint::max` over the given costs: the largest price in
      material `m` among those that list `m`, or `None` if none does. */
  function MaxPrice(costs: seq<Cost>, m: Material): (r: Option<nat>)
    ensures r.None? <==> forall i :: 0 <= i < |costs| ==> m !in costs[i]
    ensures r.Some? ==> forall i :: 0 <= i < |costs| && m in costs[i] ==> costs[i][m] <= r.value
    ensures r.Some? ==> exists i :: 0 <= i < |costs| && m in costs[i] && costs[i][m] == r.value
  {
    if |costs| == 0 then None
    else
      var rest := MaxPrice(costs[1..], m);
      assert forall i :: 1 <= i < |costs| ==> costs[i] == costs[1..][i - 1];
      if m !in costs[0] then
        rest
      else if rest.None? || rest.value < costs[0][m] then
        Some(costs[0][m])
      else
        rest
  }

  function Costs(bp: Blueprint): seq<Cost>
  {
    [bp.ore, bp.clay, bp.obsidian, bp.geode]
  }

  /** `Blueprint::max`. */
  function MaxCost(bp: Blueprint, m: Material): Option<nat>
  {
    MaxPrice(Costs(bp), m)
  }

  datatype Inventory = Inventory(materials: Amounts, robots: Amounts)

  /** `Inventory::new`. */
  function NewInventory(): (inv: Inventory)
    ensures forall m :: Get(inv.materials, m) == 0
    ensures Get(inv.robots, Ore) == 1
    ensures forall m :: m != Ore ==> Get(inv.robots, m) == 0
  {
    Inventory(Amounts(0, 0, 0, 0), Amounts(1, 0, 0, 0))
  }

  /** `can_afford`: the stock covers the price in every material. */
  predicate CanAfford(inv: Inventory, c: Cost)
  {
    var a := inv.materials;
    Price(c, Ore) <= a.ore && Price(c, Clay) <= a.clay && Price(c, Obsidian) <= a.obsidian && Price(c, Geode) <= a.geode
  }

  /** The loop of `can_afford` checks only the materials the cost lists,
      and that comes to the same. */
  lemma CanAffordEntries(inv: Inventory, c: Cost)
    ensures CanAfford(inv, c) <==> forall m :: m in c ==> c[m] <= Get(inv.materials, m)
  {
    if forall m :: m in c ==> c[m] <= Get(inv.materials, m) {
      assert Price(c, Ore) <= Get(inv.materials, Ore);
      assert Price(c, Clay) <= Get(inv.materials, Clay);
      assert Price(c, Obsidian) <= Get(inv.materials, Obsidian);
      assert Price(c, Geode) <= Get(inv.materials, Geode);
    }
  }

  /** `buy`: take the price out of the stock. The source panics when the
      cost cannot be afforded. */
  function Buy(inv: Inventory, c: Cost): Inventory
    requires CanAfford(inv, c)
  {
    var a := inv.materials;
    Inventory(Amounts(a.ore - Price(c, Ore), a.clay - Price(c, Clay),
                      a.obsidian - Price(c, Obsidian), a.geode - Price(c, Geode)),
              inv.robots)
  }

  /** Handing the price back: the inverse of `Buy`. */
  function Refund(inv: Inventory, c: Cost): (r: Inventory)
  {
    var a := inv.materials;
    Inventory(Amounts(a.ore + Price(c, Ore), a.clay + Price(c, Clay),
                      a.obsidian + Price(c, Obsidian), a.geode + Price(c, Geode)),
              inv.robots)
  }

  /** Buying takes each listed price out of the stock and touches no
      robot; handing the price back restores the inventory. */
  lemma BuyRefund(inv: Inventory, c: Cost)
    requires CanAfford(inv, c)
    ensures Buy(inv, c).robots == inv.robots
    ensures forall m :: Get(Buy(inv, c).materials, m) + Price(c, m) == Get(inv.materials, m)
    ensures Refund(Buy(inv, c), c) == inv
  {
  }

  /** `gather`: each robot brings one unit of its material. */
  function Gather(inv: Inventory): Inventory
  {
    var a, b := inv.materials, inv.robots;
    Inventory(Amounts(a.ore + b.ore, a.clay + b.clay, a.obsidian + b.obsidian, a.geode + b.geode), b)
  }

  /** `build`: one more robot of material `m`. */
  function Build(inv: Inventory, m: Material): Inventory
  {
    inv.(robots := Inc(inv.robots, m))
  }

  /** Gathering adds each robot count to its material and changes no
      robot; building adds one robot of its kind and changes nothing
      else. */
  lemma GatherBuild(inv: Inventory, m: Material)
    ensures Gather(inv).robots == inv.robots
    ensures forall k :: Get(Gather(inv).materials, k) == Get(inv.materials, k) + Get(inv.robots, k)
    ensures Build(inv, m).materials == inv.materials
    ensures forall k :: Get(Build(inv, m).robots, k) == Get(inv.robots, k) + (if k == m then 1 else 0)
  {
  }

  /** The inventory after one minute of `tick`, and whether it built. */
  datatype Ticked = Ticked(inv: Inventory, built: bool)

  /** `PurchaseOrder::tick` with `m` the robot the order asks for next:
      pay if the stock allows, gather, then build. */
  function Tick(bp: Blueprint, inv: Inventory, m: Material): (r: Ticked)
  {
    var c := CostOf(bp, m);
    if CanAfford(inv, c) then Ticked(Build(Gather(Buy(inv, c)), m), true)
    else Ticked(Gather(inv), false)
  }

  /** A tick builds exactly when the price is in stock; the material it
      gathers is what the robots owned before the tick brought, so the
      new robot produces nothing in the minute it is built. */
  lemma TickEffect(bp: Blueprint, inv: Inventory, m: Material)
    ensures Tick(bp, inv, m).built <==> CanAfford(inv, CostOf(bp, m))
    ensures var r := Tick(bp, inv, m);
      forall k :: Get(r.inv.materials, k) + (if r.built then Price(CostOf(bp, m), k) else 0) ==
        Get(inv.materials, k) + Get(inv.robots, k)
    ensures var r := Tick(bp, inv, m);
      forall k :: Get(r.inv.robots, k) == Get(inv.robots, k) + (if r.built && k == m then 1 else 0)
  {
  }

  /** The inventory after `j` minutes in which nothing was built. */
  function Idle(inv: Inventory, j: nat): Inventory
  {
    if j == 0 then inv else Gather(Idle(inv, j - 1))
  }

  /** What `ticks_till_build` returns, with the inventory it leaves. */
  datatype Wait = Wait(ticks: Option<nat>, inv: Inventory)

  /** `PurchaseOrder::ticks_till_build` for a cycle of the single robot
      `m`, as `max_geodes_and_path` uses it: tick until a robot is built
      or the minutes run out. */
  function TicksTillBuild(bp: Blueprint, time: nat, inv: Inventory, m: Material): (r: Wait)
    ensures time == 0 ==> r == Wait(None, inv)
    ensures r.ticks.Some? ==> 1 <= r.ticks.value < time
  {
    if time == 0 then Wait(None, inv) else WaitFrom(bp, time, inv, m, 0)
  }

  /** The loop of `ticks_till_build` after `ret` minutes without a build. */
  function WaitFrom(bp: Blueprint, time: nat, inv: Inventory, m: Material, ret: nat): (r: Wait)
    requires ret < time
    ensures r.ticks.Some? ==> ret < r.ticks.value < time
    decreases time - ret
  {
    var t := Tick(bp, inv, m);
    if ret + 1 >= time then Wait(None, t.inv)
    else if t.built then Wait(Some(ret + 1), t.inv)
    else WaitFrom(bp, time, t.inv, m, ret + 1)
  }

  /** The price `c` is not in stock after any of the first `n` idle minutes. */
  predicate Unaffordable(inv: Inventory, c: Cost, n: nat)
  {
    forall j :: 0 <= j < n ==> !CanAfford(Idle(inv, j), c)
  }

  /** What a wait started `ret` minutes in, with `time` minutes in all,
      must satisfy: `Some(ret + k)` exactly when the price is first in
      stock after `k - 1` idle minutes, leaving the inventory of that
      building tick; `None` when it ticked through the remaining minutes
      without the price ever being in stock before the last one. */
  predicate WaitedAs(bp: Blueprint, time: nat, inv: Inventory, m: Material, ret: nat, r: Wait)
  {
    var c := CostOf(bp, m);
    (r.ticks.Some? ==>
       var k := r.ticks.value - ret;
       k >= 1 && Unaffordable(inv, c, k - 1) && CanAfford(Idle(inv, k - 1), c) && r.inv == Tick(bp, Idle(inv, k - 1), m).inv) &&
    (r.ticks.None? ==>
       var k := time - ret;
       k >= 1 && Unaffordable(inv, c, k - 1) && r.inv == Tick(bp, Idle(inv, k - 1), m).inv)
  }

  /** `ticks_till_build` is `Some(k)` exactly when the price is first in
      stock after `k - 1` idle minutes with `k < time`; it leaves the
      inventory of that building tick. Otherwise, for `time > 0`, it has
      ticked all `time` minutes. */
  lemma {:induction false} WaitFromExact(bp: Blueprint, time: nat, inv: Inventory, m: Material, ret: nat)
    requires ret < time
    ensures WaitedAs(bp, time, inv, m, ret, WaitFrom(bp, time, inv, m, ret))
    decreases time - ret
  {
    var t := Tick(bp, inv, m);
    if ret + 1 >= time || t.built {
      WaitEnds(bp, time, inv, m, ret);
    } else {
      WaitFromExact(bp, time, Gather(inv), m, ret + 1);
      WaitContinues(bp, time, inv, m, ret);
    }
  }

  /** The tick that ends a wait: it built, or the minutes ran out. */
  lemma WaitEnds(bp: Blueprint, time: nat, inv: Inventory, m: Material, ret: nat)
    requires ret < time && (ret + 1 >= time || Tick(bp, inv, m).built)
    ensures WaitedAs(bp, time, inv, m, ret, WaitFrom(bp, time, inv, m, ret))
  {
    assert Idle(inv, 0) == inv;
    assert Unaffordable(inv, CostOf(bp, m), 0);
  }

  /** A tick that did not build, in front of the rest of the wait. */
  lemma WaitContinues(bp: Blueprint, time: nat, inv: Inventory, m: Material, ret: nat)
    requires ret + 1 < time && !Tick(bp, inv, m).built
    requires WaitedAs(bp, time, Gather(inv), m, ret + 1, WaitFrom(bp, time, Gather(inv), m, ret + 1))
    ensures WaitedAs(bp, time, inv, m, ret, WaitFrom(bp, time, inv, m, ret))
  {
    var c := CostOf(bp, m);
    var g := Gather(inv);
    assert !CanAfford(inv, c) && Tick(bp, inv, m).inv == g;
    var r := WaitFrom(bp, time, g, m, ret + 1);
    assert WaitFrom(bp, time, inv, m, ret) == r;
    var k := if r.ticks.Some? then r.ticks.value - ret else time - ret;
    WaitShift(inv, c, k - 2);
  }

  /** One idle minute in front of a wait: the price was not in stock at
      first, so the wait grows by one minute. */
  lemma WaitShift(inv: Inventory, c: Cost, n: nat)
    requires !CanAfford(inv, c) && Unaffordable(Gather(inv), c, n)
    ensures Unaffordable(inv, c, n + 1)
    ensures Idle(inv, n + 1) == Idle(Gather(inv), n)
  {
    IdleShift(inv, n + 1);
    forall j | 0 <= j < n + 1
      ensures !CanAfford(Idle(inv, j), c)
    {
      if j > 0 {
        IdleShift(inv, j);
      }
    }
  }

  /** Idling `j` minutes is gathering once and then idling `j - 1`. */
  lemma {:induction false} IdleShift(inv: Inventory, j: nat)
    requires j >= 1
    ensures Idle(inv, j) == Idle(Gather(inv), j - 1)
  {
    if j > 1 {
      IdleShift(inv, j - 1);
    }
  }

  lemma TicksTillBuildExact(bp: Blueprint, time: nat, inv: Inventory, m: Material)
    requires time > 0
    ensures var r := TicksTillBuild(bp, time, inv, m);
      var c := CostOf(bp, m);
      r.ticks.Some? ==>
        var k := r.ticks.value;
        Unaffordable(inv, c, k - 1) && CanAfford(Idle(inv, k - 1), c) && r.inv == Tick(bp, Idle(inv, k - 1), m).inv
    ensures var r := TicksTillBuild(bp, time, inv, m);
      var c := CostOf(bp, m);
      r.ticks.None? ==>
        Unaffordable(inv, c, time - 1) && r.inv == Tick(bp, Idle(inv, time - 1), m).inv
  {
    WaitFromExact(bp, time, inv, m, 0);
  }

  // ---------------------------------------------------------------------
  // The optimistic bound

  /** One minute of `upper_bounds`: gather, and add one robot of every
      kind whose price was in stock at the start of the minute, paying
      nothing. */
  function Optimist(bp: Blueprint, inv: Inventory): (r: Inventory)
  {
    var b := inv.robots;
    Inventory(Gather(inv).materials,
              Amounts(b.ore + Bit(CanAfford(inv, bp.ore)), b.clay + Bit(CanAfford(inv, bp.clay)),
                      b.obsidian + Bit(CanAfford(inv, bp.obsidian)), b.geode + Bit(CanAfford(inv, bp.geode))))
  }

  function Bit(b: bool): nat
  {
    if b then 1 else 0
  }

  /** `upper_bounds`: `time` optimistic minutes. */
  function UpperBounds(bp: Blueprint, inv: Inventory, time: nat): (r: Inventory)
    ensures time == 0 ==> r == inv
    decreases time
  {
    if time == 0 then inv else UpperBounds(bp, Optimist(bp, inv), time - 1)
  }

  /** Inventory `a` is no richer than `b` in any material or robot. */
  predicate Dominated(a: Inventory, b: Inventory)
  {
    AtMost(a.materials, b.materials) && AtMost(a.robots, b.robots)
  }

  /** A richer inventory affords every robot a poorer one does. */
  lemma AffordMonotone(a: Inventory, b: Inventory, c: Cost)
    requires AtMost(a.materials, b.materials) && CanAfford(a, c)
    ensures CanAfford(b, c)
  {
  }

  /** Every real minute, whatever robot it tries, is dominated by the
      optimistic minute from any richer inventory. */
  lemma TickDominated(bp: Blueprint, a: Inventory, b: Inventory, m: Material)
    requires Dominated(a, b)
    ensures Dominated(Tick(bp, a, m).inv, Optimist(bp, b))
  {
    if CanAfford(a, CostOf(bp, m)) {
      AffordMonotone(a, b, CostOf(bp, m));
    }
  }

  /** The optimistic minute preserves domination. */
  lemma OptimistMonotone(bp: Blueprint, a: Inventory, b: Inventory)
    requires Dominated(a, b)
    ensures Dominated(Optimist(bp, a), Optimist(bp, b))
  {
    assert CanAfford(a, bp.ore) ==> CanAfford(b, bp.ore);
    assert CanAfford(a, bp.clay) ==> CanAfford(b, bp.clay);
    assert CanAfford(a, bp.obsidian) ==> CanAfford(b, bp.obsidian);
    assert CanAfford(a, bp.geode) ==> CanAfford(b, bp.geode);
  }

  lemma {:induction false} UpperBoundsMonotone(bp: Blueprint, a: Inventory, b: Inventory, time: nat)
    requires Dominated(a, b)
    ensures Dominated(UpperBounds(bp, a, time), UpperBounds(bp, b, time))
    decreases time
  {
    if time > 0 {
      OptimistMonotone(bp, a, b);
      UpperBoundsMonotone(bp, Optimist(bp, a), Optimist(bp, b), time - 1);
    }
  }

  /** A play: the inventory after trying robot `ms[i]` in minute `i`. */
  function Play(bp: Blueprint, inv: Inventory, ms: seq<Material>): Inventory
    decreases |ms|
  {
    if |ms| == 0 then inv else Play(bp, Tick(bp, inv, ms[0]).inv, ms[1..])
  }

  /** The bound is sound: no play of `time` minutes ends richer than
      `upper_bounds`, in geodes or in anything else. */
  lemma {:induction false} UpperBoundsSound(bp: Blueprint, inv: Inventory, ms: seq<Material>)
    ensures Dominated(Play(bp, inv, ms), UpperBounds(bp, inv, |ms|))
    decreases |ms|
  {
    if |ms| > 0 {
      var a := Tick(bp, inv, ms[0]).inv;
      assert Dominated(inv, inv);
      TickDominated(bp, inv, inv, ms[0]);
      UpperBoundsSound(bp, a, ms[1..]);
      UpperBoundsMonotone(bp, a, Optimist(bp, inv), |ms| - 1);
    }
  }

  /** Robots are never lost, so the geode robots alone promise their
      count per minute. */
  lemma {:induction false} UpperBoundsGeodes(bp: Blueprint, inv: Inventory, time: nat)
    ensures Get(UpperBounds(bp, inv, time).materials, Geode) >=
      Get(inv.materials, Geode) + time * Get(inv.robots, Geode)
    ensures AtMost(inv.robots, UpperBounds(bp, inv, time).robots)
    decreases time
  {
    if time > 0 {
      var o := Optimist(bp, inv);
      UpperBoundsGeodes(bp, o, time - 1);
      var t, g, r, r' := time - 1, inv.materials.geode, inv.robots.geode, o.robots.geode;
      assert o.materials.geode == g + r;
      MulMonotone(t, r, r');
      MulSucc(t, r);
    }
  }

  lemma MulMonotone(t: nat, a: nat, b: nat)
    requires a <= b
    ensures t * a <= t * b
  {
  }

  lemma MulSucc(t: nat, a: nat)
    ensures (t + 1) * a == t * a + a
  {
  }
}
