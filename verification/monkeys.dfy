/** Day 11, "Monkey in the Middle": monkeys take turns inspecting the items
    they hold, raising each item's worry level and throwing it to one of
    two other monkeys depending on a divisibility test. The model follows
    the uncapped rounds, where worry levels are kept small by reducing them
    modulo the product of all the monkeys' divisors. */
module MonkeyMiddle {
  import opened Wrappers
  import opened Arith
  import Sorting

  /** The four forms of `Operation: new = old <op> <b>` the parser builds. */
  datatype Operation = AddOld | MulOld | AddConst(n: nat) | MulConst(n: nat)

  function Apply(op: Operation, x: nat): nat
  {
    match op
    case AddOld => x + x
    case MulOld => x * x
    case AddConst(n) => x + n
    case MulConst(n) => x * n
  }

  datatype Monkey = Monkey(items: seq<nat>, operation: Operation, divisor: nat,
                           trueMonkey: nat, falseMonkey: nat, inspections: nat)

  /** The rules of a monkey (everything but its items and its count) are
      the same in both. */
  predicate SameRules(a: Monkey, b: Monkey)
  {
    a.operation == b.operation && a.divisor == b.divisor
    && a.trueMonkey == b.trueMonkey && a.falseMonkey == b.falseMonkey
  }

  /** `divisors.iter().product()`. */
  function Product(ds: seq<nat>): nat
  {
    if |ds| == 0 then 1 else ds[0] * Product(ds[1..])
  }

  /** The worry level an item has once `mk` inspected it: the operation,
      then reduction modulo `p`. */
  function Worry(mk: Monkey, p: nat, item: nat): (w: nat)
    requires p > 0
    ensures w < p
  {
    Apply(mk.operation, item) % p
  }

  /** The monkey `mk` throws a worry level `w` to. */
  function Target(mk: Monkey, w: nat): nat
    requires mk.divisor > 0
  {
    if w % mk.divisor == 0 then mk.trueMonkey else mk.falseMonkey
  }

  /** A turn over `items` can go through: each item's target exists, and
      neither remainder divides by zero. An empty turn always can. */
  predicate CanThrow(mk: Monkey, p: nat, items: seq<nat>, n: nat)
  {
    |items| == 0
    || (p > 0 && mk.divisor > 0
        && forall k :: 0 <= k < |items| ==> Target(mk, Worry(mk, p, items[k])) < n)
  }

  /** The reference for where items go: the worry levels, in order, of the
      items among `items` that `mk` throws to monkey `m`. */
  function ThrownTo(mk: Monkey, p: nat, items: seq<nat>, m: nat): (r: seq<nat>)
    requires p > 0 && mk.divisor > 0
    ensures |r| <= |items|
    ensures forall k :: 0 <= k < |r| ==> r[k] < p
  {
    if |items| == 0 then []
    else
      var last := items[|items| - 1];
      var w := Worry(mk, p, last);
      ThrownTo(mk, p, items[..|items| - 1], m) + (if Target(mk, w) == m then [w] else [])
  }

  /** The items held by all the monkeys together. */
  function TotalItems(ms: seq<Monkey>): nat
  {
    if |ms| == 0 then 0 else TotalItems(ms[..|ms| - 1]) + |ms[|ms| - 1].items|
  }

  /** Replacing one monkey changes the total by the change in its items. */
  lemma {:induction false} TotalUpdate(ms: seq<Monkey>, m: nat, x: Monkey)
    requires m < |ms|
    ensures TotalItems(ms[m := x]) + |ms[m].items| == TotalItems(ms) + |x.items|
    decreases |ms|
  {
    var n := |ms| - 1;
    if m < n {
      assert ms[m := x][..n] == ms[..n][m := x];
      TotalUpdate(ms[..n], m, x);
    } else {
      assert ms[m := x][..n] == ms[..n];
    }
  }

  /** The loop body of `monkey_turn`: `mk` (monkey `i`) inspects one item
      and throws the new worry level onto the end of the target's list.
      `None` where the source panics: a zero divisor or product, or a
      target that is not a monkey. */
  function ThrowOne(ms: seq<Monkey>, i: nat, mk: Monkey, p: nat, item: nat): (r: Option<seq<Monkey>>)
    requires i < |ms|
    ensures r.Some? <==> p > 0 && mk.divisor > 0 && Target(mk, Worry(mk, p, item)) < |ms|
  {
    if p == 0 || mk.divisor == 0 then None
    else
      var w := Worry(mk, p, item);
      var m := Target(mk, w);
      if m >= |ms| then None
      else
        var ms1 := ms[m := ms[m].(items := ms[m].items + [w])];
        Some(ms1[i := ms1[i].(inspections := ms1[i].inspections + 1)])
  }

  /** The loop of `monkey_turn` over the items `mk` held at the start. */
  function ThrowAll(ms: seq<Monkey>, i: nat, mk: Monkey, p: nat, items: seq<nat>): (r: Option<seq<Monkey>>)
    requires i < |ms|
    ensures r.Some? <==> CanThrow(mk, p, items, |ms|)
    ensures r.Some? ==> |r.value| == |ms|
    decreases |items|
  {
    if |items| == 0 then Some(ms)
    else
      var n := |items| - 1;
      var before :- ThrowAll(ms, i, mk, p, items[..n]);
      ThrowOne(before, i, mk, p, items[n])
  }

  /** One throw: every monkey keeps its rules, only the target receives
      the new worry level, only the thrower's count grows, and the item
      lands somewhere. */
  lemma ThrowOneEffect(ms: seq<Monkey>, i: nat, mk: Monkey, p: nat, item: nat)
    requires i < |ms| && ThrowOne(ms, i, mk, p, item).Some?
    ensures p > 0 && mk.divisor > 0
    ensures var r := ThrowOne(ms, i, mk, p, item).value;
      var w := Worry(mk, p, item);
      |r| == |ms|
      && (forall m :: 0 <= m < |ms| ==> SameRules(r[m], ms[m]))
      && (forall m :: 0 <= m < |ms| ==> r[m].items == ms[m].items + (if Target(mk, w) == m then [w] else []))
      && r[i].inspections == ms[i].inspections + 1
      && (forall m :: 0 <= m < |ms| && m != i ==> r[m].inspections == ms[m].inspections)
      && TotalItems(r) == TotalItems(ms) + 1
  {
    var w := Worry(mk, p, item);
    var t := Target(mk, w);
    var ms1 := ms[t := ms[t].(items := ms[t].items + [w])];
    TotalUpdate(ms, t, ms[t].(items := ms[t].items + [w]));
    TotalUpdate(ms1, i, ms1[i].(inspections := ms1[i].inspections + 1));
  }

  /** What a run of throws does: every monkey keeps its rules and receives
      exactly the items thrown to it, in order; only the thrower's count
      grows, by one per item; and every item lands somewhere. */
  lemma {:induction false} ThrowAllEffect(ms: seq<Monkey>, i: nat, mk: Monkey, p: nat, items: seq<nat>)
    requires i < |ms| && ThrowAll(ms, i, mk, p, items).Some? && |items| > 0
    ensures p > 0 && mk.divisor > 0
    ensures var r := ThrowAll(ms, i, mk, p, items).value;
      (forall m :: 0 <= m < |ms| ==> SameRules(r[m], ms[m]))
      && (forall m :: 0 <= m < |ms| ==> r[m].items == ms[m].items + ThrownTo(mk, p, items, m))
      && r[i].inspections == ms[i].inspections + |items|
      && (forall m :: 0 <= m < |ms| && m != i ==> r[m].inspections == ms[m].inspections)
      && TotalItems(r) == TotalItems(ms) + |items|
    decreases |items|
  {
    var n := |items| - 1;
    var before := ThrowAll(ms, i, mk, p, items[..n]).value;
    var r := ThrowAll(ms, i, mk, p, items).value;
    assert ThrowOne(before, i, mk, p, items[n]) == Some(r);
    ThrowOneEffect(before, i, mk, p, items[n]);
    if n > 0 {
      ThrowAllEffect(ms, i, mk, p, items[..n]);
    } else {
      assert before == ms;
      assert forall m :: 0 <= m < |ms| ==> ThrownTo(mk, p, items[..n], m) == [];
    }
    ItemsCompose(ms, before, r, mk, p, items);
  }

  /** The items thrown so far, then the last throw, are all the items
      thrown. */
  lemma ItemsCompose(ms: seq<Monkey>, before: seq<Monkey>, r: seq<Monkey>, mk: Monkey, p: nat, items: seq<nat>)
    requires p > 0 && mk.divisor > 0 && |items| > 0 && |before| == |ms| == |r|
    requires forall m :: 0 <= m < |ms| ==>
      before[m].items == ms[m].items + ThrownTo(mk, p, items[..|items| - 1], m)
    requires var w := Worry(mk, p, items[|items| - 1]);
      forall m :: 0 <= m < |ms| ==> r[m].items == before[m].items + (if Target(mk, w) == m then [w] else [])
    ensures forall m :: 0 <= m < |ms| ==> r[m].items == ms[m].items + ThrownTo(mk, p, items, m)
  {
    var n := |items| - 1;
    var w := Worry(mk, p, items[n]);
    forall m | 0 <= m < |ms|
      ensures r[m].items == ms[m].items + ThrownTo(mk, p, items, m)
    {
      var extra := if Target(mk, w) == m then [w] else [];
      assert ThrownTo(mk, p, items, m) == ThrownTo(mk, p, items[..n], m) + extra;
      assert r[m].items == (ms[m].items + ThrownTo(mk, p, items[..n], m)) + extra;
    }
  }

  /** `monkey_turn(i, ..)` on the uncapped path: throw every item monkey
      `i` held at the start, then empty its list. Items it throws to
      itself are thrown away with the rest. */
  function MonkeyTurn(ms: seq<Monkey>, i: nat, p: nat): (r: Option<seq<Monkey>>)
    requires i < |ms|
    ensures r.Some? <==> CanThrow(ms[i], p, ms[i].items, |ms|)
    ensures r.Some? ==> |r.value| == |ms| && r.value[i].items == []
  {
    var after :- ThrowAll(ms, i, ms[i], p, ms[i].items);
    Some(after[i := after[i].(items := [])])
  }

  /** After the turn, monkey `i` has inspected each item it held once more
      and holds none; every other monkey received the thrown items in
      order; and nobody's rules changed. */
  lemma TurnEffect(ms: seq<Monkey>, i: nat, p: nat)
    requires i < |ms| && MonkeyTurn(ms, i, p).Some? && |ms[i].items| > 0
    ensures p > 0 && ms[i].divisor > 0
    ensures var r := MonkeyTurn(ms, i, p).value;
      r[i].inspections == ms[i].inspections + |ms[i].items|
      && (forall m :: 0 <= m < |ms| ==> SameRules(r[m], ms[m]))
      && (forall m :: 0 <= m < |ms| && m != i ==>
            r[m].items == ms[m].items + ThrownTo(ms[i], p, ms[i].items, m)
            && r[m].inspections == ms[m].inspections)
  {
    ThrowAllEffect(ms, i, ms[i], p, ms[i].items);
  }

  /** Nothing thrown goes to monkey `m`. */
  lemma {:induction false} NoneThrownTo(mk: Monkey, p: nat, items: seq<nat>, m: nat)
    requires p > 0 && mk.divisor > 0
    requires forall k :: 0 <= k < |items| ==> Target(mk, Worry(mk, p, items[k])) != m
    ensures ThrownTo(mk, p, items, m) == []
    decreases |items|
  {
    if |items| > 0 {
      NoneThrownTo(mk, p, items[..|items| - 1], m);
    }
  }

  /** When a monkey never throws to itself, a turn keeps the number of
      items in play. */
  lemma TurnKeepsItems(ms: seq<Monkey>, i: nat, p: nat)
    requires i < |ms| && MonkeyTurn(ms, i, p).Some?
    requires ms[i].trueMonkey != i && ms[i].falseMonkey != i
    ensures TotalItems(MonkeyTurn(ms, i, p).value) == TotalItems(ms)
  {
    var items := ms[i].items;
    var after := ThrowAll(ms, i, ms[i], p, items).value;
    var r := MonkeyTurn(ms, i, p).value;
    assert r == after[i := after[i].(items := [])];
    TotalUpdate(after, i, after[i].(items := []));
    if |items| > 0 {
      ThrowAllEffect(ms, i, ms[i], p, items);
      NoneThrownTo(ms[i], p, items, i);
      assert after[i].items == items + [];
    } else {
      assert after == ms;
    }
  }

  /** Reducing modulo a multiple of `d` keeps the remainder modulo `d`, so
      every monkey's divisibility test sees the same answer as it would on
      the unreduced worry level. */
  lemma ReduceKeepsRemainder(x: nat, p: nat, d: nat)
    requires p > 0 && Divides(d, p)
    ensures x % p % d == x % d
  {
    var k := p / d;
    DividesWitness(d, p);
    var r := x % p;
    assert x == (x / p) * p + r;
    assert x == ((x / p) * k + r / d) * d + r % d;
    DivModUnique(x, d, (x / p) * k + r / d, r % d);
  }

  /** Every divisor divides the product of all of them. */
  lemma {:induction false} DividesProduct(ds: seq<nat>, j: nat)
    requires j < |ds| && forall k :: 0 <= k < |ds| ==> ds[k] > 0
    ensures Divides(ds[j], Product(ds))
    decreases |ds|
  {
    if j == 0 {
      MultipleDivides(ds[0], Product(ds[1..]));
    } else {
      DividesProduct(ds[1..], j - 1);
      DividesSelf(ds[j]);
      DividesSum(ds[j], Product(ds[1..]), 0, ds[0], 0);
    }
  }

  lemma {:induction false} ProductPositive(ds: seq<nat>)
    requires forall k :: 0 <= k < |ds| ==> ds[k] > 0
    ensures Product(ds) > 0
  {
    if |ds| > 0 {
      ProductPositive(ds[1..]);
    }
  }

  /** The reduction is harmless: with the product of every monkey's
      divisor, each test gives the answer it gives without reduction. */
  lemma ReductionHarmless(ds: seq<nat>, j: nat, x: nat)
    requires j < |ds| && forall k :: 0 <= k < |ds| ==> ds[k] > 0
    ensures Product(ds) > 0
    ensures x % Product(ds) % ds[j] == x % ds[j]
  {
    DividesProduct(ds, j);
    ProductPositive(ds);
    ReduceKeepsRemainder(x, Product(ds), ds[j]);
  }

  /** Monkeys `i` onwards take their turns, in order. */
  function TurnsFrom(ms: seq<Monkey>, p: nat, i: nat): (r: Option<seq<Monkey>>)
    ensures r.Some? ==> |r.value| == |ms|
    decreases |ms| - i
  {
    if i >= |ms| then Some(ms)
    else
      var next :- MonkeyTurn(ms, i, p);
      TurnsFrom(next, p, i + 1)
  }

  /** `rounds` rounds of every monkey's turn. */
  function Rounds(ms: seq<Monkey>, p: nat, rounds: nat): (r: Option<seq<Monkey>>)
    ensures r.Some? ==> |r.value| == |ms|
    decreases rounds
  {
    if rounds == 0 then Some(ms)
    else
      var next :- TurnsFrom(ms, p, 0);
      Rounds(next, p, rounds - 1)
  }

  function Inspections(ms: seq<Monkey>): (r: seq<int>)
    ensures |r| == |ms| && forall k :: 0 <= k < |ms| ==> r[k] == ms[k].inspections
  {
    seq(|ms|, k requires 0 <= k < |ms| => ms[k].inspections)
  }

  /** `monkey_business`: sort the inspection counts and multiply the two
      largest. `None` for fewer than two monkeys, where the source's
      indexing panics. */
  function MonkeyBusiness(ms: seq<Monkey>): (r: Option<int>)
    ensures r.Some? <==> |ms| >= 2
  {
    var s := Sorting.Sort(Inspections(ms));
    if |s| < 2 then None else Some(s[|s| - 1] * s[|s| - 2])
  }

  /** The answer is the largest product of two different monkeys' counts. */
  lemma MonkeyBusinessIsBest(ms: seq<Monkey>, a: nat, b: nat)
    requires a < |ms| && b < |ms| && a != b
    ensures MonkeyBusiness(ms).Some?
    ensures ms[a].inspections * ms[b].inspections <= MonkeyBusiness(ms).value
  {
    var t := Inspections(ms);
    var s := Sorting.Sort(t);
    var n := |s|;
    TwoMembers(t, a, b);
    TopTwo(s, t[a], t[b]);
    assert s[n - 2] in multiset(t);
    ProductBound(t[a], t[b], s[n - 1], s[n - 2]);
  }

  /** The answer is attained: it is the product of the counts of two
      different monkeys. */
  lemma MonkeyBusinessAttained(ms: seq<Monkey>) returns (a: nat, b: nat)
    requires |ms| >= 2
    ensures a < |ms| && b < |ms| && a != b
    ensures MonkeyBusiness(ms).Some? && ms[a].inspections * ms[b].inspections == MonkeyBusiness(ms).value
  {
    var t := Inspections(ms);
    var s := Sorting.Sort(t);
    var n := |s|;
    a, b := SamePair(s, t, n - 1, n - 2);
  }

  /** Two different positions of a permutation of `t` hold the values of
      two different positions of `t`. */
  lemma SamePair(s: seq<int>, t: seq<int>, i: nat, j: nat) returns (a: nat, b: nat)
    requires multiset(s) == multiset(t) && i < |s| && j < |s| && i != j
    ensures a < |t| && b < |t| && a != b && t[a] == s[i] && t[b] == s[j]
  {
    TwoMembers(s, i, j);
    var pair := multiset{s[i]} + multiset{s[j]};
    assert pair[s[i]] >= 1 && multiset(t)[s[j]] >= pair[s[j]];
    a := PositionOf(t, s[i]);
    if s[j] == s[i] {
      assert pair[s[j]] == 2;
    }
    b := OtherPosition(t, a, s[j]);
  }

  /** A member of the multiset of `t` sits at some position of `t`. */
  lemma PositionOf(t: seq<int>, v: int) returns (a: nat)
    requires v in multiset(t)
    ensures a < |t| && t[a] == v
  {
    assert v in t;
    a :| 0 <= a < |t| && t[a] == v;
  }

  /** A value occurring in `t` more often than at position `a` alone sits
      at some other position. */
  lemma OtherPosition(t: seq<int>, a: nat, v: int) returns (b: nat)
    requires a < |t| && multiset(t)[v] >= (if v == t[a] then 2 else 1)
    ensures b < |t| && b != a && t[b] == v
  {
    var rest := t[..a] + t[a + 1..];
    assert t == t[..a] + [t[a]] + t[a + 1..];
    assert multiset(t) == multiset(rest) + multiset{t[a]};
    assert v in multiset(rest);
    var k := PositionOf(rest, v);
    b := if k < a then k else k + 1;
  }

  /** Two different positions give two members of the multiset. */
  lemma TwoMembers(t: seq<int>, a: nat, b: nat)
    requires a < |t| && b < |t| && a != b
    ensures multiset{t[a]} + multiset{t[b]} <= multiset(t)
  {
    var rest := t[..a] + t[a + 1..];
    assert t == t[..a] + [t[a]] + t[a + 1..];
    assert multiset(t) == multiset(rest) + multiset{t[a]};
    if b < a { assert rest[b] == t[b]; } else { assert rest[b - 1] == t[b]; }
  }

  /** In an ascending list, any two members are at most the largest, and
      one of them is at most the second largest. */
  lemma TopTwo(s: seq<int>, x: int, y: int)
    requires Sorting.Ascending(s) && |s| >= 2 && multiset{x} + multiset{y} <= multiset(s)
    ensures x <= s[|s| - 1] && y <= s[|s| - 1]
    ensures x <= s[|s| - 2] || y <= s[|s| - 2]
  {
    var n := |s|;
    var low := s[..n - 1];
    assert s == low + [s[n - 1]];
    assert multiset(s) == multiset(low) + multiset{s[n - 1]};
    var pair := multiset{x} + multiset{y};
    assert pair[x] >= 1 && pair[y] >= 1;
    assert x in multiset(s) && y in multiset(s);
    assert x in s && y in s;
    assert forall v :: v in low ==> v <= s[n - 2] by {
      forall v | v in low ensures v <= s[n - 2] {
        var k :| 0 <= k < |low| && low[k] == v;
        assert s[k] == v;
      }
    }
    if x != s[n - 1] {
      assert multiset(s)[x] == multiset(low)[x];
      assert x in multiset(low);
    } else {
      assert pair[y] <= multiset(low)[y] + multiset{x}[y];
      if y == x {
        assert pair[y] == 2;
      }
      assert y in multiset(low);
    }
  }

  /** Two non-negative numbers, one bounded by `hi` and the other by `lo`. */
  lemma ProductBound(x: int, y: int, hi: int, lo: int)
    requires 0 <= x <= hi && 0 <= y <= hi && lo >= 0 && (x <= lo || y <= lo)
    ensures x * y <= hi * lo
  {
    if x <= lo {
      assert x * y <= lo * y <= lo * hi;
    } else {
      assert x * y <= hi * y <= hi * lo;
    }
  }
}
