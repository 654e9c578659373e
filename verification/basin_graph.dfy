/** Day 24, the search space: a memo of `free` answers and the directed
    graph of (cell, minute) states. Minutes are taken modulo the basin's
    period. Edges point backwards in time, from a state to the states that
    can reach it in one minute, so that the source can run a single-source
    shortest-path search from the exit. Two sentinel nodes join the
    entry's states and the exit's states at every minute with weight-0
    edges; `reverse` swaps their roles for the trip back. */
module BasinGraph {
  import opened BlizzardBasin
  import Arith

  /** `BasinStates`: `free` answers already computed, keyed by cell and minute. */
  datatype BasinStates = BasinStates(memo: map<(Point, nat), bool>, basin: Basin)

  /** Every remembered answer is the one `free` gives. */
  predicate Consistent(st: BasinStates)
  {
    forall k :: k in st.memo ==> (k.1 == 0 || Positive(st.basin)) && st.memo[k] == Free(st.basin, k.0, k.1)
  }

  /** `BasinStates::new`: nothing remembered yet. */
  function NewStates(b: Basin): (st: BasinStates)
    ensures Consistent(st) && st.basin == b && st.memo == map[]
  {
    BasinStates(map[], b)
  }

  /** `BasinStates::free`: the remembered answer if there is one,
      otherwise `free`'s answer, which is then remembered. */
  function CachedFree(st: BasinStates, p: Point, t: nat): (r: (bool, BasinStates))
    requires t == 0 || Positive(st.basin)
    ensures r.1.basin == st.basin
    ensures r.1.memo.Keys == st.memo.Keys + {(p, t)}
    ensures (p, t) in st.memo ==> r.1 == st
    ensures Consistent(st) ==> r.0 == Free(st.basin, p, t) && Consistent(r.1)
  {
    if (p, t) in st.memo then (st.memo[(p, t)], st)
    else
      var free := Free(st.basin, p, t);
      (free, st.(memo := st.memo[(p, t) := free]))
  }

  /** A graph node: one of the two sentinels (the source's first and second
      nodes) or the state "standing on `point` at minute `time`". */
  datatype Node = Sentinel(id: nat) | State(point: Point, time: nat)

  datatype Edge = Edge(src: Node, dst: Node, weight: nat)

  /** `DirectedStateGraph`; `index_map` is the identity on `State` nodes here. */
  datatype StateGraph = StateGraph(nodes: set<Node>, edges: set<Edge>, start: Node, end: Node)

  const First := Sentinel(0)
  const Second := Sentinel(1)

  /** A non-degenerate basin is exactly one with a positive period. */
  lemma PeriodPositive(b: Basin)
    ensures Period(b) > 0 <==> Positive(b)
  {
    if b.width == 0 && b.height > 0 {
      assert Arith.Gcd(0, b.height) == b.height;
    } else if b.height == 0 && b.width > 0 {
      assert Arith.Gcd(b.width, 0) == b.width;
    }
  }

  /** A state an expedition can be in: a cell of the basin, free at a minute within the period. */
  predicate IsFreeState(b: Basin, n: Node)
  {
    && n.State?
    && n.point in b.points
    && n.time < Period(b)
    && Positive(b)
    && Free(b, n.point, n.time)
  }

  /** The minute after `t`, within the period. */
  function NextMinute(b: Basin, t: nat): (r: nat)
    requires Positive(b)
    ensures r < Period(b)
  {
    PeriodPositive(b);
    (t + 1) % Period(b)
  }

  /** One minute of travel, stored reversed: the expedition can go from
      `src` (at the next minute, modulo the period) to `dst` by moving to
      a neighbouring cell or waiting, both states being free. */
  predicate IsMove(b: Basin, e: Edge)
  {
    && e.weight == 1
    && IsFreeState(b, e.dst)
    && IsFreeState(b, e.src)
    && e.src.time == NextMinute(b, e.dst.time)
    && e.src.point in NeighboursAndSelf(b, e.dst.point)
  }

  /** The weight-0 links of the sentinels: every minute's entry state leads
      into the first sentinel, the second sentinel leads to every minute's
      exit state. */
  predicate IsPortal(b: Basin, e: Edge)
  {
    && e.weight == 0
    && ((e.dst == First && e.src.State? && e.src.point == b.start && e.src.time < Period(b))
        || (e.src == Second && e.dst.State? && e.dst.point == b.end && e.dst.time < Period(b)))
  }

  /** The nodes built so far: the sentinels and some free states. */
  predicate NodesSound(b: Basin, nodes: set<Node>)
  {
    First in nodes && Second in nodes
    && forall n :: n in nodes ==> n == First || n == Second || IsFreeState(b, n)
  }

  /** `DirectedStateGraph::from`: for every minute of the period and every
      cell free at that minute, an edge from each free neighbour-or-self at
      the next minute; then the sentinel links. The cells are visited in
      no particular order (the source iterates a hash map). */
  method BuildGraph(st: BasinStates) returns (g: StateGraph, st': BasinStates)
    requires Consistent(st)
    requires st.basin.start in st.basin.points && st.basin.end in st.basin.points
    ensures Consistent(st') && st'.basin == st.basin
    ensures g.start == First && g.end == Second
    ensures forall n :: n in g.nodes <==> n == First || n == Second || IsFreeState(st.basin, n)
    ensures forall e :: e in g.edges <==> IsMove(st.basin, e) || IsPortal(st.basin, e)
  {
    var b := st.basin;
    var L := Period(b);
    PeriodPositive(b);
    var nodes := {First, Second};
    var edges: set<Edge> := {};
    st' := st;
    var t := 0;
    while t < L
      invariant 0 <= t <= L
      invariant Consistent(st') && st'.basin == b
      invariant NodesSound(b, nodes)
      invariant forall n :: IsFreeState(b, n) && n.time < t ==> n in nodes
      invariant forall e :: e in edges <==> IsMove(b, e) && e.dst.time < t
    {
      st', nodes, edges := AddMinute(st', t, nodes, edges);
      t := t + 1;
    }
    var u := 0;
    while u < L
      invariant 0 <= u <= L
      invariant forall e :: e in edges <==> IsMove(b, e) || (IsPortal(b, e) && PortalTime(e) < u)
    {
      assert State(b.start, u) in nodes && State(b.end, u) in nodes;
      edges := edges + {Edge(State(b.start, u), First, 0), Edge(Second, State(b.end, u), 0)};
      u := u + 1;
    }
    g := StateGraph(nodes, edges, First, Second);
  }

  /** The minute a sentinel link belongs to. */
  function PortalTime(e: Edge): nat
  {
    if e.dst.State? then e.dst.time else if e.src.State? then e.src.time else 0
  }

  /** One minute `t` of `from`'s outer loop: every cell of the basin, in any order. */
  method AddMinute(st: BasinStates, t: nat, nodes: set<Node>, edges: set<Edge>)
    returns (st': BasinStates, nodes': set<Node>, edges': set<Edge>)
    requires Consistent(st) && t < Period(st.basin) && Positive(st.basin)
    requires NodesSound(st.basin, nodes)
    requires forall n :: IsFreeState(st.basin, n) && n.time < t ==> n in nodes
    requires forall e :: e in edges <==> IsMove(st.basin, e) && e.dst.time < t
    ensures Consistent(st') && st'.basin == st.basin
    ensures NodesSound(st.basin, nodes')
    ensures forall n :: IsFreeState(st.basin, n) && n.time <= t ==> n in nodes'
    ensures forall e :: e in edges' <==> IsMove(st.basin, e) && e.dst.time <= t
  {
    var b := st.basin;
    st', nodes', edges' := st, nodes, edges;
    var remaining := b.points;
    while remaining != {}
      invariant remaining <= b.points
      invariant Consistent(st') && st'.basin == b
      invariant NodesSound(b, nodes')
      invariant forall n :: IsFreeState(b, n) && (n.time < t || (n.time == t && n.point !in remaining)) ==> n in nodes'
      invariant forall e :: e in edges' <==> IsMove(b, e) && (e.dst.time < t || (e.dst.time == t && e.dst.point !in remaining))
    {
      var p :| p in remaining;
      var r := CachedFree(st', p, t);
      st' := r.1;
      if r.0 {
        nodes' := nodes' + {State(p, t)};
        st', nodes', edges' := AddArrivals(st', p, t, nodes', edges');
      }
      remaining := remaining - {p};
    }
  }

  /** The inner loop of `from`: the edges into the free state `(p, t)`,
      one per free neighbour-or-self at the next minute. */
  method AddArrivals(st: BasinStates, p: Point, t: nat, nodes: set<Node>, edges: set<Edge>)
    returns (st': BasinStates, nodes': set<Node>, edges': set<Edge>)
    requires Consistent(st) && Positive(st.basin)
    requires IsFreeState(st.basin, State(p, t))
    requires NodesSound(st.basin, nodes)
    ensures Consistent(st') && st'.basin == st.basin
    ensures NodesSound(st.basin, nodes') && nodes <= nodes'
    ensures forall e :: e in edges' <==> e in edges || (IsMove(st.basin, e) && e.dst == State(p, t))
  {
    var b := st.basin;
    var t2 := NextMinute(b, t);
    var nbrs := NeighboursAndSelf(b, p);
    st', nodes', edges' := st, nodes, edges;
    var i := 0;
    while i < |nbrs|
      invariant 0 <= i <= |nbrs|
      invariant Consistent(st') && st'.basin == b
      invariant NodesSound(b, nodes') && nodes <= nodes'
      invariant forall e :: e in edges' <==> e in edges || ArrivalAmong(b, e, p, t, nbrs[..i])
    {
      var q := nbrs[i];
      var r := CachedFree(st', q, t2);
      st' := r.1;
      var added := Edge(State(q, t2), State(p, t), 1);
      if r.0 {
        nodes' := nodes' + {State(q, t2)};
        edges' := edges' + {added};
      }
      ArrivalStep(b, p, t, nbrs, i);
      i := i + 1;
    }
    assert nbrs[..i] == nbrs;
  }

  /** Looking at one more cell `nbrs[i]` adds exactly its edge, if it is free at the next minute. */
  lemma ArrivalStep(b: Basin, p: Point, t: nat, nbrs: seq<Point>, i: nat)
    requires Positive(b) && IsFreeState(b, State(p, t))
    requires nbrs == NeighboursAndSelf(b, p) && i < |nbrs|
    ensures forall e: Edge :: ArrivalAmong(b, e, p, t, nbrs[..i + 1]) <==>
      ArrivalAmong(b, e, p, t, nbrs[..i])
      || (Free(b, nbrs[i], NextMinute(b, t)) && e == Edge(State(nbrs[i], NextMinute(b, t)), State(p, t), 1))
  {
    var q, t2 := nbrs[i], NextMinute(b, t);
    assert nbrs[..i + 1] == nbrs[..i] + [q];
    MoveInto(b, p, t, q);
    forall e: Edge | ArrivalAmong(b, e, p, t, nbrs[..i + 1]) && e.src.point == q
      ensures Free(b, q, t2) && e == Edge(State(q, t2), State(p, t), 1)
    {
    }
  }

  /** The edge from `q` at the next minute into `(p, t)` is a move exactly when `q` is then free. */
  lemma MoveInto(b: Basin, p: Point, t: nat, q: Point)
    requires Positive(b) && IsFreeState(b, State(p, t)) && q in NeighboursAndSelf(b, p)
    ensures IsMove(b, Edge(State(q, NextMinute(b, t)), State(p, t), 1)) <==> Free(b, q, NextMinute(b, t))
  {
  }

  /** `e` is a move into `(p, t)` from one of the cells `qs`. */
  predicate ArrivalAmong(b: Basin, e: Edge, p: Point, t: nat, qs: seq<Point>)
  {
    IsMove(b, e) && e.dst == State(p, t) && e.src.point in qs
  }

  function InNeighbours(g: StateGraph, n: Node): set<Node>
  {
    set e | e in g.edges && e.dst == n :: e.src
  }

  function OutNeighbours(g: StateGraph, n: Node): set<Node>
  {
    set e | e in g.edges && e.src == n :: e.dst
  }

  /** The sentinel layout `from` builds and `reverse` keeps: nothing leaves
      the start sentinel, nothing enters the end sentinel, and the edges
      that touch either weigh 0. */
  predicate SentinelShape(g: StateGraph)
  {
    && g.start != g.end
    && forall e :: e in g.edges ==>
      && e.src != g.start && e.dst != g.end
      && (e.dst == g.start ==> e.weight == 0)
      && (e.src == g.end ==> e.weight == 0)
      && !(e.src == g.end && e.dst == g.start)
  }

  /** `reverse`: the two sentinels swap roles, each keeping its neighbours
      but with its weight-0 edges turned around. Edges between states do not change. */
  function Reverse(g: StateGraph): (r: StateGraph)
    requires g.start != g.end
    requires forall e :: e in g.edges ==> !(e.src == g.end && e.dst == g.start)
    ensures r.nodes == g.nodes && r.start == g.end && r.end == g.start
    ensures forall e: Edge :: e.src != g.start && e.src != g.end && e.dst != g.start && e.dst != g.end ==>
      (e in r.edges <==> e in g.edges)
    ensures forall n :: n in InNeighbours(g, g.start) ==> Edge(g.start, n, 0) in r.edges
    ensures forall n :: n in OutNeighbours(g, g.end) ==> Edge(n, g.end, 0) in r.edges
    ensures forall e :: e in r.edges ==>
      || (e in g.edges && e.dst != g.start && e.src != g.end)
      || (e.src == g.start && e.weight == 0 && e.dst in InNeighbours(g, g.start))
      || (e.dst == g.end && e.weight == 0 && e.src in OutNeighbours(g, g.end))
  {
    var kept := set e | e in g.edges && e.dst != g.start && e.src != g.end;
    var out := set m | m in InNeighbours(g, g.start) :: Edge(g.start, m, 0);
    var into := set m | m in OutNeighbours(g, g.end) :: Edge(m, g.end, 0);
    StateGraph(g.nodes, kept + out + into, g.end, g.start)
  }

  /** A freshly built graph has the sentinel layout. */
  lemma BuiltGraphShape(b: Basin, g: StateGraph)
    requires g.start == First && g.end == Second
    requires forall e :: e in g.edges <==> IsMove(b, e) || IsPortal(b, e)
    ensures SentinelShape(g)
  {
  }

  /** Reversing keeps the sentinel layout, with the roles swapped. */
  lemma ReverseShape(g: StateGraph)
    requires SentinelShape(g)
    ensures SentinelShape(Reverse(g))
  {
  }

  /** Reversing twice gives back the original graph, which is why `main`
      can reverse for the trip back and again for the second trip out. */
  lemma ReverseTwice(g: StateGraph)
    requires SentinelShape(g)
    ensures Reverse(Reverse(g)) == g
  {
    var r := Reverse(g);
    ReverseShape(g);
    var rr := Reverse(r);
    forall e | e in rr.edges
      ensures e in g.edges
    {
      if e.dst == g.start {
        assert e.src in OutNeighbours(r, r.end);
        var e' :| e' in r.edges && e'.src == r.end && e'.dst == e.src;
        assert e' in g.edges || e'.src == g.start;
        assert Edge(e.src, g.start, 0) in g.edges;
      } else if e.src == g.end {
        assert e.dst in InNeighbours(r, r.start);
        var e' :| e' in r.edges && e'.dst == r.start && e'.src == e.dst;
        assert Edge(g.end, e.dst, 0) in g.edges;
      }
    }
    forall e | e in g.edges
      ensures e in rr.edges
    {
      if e.dst == g.start {
        assert Edge(g.start, e.src, 0) in r.edges;
        assert e.src in OutNeighbours(r, r.end);
      } else if e.src == g.end {
        assert Edge(e.dst, g.end, 0) in r.edges;
        assert e.dst in InNeighbours(r, r.start);
      }
    }
  }
}
