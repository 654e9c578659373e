/** Day 20: mixing the encrypted grove-positioning file.  The source never
    moves a number in place: it keeps `positions`, a permutation saying which
    original index sits at each current position, composes it with one
    `IndexMap` per step and rebuilds the list through it. */
module Mixer {
  import opened Wrappers
  import opened Arith

  /** How far after the first zero the three grove coordinates sit. */
  const Indices: seq<nat> := [1000, 2000, 3000]
  const DecryptionKey: int := 811589153
  const MixingCycles: nat := 10

  /** The Rust range `lo..hi`, empty when `hi <= lo`. */
  function Upto(lo: nat, hi: nat): (r: seq<nat>)
    ensures |r| == if lo <= hi then hi - lo else 0
    ensures forall i :: 0 <= i < |r| ==> r[i] == lo + i
  {
    if lo < hi then seq(hi - lo, i requires 0 <= i < hi - lo => lo + i) else []
  }

  /** `index_map`: the new order of positions when the number at `source`
      is taken out and put back in at `target`.  Entry `i` of the result is
      the old position of whatever ends up at position `i`. */
  function IndexMap(size: nat, source: nat, target: nat): seq<nat>
  {
    if target > source then
      Upto(0, source) + Upto(source + 1, target + 1) + [source] + Upto(target + 1, size)
    else if target < source then
      Upto(0, target) + [source] + Upto(target, source) + Upto(source + 1, size)
    else
      Upto(0, size)
  }

  /** Pointwise reference for one move: the mover lands at `target`, the
      positions it passes over slide one step towards `source`, the rest
      stay where they are. */
  function Moved(source: nat, target: nat, i: nat): nat
  {
    if i == target then source
    else if source < target && source <= i < target then i + 1
    else if target < source && target < i <= source then i - 1
    else i
  }

  lemma IndexMapShape(size: nat, source: nat, target: nat)
    requires source < size && target < size
    ensures |IndexMap(size, source, target)| == size
    ensures forall i :: 0 <= i < size ==> IndexMap(size, source, target)[i] == Moved(source, target, i)
  {
    var r := IndexMap(size, source, target);
    if target > source {
      var a, b, c := Upto(0, source), Upto(source + 1, target + 1), Upto(target + 1, size);
      assert r == a + b + [source] + c;
      forall i | 0 <= i < size
        ensures r[i] == Moved(source, target, i)
      {
        if i < source {
          assert r[i] == a[i];
        } else if i < target {
          assert r[i] == b[i - source];
        } else if i == target {
          assert r[i] == source;
        } else {
          assert r[i] == c[i - target - 1];
        }
      }
    } else if target < source {
      var a, b, c := Upto(0, target), Upto(target, source), Upto(source + 1, size);
      assert r == a + [source] + b + c;
      forall i | 0 <= i < size
        ensures r[i] == Moved(source, target, i)
      {
        if i < target {
          assert r[i] == a[i];
        } else if i == target {
          assert r[i] == source;
        } else if i <= source {
          assert r[i] == b[i - target - 1];
        } else {
          assert r[i] == c[i - source - 1];
        }
      }
    }
  }

  /** Moving from `target` back to `source` undoes a move. */
  lemma MovedInverse(source: nat, target: nat, i: nat)
    ensures Moved(target, source, Moved(source, target, i)) == i
  {
  }

  /** `index_map` with both ends in range is a bijection of `0..size`: the
      map for the opposite move is its inverse, so no position is lost or
      repeated. */
  lemma IndexMapPermutation(size: nat, source: nat, target: nat)
    requires source < size && target < size
    ensures |IndexMap(size, source, target)| == size
    ensures forall i :: 0 <= i < size ==> IndexMap(size, source, target)[i] < size
    ensures forall i :: 0 <= i < size ==>
      IndexMap(size, target, source)[IndexMap(size, source, target)[i]] == i
    ensures forall i, j :: 0 <= i < size && 0 <= j < size && i != j ==>
      IndexMap(size, source, target)[i] != IndexMap(size, source, target)[j]
  {
    IndexMapShape(size, source, target);
    IndexMapShape(size, target, source);
    forall i | 0 <= i < size
      ensures IndexMap(size, target, source)[IndexMap(size, source, target)[i]] == i
    {
      MovedInverse(source, target, i);
    }
  }

  /** A move onto its own position leaves every position alone. */
  lemma IndexMapIdentity(size: nat, source: nat)
    ensures IndexMap(size, source, source) == Upto(0, size)
    ensures forall i :: 0 <= i < size ==> IndexMap(size, source, source)[i] == i
  {
  }

  /** Reading `xs` through a position map. */
  function Apply<T>(p: seq<nat>, xs: seq<T>): (r: seq<T>)
    requires forall i :: 0 <= i < |p| ==> p[i] < |xs|
    ensures |r| == |p|
    ensures forall i :: 0 <= i < |p| ==> r[i] == xs[p[i]]
  {
    seq(|p|, i requires 0 <= i < |p| => xs[p[i]])
  }

  /** Reference definition of one move: take the element at `source` out and
      insert it so that it ends up at `target`. */
  function Move<T>(xs: seq<T>, source: nat, target: nat): seq<T>
    requires source < |xs| && target < |xs|
  {
    var rest := xs[..source] + xs[source + 1..];
    rest[..target] + [xs[source]] + rest[target..]
  }

  lemma MoveAt<T>(xs: seq<T>, source: nat, target: nat)
    requires source < |xs| && target < |xs|
    ensures |Move(xs, source, target)| == |xs|
    ensures forall i :: 0 <= i < |xs| ==> Moved(source, target, i) < |xs|
    ensures forall i :: 0 <= i < |xs| ==> Move(xs, source, target)[i] == xs[Moved(source, target, i)]
  {
    var rest := xs[..source] + xs[source + 1..];
    assert forall j :: 0 <= j < |rest| ==> rest[j] == if j < source then xs[j] else xs[j + 1];
    var r := Move(xs, source, target);
    assert r == rest[..target] + [xs[source]] + rest[target..];
    forall i | 0 <= i < |xs|
      ensures r[i] == xs[Moved(source, target, i)]
    {
      if i < target {
        assert r[i] == rest[i];
      } else if i == target {
        assert r[i] == xs[source];
      } else {
        assert r[i] == rest[i - 1];
      }
    }
  }

  /** The mover ends up at `target`. */
  lemma MoveLands<T>(xs: seq<T>, source: nat, target: nat)
    requires source < |xs| && target < |xs|
    ensures Move(xs, source, target)[target] == xs[source]
  {
    var rest := xs[..source] + xs[source + 1..];
    assert Move(xs, source, target) == rest[..target] + [xs[source]] + rest[target..];
  }

  /** A move only rearranges: the same elements with the same multiplicities,
      and the mover ends up at `target`. */
  lemma MoveMultiset<T>(xs: seq<T>, source: nat, target: nat)
    requires source < |xs| && target < |xs|
    ensures multiset(Move(xs, source, target)) == multiset(xs)
    ensures Move(xs, source, target)[target] == xs[source]
  {
    var rest := xs[..source] + xs[source + 1..];
    assert xs == xs[..source] + [xs[source]] + xs[source + 1..];
    assert multiset(xs) == multiset(xs[..source]) + multiset{xs[source]} + multiset(xs[source + 1..]);
    assert multiset(rest) == multiset(xs[..source]) + multiset(xs[source + 1..]);
    assert rest == rest[..target] + rest[target..];
    assert multiset(rest) == multiset(rest[..target]) + multiset(rest[target..]);
    var r := Move(xs, source, target);
    assert r == rest[..target] + [xs[source]] + rest[target..];
    assert multiset(r) == multiset(rest[..target]) + multiset{xs[source]} + multiset(rest[target..]);
    assert multiset(r) == multiset(rest) + multiset{xs[source]};
  }

  /** `index_map` is exactly the reference move. */
  lemma ApplyIndexMap<T>(xs: seq<T>, source: nat, target: nat)
    requires source < |xs| && target < |xs|
    ensures forall i :: 0 <= i < |xs| ==> IndexMap(|xs|, source, target)[i] < |xs|
    ensures Apply(IndexMap(|xs|, source, target), xs) == Move(xs, source, target)
  {
    IndexMapShape(|xs|, source, target);
    MoveAt(xs, source, target);
  }

  /** `index`: the target position, in a circle of `m` slots, of a number
      moved to the unreduced position `n`.  The source panics on `m - 1 == 0`
      and below, hence the precondition. */
  function Index(n: int, m: nat): (r: nat)
    requires m >= 2
    ensures r < m
  {
    if n > 0 then n % (m - 1)
    else
      var ret := TruncRem(n, m - 1) + m - 1;
      if ret == 0 then m else ret
  }

  /** The target is the unreduced position moved round the circle by whole
      laps of `m - 1` (the moving number itself is not counted): the first
      `m - 1` slots when moving forward, the last `m - 1` otherwise. */
  lemma IndexWraps(n: int, m: nat)
    requires m >= 2
    ensures (Index(n, m) - n) % (m - 1) == 0
    ensures n > 0 ==> Index(n, m) < m - 1
    ensures n <= 0 ==> 1 <= Index(n, m)
  {
    if n > 0 {
      PositiveCongruent(n, m - 1);
    } else {
      IndexCongruent(n, m - 1);
    }
  }

  lemma PositiveCongruent(n: int, d: nat)
    requires d > 0
    ensures (n % d - n) % d == 0
  {
    assert n % d - n == d * -(n / d);
    MultipleDivides(d, -(n / d));
  }

  lemma IndexCongruent(n: int, d: nat)
    requires d > 0
    ensures (TruncRem(n, d) + d - n) % d == 0
  {
    var q := TruncDiv(n, d);
    assert TruncRem(n, d) + d - n == d * (1 - q);
    MultipleDivides(d, 1 - q);
  }

  /** The `ret == 0` fallback of `index` never fires: a move to position 0
      or below wraps to a position between 1 and `m - 1`. */
  lemma IndexNeverWrapsToZero(n: int, m: nat)
    requires m >= 2 && n <= 0
    ensures TruncRem(n, m - 1) + m - 1 != 0
    ensures 1 <= Index(n, m) <= m - 1
  {
  }

  /** `mix_step`: the position map for moving the number at `source` on by
      `number` places in the current list.  A one-element list makes `index`
      divide by zero. */
  function MixStep(list: seq<int>, source: nat, number: int): (r: Option<seq<nat>>)
    requires source < |list|
    ensures r.None? <==> |list| < 2
  {
    if |list| < 2 then None
    else Some(IndexMap(|list|, source, Index(source + number, |list|)))
  }

  /** Mixing `list` one step moves its `source` element to the wrapped target
      and shifts the elements it passes. */
  lemma MixStepMoves(list: seq<int>, source: nat, number: int)
    requires source < |list| && |list| >= 2
    ensures var t := Index(source + number, |list|);
      && MixStep(list, source, number).Some?
      && IsPermutation(MixStep(list, source, number).value, |list|)
      && Apply(MixStep(list, source, number).value, list) == Move(list, source, t)
      && Apply(MixStep(list, source, number).value, list)[t] == list[source]
  {
    var t := Index(source + number, |list|);
    ApplyIndexMap(list, source, t);
    MoveMultiset(list, source, t);
    IndexMapIsPermutation(|list|, source, t);
  }

  /** `p` lists every position below `n` once: `n` entries, all in range,
      none missing. */
  predicate IsPermutation(p: seq<nat>, n: nat)
  {
    && |p| == n
    && (forall i :: 0 <= i < n ==> p[i] < n)
    && (forall v :: 0 <= v < n ==> v in p)
  }

  lemma IndexMapIsPermutation(size: nat, source: nat, target: nat)
    requires source < size && target < size
    ensures IsPermutation(IndexMap(size, source, target), size)
  {
    IndexMapPermutation(size, target, source);
    IndexMapPermutation(size, source, target);
    var p := IndexMap(size, source, target);
    forall v | 0 <= v < size
      ensures v in p
    {
      assert p[IndexMap(size, target, source)[v]] == v;
    }
  }

  /** A move of a permutation is a permutation. */
  lemma MovePermutation(p: seq<nat>, n: nat, source: nat, target: nat)
    requires IsPermutation(p, n) && source < n && target < n
    ensures IsPermutation(Move(p, source, target), n)
  {
    MoveAt(p, source, target);
    MoveMultiset(p, source, target);
    var q := Move(p, source, target);
    forall v | 0 <= v < n
      ensures v in q
    {
      assert v in p;
      assert v in multiset(p);
      assert v in multiset(q);
    }
  }

  /** Rust's `position(..).unwrap()` on a sequence that holds `v`: the first
      place it occurs. */
  function FirstIndex<T(==)>(xs: seq<T>, v: T): (i: nat)
    requires v in xs
    ensures i < |xs| && xs[i] == v && v !in xs[..i]
  {
    if xs[0] == v then 0
    else
      var i := FirstIndex(xs[1..], v);
      assert xs[..i + 1] == [xs[0]] + xs[1..][..i];
      i + 1
  }

  lemma FirstIndexUnique<T>(xs: seq<T>, v: T, i: nat)
    requires i < |xs| && xs[i] == v && v !in xs[..i]
    ensures FirstIndex(xs, v) == i
  {
  }

  /** One state of the `mix_times` loop. */
  datatype Mixing = Mixing(positions: seq<nat>, list: seq<int>)

  /** What the loop keeps: `positions` is a permutation of the original
      indices and `list` is the original read through it, so it holds the
      original numbers rearranged. */
  predicate Tracks(original: seq<int>, m: Mixing)
  {
    && IsPermutation(m.positions, |original|) && m.list == Apply(m.positions, original)
    && multiset(m.list) == multiset(original)
  }

  lemma StartTracks(original: seq<int>)
    ensures Tracks(original, Mixing(Upto(0, |original|), original))
  {
    var id := Upto(0, |original|);
    assert Apply(id, original) == original;
    forall v | 0 <= v < |original|
      ensures v in id
    {
      assert id[v] == v;
    }
  }

  /** Composing the position map with a move is the move of the list. */
  lemma StepTracks(original: seq<int>, m: Mixing, source: nat, target: nat)
    requires Tracks(original, m) && source < |original| && target < |original|
    ensures var p := Move(m.positions, source, target);
      && Tracks(original, Mixing(p, Apply(p, original)))
      && Apply(p, original) == Move(m.list, source, target)
  {
    var p := Move(m.positions, source, target);
    MoveAt(m.positions, source, target);
    MoveAt(m.list, source, target);
    MovePermutation(m.positions, |original|, source, target);
    MoveMultiset(m.list, source, target);
    assert Apply(p, original) == Move(m.list, source, target);
    assert multiset(Apply(p, original)) == multiset(m.list);
  }

  /** The body of the `mix_times` loop after `mix_step`: read the position
      map through the step's map, then rebuild the list from the original
      through the new positions. */
  function Rebuild(original: seq<int>, m: Mixing, newMap: seq<nat>): (r: Mixing)
    requires forall i :: 0 <= i < |newMap| ==> newMap[i] < |m.positions|
    requires forall i :: 0 <= i < |m.positions| ==> m.positions[i] < |original|
    ensures |r.positions| == |r.list| == |newMap|
  {
    var positions := Apply(newMap, m.positions);
    Mixing(positions, Apply(positions, original))
  }

  /** Rebuilding through the index map of a move is the reference move of
      both halves, and keeps the loop invariant. */
  lemma RebuildIsMove(original: seq<int>, m: Mixing, index: nat, target: nat)
    requires Tracks(original, m) && index < |original| && target < |original|
    ensures forall i :: 0 <= i < |original| ==> IndexMap(|original|, index, target)[i] < |m.positions|
    ensures var r := Rebuild(original, m, IndexMap(|original|, index, target));
      && r == Mixing(Move(m.positions, index, target), Move(m.list, index, target))
      && Tracks(original, r)
  {
    ApplyIndexMap(m.positions, index, target);
    StepTracks(original, m, index, target);
  }

  /** Both halves of a loop state have one entry per original number. */
  predicate Sized(original: seq<int>, m: Mixing)
  {
    |m.positions| == |original| && |m.list| == |original|
  }

  /** One iteration of the `mix_times` loop for the original index `ix`: find
      where it is now and move it on by its value, in the position map and in
      the list alike.  `StepMovesOriginal` shows this is what `mix_step`
      followed by the rebuild computes.  `None` is a panic: the `unwrap` of a
      missing position, or `index` dividing by zero on a one-element list. */
  function Step(original: seq<int>, m: Mixing, ix: nat): (r: Option<Mixing>)
    requires ix < |original| && Sized(original, m)
    ensures r.Some? ==> Sized(original, r.value)
    ensures r.None? <==> |original| < 2 || ix !in m.positions
  {
    if |original| < 2 || ix !in m.positions then None
    else
      var index := FirstIndex(m.positions, ix);
      var target := Index(index + original[ix], |original|);
      Some(Mixing(Move(m.positions, index, target), Move(m.list, index, target)))
  }

  /** Every iteration keeps the loop invariant. */
  lemma StepKeepsTracks(original: seq<int>, m: Mixing, ix: nat)
    requires ix < |original| && Tracks(original, m)
    ensures Step(original, m, ix).None? <==> |original| < 2
    ensures Step(original, m, ix).Some? ==> Tracks(original, Step(original, m, ix).value)
  {
    assert ix in m.positions;
    if |original| >= 2 {
      var index := FirstIndex(m.positions, ix);
      var target := Index(index + original[ix], |original|);
      StepTracks(original, m, index, target);
      assert Step(original, m, ix).value == Mixing(Move(m.positions, index, target), Move(m.list, index, target));
    }
  }

  /** The moved number is the original `ix`: it is found at `index`, moved
      to the wrapped target of `index` plus its value, and the position map
      and the list undergo the same reference move. */
  lemma StepMovesOriginal(original: seq<int>, m: Mixing, ix: nat, index: nat)
    requires ix < |original| && Tracks(original, m) && |original| >= 2
    requires ix in m.positions && index == FirstIndex(m.positions, ix)
    ensures var target := Index(index + original[ix], |original|);
      && m.list[index] == original[ix]
      && Step(original, m, ix) == Some(Mixing(Move(m.positions, index, target), Move(m.list, index, target)))
      && Move(m.list, index, target)[target] == original[ix]
  {
    var target := Index(index + original[ix], |original|);
    MoveLands(m.list, index, target);
    assert m.list[index] == original[ix];
  }

  /** `Step` is the source's loop body: `mix_step` yields the index map of
      the move, and composing the position map with it and rebuilding the
      list gives the stepped state. */
  lemma StepIsLoopBody(original: seq<int>, m: Mixing, ix: nat)
    requires ix < |original| && Tracks(original, m) && |original| >= 2
    ensures var index := FirstIndex(m.positions, ix);
      var target := Index(index + original[ix], |original|);
      && MixStep(m.list, index, original[ix]) == Some(IndexMap(|original|, index, target))
      && (forall i :: 0 <= i < |original| ==> IndexMap(|original|, index, target)[i] < |m.positions|)
      && Step(original, m, ix) == Some(Rebuild(original, m, IndexMap(|original|, index, target)))
  {
    assert ix in m.positions;
    var index := FirstIndex(m.positions, ix);
    var target := Index(index + original[ix], |original|);
    RebuildIsMove(original, m, index, target);
  }

  /** One step of a concrete trace: the original `ix` is found at `index`
      and moved to `target`. */
  lemma StepAt(original: seq<int>, m: Mixing, ix: nat, index: nat, target: nat, next: Mixing)
    requires ix < |original| && Tracks(original, m) && |original| >= 2
    requires index < |m.positions| && m.positions[index] == ix && ix !in m.positions[..index]
    requires Index(index + original[ix], |original|) == target
    requires next == Mixing(Move(m.positions, index, target), Move(m.list, index, target))
    ensures Step(original, m, ix) == Some(next) && Tracks(original, next)
  {
    assert m.positions[index] in m.positions;
    FirstIndexUnique(m.positions, ix, index);
    StepKeepsTracks(original, m, ix);
  }

  /** The next `remaining` iterations of the loop, starting at the original
      index `ix` and cycling back to 0 after the last one. */
  function Steps(original: seq<int>, m: Mixing, ix: nat, remaining: nat): (r: Option<Mixing>)
    requires Sized(original, m)
    requires ix < |original| || remaining == 0
    ensures r.Some? ==> Sized(original, r.value)
    decreases remaining, 1
  {
    if remaining == 0 then Some(m) else StepThen(original, m, ix, remaining)
  }

  /** One iteration of the loop followed by the remaining ones. */
  function StepThen(original: seq<int>, m: Mixing, ix: nat, remaining: nat): (r: Option<Mixing>)
    requires Sized(original, m)
    requires ix < |original| && remaining > 0
    ensures r.Some? ==> Sized(original, r.value)
    decreases remaining, 0
  {
    match Step(original, m, ix)
    case None => None
    case Some(next) => Steps(original, next, if ix + 1 == |original| then 0 else ix + 1, remaining - 1)
  }

  /** The loop is one iteration followed by the rest. */
  lemma StepsUnfold(original: seq<int>, m: Mixing, ix: nat, remaining: nat, next: Mixing)
    requires Sized(original, m) && ix < |original| && remaining > 0
    requires Step(original, m, ix) == Some(next)
    ensures Sized(original, next)
    ensures Steps(original, m, ix, remaining) == Steps(original, next, if ix + 1 == |original| then 0 else ix + 1, remaining - 1)
  {
  }

  /** On a list of two or more, an iteration succeeds and keeps the invariant. */
  lemma NextStep(original: seq<int>, m: Mixing, ix: nat) returns (next: Mixing)
    requires ix < |original| && Tracks(original, m) && |original| >= 2
    ensures Step(original, m, ix) == Some(next) && Tracks(original, next)
  {
    StepKeepsTracks(original, m, ix);
    next := Step(original, m, ix).value;
  }

  /** On a one-element list the first iteration panics. */
  lemma StepsPanic(original: seq<int>, m: Mixing, ix: nat, remaining: nat)
    requires Sized(original, m) && ix < |original| < 2 && remaining > 0
    ensures Steps(original, m, ix, remaining).None?
  {
    assert Step(original, m, ix).None?;
    assert Steps(original, m, ix, remaining) == StepThen(original, m, ix, remaining);
  }

  /** From a state that keeps the invariant, the loop panics only on a
      one-element list, and every state it reaches keeps the invariant. */
  lemma {:induction false} StepsKeepTracks(original: seq<int>, m: Mixing, ix: nat, remaining: nat)
    requires Tracks(original, m)
    requires ix < |original| || remaining == 0
    ensures Steps(original, m, ix, remaining).None? <==> |original| == 1 && remaining > 0
    ensures Steps(original, m, ix, remaining).Some? ==> Tracks(original, Steps(original, m, ix, remaining).value)
    decreases remaining
  {
    assert Sized(original, m);
    if remaining == 0 {
      assert Steps(original, m, ix, remaining) == Some(m);
    } else if |original| < 2 {
      StepsPanic(original, m, ix, remaining);
    } else {
      var next := NextStep(original, m, ix);
      var ix' := if ix + 1 == |original| then 0 else ix + 1;
      StepsKeepTracks(original, next, ix', remaining - 1);
      StepsUnfold(original, m, ix, remaining, next);
    }
  }

  /** `mix_times`: every number, in original order, moved `times` times
      round.  The result is a rearrangement of the input; only a
      one-element list that is actually mixed panics. */
  function MixTimes(list: seq<int>, times: nat): (r: Option<seq<int>>)
    ensures r.None? <==> |list| == 1 && times > 0
    ensures r.Some? ==> |r.value| == |list| && multiset(r.value) == multiset(list)
  {
    StartTracks(list);
    StepsKeepTracks(list, Mixing(Upto(0, |list|), list), 0, times * |list|);
    match Steps(list, Mixing(Upto(0, |list|), list), 0, times * |list|)
    case None => None
    case Some(m) => Some(m.list)
  }

  /** `decrypt`: every number times the decryption key. */
  function Decrypt(list: seq<int>): (r: seq<int>)
    ensures |r| == |list|
    ensures forall i :: 0 <= i < |list| ==> r[i] == list[i] * DecryptionKey
  {
    seq(|list|, i requires 0 <= i < |list| => list[i] * DecryptionKey)
  }

  /** `grove_coordinates`: the numbers 1000, 2000 and 3000 places after the
      first zero, wrapping round the list.  Without a zero the source's
      `unwrap` panics. */
  function GroveCoordinates(list: seq<int>): (r: Option<seq<int>>)
    ensures r.None? <==> 0 !in list
    ensures r.Some? ==> |r.value| == |Indices|
    ensures r.Some? ==> forall j :: 0 <= j < |Indices| ==>
      r.value[j] == list[(Indices[j] + FirstIndex(list, 0)) % |list|]
  {
    if 0 !in list then None
    else
      var zero := FirstIndex(list, 0);
      Some(seq(|Indices|, j requires 0 <= j < |Indices| => list[(Indices[j] + zero) % |list|]))
  }

  /** The coordinates are read at the given offsets from the first zero. */
  lemma GroveAfterZero(list: seq<int>, zero: nat)
    requires zero < |list| && list[zero] == 0 && 0 !in list[..zero]
    ensures GroveCoordinates(list).Some?
    ensures forall j :: 0 <= j < |Indices| ==>
      GroveCoordinates(list).value[j] == list[(Indices[j] + zero) % |list|]
  {
    FirstIndexUnique(list, 0, zero);
  }

  /** Decrypting commutes with reading the coordinates, since the key is not
      zero and so keeps every zero where it was and creates none. */
  lemma DecryptGrove(list: seq<int>)
    ensures GroveCoordinates(Decrypt(list)).None? <==> GroveCoordinates(list).None?
    ensures GroveCoordinates(list).Some? ==>
      GroveCoordinates(Decrypt(list)) == Some(Decrypt(GroveCoordinates(list).value))
  {
    var d := Decrypt(list);
    assert forall i :: 0 <= i < |list| ==> (d[i] == 0 <==> list[i] == 0);
    if 0 in list {
      var zero := FirstIndex(list, 0);
      assert d[zero] == 0;
      assert 0 !in d[..zero] by {
        forall i | 0 <= i < zero ensures d[..zero][i] != 0 {
          assert list[..zero][i] != 0;
        }
      }
      FirstIndexUnique(d, 0, zero);
      var g := GroveCoordinates(list).value;
      var gd := GroveCoordinates(d).value;
      forall j | 0 <= j < |Indices|
        ensures gd[j] == Decrypt(g)[j]
      {
        assert gd[j] == d[(Indices[j] + zero) % |d|];
      }
      assert gd == Decrypt(g);
    } else {
      assert 0 !in d by {
        forall i | 0 <= i < |d| ensures d[i] != 0 {
          assert list[i] in list;
        }
      }
    }
  }

  /** The list read as a circle starting at `k`. */
  function Rotate<T>(xs: seq<T>, k: nat): (r: seq<T>)
    requires k <= |xs|
  {
    xs[k..] + xs[..k]
  }

  predicate OneZero(xs: seq<int>)
  {
    forall i, j :: 0 <= i < |xs| && 0 <= j < |xs| && xs[i] == 0 && xs[j] == 0 ==> i == j
  }

  lemma RotateAt<T>(xs: seq<T>, k: nat, i: nat)
    requires k <= |xs| && i < |xs|
    ensures Rotate(xs, k)[i] == xs[(i + k) % |xs|]
  {
    if i + k < |xs| {
      assert Rotate(xs, k)[i] == xs[k..][i];
      DivModUnique(i + k, |xs|, 0, i + k);
    } else {
      assert Rotate(xs, k)[i] == xs[..k][i - (|xs| - k)];
      DivModUnique(i + k, |xs|, 1, i + k - |xs|);
    }
  }

  lemma ModShift(a: nat, b: nat, c: nat, n: nat)
    requires n > 0 && (a + b) % n == c % n
    ensures ((a % n) + b) % n == c % n
  {
    DivModUnique(a, n, a / n, a % n);
    var q := a / n;
    var s := a % n + b;
    DivModUnique(a + b, n, q + s / n, s % n);
  }

  lemma ModPlus(x: nat, n: nat)
    requires n > 0
    ensures (x + n) % n == x % n
  {
    DivModUnique(x, n, x / n, x % n);
    DivModUnique(x + n, n, x / n + 1, x % n);
  }

  /** Where the first zero of the rotated list sits. */
  lemma RotateZero(xs: seq<int>, k: nat, zero: nat) returns (z: nat)
    requires k <= |xs| && zero < |xs| && xs[zero] == 0 && OneZero(xs)
    ensures z < |xs| && (z + k == zero || z + k == zero + |xs|)
    ensures Rotate(xs, k)[z] == 0 && 0 !in Rotate(xs, k)[..z]
  {
    var n := |xs|;
    var r := Rotate(xs, k);
    z := if zero >= k then zero - k else zero + n - k;
    RotateAt(xs, k, z);
    if zero >= k {
      DivModUnique(z + k, n, 0, zero);
    } else {
      DivModUnique(z + k, n, 1, zero);
    }
    forall i | 0 <= i < z
      ensures r[..z][i] != 0
    {
      RotateAt(xs, k, i);
      if i + k < n {
        DivModUnique(i + k, n, 0, i + k);
      } else {
        DivModUnique(i + k, n, 1, i + k - n);
      }
    }
  }

  /** An offset from the zero of the rotated list reads the same element as
      that offset from the zero of the original. */
  lemma RotatedOffset(xs: seq<int>, k: nat, zero: nat, z: nat, offset: nat)
    requires k <= |xs| && zero < |xs| && z < |xs|
    requires z + k == zero || z + k == zero + |xs|
    ensures Rotate(xs, k)[(offset + z) % |xs|] == xs[(offset + zero) % |xs|]
  {
    var n := |xs|;
    RotateAt(xs, k, (offset + z) % n);
    if z + k == zero + n {
      ModPlus(offset + zero, n);
    }
    ModShift(offset + z, k, offset + zero, n);
  }

  /** The file is circular: when it holds exactly one zero, reading it from
      any starting point gives the same grove coordinates. */
  lemma GroveRotation(xs: seq<int>, k: nat)
    requires k <= |xs| && 0 in xs && OneZero(xs)
    ensures GroveCoordinates(Rotate(xs, k)) == GroveCoordinates(xs)
  {
    var n := |xs|;
    var r := Rotate(xs, k);
    var zero := FirstIndex(xs, 0);
    var z := RotateZero(xs, k, zero);
    forall j | 0 <= j < |Indices|
      ensures r[(Indices[j] + z) % n] == xs[(Indices[j] + zero) % n]
    {
      RotatedOffset(xs, k, zero, z, Indices[j]);
    }
    SameGrove(r, xs, z, zero);
  }

  /** Two lists whose first zeros are followed by the same numbers at the
      three offsets have the same coordinates. */
  lemma SameGrove(a: seq<int>, b: seq<int>, za: nat, zb: nat)
    requires za < |a| && a[za] == 0 && 0 !in a[..za]
    requires zb < |b| && b[zb] == 0 && 0 !in b[..zb]
    requires forall j :: 0 <= j < |Indices| ==> a[(Indices[j] + za) % |a|] == b[(Indices[j] + zb) % |b|]
    ensures GroveCoordinates(a) == GroveCoordinates(b)
  {
    assert a[za] in a && b[zb] in b;
    FirstIndexUnique(a, 0, za);
    FirstIndexUnique(b, 0, zb);
    var ga, gb := GroveCoordinates(a).value, GroveCoordinates(b).value;
    assert forall j :: 0 <= j < |Indices| ==> ga[j] == gb[j];
    assert ga == gb;
  }

  /** One step of a concrete trace, in terms that need no invariant: the
      original `ix` sits at `index`, its value sends it to `target`, and
      `next` is the state after the move. */
  predicate TraceStep(original: seq<int>, m: Mixing, ix: nat, index: nat, target: nat, next: Mixing)
  {
    && 2 <= |original| && ix < |original|
    && |m.positions| == |original| && |m.list| == |original|
    && index < |original| && m.positions[index] == ix && ix !in m.positions[..index]
    && Index(index + original[ix], |original|) == target
    && next == Mixing(Move(m.positions, index, target), Move(m.list, index, target))
  }

  /** Entry `i` of a trace is one step. */
  predicate TraceAt(original: seq<int>, ms: seq<Mixing>, idx: seq<nat>, tgt: seq<nat>, i: nat)
  {
    i + 1 < |ms| && i < |idx| && i < |tgt| && TraceStep(original, ms[i], i, idx[i], tgt[i], ms[i + 1])
  }

  /** Entry `k` of a trace is one iteration of the loop: the rest of the
      round from `ms[k]` is the rest of the round from `ms[k + 1]`. */
  lemma TraceUnfold(original: seq<int>, ms: seq<Mixing>, idx: seq<nat>, tgt: seq<nat>, k: nat)
    requires k < |original| && |ms| == |original| + 1
    requires Tracks(original, ms[k]) && TraceAt(original, ms, idx, tgt, k)
    ensures Tracks(original, ms[k + 1])
    ensures Steps(original, ms[k], k, |original| - k)
         == if k + 1 == |original| then Some(ms[k + 1]) else Steps(original, ms[k + 1], k + 1, |original| - (k + 1))
  {
    StepAt(original, ms[k], k, idx[k], tgt[k], ms[k + 1]);
  }

  /** A trace of single steps from the `k`-th on is what the loop computes
      for the rest of one round. */
  lemma {:induction false} StepsTrace(original: seq<int>, ms: seq<Mixing>, idx: seq<nat>, tgt: seq<nat>, k: nat)
    requires |ms| == |original| + 1 && |idx| == |original| && |tgt| == |original|
    requires k <= |original| && Tracks(original, ms[k])
    requires forall i :: k <= i < |original| ==> TraceAt(original, ms, idx, tgt, i)
    ensures Steps(original, ms[k], k, |original| - k) == Some(ms[|original|])
    decreases |original| - k
  {
    if k < |original| {
      TraceUnfold(original, ms, idx, tgt, k);
      if k + 1 < |original| {
        StepsTrace(original, ms, idx, tgt, k + 1);
      }
    }
  }

  /** A full trace of one round, from the identity map, is the mixed list. */
  lemma MixFromTrace(original: seq<int>, ms: seq<Mixing>, idx: seq<nat>, tgt: seq<nat>)
    requires |ms| == |original| + 1 && |idx| == |original| && |tgt| == |original|
    requires ms[0] == Mixing(Upto(0, |original|), original)
    requires forall i :: 0 <= i < |original| ==> TraceAt(original, ms, idx, tgt, i)
    ensures MixTimes(original, 1) == Some(ms[|original|].list)
  {
    StartTracks(original);
    StepsTrace(original, ms, idx, tgt, 0);
    assert 1 * |original| == |original|;
  }

  /** `index_map` forwards and backwards across a list of seven. */
  lemma IndexMapExamples()
    ensures IndexMap(7, 3, 4) == [0, 1, 2, 4, 3, 5, 6]
    ensures IndexMap(7, 1, 5) == [0, 2, 3, 4, 5, 1, 6]
    ensures IndexMap(7, 5, 3) == [0, 1, 2, 5, 3, 4, 6]
  {
  }

  /** Two moves in a list of three compose by reading the first map
      through the second. */
  lemma CombinedMovesExample()
    ensures IndexMap(3, 0, 2) == [1, 2, 0] && IndexMap(3, 1, 0) == [1, 0, 2]
    ensures Apply(IndexMap(3, 1, 0), IndexMap(3, 0, 2)) == [2, 1, 0]
    ensures Apply(IndexMap(3, 1, 0), Apply(IndexMap(3, 0, 2), [-2, -1, 0])) == [0, -1, -2]
  {
    assert IndexMap(3, 0, 2) == [1, 2, 0];
    assert IndexMap(3, 1, 0) == [1, 0, 2];
  }

  /** The worked example, one move at a time: the `k`-th original number
      is found at its current position and moved to its target. */
  lemma ExampleStep0()
    ensures TraceStep([1, 2, -3, 3, -2, 0, 4], Mixing([0, 1, 2, 3, 4, 5, 6], [1, 2, -3, 3, -2, 0, 4]), 0, 0, 1,
                      Mixing([1, 0, 2, 3, 4, 5, 6], [2, 1, -3, 3, -2, 0, 4]))
  {
  }

  lemma ExampleStep1()
    ensures TraceStep([1, 2, -3, 3, -2, 0, 4], Mixing([1, 0, 2, 3, 4, 5, 6], [2, 1, -3, 3, -2, 0, 4]), 1, 0, 2,
                      Mixing([0, 2, 1, 3, 4, 5, 6], [1, -3, 2, 3, -2, 0, 4]))
  {
  }

  lemma ExampleStep2()
    ensures TraceStep([1, 2, -3, 3, -2, 0, 4], Mixing([0, 2, 1, 3, 4, 5, 6], [1, -3, 2, 3, -2, 0, 4]), 2, 1, 4,
                      Mixing([0, 1, 3, 4, 2, 5, 6], [1, 2, 3, -2, -3, 0, 4]))
  {
  }

  lemma ExampleStep3()
    ensures TraceStep([1, 2, -3, 3, -2, 0, 4], Mixing([0, 1, 3, 4, 2, 5, 6], [1, 2, 3, -2, -3, 0, 4]), 3, 2, 5,
                      Mixing([0, 1, 4, 2, 5, 3, 6], [1, 2, -2, -3, 0, 3, 4]))
  {
  }

  lemma ExampleStep4()
    ensures TraceStep([1, 2, -3, 3, -2, 0, 4], Mixing([0, 1, 4, 2, 5, 3, 6], [1, 2, -2, -3, 0, 3, 4]), 4, 2, 6,
                      Mixing([0, 1, 2, 5, 3, 6, 4], [1, 2, -3, 0, 3, 4, -2]))
  {
  }

  lemma ExampleStep5()
    ensures TraceStep([1, 2, -3, 3, -2, 0, 4], Mixing([0, 1, 2, 5, 3, 6, 4], [1, 2, -3, 0, 3, 4, -2]), 5, 3, 3,
                      Mixing([0, 1, 2, 5, 3, 6, 4], [1, 2, -3, 0, 3, 4, -2]))
  {
  }

  lemma ExampleStep6()
    ensures TraceStep([1, 2, -3, 3, -2, 0, 4], Mixing([0, 1, 2, 5, 3, 6, 4], [1, 2, -3, 0, 3, 4, -2]), 6, 5, 3,
                      Mixing([0, 1, 2, 6, 5, 3, 4], [1, 2, -3, 4, 0, 3, -2]))
  {
  }

  lemma ExampleTrace(list: seq<int>, ms: seq<Mixing>, idx: seq<nat>, tgt: seq<nat>)
    requires list == [1, 2, -3, 3, -2, 0, 4]
    requires ms == [
      Mixing([0, 1, 2, 3, 4, 5, 6], [1, 2, -3, 3, -2, 0, 4]),
      Mixing([1, 0, 2, 3, 4, 5, 6], [2, 1, -3, 3, -2, 0, 4]),
      Mixing([0, 2, 1, 3, 4, 5, 6], [1, -3, 2, 3, -2, 0, 4]),
      Mixing([0, 1, 3, 4, 2, 5, 6], [1, 2, 3, -2, -3, 0, 4]),
      Mixing([0, 1, 4, 2, 5, 3, 6], [1, 2, -2, -3, 0, 3, 4]),
      Mixing([0, 1, 2, 5, 3, 6, 4], [1, 2, -3, 0, 3, 4, -2]),
      Mixing([0, 1, 2, 5, 3, 6, 4], [1, 2, -3, 0, 3, 4, -2]),
      Mixing([0, 1, 2, 6, 5, 3, 4], [1, 2, -3, 4, 0, 3, -2])]
    requires idx == [0, 0, 1, 2, 2, 3, 5] && tgt == [1, 2, 4, 5, 6, 3, 3]
    ensures |ms| == 8 && |idx| == 7 && |tgt| == 7
    ensures forall k :: 0 <= k < 7 ==> TraceAt(list, ms, idx, tgt, k)
  {
    forall k | 0 <= k < 7
      ensures TraceAt(list, ms, idx, tgt, k)
    {
      if k == 0 { ExampleStep0(); }
      else if k == 1 { ExampleStep1(); }
      else if k == 2 { ExampleStep2(); }
      else if k == 3 { ExampleStep3(); }
      else if k == 4 { ExampleStep4(); }
      else if k == 5 { ExampleStep5(); }
      else { ExampleStep6(); }
    }
  }

  /** The worked example: one round of mixing `[1, 2, -3, 3, -2, 0, 4]`. */
  lemma MixExample()
    ensures MixTimes([1, 2, -3, 3, -2, 0, 4], 1) == Some([1, 2, -3, 4, 0, 3, -2])
  {
    var list := [1, 2, -3, 3, -2, 0, 4];
    var ms := [
      Mixing([0, 1, 2, 3, 4, 5, 6], [1, 2, -3, 3, -2, 0, 4]),
      Mixing([1, 0, 2, 3, 4, 5, 6], [2, 1, -3, 3, -2, 0, 4]),
      Mixing([0, 2, 1, 3, 4, 5, 6], [1, -3, 2, 3, -2, 0, 4]),
      Mixing([0, 1, 3, 4, 2, 5, 6], [1, 2, 3, -2, -3, 0, 4]),
      Mixing([0, 1, 4, 2, 5, 3, 6], [1, 2, -2, -3, 0, 3, 4]),
      Mixing([0, 1, 2, 5, 3, 6, 4], [1, 2, -3, 0, 3, 4, -2]),
      Mixing([0, 1, 2, 5, 3, 6, 4], [1, 2, -3, 0, 3, 4, -2]),
      Mixing([0, 1, 2, 6, 5, 3, 4], [1, 2, -3, 4, 0, 3, -2])];
    var idx, tgt := [0, 0, 1, 2, 2, 3, 5], [1, 2, 4, 5, 6, 3, 3];
    ExampleTrace(list, ms, idx, tgt);
    assert Upto(0, 7) == ms[0].positions;
    MixFromTrace(list, ms, idx, tgt);
  }
}
