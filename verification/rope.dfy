/** Day 9, "Rope Bridge": the head of a rope moves one unit at a time and
    every following knot catches up with the one before it. */
module Rope {
  import opened Wrappers
  import Text
  import opened Arith

  datatype Pos = Pos(x: int, y: int)

  /** The larger of the two coordinate gaps (the king's-move distance). */
  function Chebyshev(a: Pos, b: Pos): nat
  {
    if Abs(a.x - b.x) >= Abs(a.y - b.y) then Abs(a.x - b.x) else Abs(a.y - b.y)
  }

  /** `process_instruction`: `R`, `U`, `L` and `D` move the head one unit;
      any other character leaves it where it is. */
  function MoveHead(head: Pos, inst: char): (h: Pos)
    ensures inst == 'R' ==> h == Pos(head.x + 1, head.y)
    ensures inst == 'U' ==> h == Pos(head.x, head.y + 1)
    ensures inst == 'L' ==> h == Pos(head.x - 1, head.y)
    ensures inst == 'D' ==> h == Pos(head.x, head.y - 1)
    ensures inst !in "RULD" ==> h == head
  {
    var x1 := if inst == 'R' then head.x + 1 else head.x;
    var y1 := if inst == 'U' then head.y + 1 else head.y;
    var x2 := if inst == 'L' then x1 - 1 else x1;
    var y2 := if inst == 'D' then y1 - 1 else y1;
    Pos(x2, y2)
  }

  /** A head move changes the distance to any point by at most one. */
  lemma MoveHeadOneStep(head: Pos, inst: char, p: Pos)
    ensures Chebyshev(MoveHead(head, inst), head) <= 1
    ensures Chebyshev(MoveHead(head, inst), p) <= Chebyshev(head, p) + 1
  {
  }

  /** `(head - tail) / (head - tail).abs()` for a non-zero gap: Rust's
      division is exact here and gives the gap's sign. */
  function UnitToward(d: int): (u: int)
    requires d != 0
    ensures u == Sign(d) && Abs(u) == 1
  {
    TruncDiv(d, Abs(d))
  }

  /** The source's test for a diagonal move: the knots are apart in both
      coordinates and more than one apart in one of them. */
  predicate Diagonal(tail: Pos, head: Pos)
  {
    (Abs(head.x - tail.x) > 1 && Abs(head.y - tail.y) > 0)
    || (Abs(head.x - tail.x) > 0 && Abs(head.y - tail.y) > 1)
  }

  /** `process_tail_catch_up`: a diagonal move takes one unit towards the
      head in each coordinate; otherwise each coordinate moves one unit
      only where the gap in it is more than one, tested in the source's
      order. */
  function CatchUp(tail: Pos, head: Pos): (t: Pos)
    ensures Abs(t.x - tail.x) <= 1 && Abs(t.y - tail.y) <= 1
  {
    if Diagonal(tail, head) then
      Pos(tail.x + UnitToward(head.x - tail.x), tail.y + UnitToward(head.y - tail.y))
    else
      var x1 := if head.x - tail.x > 1 then tail.x + 1 else tail.x;
      var x2 := if x1 - head.x > 1 then x1 - 1 else x1;
      var y1 := if head.y - tail.y > 1 then tail.y + 1 else tail.y;
      var y2 := if y1 - head.y > 1 then y1 - 1 else y1;
      Pos(x2, y2)
  }

  /** A knot already touching the one ahead stays put. */
  lemma TouchingStays(tail: Pos, head: Pos)
    requires Chebyshev(head, tail) <= 1
    ensures CatchUp(tail, head) == tail
  {
  }

  /** A straight gap of two is closed by one step along that line. */
  lemma StraightGapStep(tail: Pos, head: Pos)
    requires head.y == tail.y && Abs(head.x - tail.x) == 2
    ensures CatchUp(tail, head) == Pos(tail.x + Sign(head.x - tail.x), tail.y)
  {
  }

  /** Off the line, the knot moves diagonally, one unit in each coordinate. */
  lemma OffAxisDiagonal(tail: Pos, head: Pos)
    requires head.x != tail.x && head.y != tail.y && Chebyshev(head, tail) >= 2
    ensures CatchUp(tail, head) == Pos(tail.x + Sign(head.x - tail.x), tail.y + Sign(head.y - tail.y))
  {
  }

  /** A knot at most two away from the one ahead ends up touching it. */
  lemma CatchUpCloses(tail: Pos, head: Pos)
    requires Chebyshev(head, tail) <= 2
    ensures Chebyshev(head, CatchUp(tail, head)) <= 1
  {
  }

  /** `process_multitail`: each knot in turn catches up with the knot in
      front of it, as already moved. */
  function Follow(knots: seq<Pos>, head: Pos): (r: seq<Pos>)
    ensures |r| == |knots|
    ensures |knots| > 0 ==> r[0] == CatchUp(knots[0], head)
    ensures forall i :: 0 < i < |r| ==> r[i] == CatchUp(knots[i], r[i - 1])
  {
    if |knots| == 0 then []
    else
      var first := CatchUp(knots[0], head);
      [first] + Follow(knots[1..], first)
  }

  /** The loop of `process_multitail`, knot by knot. */
  method ProcessMultitail(knots: seq<Pos>, head: Pos) returns (r: seq<Pos>)
    ensures r == Follow(knots, head)
  {
    r := knots;
    var prev := head;
    var i := 0;
    while i < |knots|
      invariant 0 <= i <= |knots| && |r| == |knots|
      invariant forall k :: 0 <= k < i ==> r[k] == Follow(knots, head)[k]
      invariant forall k :: i <= k < |r| ==> r[k] == knots[k]
      invariant prev == if i == 0 then head else r[i - 1]
    {
      r := r[i := CatchUp(r[i], prev)];
      prev := r[i];
      i := i + 1;
    }
  }

  /** Every knot touches the one ahead of it. */
  predicate Taut(head: Pos, knots: seq<Pos>)
  {
    (|knots| > 0 ==> Chebyshev(head, knots[0]) <= 1)
    && forall i :: 0 < i < |knots| ==> Chebyshev(knots[i - 1], knots[i]) <= 1
  }

  /** Moving the head one unit and letting the rope follow keeps it taut:
      each knot is at most two from the knot ahead once that one moved,
      and catching up brings it back to touching. */
  lemma {:induction false} FollowKeepsTaut(old_head: Pos, head: Pos, knots: seq<Pos>)
    requires Taut(old_head, knots) && Chebyshev(old_head, head) <= 1
    ensures Taut(head, Follow(knots, head))
    decreases |knots|
  {
    if |knots| > 0 {
      var first := CatchUp(knots[0], head);
      CatchUpCloses(knots[0], head);
      assert Chebyshev(knots[0], first) <= 1;
      FollowKeepsTaut(knots[0], first, knots[1..]);
      var r := Follow(knots, head);
      assert r == [first] + Follow(knots[1..], first);
      forall i | 0 < i < |r|
        ensures Chebyshev(r[i - 1], r[i]) <= 1
      {
        if i > 1 {
          assert r[i - 1] == Follow(knots[1..], first)[i - 2];
        }
      }
    }
  }

  /** A line's words start with a non-empty word and then a count. */
  predicate Instruction(words: seq<string>)
  {
    |words| >= 2 && |words[0]| > 0 && Text.ParseNat(words[1]).Some?
  }

  /** One line `R 4`: the direction letter repeated `count` times; `None`
      where the source's `unwrap`s panic. */
  function ExpandLine(line: string): (r: Option<string>)
    ensures r.Some? <==> Instruction(Text.Split(line, ' '))
    ensures r.Some? ==> |r.value| == Text.ParseNat(Text.Split(line, ' ')[1]).value
    ensures r.Some? ==> forall k :: 0 <= k < |r.value| ==> r.value[k] == Text.Split(line, ' ')[0][0]
  {
    var words := Text.Split(line, ' ');
    if |words| < 2 || |words[0]| == 0 then None
    else
      var count :- Text.ParseNat(words[1]);
      Some(seq(count, _ => words[0][0]))
  }

  /** All lines expanded, in order (`inst_list`). */
  function Expand(lines: seq<string>): (r: Option<string>)
  {
    if |lines| == 0 then Some([])
    else
      var first :- ExpandLine(lines[0]);
      var rest :- Expand(lines[1..]);
      Some(first + rest)
  }

  /** The state of `main`'s loop: the head, the two-knot tail, the ten-knot
      rope's nine followers, and the places the two tails have visited. */
  datatype Ropes = Ropes(head: Pos, tail: Pos, multitail: seq<Pos>,
                         tailSeen: set<Pos>, lastSeen: set<Pos>)

  const Origin := Pos(0, 0)

  /** Both ropes start folded up at the origin; the short tail's start is
      recorded, the long tail's is not (as in the source). */
  function Start(): (s: Ropes)
    ensures |s.multitail| == 9 && Taut(s.head, [s.tail]) && Taut(s.head, s.multitail)
  {
    Ropes(Origin, Origin, seq(9, _ => Origin), {Origin}, {})
  }

  /** One pass of the loop body. */
  function Tick(s: Ropes, inst: char): (r: Ropes)
    requires |s.multitail| == 9
    ensures |r.multitail| == 9
    ensures r.tail in r.tailSeen && r.multitail[8] in r.lastSeen
    ensures s.tailSeen <= r.tailSeen && s.lastSeen <= r.lastSeen
  {
    var head := MoveHead(s.head, inst);
    var tail := CatchUp(s.tail, head);
    var multitail := Follow(s.multitail, head);
    Ropes(head, tail, multitail, s.tailSeen + {tail}, s.lastSeen + {multitail[8]})
  }

  function Run(s: Ropes, insts: string): (r: Ropes)
    requires |s.multitail| == 9
    ensures |r.multitail| == 9
    decreases |insts|
  {
    if |insts| == 0 then s else Run(Tick(s, insts[0]), insts[1..])
  }

  /** Both ropes stay taut throughout the run. */
  lemma {:induction false} RunKeepsTaut(s: Ropes, insts: string)
    requires |s.multitail| == 9 && Taut(s.head, [s.tail]) && Taut(s.head, s.multitail)
    ensures Taut(Run(s, insts).head, [Run(s, insts).tail])
    ensures Taut(Run(s, insts).head, Run(s, insts).multitail)
    decreases |insts|
  {
    if |insts| > 0 {
      var head := MoveHead(s.head, insts[0]);
      MoveHeadOneStep(s.head, insts[0], s.tail);
      CatchUpCloses(s.tail, head);
      FollowKeepsTaut(s.head, head, s.multitail);
      RunKeepsTaut(Tick(s, insts[0]), insts[1..]);
    }
  }

  /** The two counts `main` prints, or `None` for a malformed line. */
  function Answers(input: string): (r: Option<(nat, nat)>)
  {
    var insts :- Expand(Text.Lines(input));
    var s := Run(Start(), insts);
    Some((|s.tailSeen|, |s.lastSeen|))
  }

  /** The source's test: a three-knot rope pulled from (3, 2). */
  lemma MultitailExample()
    ensures Follow([Pos(1, 1), Pos(0, 0)], Pos(3, 2)) == [Pos(2, 2), Pos(1, 1)]
  {
  }
}
