/** Day 4, "Camp Cleanup": each line holds two section ranges `a-b,c-d`;
    count the pairs where one range contains the other, and the pairs
    that overlap at all. */
module CampCleanup {
  import opened Wrappers
  import Text

  /** The two tests `main` filters with, on the line's numbers
      `v[0]-v[1],v[2]-v[3]`. */
  predicate Contained(v: seq<nat>)
    requires |v| >= 4
  {
    (v[0] <= v[2] && v[1] >= v[3]) || (v[0] >= v[2] && v[1] <= v[3])
  }

  predicate Overlapping(v: seq<nat>)
    requires |v| >= 4
  {
    !(v[1] < v[2] || v[3] < v[0])
  }

  /** The section `x` lies in the range `lo..=hi`. */
  predicate InRange(x: int, lo: int, hi: int) { lo <= x <= hi }

  /** For non-empty ranges, containment means that every section of one
      range is a section of the other. */
  lemma ContainedMeansSubset(v: seq<nat>)
    requires |v| >= 4 && v[0] <= v[1] && v[2] <= v[3]
    ensures Contained(v) <==>
      (forall x :: InRange(x, v[0], v[1]) ==> InRange(x, v[2], v[3]))
      || (forall x :: InRange(x, v[2], v[3]) ==> InRange(x, v[0], v[1]))
  {
    if !Contained(v) {
      if v[0] < v[2] {
        assert InRange(v[0], v[0], v[1]) && !InRange(v[0], v[2], v[3]);
        assert InRange(v[3], v[2], v[3]) && !InRange(v[3], v[0], v[1]);
      } else if v[0] > v[2] {
        assert InRange(v[2], v[2], v[3]) && !InRange(v[2], v[0], v[1]);
        assert InRange(v[1], v[0], v[1]) && !InRange(v[1], v[2], v[3]);
      } else {
        assert false;
      }
    }
  }

  /** Overlap means that some section lies in both ranges. */
  lemma OverlappingMeansShared(v: seq<nat>)
    requires |v| >= 4 && v[0] <= v[1] && v[2] <= v[3]
    ensures Overlapping(v) <==> exists x :: InRange(x, v[0], v[1]) && InRange(x, v[2], v[3])
  {
    if Overlapping(v) {
      var x := if v[0] <= v[2] then v[2] else v[0];
      assert InRange(x, v[0], v[1]) && InRange(x, v[2], v[3]);
    }
  }

  /** Containment implies overlap, for non-empty ranges. */
  lemma ContainedOverlaps(v: seq<nat>)
    requires |v| >= 4 && v[0] <= v[1] && v[2] <= v[3]
    ensures Contained(v) ==> Overlapping(v)
  {
  }

  /** ... but not when a range is empty: `5-3,4-9` counts as contained and not overlapping. */
  lemma EmptyRangeContainedNotOverlapping()
    ensures Contained([5, 3, 4, 9]) && !Overlapping([5, 3, 4, 9])
  {
  }

  /** The line's two ranges in the other order. */
  function Swap(v: seq<nat>): (w: seq<nat>)
    requires |v| >= 4
    ensures |w| == 4 && w[0] == v[2] && w[1] == v[3] && w[2] == v[0] && w[3] == v[1]
  {
    [v[2], v[3], v[0], v[1]]
  }

  /** Both tests are symmetric in the two ranges. */
  lemma Symmetric(v: seq<nat>)
    requires |v| >= 4
    ensures Contained(v) <==> Contained(Swap(v))
    ensures Overlapping(v) <==> Overlapping(Swap(v))
  {
  }

  /** `a-b,c-d` with the dashes read as commas. */
  function DashToComma(c: char): char { if c == '-' then ',' else c }

  /** A line split at every `,` and `-` (`split([',', '-'])`), each piece
      parsed as a `usize`. `None` where a piece does not parse or there are
      fewer than four, where the source panics. */
  function ParseLine(line: string): (r: Option<seq<nat>>)
    ensures r.Some? ==> |r.value| >= 4
  {
    var pieces := Text.Split(seq(|line|, i requires 0 <= i < |line| => DashToComma(line[i])), ',');
    var v :- MapAll(pieces, Text.ParseNat);
    if |v| < 4 then None else Some(v)
  }

  /** How many pairs pass a test (`filter(..).count()`). */
  function Count(pairs: seq<seq<nat>>, test: seq<nat> -> bool): (n: nat)
    ensures n <= |pairs|
  {
    if |pairs| == 0 then 0
    else Count(pairs[1..], test) + (if test(pairs[0]) then 1 else 0)
  }

  /** A test that passes whenever another one does passes at least as often. */
  lemma {:induction false} CountMonotone(pairs: seq<seq<nat>>, p: seq<nat> -> bool, q: seq<nat> -> bool)
    requires forall i :: 0 <= i < |pairs| ==> p(pairs[i]) ==> q(pairs[i])
    ensures Count(pairs, p) <= Count(pairs, q)
  {
    if |pairs| > 0 {
      CountMonotone(pairs[1..], p, q);
    }
  }

  predicate WellFormed(v: seq<nat>) { |v| >= 4 && v[0] <= v[1] && v[2] <= v[3] }

  /** The two counts `main` prints: contained pairs, then overlapping
      pairs. `None` where a line does not parse. */
  function Counts(input: string): (r: Option<(nat, nat)>)
    ensures r.Some? ==> r.value.0 <= |Text.Lines(input)| && r.value.1 <= |Text.Lines(input)|
  {
    var pairs :- MapAll(Text.Lines(input), ParseLine);
    Some((Count(pairs, v => |v| >= 4 && Contained(v)), Count(pairs, v => |v| >= 4 && Overlapping(v))))
  }

  /** With well-formed ranges, no more pairs are contained than overlap. */
  lemma ContainedAtMostOverlapping(pairs: seq<seq<nat>>)
    requires forall i :: 0 <= i < |pairs| ==> WellFormed(pairs[i])
    ensures Count(pairs, v => |v| >= 4 && Contained(v)) <= Count(pairs, v => |v| >= 4 && Overlapping(v))
  {
    forall i | 0 <= i < |pairs|
      ensures |pairs[i]| >= 4 && Contained(pairs[i]) ==> Overlapping(pairs[i])
    {
      ContainedOverlaps(pairs[i]);
    }
    CountMonotone(pairs, v => |v| >= 4 && Contained(v), v => |v| >= 4 && Overlapping(v));
  }

  lemma Examples()
    ensures Contained([2, 8, 3, 7]) && Contained([6, 6, 4, 6])
    ensures !Contained([2, 4, 6, 8]) && !Overlapping([2, 4, 6, 8])
    ensures Overlapping([5, 7, 7, 9]) && !Contained([5, 7, 7, 9])
  {
  }
}
