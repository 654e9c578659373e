/** Pairs of `usize` coordinates, ordered as Rust orders tuples (first
    component, then second), and the `sort_unstable` + `dedup` idiom on
    lists of them. */
module Coords {
  datatype Cell = Cell(i: nat, j: nat)

  /** Row-major order: the derived order on `(usize, usize)`. */
  predicate Before(a: Cell, b: Cell)
  {
    a.i < b.i || (a.i == b.i && a.j < b.j)
  }

  predicate Increasing(s: seq<Cell>)
  {
    forall x, y :: 0 <= x < y < |s| ==> Before(s[x], s[y])
  }

  /** Insert into an increasing list, keeping it increasing and dropping a
      duplicate. */
  function InsertCell(c: Cell, s: seq<Cell>): (r: seq<Cell>)
    requires Increasing(s)
    ensures Increasing(r)
    ensures forall q :: q in r <==> q in s || q == c
  {
    if |s| == 0 then [c]
    else if c == s[0] then s
    else if Before(c, s[0]) then [c] + s
    else
      var rest := InsertCell(c, s[1..]);
      assert forall q :: q in rest ==> Before(s[0], q) by {
        forall q | q in rest ensures Before(s[0], q) {
          if q != c {
            var x :| 0 <= x < |s[1..]| && s[1..][x] == q;
            assert s[x + 1] == q;
          }
        }
      }
      [s[0]] + rest
  }

  /** `sort_unstable` followed by `dedup`: the distinct cells, in order. */
  function SortDedup(xs: seq<Cell>): (r: seq<Cell>)
    ensures Increasing(r)
    ensures forall q :: q in r <==> q in xs
  {
    if |xs| == 0 then [] else InsertCell(xs[|xs| - 1], SortDedup(xs[..|xs| - 1]))
  }

  /** An increasing list is determined by its members, so sorting and
      removing duplicates gives the one increasing enumeration of a set of
      cells, whatever order the cells came in. */
  lemma {:induction false} IncreasingUnique(s: seq<Cell>, t: seq<Cell>)
    requires Increasing(s) && Increasing(t)
    requires forall q :: q in s <==> q in t
    ensures s == t
    decreases |s|
  {
    if |s| > 0 {
      assert s[0] in t;
    }
    if |t| > 0 {
      assert t[0] in s;
    }
    if |s| > 0 && |t| > 0 {
      assert s[0] == t[0] by {
        var x :| 0 <= x < |t| && t[x] == s[0];
        var y :| 0 <= y < |s| && s[y] == t[0];
        assert x == 0 || Before(t[0], s[0]);
        assert y == 0 || Before(s[0], t[0]);
      }
      forall q
        ensures q in s[1..] <==> q in t[1..]
      {
        if q in s[1..] {
          var x :| 0 <= x < |s[1..]| && s[1..][x] == q;
          assert Before(s[0], s[x + 1]);
          assert s[x + 1] in s;
          var y :| 0 <= y < |t| && t[y] == q;
          assert y != 0;
          assert t[1..][y - 1] == q;
        }
        if q in t[1..] {
          var x :| 0 <= x < |t[1..]| && t[1..][x] == q;
          assert Before(t[0], t[x + 1]);
          assert t[x + 1] in t;
          var y :| 0 <= y < |s| && s[y] == q;
          assert y != 0;
          assert s[1..][y - 1] == q;
        }
      }
      IncreasingUnique(s[1..], t[1..]);
    }
  }
}
