/** Sorting integer sequences, for the solvers that call `sort` or
    `sort_unstable` on a vector of integers. Both Rust sorts produce the
    unique ascending rearrangement, so one definition serves both. */
module Sorting {

  predicate Ascending(s: seq<int>)
  {
    forall i, j :: 0 <= i < j < |s| ==> s[i] <= s[j]
  }

  /** Insert `x` in front of the first element that is not smaller. */
  function Insert(x: int, s: seq<int>): (r: seq<int>)
    requires Ascending(s)
    ensures Ascending(r)
    ensures multiset(r) == multiset(s) + multiset{x}
    ensures |r| == |s| + 1
  {
    if |s| == 0 || x <= s[0] then [x] + s
    else
      var rest := Insert(x, s[1..]);
      assert s == [s[0]] + s[1..];
      assert forall k :: 0 <= k < |rest| ==> s[0] <= rest[k] by {
        forall k | 0 <= k < |rest| ensures s[0] <= rest[k] {
          assert rest[k] in multiset(rest);
        }
      }
      [s[0]] + rest
  }

  /** `sort` / `sort_unstable` on integers. */
  function Sort(xs: seq<int>): (r: seq<int>)
    ensures Ascending(r)
    ensures multiset(r) == multiset(xs)
    ensures |r| == |xs|
  {
    if |xs| == 0 then []
    else
      assert xs == [xs[0]] + xs[1..];
      Insert(xs[0], Sort(xs[1..]))
  }

  /** Elements left of position `m` of an ascending sequence are at most
      `s[m]`, and those right of it at least `s[m]`. */
  lemma AscendingAround(s: seq<int>, m: nat)
    requires Ascending(s) && m < |s|
    ensures forall k :: 0 <= k < m ==> s[k] <= s[m]
    ensures forall k :: m < k < |s| ==> s[m] <= s[k]
  {
  }

  /** Two ascending rearrangements of the same numbers are equal. */
  lemma {:induction false} SortedUnique(s: seq<int>, t: seq<int>)
    requires Ascending(s) && Ascending(t) && multiset(s) == multiset(t)
    ensures s == t
    decreases |s|
  {
    assert |s| == |multiset(s)| == |t|;
    if |s| > 0 {
      var n := |s| - 1;
      SameLast(s, t);
      assert s == s[..n] + [s[n]] && t == t[..n] + [t[n]];
      MultisetCancel(multiset(s[..n]), multiset(t[..n]), s[n]);
      AscendingPrefix(s, n);
      AscendingPrefix(t, n);
      SortedUnique(s[..n], t[..n]);
    }
  }

  lemma SameLast(s: seq<int>, t: seq<int>)
    requires Ascending(s) && Ascending(t) && multiset(s) == multiset(t)
    requires |s| > 0 && |s| == |t|
    ensures s[|s| - 1] == t[|t| - 1]
  {
    var n := |s| - 1;
    assert s[n] in multiset(t) && t[n] in multiset(s);
    var i :| 0 <= i < |t| && t[i] == s[n];
    var j :| 0 <= j < |s| && s[j] == t[n];
    assert t[i] <= t[n] by { if i < n { assert Ascending(t); } }
    assert s[j] <= s[n] by { if j < n { assert Ascending(s); } }
  }

  lemma AscendingPrefix(s: seq<int>, n: nat)
    requires Ascending(s) && n <= |s|
    ensures Ascending(s[..n])
  {
  }

  lemma MultisetCancel(a: multiset<int>, b: multiset<int>, x: int)
    requires a + multiset{x} == b + multiset{x}
    ensures a == b
  {
    assert forall v :: a[v] == (a + multiset{x})[v] - (if v == x then 1 else 0);
    assert forall v :: b[v] == (b + multiset{x})[v] - (if v == x then 1 else 0);
  }

  /** So `Sort` is the ascending rearrangement, whatever the input order. */
  lemma SortIsRearrangement(xs: seq<int>, s: seq<int>)
    requires Ascending(s) && multiset(s) == multiset(xs)
    ensures Sort(xs) == s
  {
    SortedUnique(Sort(xs), s);
  }

  function Sum(xs: seq<int>): int
  {
    if |xs| == 0 then 0 else xs[0] + Sum(xs[1..])
  }

  lemma SumSnoc(xs: seq<int>, x: int)
    ensures Sum(xs + [x]) == Sum(xs) + x
  {
    if |xs| > 0 {
      assert (xs + [x])[1..] == xs[1..] + [x];
      SumSnoc(xs[1..], x);
    }
  }

  /** The sum of the last `k` elements: for an ascending sequence, the sum of its `k` largest. */
  function Top(s: seq<int>, k: nat): int
    requires k <= |s|
  {
    Sum(s[|s| - k..])
  }

  /** Distinct positions of `t`. */
  predicate Positions(t: seq<int>, idx: seq<nat>)
  {
    (forall m :: 0 <= m < |idx| ==> idx[m] < |t|)
    && (forall m, n :: 0 <= m < n < |idx| ==> idx[m] != idx[n])
  }

  /** The elements of `t` at the positions `idx`. */
  function Pick(t: seq<int>, idx: seq<nat>): (r: seq<int>)
    requires Positions(t, idx)
    ensures |r| == |idx| && forall m :: 0 <= m < |idx| ==> r[m] == t[idx[m]]
  {
    seq(|idx|, m requires 0 <= m < |idx| => t[idx[m]])
  }

  /** No choice of `k` distinct elements of `t` sums to more than the `k`
      largest, which is what `Top` of the sorted sequence adds up. */
  lemma {:induction false} TopIsLargest(t: seq<int>, idx: seq<nat>)
    requires Positions(t, idx)
    ensures |idx| <= |t|
    ensures Sum(Pick(t, idx)) <= Top(Sort(t), |idx|)
    decreases |t|
  {
    if |idx| == 0 {
      assert Sort(t)[|Sort(t)|..] == [];
    } else if p :| 0 <= p < |idx| && idx[p] == 0 {
      assert idx[0] < |t|;
      TopWithHead(t, idx, p);
    } else {
      assert idx[0] < |t|;
      TopWithoutHead(t, idx);
    }
  }

  /** The chosen positions include the first one. */
  lemma {:induction false} TopWithHead(t: seq<int>, idx: seq<nat>, p: nat)
    requires Positions(t, idx) && p < |idx| && idx[p] == 0
    ensures |idx| <= |t|
    ensures Sum(Pick(t, idx)) <= Top(Sort(t), |idx|)
    decreases |t|, 1
  {
    var x, t' := t[0], t[1..];
    assert Sort(t) == Insert(x, Sort(t')) by {
      assert t == [x] + t';
    }
    var rest := RemovePosition(t, idx, p);
    TopOfTail(t, rest);
    var below := Top(Sort(t'), |idx| - 1);
    assert Sum(Pick(t, idx)) <= x + below;
    InsertTop(x, Sort(t'), |idx|);
    assert x + below <= Top(Sort(t), |idx|);
  }

  /** Positions that all lie in the tail pick no more than the largest of the tail. */
  lemma {:induction false} TopOfTail(t: seq<int>, idx: seq<nat>)
    requires |t| > 0 && Positions(t, idx)
    requires forall m :: 0 <= m < |idx| ==> idx[m] > 0
    ensures |idx| <= |t| - 1
    ensures Sum(Pick(t, idx)) <= Top(Sort(t[1..]), |idx|)
    decreases |t|, 0
  {
    PickShift(t, idx);
    TopIsLargest(t[1..], Shift(idx));
  }

  /** The chosen positions all lie in the tail. */
  lemma {:induction false} TopWithoutHead(t: seq<int>, idx: seq<nat>)
    requires |t| > 0 && Positions(t, idx)
    requires forall m :: 0 <= m < |idx| ==> idx[m] != 0
    ensures |idx| <= |t|
    ensures Sum(Pick(t, idx)) <= Top(Sort(t), |idx|)
    decreases |t|, 0
  {
    var x, t' := t[0], t[1..];
    assert t == [x] + t';
    PickShift(t, idx);
    TopIsLargest(t', Shift(idx));
    InsertTop(x, Sort(t'), |idx| + 1);
    if |idx| > 0 {
      InsertTop(x, Sort(t'), |idx|);
    }
  }

  /** Dropping the choice of the first position, whose element leaves the sum. */
  lemma RemovePosition(t: seq<int>, idx: seq<nat>, p: nat) returns (rest: seq<nat>)
    requires Positions(t, idx) && p < |idx| && idx[p] == 0
    ensures |rest| == |idx| - 1 && Positions(t, rest)
    ensures forall m :: 0 <= m < |rest| ==> rest[m] > 0
    ensures Sum(Pick(t, idx)) == t[0] + Sum(Pick(t, rest))
  {
    rest := idx[..p] + idx[p + 1..];
    assert forall m :: 0 <= m < |rest| ==> rest[m] == idx[if m < p then m else m + 1];
    var a := Pick(t, idx);
    assert a[..p] + a[p + 1..] == Pick(t, rest);
    SumRemove(a, p);
  }

  /** Positions one to the left, for the tail of a sequence. */
  function Shift(idx: seq<nat>): (r: seq<nat>)
    requires forall m :: 0 <= m < |idx| ==> idx[m] > 0
    ensures |r| == |idx| && forall m :: 0 <= m < |idx| ==> r[m] == idx[m] - 1
  {
    seq(|idx|, m requires 0 <= m < |idx| => idx[m] - 1)
  }

  lemma PickShift(t: seq<int>, idx: seq<nat>)
    requires |t| > 0 && Positions(t, idx)
    requires forall m :: 0 <= m < |idx| ==> idx[m] > 0
    ensures Positions(t[1..], Shift(idx))
    ensures Pick(t[1..], Shift(idx)) == Pick(t, idx)
  {
  }

  /** Taking one element out of a sum. */
  lemma {:induction false} SumRemove(a: seq<int>, p: nat)
    requires p < |a|
    ensures Sum(a) == a[p] + Sum(a[..p] + a[p + 1..])
  {
    if p > 0 {
      SumRemove(a[1..], p - 1);
      assert a[1..][..p - 1] + a[1..][p..] == (a[..p] + a[p + 1..])[1..];
    } else {
      assert a[..p] + a[p + 1..] == a[1..];
    }
  }

  /** Inserting `x` does not lower the sum of the `k` largest, and the
      inserted element plus the `k - 1` largest of the rest are at most
      the `k` largest afterwards. */
  lemma {:induction false} InsertTop(x: int, s: seq<int>, k: nat)
    requires Ascending(s) && 1 <= k <= |s| + 1
    ensures k <= |s| ==> Top(s, k) <= Top(Insert(x, s), k)
    ensures x + Top(s, k - 1) <= Top(Insert(x, s), k)
    decreases |s|
  {
    if |s| == 0 || x <= s[0] {
      InsertTopFront(x, s, k);
    } else {
      var s' := s[1..];
      var r' := Insert(x, s');
      assert s == [s[0]] + s';
      assert Insert(x, s) == [s[0]] + r';
      AscendingSuffix(s);
      TopCons(s[0], s');
      TopCons(s[0], r');
      if k <= |s'| {
        InsertTop(x, s', k);
      } else if k == |s| {
        InsertTop(x, s', k);
      } else {
        InsertTop(x, s', k - 1);
      }
    }
  }

  /** `InsertTop` when `x` goes in front. */
  lemma InsertTopFront(x: int, s: seq<int>, k: nat)
    requires Ascending(s) && 1 <= k <= |s| + 1
    requires |s| == 0 || x <= s[0]
    ensures k <= |s| ==> Top(s, k) <= Top(Insert(x, s), k)
    ensures x + Top(s, k - 1) <= Top(Insert(x, s), k)
  {
    assert Insert(x, s) == [x] + s;
    TopCons(x, s);
    if k <= |s| {
      TopStep(s, k);
      assert s[0] <= s[|s| - k] by { if 0 < |s| - k { assert Ascending(s); } }
    }
  }

  lemma AscendingSuffix(s: seq<int>)
    requires Ascending(s) && |s| > 0
    ensures Ascending(s[1..])
  {
  }

  /** `Top` of a sequence with one more element in front. */
  lemma TopCons(a: int, r: seq<int>)
    ensures forall k :: 0 <= k <= |r| ==> Top([a] + r, k) == Top(r, k)
    ensures Top([a] + r, |r| + 1) == a + Top(r, |r|)
  {
    forall k | 0 <= k <= |r| ensures Top([a] + r, k) == Top(r, k) {
      assert ([a] + r)[|r| + 1 - k..] == r[|r| - k..];
    }
    assert ([a] + r)[0..] == [a] + r;
    assert ([a] + r)[1..] == r[0..];
  }

  /** `Top(s, k)` is the `k`-th largest plus `Top(s, k - 1)`. */
  lemma TopStep(s: seq<int>, k: nat)
    requires 1 <= k <= |s|
    ensures Top(s, k) == s[|s| - k] + Top(s, k - 1)
  {
    assert s[|s| - k..][1..] == s[|s| - (k - 1)..];
  }

  predicate StrictlyAscending(s: seq<int>)
  {
    forall i, j :: 0 <= i < j < |s| ==> s[i] < s[j]
  }

  /** `dedup` on an ascending list: each run of equal values kept once. */
  function Dedup(s: seq<int>): (r: seq<int>)
    requires Ascending(s)
    ensures StrictlyAscending(r)
    ensures forall x :: x in r <==> x in s
    ensures |r| > 0 ==> |s| > 0 && r[0] == s[0]
  {
    if |s| <= 1 then s
    else
      var rest := Dedup(s[1..]);
      if s[0] == s[1] then rest
      else
        assert forall x :: x in rest ==> s[0] < x by {
          forall x | x in rest ensures s[0] < x {
            var k :| 0 <= k < |s[1..]| && s[1..][k] == x;
            assert s[k + 1] == x;
          }
        }
        [s[0]] + rest
  }

  /** A strictly ascending list has one entry per distinct value, so the
      length after `sort` and `dedup` counts the distinct values. */
  lemma {:induction false} StrictLengthIsCount(s: seq<int>)
    requires StrictlyAscending(s)
    ensures |s| == |set x | x in s|
  {
    if |s| > 0 {
      StrictLengthIsCount(s[1..]);
      assert (set x | x in s) == {s[0]} + (set x | x in s[1..]);
      assert s[0] !in (set x | x in s[1..]);
    }
  }

  /** The number of distinct values: the length after `sort` and `dedup`. */
  function DistinctCount(xs: seq<int>): (n: nat)
    ensures n == |set x | x in xs|
  {
    var r := Dedup(Sort(xs));
    assert (set x | x in r) == (set x | x in xs) by {
      forall x ensures x in r <==> x in xs {
        assert x in Sort(xs) <==> x in multiset(Sort(xs));
      }
    }
    StrictLengthIsCount(r);
    |r|
  }
}
