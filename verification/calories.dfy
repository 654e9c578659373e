/** Day 1, "Calorie Counting": the input lists each elf's snacks one
    calorie count per line, with a blank line between elves. */
module Calories {
  import opened Wrappers
  import Text
  import Sorting

  /** One elf's total, as an independent reference: the sum of its parsed lines. */
  function ElfTotal(block: string): Option<int>
  {
    match MapAll(Text.Lines(block), Text.ParseInt)
    case None => None
    case Some(vs) => Some(Sorting.Sum(vs))
  }

  /** The elves' blocks: the text between blank lines. */
  function Blocks(text: string): (bs: seq<string>)
    ensures |bs| > 0
  {
    Text.SplitOn(text, "\n\n")
  }

  /** The totals of all elves, in input order, as a reference definition. */
  function ElfTotals(text: string): (r: Option<seq<int>>)
    ensures r.Some? ==> |r.value| == |Blocks(text)| > 0
  {
    MapAll(Blocks(text), ElfTotal)
  }

  /** `process_elfs_calories`: add up the lines, giving `None` at the
      first line that does not parse. */
  method ElfCalories(block: string) returns (r: Option<int>)
    ensures r.None? <==> exists i :: 0 <= i < |Text.Lines(block)| && Text.ParseInt(Text.Lines(block)[i]).None?
    ensures r == ElfTotal(block)
  {
    var ls := Text.Lines(block);
    var total := 0;
    var i := 0;
    while i < |ls|
      invariant 0 <= i <= |ls|
      invariant MapAll(ls[..i], Text.ParseInt).Some?
      invariant total == Sorting.Sum(MapAll(ls[..i], Text.ParseInt).value)
    {
      assert ls[..i + 1][..i] == ls[..i];
      match Text.ParseInt(ls[i]) {
        case None =>
          return None;
        case Some(v) =>
          Sorting.SumSnoc(MapAll(ls[..i], Text.ParseInt).value, v);
          total := total + v;
      }
      i := i + 1;
    }
    assert ls[..i] == ls;
    r := Some(total);
  }

  /** `process_calories`: one total per block, in input order. */
  method ProcessCalories(text: string) returns (r: Option<seq<int>>)
    ensures r.Some? <==> forall i :: 0 <= i < |Blocks(text)| ==> ElfTotal(Blocks(text)[i]).Some?
    ensures r == ElfTotals(text)
  {
    var bs := Blocks(text);
    var totals: seq<int> := [];
    var i := 0;
    while i < |bs|
      invariant 0 <= i <= |bs|
      invariant MapAll(bs[..i], ElfTotal) == Some(totals)
    {
      assert bs[..i + 1][..i] == bs[..i];
      var c := ElfCalories(bs[i]);
      if c.None? {
        return None;
      }
      totals := totals + [c.value];
      i := i + 1;
    }
    assert bs[..i] == bs;
    r := Some(totals);
  }

  /** `find_elf_with_most_calories`: the largest total. There is always
      at least one block, so the source's `unwrap` cannot fail; `None`
      stands only for a line that does not parse. */
  method MostCalories(text: string) returns (r: Option<int>)
    ensures r.Some? <==> ElfTotals(text).Some?
    ensures r.Some? ==> r.value in ElfTotals(text).value
    ensures r.Some? ==> forall i :: 0 <= i < |ElfTotals(text).value| ==> ElfTotals(text).value[i] <= r.value
  {
    var totals := ProcessCalories(text);
    if totals.None? {
      return None;
    }
    var best := Largest(totals.value);
    r := Some(best);
  }

  /** `iter().max()` on a non-empty vector. */
  method Largest(cs: seq<int>) returns (best: int)
    requires |cs| > 0
    ensures best in cs
    ensures forall j :: 0 <= j < |cs| ==> cs[j] <= best
  {
    best := cs[0];
    var i := 1;
    while i < |cs|
      invariant 1 <= i <= |cs|
      invariant best in cs[..i]
      invariant forall j :: 0 <= j < i ==> cs[j] <= best
    {
      if cs[i] > best {
        best := cs[i];
      }
      i := i + 1;
    }
    assert cs[..i] == cs;
  }

  /** `find_elves_with_most_calories`: sort the totals, reverse them and
      add the first three. `None` when a line does not parse or when there
      are fewer than three elves (where the source's `unwrap` panics). */
  method MostCaloriesOfThree(text: string) returns (r: Option<int>)
    ensures r.Some? <==> ElfTotals(text).Some? && |Blocks(text)| >= 3
    ensures r.Some? ==> r.value == Sorting.Top(Sorting.Sort(ElfTotals(text).value), 3)
  {
    var totals := ProcessCalories(text);
    if totals.None? || |totals.value| < 3 {
      return None;
    }
    var sorted := Sorting.Sort(totals.value);
    var n := |sorted|;
    // Reversing and taking the first three takes the last three.
    r := Some(sorted[n - 1] + sorted[n - 2] + sorted[n - 3]);
    TopThree(sorted);
  }

  lemma TopThree(s: seq<int>)
    requires |s| >= 3
    ensures Sorting.Top(s, 3) == s[|s| - 1] + s[|s| - 2] + s[|s| - 3]
  {
    var n := |s|;
    assert s[n - 3..] == [s[n - 3], s[n - 2], s[n - 1]];
    SumThree(s[n - 3], s[n - 2], s[n - 1]);
  }

  lemma SumThree(a: int, b: int, c: int)
    ensures Sorting.Sum([a, b, c]) == a + b + c
  {
    assert [c][1..] == [];
    assert Sorting.Sum([c]) == c;
    assert [b, c][1..] == [c];
    assert Sorting.Sum([b, c]) == b + c;
    assert [a, b, c][1..] == [b, c];
  }

  /** The answer is at least the calories of any three different elves. */
  lemma ThreeLargest(totals: seq<int>, i: nat, j: nat, k: nat)
    requires i < |totals| && j < |totals| && k < |totals|
    requires i != j && j != k && i != k
    ensures totals[i] + totals[j] + totals[k] <= Sorting.Top(Sorting.Sort(totals), 3)
  {
    var idx: seq<nat> := [i, j, k];
    ThreePositions(totals, i, j, k);
    SumThree(totals[i], totals[j], totals[k]);
    Sorting.TopIsLargest(totals, idx);
  }

  /** Three different elves are a choice of positions, picking their totals. */
  lemma ThreePositions(totals: seq<int>, i: nat, j: nat, k: nat)
    requires i < |totals| && j < |totals| && k < |totals|
    requires i != j && j != k && i != k
    ensures Sorting.Positions(totals, [i, j, k])
    ensures Sorting.Pick(totals, [i, j, k]) == [totals[i], totals[j], totals[k]]
  {
    var idx: seq<nat> := [i, j, k];
    assert idx[0] == i && idx[1] == j && idx[2] == k;
    forall m, n | 0 <= m < n < |idx|
      ensures idx[m] != idx[n]
    {
      if m == 0 && n == 1 {
      } else if m == 0 {
        assert n == 2;
      } else {
        assert m == 1 && n == 2;
      }
    }
    var p := Sorting.Pick(totals, idx);
    assert p[0] == totals[i] && p[1] == totals[j] && p[2] == totals[k];
  }
}
