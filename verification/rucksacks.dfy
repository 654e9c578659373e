/** Day 3, "Rucksack Reorganization": each line lists a rucksack's items
    as letters, half in each compartment; every group of three lines
    shares a badge item. */
module Rucksacks {
  import opened Wrappers
  import Sorting

  /** `compartments`: the first `len / 2` characters and the next
      `len / 2`; an odd line's last character belongs to neither. */
  function Compartments(line: string): (r: (string, string))
    ensures |r.0| == |r.1| == |line| / 2
    ensures r.0 + r.1 == line[..2 * (|line| / 2)]
    ensures |line| % 2 == 0 ==> r.0 + r.1 == line
  {
    var half := |line| / 2;
    assert line[..half] + line[half..2 * half] == line[..2 * half];
    (line[..half], line[half..2 * half])
  }

  /** The first character of `s` that also occurs in `t`. */
  function FirstShared(s: string, t: string): (r: Option<char>)
    ensures r.None? <==> forall i :: 0 <= i < |s| ==> s[i] !in t
    ensures r.Some? ==> exists i :: (0 <= i < |s| && s[i] == r.value
      && r.value in t && forall j :: 0 <= j < i ==> s[j] !in t)
  {
    if |s| == 0 then None
    else if s[0] in t then
      Some(s[0])
    else
      var r := FirstShared(s[1..], t);
      if r.Some? then
        var i :| 0 <= i < |s[1..]| && s[1..][i] == r.value && r.value in t
          && forall j :: 0 <= j < i ==> s[1..][j] !in t;
        assert s[i + 1] == r.value;
        r
      else
        assert forall i :: 1 <= i < |s| ==> s[i] == s[1..][i - 1];
        r
  }

  /** `FirstShared` finds the item at the first position whose item is shared. */
  lemma {:induction false} FirstSharedAt(s: string, t: string, i: nat)
    requires i < |s| && s[i] in t
    requires forall j :: 0 <= j < i ==> s[j] !in t
    ensures FirstShared(s, t) == Some(s[i])
  {
    if i > 0 {
      FirstSharedAt(s[1..], t, i - 1);
    }
  }

  /** `find_overlap`: the first item of the first compartment that is
      also in the second, or `None` where the source's `unwrap` panics. */
  function FindOverlap(comps: (string, string)): (r: Option<char>)
    ensures r.Some? ==> r.value in comps.0 && r.value in comps.1
    ensures r.None? ==> forall c :: c in comps.0 ==> c !in comps.1
  {
    FirstShared(comps.0, comps.1)
  }

  predicate IsLower(c: char) { 'a' <= c <= 'z' }

  predicate IsUpper(c: char) { 'A' <= c <= 'Z' }

  /** `priority`: `a`..`z` are 1..26 and `A`..`Z` are 27..52; any other
      character is `None`, where the source's `unimplemented!` panics. */
  function Priority(c: char): (r: Option<nat>)
    ensures r.Some? <==> IsLower(c) || IsUpper(c)
    ensures r.Some? ==> 1 <= r.value <= 52
    ensures r.Some? ==> (r.value <= 26 <==> IsLower(c))
  {
    if IsLower(c) then Some(c as int - 96)
    else if IsUpper(c) then Some(c as int - 65 + 27)
    else None
  }

  /** The letter with a given priority. */
  function ItemOf(p: nat): (c: char)
    requires 1 <= p <= 52
  {
    if p <= 26 then (p + 96) as char else (p - 27 + 65) as char
  }

  /** Priorities and letters convert into each other without loss. */
  lemma PriorityRoundTrip(c: char, p: nat)
    ensures Priority(c) == Some(p) <==> 1 <= p <= 52 && ItemOf(p) == c
  {
  }

  /** Different letters have different priorities. */
  lemma PriorityInjective(c: char, d: char)
    requires Priority(c).Some? && Priority(c) == Priority(d)
    ensures c == d
  {
    PriorityRoundTrip(c, Priority(c).value);
    PriorityRoundTrip(d, Priority(d).value);
  }

  /** `badge`: the first item of the group's first line that occurs in
      both other lines. Lines missing from a short last group, and a group
      without a common item, give `None` where the source panics. */
  function Badge(group: seq<string>): (r: Option<char>)
    ensures r.Some? ==> |group| >= 3 && r.value in group[0] && r.value in group[1] && r.value in group[2]
    ensures r.None? && |group| >= 3 ==> forall c :: c in group[0] && c in group[1] ==> c !in group[2]
    ensures |group| >= 3 ==> r == FirstSharedOfBoth(group[0], group[1], group[2])
  {
    if |group| < 3 then None
    else
      var common := Common(group[0], group[1]);
      FirstSharedOfCommon(group[0], group[1], group[2]);
      FirstShared(common, group[2])
  }

  /** The items of `s` that occur in `t`, in order (the source's `filter`). */
  function Common(s: string, t: string): (r: string)
    ensures forall c :: c in r <==> c in s && c in t
  {
    if |s| == 0 then ""
    else
      var rest := Common(s[1..], t);
      assert forall c :: c in s <==> c == s[0] || c in s[1..];
      if s[0] in t then [s[0]] + rest else rest
  }

  /** `Common` keeps the order of `s`, so the first shared item of
      `Common(s, t)` with `u` is the first item of `s` found in both. */
  lemma {:induction false} FirstSharedOfCommon(s: string, t: string, u: string)
    ensures FirstShared(Common(s, t), u) == FirstSharedOfBoth(s, t, u)
  {
    if |s| > 0 {
      FirstSharedOfCommon(s[1..], t, u);
      var rest := Common(s[1..], t);
      if s[0] in t {
        assert ([s[0]] + rest)[1..] == rest;
      }
    }
  }

  /** The first item of `s` found in both `t` and `u`, as a reference. */
  function FirstSharedOfBoth(s: string, t: string, u: string): Option<char>
  {
    if |s| == 0 then None
    else if s[0] in t && s[0] in u then Some(s[0])
    else FirstSharedOfBoth(s[1..], t, u)
  }

  lemma {:induction false} FirstSharedOfBothAt(s: string, t: string, u: string, i: nat)
    requires i < |s| && s[i] in t && s[i] in u
    requires forall j :: 0 <= j < i ==> s[j] !in t || s[j] !in u
    ensures FirstSharedOfBoth(s, t, u) == Some(s[i])
  {
    if i > 0 {
      FirstSharedOfBothAt(s[1..], t, u, i - 1);
    }
  }

  /** The groups of three lines (`chunks(3)`); the last may be shorter. */
  function Chunks(lines: seq<string>): (gs: seq<seq<string>>)
    ensures forall i :: 0 <= i < |gs| ==> 0 < |gs[i]| <= 3
    ensures |gs| == (|lines| + 2) / 3
    decreases |lines|
  {
    if |lines| <= 3 then (if |lines| == 0 then [] else [lines])
    else [lines[..3]] + Chunks(lines[3..])
  }

  /** Chunking loses nothing: the groups concatenate back to the lines. */
  lemma {:induction false} ChunksConcat(lines: seq<string>)
    ensures Flatten(Chunks(lines)) == lines
    decreases |lines|
  {
    if |lines| > 3 {
      ChunksConcat(lines[3..]);
      assert ([lines[..3]] + Chunks(lines[3..]))[1..] == Chunks(lines[3..]);
      assert lines == lines[..3] + lines[3..];
    } else if |lines| > 0 {
      assert Flatten([lines]) == lines + Flatten([]);
    }
  }

  function Flatten(gs: seq<seq<string>>): seq<string>
  {
    if |gs| == 0 then [] else gs[0] + Flatten(gs[1..])
  }

  /** The priority of the item a rucksack's compartments share. */
  function RucksackPriority(line: string): (r: Option<int>)
    ensures r.Some? ==> 1 <= r.value <= 52
  {
    var c :- FindOverlap(Compartments(line));
    var p :- Priority(c);
    Some(p)
  }

  /** The priority of a group's badge. */
  function BadgePriority(group: seq<string>): (r: Option<int>)
    ensures r.Some? ==> 1 <= r.value <= 52
  {
    var c :- Badge(group);
    var p :- Priority(c);
    Some(p)
  }

  /** The two sums `main` prints: of every rucksack's shared-item
      priority, and of every group's badge priority. */
  function PrioritySums(lines: seq<string>): (r: Option<(int, int)>)
    ensures r.Some? ==> |lines| <= r.value.0 <= 52 * |lines|
    ensures r.Some? ==> (|lines| + 2) / 3 <= r.value.1 <= 52 * ((|lines| + 2) / 3)
  {
    var shared :- MapAll(lines, RucksackPriority);
    var badges :- MapAll(Chunks(lines), BadgePriority);
    PrioritiesInRange(lines, RucksackPriority, shared);
    PrioritiesInRange(Chunks(lines), BadgePriority, badges);
    SumBounds(shared, 1, 52);
    SumBounds(badges, 1, 52);
    Some((Sorting.Sum(shared), Sorting.Sum(badges)))
  }

  /** Priorities gathered from every line lie between 1 and 52. */
  lemma PrioritiesInRange<T>(xs: seq<T>, f: T -> Option<int>, vs: seq<int>)
    requires forall x :: f(x).Some? ==> 1 <= f(x).value <= 52
    requires MapAll(xs, f) == Some(vs)
    ensures |vs| == |xs|
    ensures forall i :: 0 <= i < |vs| ==> 1 <= vs[i] <= 52
  {
    forall i | 0 <= i < |vs| ensures 1 <= vs[i] <= 52 {
      assert f(xs[i]) == Some(vs[i]);
    }
  }

  lemma {:induction false} SumBounds(xs: seq<int>, lo: int, hi: int)
    requires forall i :: 0 <= i < |xs| ==> lo <= xs[i] <= hi
    ensures lo * |xs| <= Sorting.Sum(xs) <= hi * |xs|
  {
    if |xs| > 0 {
      SumBounds(xs[1..], lo, hi);
    }
  }

  lemma PriorityExamples()
    ensures Priority('a') == Some(1) && Priority('A') == Some(27)
    ensures Priority('p') == Some(16) && Priority('r') == Some(18)
  {
  }

  lemma CompartmentsExample()
    ensures Compartments("vJrwpWtwJgWrhcsFMMfFFhFp") == ("vJrwpWtwJgWr", "hcsFMMfFFhFp")
  {
    var s := "vJrwpWtwJgWrhcsFMMfFFhFp";
    assert s[..12] == "vJrwpWtwJgWr";
    assert s[12..24] == "hcsFMMfFFhFp";
  }

  lemma OverlapExample()
    ensures FindOverlap(("vJrwpWtwJgWr", "hcsFMMfFFhFp")) == Some('p')
  {
    var s, t := "vJrwpWtwJgWr", "hcsFMMfFFhFp";
    assert s[4] == 'p' && 'p' in t by { assert t[11] == 'p'; }
    assert forall j :: 0 <= j < 4 ==> s[j] !in t;
    FirstSharedAt(s, t, 4);
  }
}
