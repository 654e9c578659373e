/** Day 13, "Distress Signal": nested lists of integers, printed and parsed
    in bracket notation and compared element by element, an integer
    against a list being compared as a one-element list. */
module Packets {
  import opened Wrappers
  import Text

  datatype Packet = List(items: seq<Packet>) | Int(n: nat)

  datatype Ordering = Less | Equal | Greater

  /** The nodes of a packet, a measure for the mutual recursions below. */
  function Size(p: Packet): nat
    ensures Size(p) >= 1
  {
    match p
    case Int(_) => 1
    case List(xs) => 1 + SizeSeq(xs)
  }

  function SizeSeq(xs: seq<Packet>): (n: nat)
    ensures n >= |xs|
    ensures |xs| == 1 ==> n == Size(xs[0])
  {
    if |xs| == 0 then 0 else Size(xs[0]) + SizeSeq(xs[1..])
  }

  /** `Display`: an integer in decimal, a list as its items printed,
      separated by commas and enclosed in brackets. */
  function Show(p: Packet): (s: string)
    ensures |s| > 0
    ensures p.Int? ==> Text.AllDigits(s) && Text.DigitsValue(s) == p.n
    ensures p.List? ==> s[0] == '[' && s[|s| - 1] == ']'
    decreases Size(p), 0
  {
    match p
    case Int(n) => Text.NatToString(n)
    case List(xs) => "[" + ShowItems(xs) + "]"
  }

  function ShowItems(xs: seq<Packet>): string
    decreases SizeSeq(xs), 1
  {
    if |xs| == 0 then ""
    else if |xs| == 1 then Show(xs[0])
    else Show(xs[0]) + "," + ShowItems(xs[1..])
  }

  /** The items are printed the way `map(...).collect().join(",")` does. */
  lemma {:induction false} ShowItemsIsJoin(xs: seq<Packet>)
    ensures ShowItems(xs) == Text.Join(seq(|xs|, i requires 0 <= i < |xs| => Show(xs[i])), ',')
    decreases |xs|
  {
    if |xs| > 1 {
      ShowItemsIsJoin(xs[1..]);
      var shown := seq(|xs|, i requires 0 <= i < |xs| => Show(xs[i]));
      assert shown[1..] == seq(|xs[1..]|, i requires 0 <= i < |xs[1..]| => Show(xs[1..][i]));
    }
  }

  /** The source's example. */
  lemma ShowExample()
    ensures Show(List([Int(1), List([Int(2), Int(3)])])) == "[1,[2,3]]"
  {
    assert Show(List([Int(2), Int(3)])) == "[2,3]";
  }

  /** `parse`, given the text after an opening bracket: digits gather in
      `current`; a comma or closing bracket ends a pending number; an
      opening bracket parses a nested list; the closing bracket returns the
      list with the rest of the input. `None` where the source reaches
      `unreachable!`: another character, or the input running out. */
  function ParseFrom(s: string, ret: seq<Packet>, current: string): (r: Option<(Packet, string)>)
    requires Text.AllDigits(current)
    ensures r.Some? ==> r.value.0.List? && |r.value.1| < |s|
    decreases |s|
  {
    if |s| == 0 then None
    else
      var c := s[0];
      if c == '[' then
        var (p, rest) :- ParseFrom(s[1..], [], "");
        ParseFrom(rest, ret + [p], current)
      else if Text.IsDigit(c) then ParseFrom(s[1..], ret, current + [c])
      else if c == ',' then
        if |current| > 0 then ParseFrom(s[1..], ret + [Int(Text.DigitsValue(current))], "")
        else ParseFrom(s[1..], ret, current)
      else if c == ']' then
        Some((List(if |current| > 0 then ret + [Int(Text.DigitsValue(current))] else ret), s[1..]))
      else None
  }

  /** `parse(&mut line.chars().skip(1))`: the first character is skipped
      unread, and any text after the matching bracket is ignored. */
  function ParseLine(line: string): (r: Option<Packet>)
    ensures r.Some? ==> r.value.List?
  {
    if |line| == 0 then None
    else
      var (p, _) :- ParseFrom(line[1..], [], "");
      Some(p)
  }

  /** Without a closing bracket the parser always runs out of input. */
  lemma {:induction false} UnclosedFails(s: string, ret: seq<Packet>, current: string)
    requires Text.AllDigits(current)
    requires forall k :: 0 <= k < |s| ==> s[k] != ']'
    ensures ParseFrom(s, ret, current).None?
    decreases |s|
  {
    if |s| > 0 {
      var c := s[0];
      assert forall k :: 0 <= k < |s[1..]| ==> s[1..][k] != ']' by {
        forall k | 0 <= k < |s[1..]| ensures s[1..][k] != ']' {
          assert s[1..][k] == s[k + 1];
        }
      }
      if c == '[' {
        UnclosedFails(s[1..], [], "");
      } else if Text.IsDigit(c) {
        UnclosedFails(s[1..], ret, current + [c]);
      } else if c == ',' {
        if |current| > 0 {
          UnclosedFails(s[1..], ret + [Int(Text.DigitsValue(current))], "");
        } else {
          UnclosedFails(s[1..], ret, current);
        }
      }
    }
  }

  /** A character outside `[`, `]`, `,` and the digits stops the parser
      when it is reached. */
  lemma StrayCharacterFails(s: string, ret: seq<Packet>, current: string)
    requires Text.AllDigits(current)
    requires |s| > 0 && !Text.IsDigit(s[0]) && s[0] !in "[],"
    ensures ParseFrom(s, ret, current).None?
  {
  }

  /** A run of digits only extends the pending number. */
  lemma {:induction false} DigitsAccumulate(d: string, t: string, ret: seq<Packet>, current: string)
    requires Text.AllDigits(current) && Text.AllDigits(d)
    ensures ParseFrom(d + t, ret, current) == ParseFrom(t, ret, current + d)
    decreases |d|
  {
    if |d| > 0 {
      assert (d + t)[0] == d[0];
      assert (d + t)[1..] == d[1..] + t;
      assert d == [d[0]] + d[1..];
      assert Text.IsDigit(d[0]);
      assert ParseFrom(d + t, ret, current) == ParseFrom(d[1..] + t, ret, current + [d[0]]);
      DigitsAccumulate(d[1..], t, ret, current + [d[0]]);
      assert current + [d[0]] + d[1..] == current + d;
    } else {
      assert d + t == t && current + d == current;
    }
  }

  /** The items printed and a closing bracket parse back to the list, with
      the rest of the input left over. */
  lemma {:induction false} ParseShowItems(xs: seq<Packet>, rest: string, ret: seq<Packet>)
    ensures ParseFrom(ShowItems(xs) + "]" + rest, ret, "") == Some((List(ret + xs), rest))
    decreases SizeSeq(xs), 1
  {
    if |xs| == 0 {
      var s := ShowItems(xs) + "]" + rest;
      assert s == "]" + rest;
      assert s[1..] == rest;
      assert ret + xs == ret;
    } else if xs[0].Int? {
      ParseIntFirst(xs, rest, ret);
    } else {
      ParseListFirst(xs, rest, ret);
    }
  }

  /** The first item is an integer: its digits, then the rest. */
  lemma ParseIntFirst(xs: seq<Packet>, rest: string, ret: seq<Packet>)
    requires |xs| > 0 && xs[0].Int?
    ensures ParseFrom(ShowItems(xs) + "]" + rest, ret, "") == Some((List(ret + xs), rest))
    decreases SizeSeq(xs), 0
  {
    var s := ShowItems(xs) + "]" + rest;
    var x := xs[0];
    var ys := xs[1..];
    var t := if |xs| == 1 then "]" + rest else "," + ShowItems(ys) + "]" + rest;
    assert s == Show(x) + t;
    var d := Text.NatToString(x.n);
    DigitsAccumulate(d, t, ret, "");
    assert "" + d == d;
    assert xs == [x] + ys;
    ItemThenTail(ret, x, ys, rest, t, d);
  }

  /** The first item is a list: the nested parse, then the rest. */
  lemma ParseListFirst(xs: seq<Packet>, rest: string, ret: seq<Packet>)
    requires |xs| > 0 && xs[0].List?
    ensures ParseFrom(ShowItems(xs) + "]" + rest, ret, "") == Some((List(ret + xs), rest))
    decreases SizeSeq(xs), 0
  {
    var s := ShowItems(xs) + "]" + rest;
    var x := xs[0];
    var ys := xs[1..];
    var zs := x.items;
    var t := if |xs| == 1 then "]" + rest else "," + ShowItems(ys) + "]" + rest;
    var inner := ShowItems(zs) + "]" + t;
    assert s == "[" + inner by {
      assert s == Show(x) + t;
      assert Show(x) == "[" + ShowItems(zs) + "]";
    }
    assert ParseFrom(s[1..], [], "") == Some((x, t)) by {
      assert s[1..] == inner;
      assert SizeSeq(zs) < SizeSeq(xs);
      ParseShowItems(zs, t, []);
      assert [] + zs == zs;
    }
    ParseNested(s, ret, x, t);
    assert xs == [x] + ys;
    ListThenTail(ret, x, ys, rest, t);
  }

  /** An opening bracket parses the nested list, which becomes the next item. */
  lemma ParseNested(s: string, ret: seq<Packet>, p: Packet, t: string)
    requires |s| > 0 && s[0] == '['
    requires ParseFrom(s[1..], [], "") == Some((p, t))
    ensures ParseFrom(s, ret, "") == ParseFrom(t, ret + [p], "")
  {
  }

  /** After an integer's digits: the comma or bracket that follows pushes
      it, and the remaining items parse as before. */
  lemma ItemThenTail(ret: seq<Packet>, x: Packet, ys: seq<Packet>, rest: string, t: string, d: string)
    requires x.Int? && d == Text.NatToString(x.n)
    requires t == if |ys| == 0 then "]" + rest else "," + ShowItems(ys) + "]" + rest
    requires SizeSeq(ys) < SizeSeq([x] + ys)
    ensures ParseFrom(t, ret, d) == Some((List(ret + ([x] + ys)), rest))
    decreases SizeSeq(ys), 2
  {
    if |ys| == 0 {
      assert t[0] == ']' && t[1..] == rest;
      assert ret + [x] == ret + ([x] + ys);
    } else {
      assert t[0] == ',' && t[1..] == ShowItems(ys) + "]" + rest;
      ParseShowItems(ys, rest, ret + [x]);
      assert ret + [x] + ys == ret + ([x] + ys);
    }
  }

  /** After a nested list: the comma (which pushes nothing) or the closing
      bracket, and the remaining items. */
  lemma ListThenTail(ret: seq<Packet>, x: Packet, ys: seq<Packet>, rest: string, t: string)
    requires t == if |ys| == 0 then "]" + rest else "," + ShowItems(ys) + "]" + rest
    requires SizeSeq(ys) < SizeSeq([x] + ys)
    ensures ParseFrom(t, ret + [x], "") == Some((List(ret + ([x] + ys)), rest))
    decreases SizeSeq(ys), 2
  {
    if |ys| == 0 {
      assert t[0] == ']' && t[1..] == rest;
      assert ret + [x] == ret + ([x] + ys);
    } else {
      assert t[0] == ',' && t[1..] == ShowItems(ys) + "]" + rest;
      ParseShowItems(ys, rest, ret + [x]);
      assert ret + [x] + ys == ret + ([x] + ys);
    }
  }

  /** Printing a list and parsing the line gives the list back. */
  lemma ParseShow(p: Packet)
    requires p.List?
    ensures ParseLine(Show(p)) == Some(p)
  {
    var s := Show(p);
    assert s[1..] == ShowItems(p.items) + "]" + "";
    ParseShowItems(p.items, "", []);
    assert [] + p.items == p.items;
  }

  function Flip(o: Ordering): Ordering
  {
    match o
    case Less => Greater
    case Equal => Equal
    case Greater => Less
  }

  function CompareNat(m: nat, n: nat): (o: Ordering)
  {
    if m < n then Less else if m == n then Equal else Greater
  }

  /** `partial_cmp`. Two lists are compared by `CompareItems`; an integer
      against a list is compared as the one-element list holding it. */
  function Compare(a: Packet, b: Packet): (r: Option<Ordering>)
    ensures r.Some?
    ensures a.Int? && b.Int? ==> (r.value == Less <==> a.n < b.n) && (r.value == Equal <==> a.n == b.n)
    decreases Size(a) + Size(b), 0
  {
    match (a, b)
    case (Int(m), Int(n)) => Some(CompareNat(m, n))
    case (List(v1), List(v2)) => CompareItems(v1, v2)
    case (Int(m), List(v2)) => CompareItems([Int(m)], v2)
    case (List(v1), Int(n)) => CompareItems(v1, [Int(n)])
  }

  /** The loop over the left list's items: the right running out gives
      `Greater`, an item that is not `Equal` decides, and after the loop
      equal lengths give `Equal` and otherwise `Less`. */
  function CompareItems(v1: seq<Packet>, v2: seq<Packet>): (r: Option<Ordering>)
    ensures r.Some?
    decreases SizeSeq(v1) + SizeSeq(v2), 1
  {
    if |v1| == 0 then Some(if |v2| == 0 then Equal else Less)
    else if |v2| == 0 then Some(Greater)
    else
      var o := Compare(v1[0], v2[0]);
      if o == Some(Less) || o == Some(Greater) then o
      else CompareItems(v1[1..], v2[1..])
  }

  /** The items loop, stated index by index: with the first `k` pairs of
      items `Equal`, the pair at `k` decides when it differs, and when one
      list ends at `k` the lengths decide. */
  lemma {:induction false} CompareItemsAt(v1: seq<Packet>, v2: seq<Packet>, k: nat)
    requires k <= |v1| && k <= |v2|
    requires forall i :: 0 <= i < k ==> Compare(v1[i], v2[i]) == Some(Equal)
    ensures k < |v1| && k < |v2| && Compare(v1[k], v2[k]) != Some(Equal) ==>
      CompareItems(v1, v2) == Compare(v1[k], v2[k])
    ensures k == |v1| == |v2| ==> CompareItems(v1, v2) == Some(Equal)
    ensures k == |v1| < |v2| ==> CompareItems(v1, v2) == Some(Less)
    ensures k == |v2| < |v1| ==> CompareItems(v1, v2) == Some(Greater)
    decreases k
  {
    if k > 0 {
      assert Compare(v1[0], v2[0]) == Some(Equal);
      CompareItemsAt(v1[1..], v2[1..], k - 1);
      if k < |v1| && k < |v2| {
        assert v1[1..][k - 1] == v1[k] && v2[1..][k - 1] == v2[k];
      }
    } else if 0 < |v1| && 0 < |v2| {
      var o := Compare(v1[0], v2[0]);
      assert o.Some? && (o.value.Less? || o.value.Equal? || o.value.Greater?);
    }
  }

  /** An integer is compared with a list exactly as the list `[m]` would
      be, on either side. */
  lemma MixedWraps(m: nat, b: Packet)
    requires b.List?
    ensures Compare(Int(m), b) == Compare(List([Int(m)]), b)
    ensures Compare(b, Int(m)) == Compare(b, List([Int(m)]))
  {
  }

  /** Every packet compares `Equal` with itself. */
  lemma {:induction false} CompareReflexive(p: Packet)
    ensures Compare(p, p) == Some(Equal)
    decreases Size(p), 0
  {
    if p.List? {
      CompareItemsReflexive(p.items);
    }
  }

  lemma {:induction false} CompareItemsReflexive(xs: seq<Packet>)
    ensures CompareItems(xs, xs) == Some(Equal)
    decreases SizeSeq(xs), 1
  {
    if |xs| > 0 {
      CompareReflexive(xs[0]);
      CompareItemsReflexive(xs[1..]);
    }
  }

  /** Swapping the packets flips the answer. */
  lemma {:induction false} CompareAntisymmetric(a: Packet, b: Packet)
    ensures Compare(b, a) == Some(Flip(Compare(a, b).value))
    decreases Size(a) + Size(b), 0
  {
    match (a, b)
    case (Int(m), Int(n)) =>
    case (List(v1), List(v2)) => CompareItemsAntisymmetric(v1, v2);
    case (Int(m), List(v2)) => CompareItemsAntisymmetric([Int(m)], v2);
    case (List(v1), Int(n)) => CompareItemsAntisymmetric(v1, [Int(n)]);
  }

  lemma {:induction false} CompareItemsAntisymmetric(v1: seq<Packet>, v2: seq<Packet>)
    ensures CompareItems(v2, v1) == Some(Flip(CompareItems(v1, v2).value))
    decreases SizeSeq(v1) + SizeSeq(v2), 1
  {
    if |v1| > 0 && |v2| > 0 {
      CompareAntisymmetric(v1[0], v2[0]);
      CompareItemsAntisymmetric(v1[1..], v2[1..]);
    }
  }

  /** `Equal` is not equality: `[[1]]` and `[1]` are different packets that
      compare `Equal`. */
  lemma EqualIsNotIdentity()
    ensures Compare(List([List([Int(1)])]), List([Int(1)])) == Some(Equal)
  {
    assert Compare(List([Int(1)]), Int(1)) == Some(Equal);
  }

  /** The source's pairs `[1,[2],3]` against `[1,2,1]` and `[[[]]]`
      against `[[]]`: neither is in order. */
  lemma ExamplesOutOfOrder()
    ensures Compare(List([Int(1), List([Int(2)]), Int(3)]), List([Int(1), Int(2), Int(1)])) == Some(Greater)
    ensures Compare(List([List([List([])])]), List([List([])])) == Some(Greater)
  {
    assert Compare(List([Int(2)]), Int(2)) == Some(Equal);
    assert Compare(List([List([])]), List([])) == Some(Greater);
  }

  /** `1 + 2 + ... + n`. */
  function Triangle(n: nat): (t: nat)
    ensures 2 * t == n * (n + 1)
  {
    if n == 0 then 0 else Triangle(n - 1) + n
  }

  /** The pair's number when it is in order (`is_le`), else 0. */
  function InOrderWeight(pair: (Packet, Packet), k: nat): nat
  {
    if Compare(pair.0, pair.1) != Some(Greater) then k else 0
  }

  /** The pair's number when it compares `Equal`, else 0. */
  function EqualWeight(pair: (Packet, Packet), k: nat): nat
  {
    if Compare(pair.0, pair.1) == Some(Equal) then k else 0
  }

  /** Part one: the sum of the (1-based) numbers of the pairs in order. */
  function InOrderSum(pairs: seq<(Packet, Packet)>): (r: nat)
    ensures r <= Triangle(|pairs|)
    decreases |pairs|
  {
    if |pairs| == 0 then 0
    else
      var k := |pairs|;
      InOrderSum(pairs[..k - 1]) + InOrderWeight(pairs[k - 1], k)
  }

  /** The sum of the numbers of the pairs that compare `Equal`. */
  function EqualSum(pairs: seq<(Packet, Packet)>): nat
    decreases |pairs|
  {
    if |pairs| == 0 then 0
    else
      var k := |pairs|;
      EqualSum(pairs[..k - 1]) + EqualWeight(pairs[k - 1], k)
  }

  function Swap(pairs: seq<(Packet, Packet)>): (r: seq<(Packet, Packet)>)
    ensures |r| == |pairs|
    ensures forall i :: 0 <= i < |pairs| ==> r[i] == (pairs[i].1, pairs[i].0)
  {
    seq(|pairs|, i requires 0 <= i < |pairs| => (pairs[i].1, pairs[i].0))
  }

  /** A pair is in order one way round or the other, and both ways round
      exactly when it compares `Equal`. */
  lemma PairWeights(pair: (Packet, Packet), k: nat)
    ensures InOrderWeight(pair, k) + InOrderWeight((pair.1, pair.0), k) == k + EqualWeight(pair, k)
  {
    CompareAntisymmetric(pair.0, pair.1);
  }

  /** Counting the pairs in order, and again with every pair swapped,
      covers every pair once and the `Equal` pairs twice. */
  lemma {:induction false} SwappedSum(pairs: seq<(Packet, Packet)>)
    ensures InOrderSum(pairs) + InOrderSum(Swap(pairs)) == Triangle(|pairs|) + EqualSum(pairs)
    decreases |pairs|
  {
    if |pairs| > 0 {
      var k := |pairs|;
      assert Swap(pairs)[..k - 1] == Swap(pairs[..k - 1]);
      SwappedSum(pairs[..k - 1]);
      PairWeights(pairs[k - 1], k);
    }
  }

  /** `main`'s pairing: the lines in chunks of three, the first two of each
      parsed (the third is the blank separator). `None` where a chunk is
      short or a line does not parse. */
  function ParsePairs(lines: seq<string>): (r: Option<seq<(Packet, Packet)>>)
    ensures r.Some? ==> |r.value| == (|lines| + 2) / 3
    decreases |lines|
  {
    if |lines| == 0 then Some([])
    else if |lines| < 2 then None
    else
      var left :- ParseLine(lines[0]);
      var right :- ParseLine(lines[1]);
      var rest :- ParsePairs(if |lines| <= 3 then [] else lines[3..]);
      Some([(left, right)] + rest)
  }

  /** The answer to part one for the puzzle input. */
  function PartOne(input: string): Option<nat>
  {
    var pairs :- ParsePairs(Text.Lines(input));
    Some(InOrderSum(pairs))
  }
}
