/** Day 6, "Tuning Trouble": find where the datastream first shows a run
    of `k` characters that are all different. */
module TuningTrouble {
  import opened Wrappers

  /** No character occurs twice. */
  predicate Distinct(w: string)
  {
    forall i, j :: 0 <= i < j < |w| ==> w[i] != w[j]
  }

  /** `check_duplicates`: walk the window, remembering what has been seen,
      and report the first character seen before. */
  method CheckDuplicates(store: string) returns (dup: bool)
    ensures dup <==> !Distinct(store)
    ensures dup <==> exists i, j :: 0 <= i < j < |store| && store[i] == store[j]
  {
    var observed: string := [];
    var i := 0;
    while i < |store|
      invariant 0 <= i <= |store|
      invariant observed == store[..i]
      invariant Distinct(observed)
    {
      if store[i] in observed {
        var j :| 0 <= j < i && observed[j] == store[i];
        assert store[j] == store[i];
        return true;
      }
      observed := observed + [store[i]];
      i := i + 1;
    }
    assert observed == store;
    return false;
  }

  /** The window of `k` characters that ends just before position `r`. */
  function Window(input: string, k: nat, r: nat): string
    requires k <= r <= |input|
  {
    input[r - k..r]
  }

  /** The marker as a reference search: the first position `r` from
      `start` on, before the end of the input, whose window is distinct. */
  function MarkerFrom(input: string, k: nat, start: nat): (r: Option<nat>)
    requires k <= start
    ensures r.Some? ==> start <= r.value < |input| && Distinct(Window(input, k, r.value))
    ensures r.Some? ==> forall p :: start <= p < r.value ==> !Distinct(Window(input, k, p))
    ensures r.None? ==> forall p :: start <= p < |input| ==> !Distinct(Window(input, k, p))
    decreases |input| - start
  {
    if start >= |input| then None
    else if Distinct(Window(input, k, start)) then Some(start)
    else MarkerFrom(input, k, start + 1)
  }

  function Marker(input: string, k: nat): Option<nat>
  {
    MarkerFrom(input, k, k)
  }

  /** `process_marker`: keep the last `k` characters in a queue; once it is
      full, each new character first checks the queue and returns the
      count of characters before it if the queue has no duplicate, and
      otherwise slides the queue on by one. The window a character checks
      ends just before it, so a marker at the very end of the input is
      never reported: the source reaches `unreachable!` (here `None`). */
  method ProcessMarker(input: string, k: nat) returns (r: Option<nat>)
    ensures r == Marker(input, k)
    ensures r.Some? <==> exists p :: k <= p < |input| && Distinct(Window(input, k, p))
  {
    var store: string := [];
    var i := 0;
    while i < |input|
      invariant 0 <= i <= |input|
      invariant store == input[(if i <= k then 0 else i - k)..i]
      invariant |store| <= k
      invariant forall p :: k <= p < i ==> !Distinct(Window(input, k, p))
    {
      var c := input[i];
      if |store| < k {
        store := store + [c];
        i := i + 1;
        continue;
      }
      var dup := CheckDuplicates(store);
      if !dup {
        MarkerAt(input, k, i);
        return Some(i);
      }
      store := store[1..] + [c];
      i := i + 1;
    }
    MarkerNone(input, k);
    r := None;
  }

  /** The reference search finds the first distinct window. */
  lemma MarkerAt(input: string, k: nat, r: nat)
    requires k <= r < |input| && Distinct(Window(input, k, r))
    requires forall p :: k <= p < r ==> !Distinct(Window(input, k, p))
    ensures Marker(input, k) == Some(r)
  {
  }

  lemma MarkerNone(input: string, k: nat)
    requires forall p :: k <= p < |input| ==> !Distinct(Window(input, k, p))
    ensures Marker(input, k) == None
  {
  }

  /** `process_packet`: a start-of-packet marker is four different characters. */
  method ProcessPacket(input: string) returns (r: Option<nat>)
    ensures r == Marker(input, 4)
  {
    r := ProcessMarker(input, 4);
  }

  /** `process_message`: a start-of-message marker is fourteen. */
  method ProcessMessage(input: string) returns (r: Option<nat>)
    ensures r == Marker(input, 14)
  {
    r := ProcessMarker(input, 14);
  }

  /** The end of a distinct window is distinct too. */
  lemma DistinctSuffix(w: string, n: nat)
    requires Distinct(w) && n <= |w|
    ensures Distinct(w[|w| - n..])
  {
    var s := w[|w| - n..];
    forall i, j | 0 <= i < j < |s|
      ensures s[i] != s[j]
    {
      assert s[i] == w[|w| - n + i] && s[j] == w[|w| - n + j];
    }
  }

  /** The message marker never comes before the packet marker. */
  lemma MessageAfterPacket(input: string)
    requires Marker(input, 14).Some?
    ensures Marker(input, 4).Some? && Marker(input, 4).value <= Marker(input, 14).value
  {
    var r := Marker(input, 14).value;
    DistinctSuffix(Window(input, 14, r), 4);
    assert Window(input, 14, r)[10..] == Window(input, 4, r);
  }

  /** "abcdefgh": the first four characters are already a marker. */
  lemma FirstExample()
    ensures Marker("abcdefgh", 4) == Some(4)
  {
    var s := "abcdefgh";
    assert Window(s, 4, 4) == "abcd";
    DistinctByScan("abcd");
    MarkerAt(s, 4, 4);
  }

  /** "aabcdefg": the repeated `a` delays the marker by one. */
  lemma SecondExample()
    ensures Marker("aabcdefg", 4) == Some(5)
  {
    var s := "aabcdefg";
    assert Window(s, 4, 4) == "aabc" && !Distinct("aabc") by {
      assert "aabc"[0] == "aabc"[1];
    }
    assert Window(s, 4, 5) == "abcd";
    DistinctByScan("abcd");
    MarkerAt(s, 4, 5);
  }

  /** Distinctness checked one character at a time: no character occurs
      in the rest of the string after it. */
  predicate NoRepeat(w: string)
  {
    |w| == 0 || (w[0] !in w[1..] && NoRepeat(w[1..]))
  }

  lemma {:induction false} DistinctByScan(w: string)
    requires NoRepeat(w)
    ensures Distinct(w)
  {
    if |w| > 0 {
      DistinctByScan(w[1..]);
      forall i, j | 0 <= i < j < |w|
        ensures w[i] != w[j]
      {
        if i == 0 {
          assert w[j] == w[1..][j - 1];
        } else {
          assert w[i] == w[1..][i - 1] && w[j] == w[1..][j - 1];
        }
      }
    }
  }

  /** Two equal characters in a window make it a non-marker. */
  lemma RepeatInWindow(s: string, k: nat, p: nat, i: nat, j: nat)
    requires k <= p <= |s| && i < j < k && s[p - k + i] == s[p - k + j]
    ensures !Distinct(Window(s, k, p))
  {
    assert Window(s, k, p)[i] == Window(s, k, p)[j];
  }

  /** A window of four read off character by character. */
  lemma WindowOfFour(s: string, r: nat, a: char, b: char, c: char, d: char)
    requires 4 <= r <= |s| && s[r - 4] == a && s[r - 3] == b && s[r - 2] == c && s[r - 1] == d
    ensures Window(s, 4, r) == [a, b, c, d]
  {
  }

  /** Every window before position 7 of the example repeats a character. */
  lemma ThirdRepeats(s: string)
    requires |s| >= 7 && s[0] == 'm' && s[1] == 'j' && s[2] == 'q' && s[3] == 'j' && s[4] == 'p' && s[5] == 'q' && s[6] == 'm'
    ensures forall p :: 4 <= p < 7 ==> !Distinct(Window(s, 4, p))
  {
    forall p | 4 <= p < 7
      ensures !Distinct(Window(s, 4, p))
    {
      if p == 4 {
        RepeatInWindow(s, 4, 4, 1, 3);
      } else if p == 5 {
        RepeatInWindow(s, 4, 5, 0, 2);
      } else {
        RepeatInWindow(s, 4, 6, 0, 3);
      }
    }
  }

  /** "mjqjpqmgbljsphdztnvjfqwrcgsmlb", or any datastream that starts
      with the same seven characters: the packet starts after seven. */
  lemma ThirdExample(s: string)
    requires |s| > 7 && s[0] == 'm' && s[1] == 'j' && s[2] == 'q' && s[3] == 'j' && s[4] == 'p' && s[5] == 'q' && s[6] == 'm'
    ensures Marker(s, 4) == Some(7)
  {
    ThirdRepeats(s);
    WindowOfFour(s, 7, 'j', 'p', 'q', 'm');
    DistinctByScan("jpqm");
    MarkerAt(s, 4, 7);
  }

  /** Every window before position 11 of the example repeats a character. */
  lemma FourthRepeats(s: string)
    requires |s| >= 11 && s[0] == 'z' && s[1] == 'c' && s[2] == 'f' && s[3] == 'z' && s[4] == 'f' && s[5] == 'w' && s[6] == 'z' && s[7] == 'z' && s[8] == 'q' && s[9] == 'f' && s[10] == 'r'
    ensures forall p :: 4 <= p < 11 ==> !Distinct(Window(s, 4, p))
  {
    forall p | 4 <= p < 11
      ensures !Distinct(Window(s, 4, p))
    {
      if p == 4 {
        RepeatInWindow(s, 4, 4, 0, 3);
      } else if p == 5 {
        RepeatInWindow(s, 4, 5, 1, 3);
      } else if p == 6 {
        RepeatInWindow(s, 4, 6, 0, 2);
      } else if p == 7 {
        RepeatInWindow(s, 4, 7, 0, 3);
      } else if p == 8 {
        RepeatInWindow(s, 4, 8, 2, 3);
      } else if p == 9 {
        RepeatInWindow(s, 4, 9, 1, 2);
      } else {
        RepeatInWindow(s, 4, 10, 0, 1);
      }
    }
  }

  /** "zcfzfwzzqfrljwzlrfnpqdbhtmscgvjw", or any datastream that starts
      with the same eleven characters: many early repeats put the packet
      after eleven. */
  lemma FourthExample(s: string)
    requires |s| > 11 && s[0] == 'z' && s[1] == 'c' && s[2] == 'f' && s[3] == 'z' && s[4] == 'f' && s[5] == 'w' && s[6] == 'z' && s[7] == 'z' && s[8] == 'q' && s[9] == 'f' && s[10] == 'r'
    ensures Marker(s, 4) == Some(11)
  {
    FourthRepeats(s);
    WindowOfFour(s, 11, 'z', 'q', 'f', 'r');
    DistinctByScan("zqfr");
    MarkerAt(s, 4, 11);
  }
}
