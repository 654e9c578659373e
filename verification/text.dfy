/** Text helpers shared by the parsers: Rust's `str::split`, `str::lines`,
    `str::find`, decimal `parse` and `Display` for integers. Strings are
    sequences of characters; the inputs are ASCII, so a byte index and a
    character index coincide. */
module Text {
  import opened Wrappers

  predicate IsDigit(c: char) { '0' <= c <= '9' }

  predicate AllDigits(s: string) { forall i :: 0 <= i < |s| ==> IsDigit(s[i]) }

  function DigitValue(c: char): (d: nat)
    requires IsDigit(c)
    ensures d < 10
  {
    (c as int) - ('0' as int)
  }

  function DigitChar(d: nat): (c: char)
    requires d < 10
    ensures IsDigit(c) && DigitValue(c) == d
  {
    (d + '0' as int) as char
  }

  /** Value of a run of decimal digits, most significant first. */
  function DigitsValue(s: string): nat
    requires AllDigits(s)
  {
    if |s| == 0 then 0 else 10 * DigitsValue(s[..|s| - 1]) + DigitValue(s[|s| - 1])
  }

  /** Decimal rendering of a natural number (`Display` for `usize`). */
  function NatToString(n: nat): (s: string)
    ensures 0 < |s| && AllDigits(s)
    ensures DigitsValue(s) == n
    ensures |s| > 1 ==> s[0] != '0'
  {
    if n < 10 then [DigitChar(n)]
    else
      var s := NatToString(n / 10) + [DigitChar(n % 10)];
      assert s[..|s| - 1] == NatToString(n / 10);
      s
  }

  /** `str::parse::<usize>`: an optional `+` then at least one digit. */
  function ParseNat(s: string): (r: Option<nat>)
    ensures r.Some? <==> (|s| > 0 && AllDigits(s)) || (|s| > 1 && s[0] == '+' && AllDigits(s[1..]))
  {
    if |s| > 0 && AllDigits(s) then Some(DigitsValue(s))
    else if |s| > 1 && s[0] == '+' && AllDigits(s[1..]) then Some(DigitsValue(s[1..]))
    else None
  }

  /** `str::parse::<i32>` (and other signed widths): an optional sign then at least one digit. */
  function ParseInt(s: string): (r: Option<int>)
    ensures r.Some? <==> (|s| > 0 && AllDigits(s)) || (|s| > 1 && (s[0] == '+' || s[0] == '-') && AllDigits(s[1..]))
  {
    if |s| > 1 && s[0] == '-' && AllDigits(s[1..]) then Some(0 - DigitsValue(s[1..]) as int)
    else match ParseNat(s)
      case Some(n) => Some(n)
      case None => None
  }

  lemma ParseNatOfNatToString(n: nat)
    ensures ParseNat(NatToString(n)) == Some(n)
  {
  }

  /** Decimal rendering of a signed integer. */
  function IntToString(i: int): (s: string)
    ensures ParseInt(s) == Some(i)
  {
    if i < 0 then
      var s := "-" + NatToString(-i);
      assert s[1..] == NatToString(-i);
      s
    else NatToString(i)
  }

  /** `str::split(c)`: the pieces between occurrences of `c`; there is always one more piece than separators. */
  function Split(s: string, c: char): (parts: seq<string>)
    ensures 0 < |parts|
    ensures forall i :: 0 <= i < |parts| ==> c !in parts[i]
  {
    if |s| == 0 then [""]
    else
      var rest := Split(s[1..], c);
      if s[0] == c then [""] + rest
      else [[s[0]] + rest[0]] + rest[1..]
  }

  /** A string without the separator is a single piece. */
  lemma {:induction false} SplitWithout(s: string, c: char)
    requires c !in s
    ensures Split(s, c) == [s]
  {
    if |s| > 0 {
      SplitWithout(s[1..], c);
      assert [s[0]] + s[1..] == s;
    }
  }

  /** A word without the separator, the separator, then more text: the
      word is the first piece. */
  lemma {:induction false} SplitAfterWord(w: string, rest: string)
    requires ' ' !in w
    ensures Split(w + " " + rest, ' ') == [w] + Split(rest, ' ')
  {
    if |w| == 0 {
      assert w + " " + rest == [' '] + rest;
      assert ([' '] + rest)[1..] == rest;
    } else {
      SplitAfterWord(w[1..], rest);
      assert (w + " " + rest)[1..] == w[1..] + " " + rest;
      assert w == [w[0]] + w[1..];
    }
  }

  /** Six words without spaces, joined by single spaces, split back into
      the six words. */
  lemma SplitSixWords(a: string, b: string, c: string, d: string, e: string, f: string)
    requires ' ' !in a && ' ' !in b && ' ' !in c && ' ' !in d && ' ' !in e && ' ' !in f
    ensures Split(a + " " + (b + " " + (c + " " + (d + " " + (e + " " + f)))), ' ') == [a, b, c, d, e, f]
  {
    var r5 := e + " " + f;
    var r4 := d + " " + r5;
    var r3 := c + " " + r4;
    var r2 := b + " " + r3;
    SplitWithout(f, ' ');
    SplitAfterWord(e, f);
    SplitAfterWord(d, r5);
    SplitAfterWord(c, r4);
    SplitAfterWord(b, r3);
    SplitAfterWord(a, r2);
  }

  /** The inverse of `Split`: the pieces glued back together with the separator. */
  function Join(parts: seq<string>, c: char): string
  {
    if |parts| == 0 then ""
    else if |parts| == 1 then parts[0]
    else parts[0] + [c] + Join(parts[1..], c)
  }

  lemma {:induction false} JoinSplit(s: string, c: char)
    ensures Join(Split(s, c), c) == s
  {
    if |s| > 0 {
      JoinSplit(s[1..], c);
      var rest := Split(s[1..], c);
      if s[0] != c {
        var parts := [[s[0]] + rest[0]] + rest[1..];
        assert parts[1..] == rest[1..];
        if |rest| > 1 {
          assert rest[1..][1..] == rest[2..];
        }
      } else {
        assert ([""] + rest)[1..] == rest;
      }
    }
  }

  /** `str::split(sep)` for a separator string: matches are found left to
      right without overlapping, and the pieces between them are kept. */
  function SplitOn(s: string, sep: string): (parts: seq<string>)
    requires |sep| > 0
    ensures 0 < |parts|
    decreases |s|
  {
    if |s| < |sep| then [s]
    else if s[..|sep|] == sep then [""] + SplitOn(s[|sep|..], sep)
    else
      var rest := SplitOn(s[1..], sep);
      [[s[0]] + rest[0]] + rest[1..]
  }

  function JoinOn(parts: seq<string>, sep: string): string
  {
    if |parts| == 0 then ""
    else if |parts| == 1 then parts[0]
    else parts[0] + sep + JoinOn(parts[1..], sep)
  }

  /** Splitting on a separator string loses nothing. */
  lemma {:induction false} JoinSplitOn(s: string, sep: string)
    requires |sep| > 0
    ensures JoinOn(SplitOn(s, sep), sep) == s
    decreases |s|
  {
    if |s| >= |sep| {
      if s[..|sep|] == sep {
        var rest := SplitOn(s[|sep|..], sep);
        assert SplitOn(s, sep) == [""] + rest;
        JoinSplitOn(s[|sep|..], sep);
        assert ([""] + rest)[1..] == rest;
        assert JoinOn([""] + rest, sep) == "" + sep + JoinOn(rest, sep);
        assert s == sep + s[|sep|..];
      } else {
        var rest := SplitOn(s[1..], sep);
        var parts := [[s[0]] + rest[0]] + rest[1..];
        assert SplitOn(s, sep) == parts;
        JoinSplitOn(s[1..], sep);
        JoinFirst(rest, s[0], sep);
        assert s == [s[0]] + s[1..];
      }
    }
  }

  /** Putting a character in front of the first piece puts it in front
      of the joined text. */
  lemma JoinFirst(rest: seq<string>, c: char, sep: string)
    requires |rest| > 0
    ensures JoinOn([[c] + rest[0]] + rest[1..], sep) == [c] + JoinOn(rest, sep)
  {
    var parts := [[c] + rest[0]] + rest[1..];
    assert parts[0] == [c] + rest[0] && parts[1..] == rest[1..];
    if |rest| > 1 {
      assert JoinOn(parts, sep) == parts[0] + sep + JoinOn(rest[1..], sep);
      assert JoinOn(rest, sep) == rest[0] + sep + JoinOn(rest[1..], sep);
    }
  }

  /** `str::lines`: split at line feeds, dropping the carriage return of a
      `\r\n` ending, without an empty last line after a final line feed. */
  function Lines(s: string): (ls: seq<string>)
    ensures forall i :: 0 <= i < |ls| ==> '\n' !in ls[i]
    ensures s == "" ==> ls == []
    ensures var parts := Split(s, '\n');
      |parts| - 1 <= |ls| <= |parts| &&
      forall i :: 0 <= i < |ls| ==> ls[i] == parts[i] || (i < |parts| - 1 && ls[i] + "\r" == parts[i])
  {
    var parts := Split(s, '\n');
    var n := |parts| - 1;
    var ended := seq(n, i requires 0 <= i < n => StripReturn(parts[i]));
    if parts[n] == "" then ended else ended + [parts[n]]
  }

  /** A line that was followed by a line feed loses one trailing carriage return. */
  function StripReturn(line: string): (r: string)
    ensures r == line || r + "\r" == line
    ensures |line| > 0 && line[|line| - 1] == '\r' ==> r + "\r" == line
  {
    if |line| > 0 && line[|line| - 1] == '\r' then line[..|line| - 1] else line
  }

  /** Each line followed by the ending `eol`. */
  function Terminated(ls: seq<string>, eol: string): string
  {
    if |ls| == 0 then "" else ls[0] + eol + Terminated(ls[1..], eol)
  }

  /** Each line with `e` appended. */
  function Suffixed(ls: seq<string>, e: string): (r: seq<string>)
    ensures |r| == |ls| && forall i :: 0 <= i < |ls| ==> r[i] == ls[i] + e
  {
    seq(|ls|, i requires 0 <= i < |ls| => ls[i] + e)
  }

  /** A piece without `c`, then `c`: the piece is the first part of the split. */
  lemma {:induction false} SplitAfterPiece(w: string, c: char, rest: string)
    requires c !in w
    ensures Split(w + [c] + rest, c) == [w] + Split(rest, c)
  {
    if |w| == 0 {
      assert w + [c] + rest == [c] + rest;
      assert ([c] + rest)[1..] == rest;
    } else {
      SplitAfterPiece(w[1..], c, rest);
      assert (w + [c] + rest)[1..] == w[1..] + [c] + rest;
      assert w == [w[0]] + w[1..];
    }
  }

  /** Lines each ended by `e` and a line feed split into the lines with
      `e` appended, and an empty last piece. */
  lemma {:induction false} SplitTerminated(ls: seq<string>, e: string)
    requires '\n' !in e && forall i :: 0 <= i < |ls| ==> '\n' !in ls[i]
    ensures Split(Terminated(ls, e + "\n"), '\n') == Suffixed(ls, e) + [""]
  {
    if |ls| == 0 {
      assert Terminated(ls, e + "\n") == "";
    } else {
      var rest := Terminated(ls[1..], e + "\n");
      assert Terminated(ls, e + "\n") == (ls[0] + e) + ['\n'] + rest;
      SplitAfterPiece(ls[0] + e, '\n', rest);
      SplitTerminated(ls[1..], e);
      assert Suffixed(ls, e) == [ls[0] + e] + Suffixed(ls[1..], e);
    }
  }

  /** `lines` undoes ending every line with `\r\n`, and with `\n` when no
      line ends in a carriage return: both line endings read the same. */
  lemma LinesTerminated(ls: seq<string>, e: string)
    requires e == "\r" || (e == "" && forall i :: 0 <= i < |ls| ==> |ls[i]| == 0 || ls[i][|ls[i]| - 1] != '\r')
    requires forall i :: 0 <= i < |ls| ==> '\n' !in ls[i]
    ensures Lines(Terminated(ls, e + "\n")) == ls
  {
    SplitTerminated(ls, e);
    var parts := Suffixed(ls, e) + [""];
    forall i | 0 <= i < |ls|
      ensures StripReturn(parts[i]) == ls[i]
    {
      var line := ls[i] + e;
      assert parts[i] == line;
      if e == "\r" {
        assert |line| > 0 && line[|line| - 1] == '\r';
        assert line[..|line| - 1] == ls[i];
      } else {
        assert line == ls[i];
      }
    }
  }

  /** Two lines with Windows line endings read as the two lines. */
  lemma CrLfExample(a: string, b: string)
    requires '\n' !in a && '\n' !in b
    ensures Lines(a + "\r\n" + (b + "\r\n")) == [a, b]
  {
    var ls := [a, b];
    assert "\r" + "\n" == "\r\n";
    assert ls[1..][1..] == [];
    assert Terminated(ls[1..], "\r\n") == b + "\r\n" + "";
    assert Terminated(ls, "\r\n") == a + "\r\n" + (b + "\r\n" + "");
    assert b + "\r\n" + "" == b + "\r\n";
    LinesTerminated(ls, "\r");
  }

  /** `str::find(c)`: the first index holding `c`. */
  function IndexOf(s: string, c: char): (r: Option<nat>)
    ensures r.None? <==> c !in s
    ensures r.Some? ==> r.value < |s| && s[r.value] == c && c !in s[..r.value]
  {
    if |s| == 0 then None
    else if s[0] == c then Some(0)
    else match IndexOf(s[1..], c)
      case None => None
      case Some(i) => assert s[..i + 1] == [s[0]] + s[1..][..i]; Some(i + 1)
  }
}
