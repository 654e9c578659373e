/** Day 10, "Cathode-Ray Tube": a one-register CPU runs `noop` and
    `addx V`; the register's value over time gives signal strengths and
    the pixels a CRT beam draws. */
module CathodeRay {
  import opened Wrappers
  import Text
  import opened Arith

  /** One line of the program. `AddxBare` is an `addx` without an operand,
      which the source skips without a cycle. */
  datatype Op = Noop | Addx(v: int) | AddxBare

  /** The cycles an instruction takes, as recorded in the history. */
  function Cycles(op: Op): nat
  {
    match op
    case Noop => 1
    case Addx(_) => 2
    case AddxBare => 0
  }

  function Delta(op: Op): int { if op.Addx? then op.v else 0 }

  /** The first word picks the instruction; anything other than `noop` or
      `addx` is `None` (`unimplemented!`), and so is an operand that is
      not a decimal integer; the `i32` range is not checked. */
  function ParseOp(line: string): (r: Option<Op>)
    ensures r.Some? ==> Text.Split(line, ' ')[0] in {"noop", "addx"}
    ensures Text.Split(line, ' ')[0] == "noop" ==> r == Some(Noop)
    ensures r == Some(AddxBare) <==> Text.Split(line, ' ') == ["addx"]
  {
    var words := Text.Split(line, ' ');
    if words[0] == "noop" then Some(Noop)
    else if words[0] == "addx" then
      if |words| < 2 then Some(AddxBare)
      else
        var v :- Text.ParseInt(words[1]);
        Some(Addx(v))
    else None
  }

  /** The register history and its latest value (`reg_history`, `latest`). */
  datatype Cpu = Cpu(history: seq<int>, latest: int)

  /** The history is never empty and ends with the latest value. */
  predicate Consistent(c: Cpu)
  {
    |c.history| > 0 && c.history[|c.history| - 1] == c.latest
  }

  /** The history starts as `[1]` with the register at 1. */
  const Start := Cpu([1], 1)

  /** `process_instruction`: `noop` records the value once; `addx V`
      records it, adds `V`, and records the new value. */
  function Execute(c: Cpu, op: Op): (r: Cpu)
    ensures |r.history| == |c.history| + Cycles(op)
    ensures r.history[..|c.history|] == c.history
    ensures r.latest == c.latest + Delta(op)
    ensures Consistent(c) ==> Consistent(r)
  {
    match op
    case Noop => Cpu(c.history + [c.latest], c.latest)
    case Addx(v) => Cpu(c.history + [c.latest] + [c.latest + v], c.latest + v)
    case AddxBare => c
  }

  function Run(c: Cpu, ops: seq<Op>): (r: Cpu)
    ensures Consistent(c) ==> Consistent(r)
    decreases |ops|
  {
    if |ops| == 0 then c else Run(Execute(c, ops[0]), ops[1..])
  }

  /** The reference timeline: the register's value after `t` cycles of
      `ops`, starting from `x`. An `addx` changes the value only once both
      its cycles are over. */
  function ValueAfter(ops: seq<Op>, x: int, t: nat): int
    decreases |ops|
  {
    if |ops| == 0 then x
    else if t < Cycles(ops[0]) then x
    else ValueAfter(ops[1..], x + Delta(ops[0]), t - Cycles(ops[0]))
  }

  function TotalCycles(ops: seq<Op>): nat
  {
    if |ops| == 0 then 0 else Cycles(ops[0]) + TotalCycles(ops[1..])
  }

  /** Running appends one entry per cycle, and the entry recorded after
      `t` more cycles is the reference timeline's value at `t`. */
  lemma {:induction false} RunFollowsTimeline(c: Cpu, ops: seq<Op>)
    requires Consistent(c)
    ensures |Run(c, ops).history| == |c.history| + TotalCycles(ops)
    ensures Run(c, ops).history[..|c.history|] == c.history
    ensures forall t: nat :: |c.history| - 1 + t < |Run(c, ops).history| ==>
      Run(c, ops).history[|c.history| - 1 + t] == ValueAfter(ops, c.latest, t)
    decreases |ops|
  {
    if |ops| > 0 {
      var c1 := Execute(c, ops[0]);
      RunFollowsTimeline(c1, ops[1..]);
      var r := Run(c, ops).history;
      assert r == Run(c1, ops[1..]).history;
      assert r[..|c.history|] == c.history by {
        assert r[..|c1.history|][..|c.history|] == c.history;
      }
      OwnEntries(c, ops[0]);
      TimelineStep(c.history, c.latest, ops, c1.history, c1.latest, r);
    }
  }

  /** One instruction's entries agree with the timeline, and the later
      ones are the rest of the program's timeline shifted by its cycles. */
  lemma TimelineStep(h: seq<int>, x: int, ops: seq<Op>, h1: seq<int>, x1: int, r: seq<int>)
    requires |h| > 0 && |ops| > 0
    requires |h1| == |h| + Cycles(ops[0]) && x1 == x + Delta(ops[0])
    requires forall i :: |h| - 1 <= i < |h| - 1 + Cycles(ops[0]) ==> h1[i] == x
    requires h[|h| - 1] == x
    requires |h1| <= |r| && r[..|h1|] == h1
    requires forall t: nat :: |h1| - 1 + t < |r| ==> r[|h1| - 1 + t] == ValueAfter(ops[1..], x1, t)
    ensures forall t: nat :: |h| - 1 + t < |r| ==> r[|h| - 1 + t] == ValueAfter(ops, x, t)
  {
    forall t: nat | |h| - 1 + t < |r|
      ensures r[|h| - 1 + t] == ValueAfter(ops, x, t)
    {
      if t < Cycles(ops[0]) {
        assert r[..|h1|][|h| - 1 + t] == h1[|h| - 1 + t];
      } else {
        var t1 := t - Cycles(ops[0]);
        assert |h| - 1 + t == |h1| - 1 + t1;
        ValueAfterStep(ops, x, t);
      }
    }
  }

  lemma ValueAfterStep(ops: seq<Op>, x: int, t: nat)
    requires |ops| > 0 && t >= Cycles(ops[0])
    ensures ValueAfter(ops, x, t) == ValueAfter(ops[1..], x + Delta(ops[0]), t - Cycles(ops[0]))
  {
  }

  /** The entries an instruction records before its last cycle ends hold
      the value it started with. */
  lemma OwnEntries(c: Cpu, op: Op)
    requires Consistent(c)
    ensures forall i :: |c.history| - 1 <= i < |c.history| - 1 + Cycles(op) ==>
      Execute(c, op).history[i] == c.latest
  {
  }

  /** The history of a whole program from the start. */
  function History(ops: seq<Op>): (h: seq<int>)
    ensures |h| == 1 + TotalCycles(ops)
    ensures forall t: nat :: t < |h| ==> h[t] == ValueAfter(ops, 1, t)
  {
    RunFollowsTimeline(Start, ops);
    Run(Start, ops).history
  }

  /** Parsing every line, `None` where the source panics. */
  function ParseProgram(input: string): Option<seq<Op>>
  {
    MapAll(Text.Lines(input), ParseOp)
  }

  /** `signal_strength`: the cycle number times the value during that
      cycle, which is the entry recorded after one cycle fewer. `None` for
      cycle 0 or a cycle past the history, where the source panics. */
  function SignalStrength(ix: nat, history: seq<int>): (r: Option<int>)
    ensures r.Some? <==> 1 <= ix <= |history|
    ensures r.Some? ==> r.value == ix * history[ix - 1]
  {
    if ix == 0 || ix > |history| then None else Some(ix * history[ix - 1])
  }

  /** For a program's history, the strength is the cycle number times the
      value during that cycle. */
  lemma StrengthOfProgram(ops: seq<Op>, ix: nat)
    requires 1 <= ix <= 1 + TotalCycles(ops)
    ensures SignalStrength(ix, History(ops)) == Some(ix * ValueAfter(ops, 1, ix - 1))
  {
  }

  const StrengthIndexes: seq<nat> := [20, 60, 100, 140, 180, 220]

  /** The sum of the strengths at the indexes `main` uses. */
  function SumStrengths(history: seq<int>, ixs: seq<nat>): (r: Option<int>)
    ensures r.Some? <==> forall k :: 0 <= k < |ixs| ==> 1 <= ixs[k] <= |history|
  {
    if |ixs| == 0 then Some(0)
    else
      var first :- SignalStrength(ixs[0], history);
      var rest :- SumStrengths(history, ixs[1..]);
      Some(first + rest)
  }

  /** The CRT draws pixel `n` lit when the sprite centred on the register's
      value covers the beam's column `n mod 40`. */
  function Pixel(n: nat, v: int): char
  {
    if Abs(n % 40 - v) < 2 then '#' else '.'
  }

  /** The screen `main` prints: one pixel per history entry, with a line
      feed after every fortieth. */
  function Screen(h: seq<int>): (r: string)
    ensures |r| == |h| + |h| / 40
    ensures forall n :: 0 <= n < |h| ==> r[n + n / 40] == Pixel(n, h[n])
    ensures forall n :: 0 <= n < |h| && n % 40 == 39 ==> r[n + n / 40 + 1] == '\n'
  {
    if |h| == 0 then []
    else
      var n := |h| - 1;
      var prev := Screen(h[..n]);
      NextRow(n);
      prev + [Pixel(n, h[n])] + (if n % 40 == 39 then "\n" else "")
  }

  lemma NextRow(n: nat)
    ensures (n + 1) / 40 == n / 40 + (if n % 40 == 39 then 1 else 0)
  {
  }

  /** A pixel is lit exactly when its column is within one of the
      register's value. */
  lemma LitColumns(n: nat, v: int)
    ensures Pixel(n, v) == '#' <==> v - 1 <= n % 40 <= v + 1
  {
  }
}
