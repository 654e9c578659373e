/** Day 5, "Supply Stacks": a crane moves crates between stacks. A stack
    lists its crates bottom first, so its top is the last element. */
module SupplyStacks {
  import opened Wrappers
  import Text
  import opened Sequences

  type Stack = seq<char>

  /** The stack numbers `from` and `to` are 1-based; the source indexes
      `stacks[from - 1]`, which panics for 0 or past the end. */
  predicate ValidNumber(stacks: seq<Stack>, n: nat) { 1 <= n <= |stacks| }

  /** When a move of `count` crates succeeds: nothing happens for no
      crates; otherwise both numbers must be valid and the source stack
      must be able to give up its crates (between different stacks it
      needs all `count`; from a stack to itself, each crate goes back
      before the next is taken, so one suffices). */
  predicate CanMove(stacks: seq<Stack>, from: nat, to: nat, count: nat)
  {
    count == 0
    || (ValidNumber(stacks, from) && ValidNumber(stacks, to)
        && |stacks[from - 1]| >= (if from == to then 1 else count))
  }

  /** The stacks after moving the top `count` crates of stack `from` onto
      stack `to`, the moved crates in the order `moved` puts them. */
  function Transfer(stacks: seq<Stack>, from: nat, to: nat, count: nat, moved: Stack -> Stack): (r: seq<Stack>)
    requires ValidNumber(stacks, from) && ValidNumber(stacks, to) && from != to
    requires |stacks[from - 1]| >= count
    ensures |r| == |stacks|
  {
    var src := stacks[from - 1];
    var keep := |src| - count;
    stacks[from - 1 := src[..keep]][to - 1 := stacks[to - 1] + moved(src[keep..])]
  }

  /** `mov` (the CrateMover 9000): `count` times, pop the top of `from`
      and push it onto `to`. The crates arrive in reverse order. */
  method Mov(stacks: seq<Stack>, from: nat, to: nat, count: nat) returns (r: Option<seq<Stack>>)
    ensures r.Some? <==> CanMove(stacks, from, to, count)
    ensures r.Some? && count > 0 && from != to ==> r.value == Transfer(stacks, from, to, count, Reversed)
    ensures r.Some? && (count == 0 || from == to) ==> r.value == stacks
  {
    if !CanMove(stacks, from, to, count) {
      if count > 0 && ValidNumber(stacks, from) && ValidNumber(stacks, to) && from != to {
        // The loop would pop an empty stack part-way through.
        assert |stacks[from - 1]| < count;
      }
      return None;
    }
    if count == 0 {
      return Some(stacks);
    }
    if from == to {
      var st := stacks;
      var i := 0;
      var f := from - 1;
      while i < count
        invariant 0 <= i <= count && st == stacks
      {
        var crate := st[f][|st[f]| - 1];
        assert st[f][..|st[f]| - 1] + [crate] == st[f];
        st := st[f := st[f][..|st[f]| - 1]];
        st := st[f := st[f] + [crate]];
        i := i + 1;
      }
      r := Some(st);
    } else {
      var st := stacks;
      TransferNone(stacks, from, to, Reversed);
      var i := 0;
      var f, t := from - 1, to - 1;
      while i < count
        invariant 0 <= i <= count
        invariant st == Transfer(stacks, from, to, i, Reversed)
      {
        MovStep(stacks, from, to, i);
        var crate := st[f][|st[f]| - 1];
        st := st[f := st[f][..|st[f]| - 1]];
        st := st[t := st[t] + [crate]];
        i := i + 1;
      }
      r := Some(st);
    }
  }

  /** Moving no crates changes nothing. */
  lemma TransferNone(stacks: seq<Stack>, from: nat, to: nat, moved: Stack -> Stack)
    requires ValidNumber(stacks, from) && ValidNumber(stacks, to) && from != to
    requires moved([]) == []
    ensures Transfer(stacks, from, to, 0, moved) == stacks
  {
    var src := stacks[from - 1];
    assert src[..|src|] == src && src[|src|..] == [];
    assert stacks[to - 1] + [] == stacks[to - 1];
  }

  /** One more pass of `mov`'s loop moves one more crate. */
  lemma MovStep(stacks: seq<Stack>, from: nat, to: nat, i: nat)
    requires ValidNumber(stacks, from) && ValidNumber(stacks, to) && from != to
    requires i < |stacks[from - 1]|
    ensures var st := Transfer(stacks, from, to, i, Reversed);
      var f, t := from - 1, to - 1;
      |st[f]| > 0 &&
      st[f := st[f][..|st[f]| - 1]][t := st[t] + [st[f][|st[f]| - 1]]] == Transfer(stacks, from, to, i + 1, Reversed)
  {
    var src := stacks[from - 1];
    var n := |src|;
    var crate := src[n - 1 - i];
    assert src[..n - i][..n - i - 1] == src[..n - (i + 1)];
    assert src[n - (i + 1)..] == [crate] + src[n - i..];
    assert Reverse(src[n - (i + 1)..]) == Reverse(src[n - i..]) + [crate];
    assert stacks[to - 1] + Reverse(src[n - (i + 1)..]) == (stacks[to - 1] + Reverse(src[n - i..])) + [crate];
  }

  /** The 9001 pops all `count` crates before pushing any, so the source
      needs them all even when it is also the target. */
  predicate CanMove9001(stacks: seq<Stack>, from: nat, to: nat, count: nat)
  {
    count == 0 || (ValidNumber(stacks, from) && ValidNumber(stacks, to) && |stacks[from - 1]| >= count)
  }

  function Identity(s: Stack): Stack { s }

  /** Reversal of a stack, as a value to pass for `moved`. */
  function Reversed(s: Stack): Stack { Reverse(s) }

  /** `mov9001` (the CrateMover 9001): pop `count` crates, then push them
      back in their original order onto `to`. The crates keep their order. */
  method Mov9001(stacks: seq<Stack>, from: nat, to: nat, count: nat) returns (r: Option<seq<Stack>>)
    ensures r.Some? <==> CanMove9001(stacks, from, to, count)
    ensures r.Some? && count > 0 && from != to ==> r.value == Transfer(stacks, from, to, count, Identity)
    ensures r.Some? && (count == 0 || from == to) ==> r.value == stacks
  {
    if count == 0 {
      return Some(stacks);
    }
    if !CanMove9001(stacks, from, to, count) {
      return None;
    }
    var src := stacks[from - 1];
    var popped := PopCrates(src, count);
    ReverseReverse(src[|src| - count..]);
    var st0 := stacks[from - 1 := src[..|src| - count]];
    var st := PushAll(st0, to - 1, Reverse(popped));
    Mov9001Result(stacks, from, to, count, st0, st);
    r := Some(st);
  }

  /** Popping the crates and pushing them back in order gives the
      9001's move (or nothing at all, from a stack to itself). */
  lemma Mov9001Result(stacks: seq<Stack>, from: nat, to: nat, count: nat, st0: seq<Stack>, st: seq<Stack>)
    requires ValidNumber(stacks, from) && ValidNumber(stacks, to) && |stacks[from - 1]| >= count
    requires st0 == stacks[from - 1 := stacks[from - 1][..|stacks[from - 1]| - count]]
    requires st == st0[to - 1 := st0[to - 1] + stacks[from - 1][|stacks[from - 1]| - count..]]
    ensures from == to ==> st == stacks
    ensures from != to ==> st == Transfer(stacks, from, to, count, Identity)
  {
    var src := stacks[from - 1];
    assert src[..|src| - count] + src[|src| - count..] == src;
  }

  /** The first loop of `mov9001`: pop `count` crates, topmost first. */
  method PopCrates(src: Stack, count: nat) returns (crates: seq<char>)
    requires count <= |src|
    ensures crates == Reverse(src[|src| - count..])
  {
    crates := [];
    var i := 0;
    while i < count
      invariant 0 <= i <= count && |crates| == i
      invariant forall k :: 0 <= k < i ==> crates[k] == src[|src| - 1 - k]
    {
      crates := crates + [src[|src| - 1 - i]];
      i := i + 1;
    }
    ReversedTop(src, count, crates);
  }

  /** Crates listed topmost first are the top `count` crates reversed. */
  lemma ReversedTop(src: Stack, count: nat, crates: seq<char>)
    requires count <= |src| && |crates| == count
    requires forall k :: 0 <= k < count ==> crates[k] == src[|src| - 1 - k]
    ensures crates == Reverse(src[|src| - count..])
  {
    var top := src[|src| - count..];
    assert |top| == count;
    var r := Reverse(top);
    forall k | 0 <= k < count
      ensures crates[k] == r[k]
    {
      assert r[k] == top[|top| - 1 - k];
      assert top[|top| - 1 - k] == src[|src| - 1 - k];
    }
    assert crates == r;
  }

  /** The second loop of `mov9001`: push the crates in order onto stack `t`. */
  method PushAll(stacks: seq<Stack>, t: nat, crates: seq<char>) returns (st: seq<Stack>)
    requires t < |stacks|
    ensures st == stacks[t := stacks[t] + crates]
  {
    st := stacks;
    var j := 0;
    assert stacks[t] + crates[..0] == stacks[t];
    while j < |crates|
      invariant 0 <= j <= |crates|
      invariant st == stacks[t := stacks[t] + crates[..j]]
    {
      assert crates[..j + 1] == crates[..j] + [crates[j]];
      assert stacks[t] + crates[..j + 1] == (stacks[t] + crates[..j]) + [crates[j]];
      st := st[t := st[t] + [crates[j]]];
      j := j + 1;
    }
    assert crates[..j] == crates;
  }

  /** The total number of crates. */
  function Crates(stacks: seq<Stack>): nat
  {
    if |stacks| == 0 then 0 else |stacks[0]| + Crates(stacks[1..])
  }

  lemma {:induction false} CratesUpdate(stacks: seq<Stack>, i: nat, s: Stack)
    requires i < |stacks|
    ensures Crates(stacks[i := s]) == Crates(stacks) - |stacks[i]| + |s|
  {
    if i > 0 {
      CratesUpdate(stacks[1..], i - 1, s);
      assert stacks[i := s][1..] == stacks[1..][i - 1 := s];
    }
  }

  /** A move shrinks the source by `count`, grows the target by `count`,
      leaves every other stack alone and keeps the number of crates. */
  lemma TransferShape(stacks: seq<Stack>, from: nat, to: nat, count: nat, moved: Stack -> Stack)
    requires ValidNumber(stacks, from) && ValidNumber(stacks, to) && from != to
    requires |stacks[from - 1]| >= count
    requires forall s :: |moved(s)| == |s|
    ensures |Transfer(stacks, from, to, count, moved)[from - 1]| == |stacks[from - 1]| - count
    ensures |Transfer(stacks, from, to, count, moved)[to - 1]| == |stacks[to - 1]| + count
    ensures forall i :: 0 <= i < |stacks| && i != from - 1 && i != to - 1 ==>
      Transfer(stacks, from, to, count, moved)[i] == stacks[i]
    ensures Crates(Transfer(stacks, from, to, count, moved)) == Crates(stacks)
  {
    var src := stacks[from - 1];
    var keep := |src| - count;
    var mid := stacks[from - 1 := src[..keep]];
    CratesUpdate(stacks, from - 1, src[..keep]);
    CratesUpdate(mid, to - 1, stacks[to - 1] + moved(src[keep..]));
  }

  /** Moving at most one crate, the two cranes agree. */
  lemma CranesAgreeOnOne(stacks: seq<Stack>, from: nat, to: nat, count: nat)
    requires ValidNumber(stacks, from) && ValidNumber(stacks, to) && from != to
    requires |stacks[from - 1]| >= count && count <= 1
    ensures Transfer(stacks, from, to, count, Reversed) == Transfer(stacks, from, to, count, Identity)
  {
    var src := stacks[from - 1];
    ReverseShort(src[|src| - count..]);
  }

  /** The message: the top crate of every stack, in order; `None` when a
      stack is empty, where the source's `unwrap` panics. */
  function Tops(stacks: seq<Stack>): (r: Option<string>)
    ensures r.Some? <==> forall i :: 0 <= i < |stacks| ==> |stacks[i]| > 0
    ensures r.Some? ==> |r.value| == |stacks| && forall i :: 0 <= i < |stacks| ==> r.value[i] == stacks[i][|stacks[i]| - 1]
  {
    MapAll(stacks, (s: Stack) => if |s| == 0 then None else Some(s[|s| - 1]))
  }

  datatype Instruction = Instruction(count: nat, from: nat, to: nat)

  /** A procedure line `move <count> from <from> to <to>`: the source
      reads the words at positions 1, 3 and 5 of the line split at spaces. */
  function ParseInstruction(line: string): (r: Option<Instruction>)
    ensures r.Some? ==> |Text.Split(line, ' ')| >= 6
  {
    var words := Text.Split(line, ' ');
    if |words| < 6 then None
    else
      var count :- Text.ParseNat(words[1]);
      var from :- Text.ParseNat(words[3]);
      var to :- Text.ParseNat(words[5]);
      Some(Instruction(count, from, to))
  }

  /** The words of a printed instruction. */
  lemma ShowWords(ins: Instruction)
    ensures Text.Split(Show(ins), ' ') == ["move", Text.NatToString(ins.count), "from",
      Text.NatToString(ins.from), "to", Text.NatToString(ins.to)]
  {
    var c, f, t := Text.NatToString(ins.count), Text.NatToString(ins.from), Text.NatToString(ins.to);
    assert ' ' !in c && ' ' !in f && ' ' !in t by {
      assert forall s: string :: Text.AllDigits(s) ==> ' ' !in s;
    }
    Text.SplitSixWords("move", c, "from", f, "to", t);
  }

  /** Printing an instruction in the puzzle's words and reading it back
      gives the instruction. */
  lemma ParseInstructionRoundTrip(ins: Instruction)
    ensures ParseInstruction(Show(ins)) == Some(ins)
  {
    ShowWords(ins);
    Text.ParseNatOfNatToString(ins.count);
    Text.ParseNatOfNatToString(ins.from);
    Text.ParseNatOfNatToString(ins.to);
  }

  function Show(ins: Instruction): string
  {
    var c, f, t := Text.NatToString(ins.count), Text.NatToString(ins.from), Text.NatToString(ins.to);
    "move" + " " + (c + " " + ("from" + " " + (f + " " + ("to" + " " + t))))
  }

  datatype Crane = CrateMover9000 | CrateMover9001

  /** One instruction carried out by a crane, as `mov` and `mov9001` do
      it; `None` where the source panics. */
  function Step(crane: Crane, stacks: seq<Stack>, ins: Instruction): (r: Option<seq<Stack>>)
    ensures r.Some? ==> |r.value| == |stacks| && Crates(r.value) == Crates(stacks)
  {
    match crane
    case CrateMover9000 =>
      if !CanMove(stacks, ins.from, ins.to, ins.count) then None
      else if ins.count == 0 || ins.from == ins.to then Some(stacks)
      else Some(Carry(stacks, ins, Reversed))
    case CrateMover9001 =>
      if !CanMove9001(stacks, ins.from, ins.to, ins.count) then None
      else if ins.count == 0 || ins.from == ins.to then Some(stacks)
      else Some(Carry(stacks, ins, Identity))
  }

  /** A move between two different stacks that both exist, keeping the
      number of crates. */
  function Carry(stacks: seq<Stack>, ins: Instruction, moved: Stack -> Stack): (r: seq<Stack>)
    requires ValidNumber(stacks, ins.from) && ValidNumber(stacks, ins.to) && ins.from != ins.to
    requires |stacks[ins.from - 1]| >= ins.count
    requires moved == Reversed || moved == Identity
    ensures |r| == |stacks| && Crates(r) == Crates(stacks)
  {
    assert forall s :: |moved(s)| == |s| by {
      forall s ensures |moved(s)| == |s| {
        if moved == Reversed {
          assert |Reversed(s)| == |s|;
        }
      }
    }
    TransferShape(stacks, ins.from, ins.to, ins.count, moved);
    Transfer(stacks, ins.from, ins.to, ins.count, moved)
  }

  /** The whole rearrangement procedure, one instruction after another. */
  function Procedure(crane: Crane, stacks: seq<Stack>, ins: seq<Instruction>): Option<seq<Stack>>
    decreases |ins|
  {
    if |ins| == 0 then Some(stacks)
    else
      var next :- Step(crane, stacks, ins[0]);
      Procedure(crane, next, ins[1..])
  }

  /** A procedure that completes leaves the same stacks holding the same
      number of crates. */
  lemma {:induction false} ProcedureKeepsCrates(crane: Crane, stacks: seq<Stack>, ins: seq<Instruction>)
    requires Procedure(crane, stacks, ins).Some?
    ensures |Procedure(crane, stacks, ins).value| == |stacks|
    ensures Crates(Procedure(crane, stacks, ins).value) == Crates(stacks)
    decreases |ins|
  {
    if |ins| > 0 {
      ProcedureKeepsCrates(crane, Step(crane, stacks, ins[0]).value, ins[1..]);
    }
  }

  /** `main`'s second loop: run every instruction through both cranes. */
  method RunProcedure(stacks: seq<Stack>, ins: seq<Instruction>) returns (r: Option<(seq<Stack>, seq<Stack>)>)
    ensures r.Some? <==> Procedure(CrateMover9000, stacks, ins).Some? && Procedure(CrateMover9001, stacks, ins).Some?
    ensures r.Some? ==> r.value == (Procedure(CrateMover9000, stacks, ins).value, Procedure(CrateMover9001, stacks, ins).value)
  {
    var a, b := stacks, stacks;
    var i := 0;
    while i < |ins|
      invariant 0 <= i <= |ins|
      invariant Procedure(CrateMover9000, stacks, ins) == Procedure(CrateMover9000, a, ins[i..])
      invariant Procedure(CrateMover9001, stacks, ins) == Procedure(CrateMover9001, b, ins[i..])
    {
      var na := Mov(a, ins[i].from, ins[i].to, ins[i].count);
      var nb := Mov9001(b, ins[i].from, ins[i].to, ins[i].count);
      assert ins[i..][1..] == ins[i + 1..];
      if na.None? || nb.None? {
        return None;
      }
      a, b := na.value, nb.value;
      i := i + 1;
    }
    r := Some((a, b));
  }
}
