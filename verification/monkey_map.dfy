/** Day 22, "Monkey Map": walking a board of open and solid tiles whose rows
    and columns wrap around, turning a quarter left or right, the password of
    the final position, and the offsets of the cube folding of the second
    part. */
module MonkeyMap {
  import opened Wrappers
  import Text
  import Arith

  datatype Direction = Right | Down | Left | Up

  /** `dir as usize`: the facing's value in the password. */
  function Facing(d: Direction): (n: nat)
    ensures n < 4
  {
    match d
    case Right => 0
    case Down => 1
    case Left => 2
    case Up => 3
  }

  /** The number of clockwise quarter turns a turn direction stands for:
      `Up` goes straight on, `Right` turns clockwise, `Down` turns around
      and `Left` turns anticlockwise. */
  function Quarters(t: Direction): nat
  {
    match t
    case Up => 0
    case Right => 1
    case Down => 2
    case Left => 3
  }

  /** `From<u8> for Direction`: the facing whose value is `n` modulo 4. */
  function FromNat(n: nat): (d: Direction)
    ensures Facing(d) == n % 4
  {
    match n % 4
    case 0 => Right
    case 1 => Down
    case 2 => Left
    case _ => Up
  }

  /** `Direction::opposite`. */
  function Opposite(d: Direction): (r: Direction)
    ensures Facing(r) == (Facing(d) + 2) % 4
  {
    match d
    case Right => Left
    case Left => Right
    case Up => Down
    case Down => Up
  }

  /** `Direction::turn`: a clockwise quarter for `Right`, the opposite of
      that for `Left`, nothing for `Up` and an about-turn for `Down`. */
  function Turn(d: Direction, t: Direction): (r: Direction)
    ensures Facing(r) == (Facing(d) + Quarters(t)) % 4
    decreases Quarters(t)
  {
    match t
    case Right =>
      (match d
       case Up => Right
       case Right => Down
       case Down => Left
       case Left => Up)
    case Left => Opposite(Turn(d, Right))
    case Up => d
    case Down => Opposite(d)
  }

  lemma FacingRoundTrip(d: Direction)
    ensures FromNat(Facing(d)) == d
  {
  }

  lemma OppositeInvolution(d: Direction)
    ensures Opposite(Opposite(d)) == d
    ensures Opposite(d) != d
  {
  }

  /** A left turn undoes a right turn and the other way round; going straight
      changes nothing and turning around is the opposite. */
  lemma TurnLaws(d: Direction)
    ensures Turn(Turn(d, Right), Left) == d && Turn(Turn(d, Left), Right) == d
    ensures Turn(d, Up) == d && Turn(d, Down) == Opposite(d)
  {
  }

  /** The order in which `Direction::to` tries the turns. */
  const Directions: seq<Direction> := [Down, Left, Up, Right]

  /** The first turn of `dirs` that takes `d` to `next`. */
  function FirstTurn(d: Direction, next: Direction, dirs: seq<Direction>): (r: Option<Direction>)
    ensures r.Some? ==> r.value in dirs && Turn(d, r.value) == next
    ensures r.None? <==> forall i :: 0 <= i < |dirs| ==> Turn(d, dirs[i]) != next
  {
    if |dirs| == 0 then None
    else if Turn(d, dirs[0]) == next then Some(dirs[0])
    else FirstTurn(d, next, dirs[1..])
  }

  /** `Direction::to`: the turn that takes `d` to `next`. Some turn always
      does, so the `unreachable!` after the loop is never reached. */
  function To(d: Direction, next: Direction): (r: Direction)
    ensures Turn(d, r) == next
    ensures forall t :: Turn(d, t) == next ==> t == r
  {
    SomeTurnReaches(d, next);
    FirstTurn(d, next, Directions).value
  }

  lemma SomeTurnReaches(d: Direction, next: Direction)
    ensures FirstTurn(d, next, Directions).Some?
  {
    var q := (Facing(next) + 4 - Facing(d)) % 4;
    var i := if q == 0 then 2 else if q == 1 then 3 else if q == 2 then 0 else 1;
    assert Quarters(Directions[i]) == q;
    assert Turn(d, Directions[i]) == next;
  }

  datatype Location = Location(row: nat, col: nat)

  /** `Me`: where the walker stands and which way it faces. */
  datatype Me = Me(loc: Location, dir: Direction)

  /** `Me::password`: the remainder modulo four is the facing, whatever the
      position, and the least password, at the top left facing right, is
      1004. */
  function Password(me: Me): (r: nat)
    ensures r % 4 == Facing(me.dir)
    ensures r >= 1004 && (r == 1004 <==> me == Me(Location(0, 0), Right))
  {
    1000 * (me.loc.row + 1) + 4 * (me.loc.col + 1) + Facing(me.dir)
  }

  /** The password can be read back: thousands give the row, the rest over
      four the column and the remainder modulo four the facing, as long as
      the column is below 249 so that the column part stays under 1000. */
  lemma PasswordDecodes(me: Me)
    requires me.loc.col < 249
    ensures Password(me) / 1000 == me.loc.row + 1
    ensures Password(me) % 1000 / 4 == me.loc.col + 1
    ensures Password(me) % 4 == Facing(me.dir)
  {
    var rest := 4 * (me.loc.col + 1) + Facing(me.dir);
    Arith.DivModUnique(Password(me), 1000, me.loc.row + 1, rest);
    Arith.DivModUnique(rest, 4, me.loc.col + 1, Facing(me.dir));
    Arith.DivModUnique(Password(me), 4, 250 * (me.loc.row + 1) + me.loc.col + 1, Facing(me.dir));
  }

  datatype Tile = Open | Solid | Visited(turn: nat)

  /** `Board`: the tiles by location, with the board's extent. The source
      recomputes `width()` and `height()` from the tiles on each call; here
      they are stored, and `Measured` says they are what those compute. */
  datatype Board = Board(tiles: map<Location, Tile>, width: nat, height: nat)

  predicate InRange(b: Board, loc: Location)
  {
    loc.row < b.height && loc.col < b.width
  }

  /** Every tile lies within the width and the height. */
  predicate Bounded(b: Board)
  {
    0 < b.width && 0 < b.height && forall loc :: loc in b.tiles ==> InRange(b, loc)
  }

  /** `width()` and `height()`: one past the largest column and row of a tile. */
  predicate Measured(b: Board)
  {
    && Bounded(b)
    && (exists loc :: loc in b.tiles && loc.col + 1 == b.width)
    && (exists loc :: loc in b.tiles && loc.row + 1 == b.height)
  }

  /** `Board::width` and `Board::height` over a board's tiles; an empty board
      makes the source's `max().unwrap()` panic. */
  method Measure(tiles: map<Location, Tile>) returns (b: Board)
    requires tiles != map[]
    ensures b.tiles == tiles && Measured(b)
  {
    var first :| first in tiles;
    var widest, tallest := first, first;
    var left := tiles.Keys - {first};
    while left != {}
      invariant left <= tiles.Keys
      invariant widest in tiles && tallest in tiles
      invariant forall loc :: loc in tiles && loc !in left ==> loc.col <= widest.col && loc.row <= tallest.row
      decreases |left|
    {
      var loc :| loc in left;
      if loc.col > widest.col {
        widest := loc;
      }
      if loc.row > tallest.row {
        tallest := loc;
      }
      left := left - {loc};
    }
    b := Board(tiles, widest.col + 1, tallest.row + 1);
  }

  /** The width for a horizontal move, the height for a vertical one. */
  function Span(b: Board, d: Direction): nat
  {
    if d == Right || d == Left then b.width else b.height
  }

  /** `Board::increment`: `amount` cells ahead, wrapping around the width or
      the height. Going left or up subtracts in `usize`, so the amount may
      not exceed the coordinate plus the span there. */
  function Increment(b: Board, me: Me, amount: nat): (r: Location)
    requires 0 < b.width && 0 < b.height
    requires me.dir == Left ==> amount <= me.loc.col + b.width
    requires me.dir == Up ==> amount <= me.loc.row + b.height
    ensures me.dir == Right || me.dir == Left ==> r.row == me.loc.row && r.col < b.width
    ensures me.dir == Up || me.dir == Down ==> r.col == me.loc.col && r.row < b.height
  {
    var loc := me.loc;
    match me.dir
    case Right => Location(loc.row, (loc.col + amount) % b.width)
    case Left => Location(loc.row, (loc.col + b.width - amount) % b.width)
    case Up => Location((loc.row + b.height - amount) % b.height, loc.col)
    case Down => Location((loc.row + amount) % b.height, loc.col)
  }

  /** `x % w` for `0 <= x < 2w`: at most one wrap. */
  lemma WrapOnce(x: nat, w: nat)
    requires 0 < w && x < 2 * w
    ensures x % w == if x < w then x else x - w
  {
    if x < w {
      Arith.DivModUnique(x, w, 0, x);
    } else {
      Arith.DivModUnique(x, w, 1, x - w);
    }
  }

  /** `amount` cells ahead of a cell of the board, wrapping at most once:
      past the last column or row the walk goes on from the first. */
  function Ahead(b: Board, me: Me, amount: nat): Location
    requires me.dir == Left ==> amount <= me.loc.col + b.width
    requires me.dir == Up ==> amount <= me.loc.row + b.height
  {
    var loc := me.loc;
    match me.dir
    case Right => Location(loc.row, if loc.col + amount < b.width then loc.col + amount else loc.col + amount - b.width)
    case Left => Location(loc.row, if amount <= loc.col then loc.col - amount else loc.col + b.width - amount)
    case Down => Location(if loc.row + amount < b.height then loc.row + amount else loc.row + amount - b.height, loc.col)
    case Up => Location(if amount <= loc.row then loc.row - amount else loc.row + b.height - amount, loc.col)
  }

  /** From a cell of the board, at most a span ahead, the modular increment
      is the single wrap of `Ahead`. */
  lemma IncrementOnce(b: Board, me: Me, amount: nat)
    requires 0 < b.width && 0 < b.height && InRange(b, me.loc) && amount <= Span(b, me.dir)
    ensures Increment(b, me, amount) == Ahead(b, me, amount)
  {
    match me.dir
    case Right => WrapOnce(me.loc.col + amount, b.width);
    case Left => WrapOnce(me.loc.col + b.width - amount, b.width);
    case Down => WrapOnce(me.loc.row + amount, b.height);
    case Up => WrapOnce(me.loc.row + b.height - amount, b.height);
  }

  lemma AheadStep(b: Board, me: Me, k: nat)
    requires InRange(b, me.loc) && k < Span(b, me.dir)
    ensures Ahead(b, Me(Ahead(b, me, k), me.dir), 1) == Ahead(b, me, k + 1)
  {
  }

  /** One more cell from `k` cells ahead is `k + 1` cells ahead: the loop of
      `Board::next`, which steps one cell at a time, visits exactly the cells
      `1, 2, ...` ahead of the start. */
  lemma IncrementStep(b: Board, me: Me, k: nat)
    requires 0 < b.width && 0 < b.height && InRange(b, me.loc) && k < Span(b, me.dir)
    ensures Increment(b, Me(Increment(b, me, k), me.dir), 1) == Increment(b, me, k + 1)
  {
    IncrementOnce(b, me, k);
    IncrementOnce(b, me, k + 1);
    IncrementOnce(b, Me(Ahead(b, me, k), me.dir), 1);
    AheadStep(b, me, k);
  }

  /** Going round the board comes back to the start after exactly one span. */
  lemma IncrementReturns(b: Board, me: Me, k: nat)
    requires 0 < b.width && 0 < b.height && InRange(b, me.loc) && 1 <= k <= Span(b, me.dir)
    ensures Increment(b, me, k) == me.loc <==> k == Span(b, me.dir)
  {
    IncrementOnce(b, me, k);
  }

  /** `Board::increment_without_wrapping`: `amount` cells ahead, or nothing
      when that would go left of column 0, above row 0, or more than one
      past the last column or row. */
  function IncrementWithoutWrapping(b: Board, me: Me, amount: nat): (r: Option<Location>)
    ensures r.None? <==>
      || (me.dir == Right && me.loc.col + amount > b.width)
      || (me.dir == Left && amount > me.loc.col)
      || (me.dir == Up && amount > me.loc.row)
      || (me.dir == Down && me.loc.row + amount > b.height)
    ensures r.Some? && (me.dir == Right || me.dir == Left) ==> r.value.row == me.loc.row
    ensures r.Some? && (me.dir == Up || me.dir == Down) ==> r.value.col == me.loc.col
    ensures r.Some? && me.dir == Right ==> r.value.col == me.loc.col + amount
    ensures r.Some? && me.dir == Left ==> r.value.col + amount == me.loc.col
    ensures r.Some? && me.dir == Down ==> r.value.row == me.loc.row + amount
    ensures r.Some? && me.dir == Up ==> r.value.row + amount == me.loc.row
  {
    var loc := me.loc;
    match me.dir
    case Right => if loc.col + amount > b.width then None else Some(Location(loc.row, loc.col + amount))
    case Left => if amount > loc.col then None else Some(Location(loc.row, loc.col - amount))
    case Up => if amount > loc.row then None else Some(Location(loc.row - amount, loc.col))
    case Down => if loc.row + amount > b.height then None else Some(Location(loc.row + amount, loc.col))
  }

  /** Where the unwrapped move stays on the board, the wrapping one agrees. */
  lemma IncrementAgrees(b: Board, me: Me, amount: nat)
    requires 0 < b.width && 0 < b.height && InRange(b, me.loc) && amount <= Span(b, me.dir)
    requires IncrementWithoutWrapping(b, me, amount).Some?
    requires InRange(b, IncrementWithoutWrapping(b, me, amount).value)
    ensures Increment(b, me, amount) == IncrementWithoutWrapping(b, me, amount).value
  {
    IncrementOnce(b, me, amount);
  }

  /** The loop of `Board::next` after `k - 1` cells ahead held no tile. */
  function Scan(b: Board, me: Me, k: nat): (r: Option<Location>)
    requires 0 < b.width && 0 < b.height && InRange(b, me.loc) && 1 <= k <= Span(b, me.dir)
    ensures r.Some? ==> r.value in b.tiles && !b.tiles[r.value].Solid? && r.value != me.loc
    decreases Span(b, me.dir) - k
  {
    var loc := Increment(b, me, k);
    if loc == me.loc then None
    else if loc in b.tiles then (if b.tiles[loc].Solid? then None else Some(loc))
    else IncrementReturns(b, me, k); Scan(b, me, k + 1)
  }

  /** `Board::next`: the first tile ahead along the row or column, wrapping
      around; nothing when it is solid or when the walk comes back round.
      The source loops for ever from a cell outside the board's extent, so
      the start must be inside it. */
  function Next(b: Board, me: Me): (r: Option<Location>)
    requires 0 < b.width && 0 < b.height && InRange(b, me.loc)
    ensures r.Some? ==> r.value in b.tiles && !b.tiles[r.value].Solid? && r.value != me.loc
  {
    Scan(b, me, 1)
  }

  /** The `k`th cell ahead is the first one holding a tile. */
  predicate FirstTileAhead(b: Board, me: Me, k: nat)
    requires 0 < b.width && 0 < b.height && InRange(b, me.loc) && k <= Span(b, me.dir)
  {
    && Increment(b, me, k) in b.tiles
    && forall j :: 1 <= j < k ==> Increment(b, me, j) !in b.tiles
  }

  lemma {:induction false} ScanFinds(b: Board, me: Me, i: nat, k: nat)
    requires 0 < b.width && 0 < b.height && InRange(b, me.loc)
    requires 1 <= i <= k < Span(b, me.dir)
    requires Increment(b, me, k) in b.tiles
    requires forall j :: i <= j < k ==> Increment(b, me, j) !in b.tiles
    ensures Scan(b, me, i) == if b.tiles[Increment(b, me, k)].Solid? then None else Some(Increment(b, me, k))
    decreases k - i
  {
    IncrementReturns(b, me, i);
    if i < k {
      ScanFinds(b, me, i + 1, k);
    }
  }

  lemma {:induction false} ScanEmpty(b: Board, me: Me, i: nat)
    requires 0 < b.width && 0 < b.height && InRange(b, me.loc)
    requires 1 <= i <= Span(b, me.dir)
    requires forall j :: i <= j < Span(b, me.dir) ==> Increment(b, me, j) !in b.tiles
    ensures Scan(b, me, i) == None
    decreases Span(b, me.dir) - i
  {
    IncrementReturns(b, me, i);
    if i < Span(b, me.dir) {
      ScanEmpty(b, me, i + 1);
    }
  }

  /** `next` stops at the first tile ahead: it moves there when that tile is
      open (or visited) and stays put when it is solid. */
  lemma NextFindsFirstTile(b: Board, me: Me, k: nat)
    requires 0 < b.width && 0 < b.height && InRange(b, me.loc)
    requires 1 <= k < Span(b, me.dir) && FirstTileAhead(b, me, k)
    ensures Next(b, me) == if b.tiles[Increment(b, me, k)].Solid? then None else Some(Increment(b, me, k))
  {
    ScanFinds(b, me, 1, k);
  }

  /** With no other tile on the whole row or column, `next` finds nothing. */
  lemma NextWithoutTiles(b: Board, me: Me)
    requires 0 < b.width && 0 < b.height && InRange(b, me.loc)
    requires forall j :: 1 <= j < Span(b, me.dir) ==> Increment(b, me, j) !in b.tiles
    ensures Next(b, me) == None
  {
    ScanEmpty(b, me, 1);
  }

  /** The walk of `Instruction::Move(n)`: `n` tries of `next`, each moving
      when it finds an open tile and standing still otherwise. */
  function Walk(b: Board, me: Me, n: nat): (r: Me)
    requires Bounded(b) && InRange(b, me.loc)
    ensures r.dir == me.dir && InRange(b, r.loc)
    ensures me.loc in b.tiles ==> r.loc in b.tiles
    decreases n
  {
    if n == 0 then me
    else match Next(b, me)
      case Some(loc) => Walk(b, Me(loc, me.dir), n - 1)
      case None => Walk(b, me, n - 1)
  }

  /** A blocked walker stays blocked, so the whole move leaves it in place. */
  lemma {:induction false} WalkBlocked(b: Board, me: Me, n: nat)
    requires Bounded(b) && InRange(b, me.loc)
    ensures Next(b, me).None? ==> Walk(b, me, n) == me
  {
    if n > 0 {
      WalkBlocked(b, me, n - 1);
    }
  }

  /** Moving `m` then `n` cells is moving `m + n` cells. */
  lemma {:induction false} WalkSplits(b: Board, me: Me, m: nat, n: nat)
    requires Bounded(b) && InRange(b, me.loc)
    ensures Walk(b, Walk(b, me, m), n) == Walk(b, me, m + n)
    decreases m
  {
    if m > 0 {
      match Next(b, me)
      case Some(loc) => WalkSplits(b, Me(loc, me.dir), m - 1, n);
      case None => WalkSplits(b, me, m - 1, n);
    }
  }

  datatype Instruction = Move(steps: nat) | TurnBy(quarters: nat)

  /** `Board::process_instruction`. A move walks; `Turn(1)` and `Turn(3)`
      add one or three to the facing modulo 4; any other turn is
      `unimplemented!`, a panic, here `None`. */
  function ProcessInstruction(b: Board, me: Me, inst: Instruction): (r: Option<Me>)
    requires Bounded(b) && InRange(b, me.loc)
    ensures r.None? <==> inst.TurnBy? && inst.quarters != 1 && inst.quarters != 3
    ensures r.Some? && inst.Move? ==> r.value.dir == me.dir && InRange(b, r.value.loc)
    ensures r.Some? && inst.Move? && Next(b, me).None? ==> r.value == me
    ensures r.Some? && inst.TurnBy? ==>
      r.value.loc == me.loc && r.value.dir == Turn(me.dir, if inst.quarters == 1 then Right else Left)
  {
    match inst
    case Move(n) => WalkBlocked(b, me, n); Some(Walk(b, me, n))
    case TurnBy(q) =>
      if q == 1 then Some(Me(me.loc, FromNat(Facing(me.dir) + 1)))
      else if q == 3 then Some(Me(me.loc, FromNat(Facing(me.dir) + 3)))
      else None
  }

  /** Turning right and then left, or left and then right, restores the facing. */
  lemma TurnBack(b: Board, me: Me)
    requires Bounded(b) && InRange(b, me.loc)
    ensures ProcessInstruction(b, ProcessInstruction(b, me, TurnBy(1)).value, TurnBy(3)) == Some(me)
    ensures ProcessInstruction(b, ProcessInstruction(b, me, TurnBy(3)).value, TurnBy(1)) == Some(me)
  {
  }

  /** An instruction the parser produces. */
  predicate Valid(inst: Instruction)
  {
    inst.Move? || inst.quarters == 1 || inst.quarters == 3
  }

  /** The loop of `Instruction::from` over the rest of the line, with the
      instructions so far and the pending number text. A number that does
      not parse is kept and keeps growing. */
  function Gather(input: string, ret: seq<Instruction>, num: string): (r: seq<Instruction>)
    ensures (forall i :: 0 <= i < |ret| ==> Valid(ret[i])) ==> forall i :: 0 <= i < |r| ==> Valid(r[i])
    ensures |ret| <= |r|
    decreases |input|
  {
    if |input| == 0 then
      match Text.ParseNat(num)
      case Some(n) => ret + [Move(n)]
      case None => ret
    else
      var c := input[0];
      var flushed := if c == 'R' || c == 'L' then
          (match Text.ParseNat(num)
           case Some(n) => (ret + [Move(n)], "")
           case None => (ret, num))
        else (ret, num + [c]);
      var turned := if c == 'R' then flushed.0 + [TurnBy(1)]
        else if c == 'L' then flushed.0 + [TurnBy(3)]
        else flushed.0;
      Gather(input[1..], turned, flushed.1)
  }

  /** `Instruction::from(&str) -> Vec<Instruction>`: digit runs become moves,
      `R` a clockwise quarter turn and `L` three of them. */
  function ParseInstructions(line: string): (r: seq<Instruction>)
    ensures forall i :: 0 <= i < |r| ==> Valid(r[i])
  {
    Gather(line, [], "")
  }

  /** The text of one instruction. */
  function Word(inst: Instruction): (w: string)
    requires Valid(inst)
    ensures |w| > 0
  {
    match inst
    case Move(n) => Text.NatToString(n)
    case TurnBy(q) => if q == 1 then "R" else "L"
  }

  /** `From<&str> for Instruction`: a single instruction word; a word that is
      neither a turn nor a number makes `unwrap` panic, here `None`. */
  function ParseWord(word: string): (r: Option<Instruction>)
    ensures r.Some? ==> Valid(r.value)
  {
    if word == "R" then Some(TurnBy(1))
    else if word == "L" then Some(TurnBy(3))
    else match Text.ParseNat(word)
      case Some(n) => Some(Move(n))
      case None => None
  }

  lemma WordRoundTrip(inst: Instruction)
    requires Valid(inst)
    ensures ParseWord(Word(inst)) == Some(inst)
  {
    if inst.Move? {
      Text.ParseNatOfNatToString(inst.steps);
      assert Text.IsDigit(Word(inst)[0]);
    }
  }

  /** A path as the puzzle writes it: instruction words run together. */
  function Render(insts: seq<Instruction>): string
    requires forall i :: 0 <= i < |insts| ==> Valid(insts[i])
  {
    if |insts| == 0 then "" else Word(insts[0]) + Render(insts[1..])
  }

  /** Valid instructions with no two moves in a row (their digits would run
      together). */
  predicate WellFormed(insts: seq<Instruction>)
  {
    && (forall i :: 0 <= i < |insts| ==> Valid(insts[i]))
    && forall i :: 0 <= i < |insts| - 1 ==> !(insts[i].Move? && insts[i + 1].Move?)
  }

  lemma {:induction false} GatherDigits(digits: string, tail: string, ret: seq<Instruction>, num: string)
    requires Text.AllDigits(digits)
    ensures Gather(digits + tail, ret, num) == Gather(tail, ret, num + digits)
    decreases |digits|
  {
    if |digits| == 0 {
      assert digits + tail == tail;
      assert num + digits == num;
    } else {
      assert (digits + tail)[1..] == digits[1..] + tail;
      assert Text.IsDigit(digits[0]);
      GatherDigits(digits[1..], tail, ret, num + [digits[0]]);
      assert num + [digits[0]] + digits[1..] == num + digits;
    }
  }

  lemma {:induction false} GatherTurn(insts: seq<Instruction>, ret: seq<Instruction>, num: string)
    requires |insts| > 0 && insts[0].TurnBy? && WellFormed(insts)
    ensures WellFormed(insts[1..])
    ensures Text.ParseNat(num).None? ==>
      Gather(Render(insts), ret, num) == Gather(Render(insts[1..]), ret + [insts[0]], num)
    ensures Text.ParseNat(num).Some? ==>
      Gather(Render(insts), ret, num) == Gather(Render(insts[1..]), ret + [Move(Text.ParseNat(num).value)] + [insts[0]], "")
  {
    var w := Word(insts[0]);
    assert Render(insts) == w + Render(insts[1..]);
    assert (w + Render(insts[1..]))[1..] == Render(insts[1..]);
  }

  /** Parsing a rendered well-formed path gives the path back. */
  lemma {:induction false} GatherRender(insts: seq<Instruction>, ret: seq<Instruction>)
    requires WellFormed(insts)
    ensures Gather(Render(insts), ret, "") == ret + insts
    decreases |insts|, 1
  {
    if |insts| == 0 {
      assert ret + insts == ret;
    } else if insts[0].TurnBy? {
      GatherRenderTurn(insts, ret);
    } else {
      GatherRenderMove(insts, ret);
    }
  }

  lemma {:induction false} GatherRenderTurn(insts: seq<Instruction>, ret: seq<Instruction>)
    requires WellFormed(insts) && |insts| > 0 && insts[0].TurnBy?
    ensures Gather(Render(insts), ret, "") == ret + insts
    decreases |insts|, 0
  {
    assert Text.ParseNat("").None?;
    GatherTurn(insts, ret, "");
    GatherRender(insts[1..], ret + [insts[0]]);
    assert ret + [insts[0]] + insts[1..] == ret + insts;
  }

  lemma {:induction false} GatherRenderMove(insts: seq<Instruction>, ret: seq<Instruction>)
    requires WellFormed(insts) && |insts| > 0 && insts[0].Move?
    ensures Gather(Render(insts), ret, "") == ret + insts
    decreases |insts|, 0
  {
    GatherMove(insts, ret);
    if |insts| == 1 {
      assert ret + [insts[0]] == ret + insts;
    } else {
      var next := ret + [insts[0]] + [insts[1]];
      GatherRender(insts[2..], next);
      Regroup(ret, insts);
    }
  }

  lemma Regroup(ret: seq<Instruction>, insts: seq<Instruction>)
    requires |insts| > 1
    ensures ret + [insts[0]] + [insts[1]] + insts[2..] == ret + insts
  {
    assert insts == [insts[0]] + [insts[1]] + insts[2..];
  }

  /** A move is read up to the turn after it (or the end), which flushes it. */
  lemma GatherMove(insts: seq<Instruction>, ret: seq<Instruction>)
    requires |insts| > 0 && insts[0].Move? && WellFormed(insts)
    ensures |insts| == 1 ==> Gather(Render(insts), ret, "") == ret + [insts[0]]
    ensures |insts| > 1 ==> (insts[1].TurnBy? && WellFormed(insts[2..]) &&
      Gather(Render(insts), ret, "") == Gather(Render(insts[2..]), ret + [insts[0]] + [insts[1]], ""))
  {
    var n := insts[0].steps;
    var digits := Text.NatToString(n);
    var rest := insts[1..];
    assert Render(insts) == digits + Render(rest);
    GatherDigits(digits, Render(rest), ret, "");
    assert "" + digits == digits;
    Text.ParseNatOfNatToString(n);
    if |rest| > 0 {
      assert rest[0].TurnBy?;
      GatherTurn(rest, ret, digits);
      assert rest[1..] == insts[2..];
    }
  }

  lemma PathRoundTrip(insts: seq<Instruction>)
    requires WellFormed(insts)
    ensures ParseInstructions(Render(insts)) == insts
  {
    GatherRender(insts, []);
    assert [] + insts == insts;
  }

  /** `Face::jump_offset` is only defined when its `usize` subtractions do
      not underflow: the carried coordinate must lie below the side when it
      is mirrored, and the side must be positive when the walker enters
      along the far edge. */
  predicate JumpFits(length: nat, orig: Location, exit: Direction, entry: Direction)
  {
    var carried := if exit == Right || exit == Left then orig.row else orig.col;
    var mirrored := (exit, entry) in {(Right, Down), (Right, Left), (Down, Right), (Down, Up),
                                      (Left, Right), (Left, Up), (Up, Down), (Up, Left)};
    (mirrored ==> carried < length) && (entry == Left || entry == Up ==> 0 < length)
  }

  /** The cell at offset `orig` of a face lies on the edge a walker leaving
      in direction `d` crosses. */
  predicate OnEdge(length: nat, orig: Location, d: Direction)
  {
    match d
    case Right => orig.col + 1 == length
    case Left => orig.col == 0
    case Down => orig.row + 1 == length
    case Up => orig.row == 0
  }

  /** `Face::jump_offset`: the offset within the next face of a walker that
      left its face going `exit` and arrives facing `entry`. From inside the
      face it lands inside the next face, on the edge it enters through. */
  function JumpOffset(length: nat, orig: Location, exit: Direction, entry: Direction): (r: Location)
    requires JumpFits(length, orig, exit, entry)
    ensures orig.row < length && orig.col < length ==>
      r.row < length && r.col < length && OnEdge(length, r, Opposite(entry))
  {
    match (exit, entry)
    case (Right, Down) => Location(0, length - (orig.row + 1))
    case (Right, Left) => Location(length - (orig.row + 1), length - 1)
    case (Right, Right) => Location(orig.row, 0)
    case (Right, Up) => Location(length - 1, orig.row)
    case (Down, Down) => Location(0, orig.col)
    case (Down, Left) => Location(orig.col, length - 1)
    case (Down, Right) => Location(length - (orig.col + 1), 0)
    case (Down, Up) => Location(length - 1, length - (orig.col + 1))
    case (Left, Down) => Location(0, orig.row)
    case (Left, Left) => Location(orig.row, length - 1)
    case (Left, Right) => Location(length - (orig.row + 1), 0)
    case (Left, Up) => Location(length - 1, length - (orig.row + 1))
    case (Up, Down) => Location(0, length - (orig.col + 1))
    case (Up, Left) => Location(length - (orig.col + 1), length - 1)
    case (Up, Right) => Location(orig.col, 0)
    case (Up, Up) => Location(length - 1, orig.col)
  }

  /** Walking back across the same seam undoes a jump: leaving the new face
      against the arrival direction and arriving against the departure
      direction returns to the cell the walker left from. */
  lemma JumpBack(length: nat, orig: Location, exit: Direction, entry: Direction)
    requires orig.row < length && orig.col < length && OnEdge(length, orig, exit)
    ensures JumpFits(length, orig, exit, entry)
    ensures var there := JumpOffset(length, orig, exit, entry);
      && JumpFits(length, there, Opposite(entry), Opposite(exit))
      && JumpOffset(length, there, Opposite(entry), Opposite(exit)) == orig
  {
  }

  /** Jumps of the 2 by 2 test cube, from its first face. */
  lemma JumpOffsetExamples()
    ensures JumpOffset(2, Location(0, 0), Up, Down) == Location(0, 1)
    ensures JumpOffset(2, Location(0, 0), Left, Down) == Location(0, 0)
    ensures JumpOffset(2, Location(1, 0), Left, Down) == Location(0, 1)
    ensures JumpOffset(2, Location(0, 1), Up, Down) == Location(0, 0)
    ensures JumpOffset(2, Location(0, 1), Right, Down) == Location(0, 1)
    ensures JumpOffset(2, Location(1, 1), Right, Down) == Location(0, 0)
  {
  }

  /** `CubicBoard::direct_direction`: two seams joined by a quarter turn
      become one, the departure direction turned one way and the arrival
      direction the other; straight on or back is not a quarter turn. */
  function DirectDirection(initially: Direction, turn: Direction, finally: Direction): (r: Option<(Direction, Direction)>)
    ensures r.None? <==> turn == Up || turn == Down
    ensures r.Some? ==> Facing(r.value.0) == (Facing(initially) + Quarters(turn)) % 4
    ensures r.Some? ==> (Facing(r.value.1) + Quarters(turn)) % 4 == Facing(finally)
  {
    if turn == Up || turn == Down then None
    else Some((Turn(initially, turn), Turn(finally, Opposite(turn))))
  }

  lemma DirectDirectionExamples()
    ensures DirectDirection(Down, Down, Down) == None
    ensures DirectDirection(Down, Right, Left) == Some((Left, Down))
  {
  }
}
