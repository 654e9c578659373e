/** Day 2, "Rock Paper Scissors": scoring an encrypted strategy guide. */
module RockPaperScissors {
  import opened Wrappers
  import Text
  import Sorting

  datatype Outcome = Win | Draw | Loss

  datatype Shape = Rock | Paper | Scissors

  /** The game's rule, independent of the modular arithmetic below. */
  predicate Beats(a: Shape, b: Shape)
  {
    (a == Rock && b == Scissors) || (a == Scissors && b == Paper) || (a == Paper && b == Rock)
  }

  function Index(s: Shape): (i: nat)
    ensures i < 3
  {
    match s
    case Rock => 0
    case Paper => 1
    case Scissors => 2
  }

  /** `calculate_result`: `(3 + yours - theirs) % 3` read as draw, win, loss. */
  function Play(theirs: Shape, yours: Shape): (o: Outcome)
    ensures o == Win <==> Beats(yours, theirs)
    ensures o == Loss <==> Beats(theirs, yours)
    ensures o == Draw <==> theirs == yours
  {
    var score := (3 + Index(yours) - Index(theirs)) % 3;
    if score == 0 then Draw
    else if score == 1 then Win
    else Loss
  }

  function ShapeScore(s: Shape): int
  {
    match s
    case Rock => 1
    case Paper => 2
    case Scissors => 3
  }

  function OutcomeScore(o: Outcome): int
  {
    match o
    case Win => 6
    case Draw => 3
    case Loss => 0
  }

  /** `calculate_points`: the shape's score plus the outcome's. */
  function Points(yours: Shape, o: Outcome): (p: int)
    ensures 1 <= p <= 9
    ensures p == ShapeScore(yours) + OutcomeScore(o)
  {
    ShapeScore(yours) + OutcomeScore(o)
  }

  /** Different rounds score differently: the points name the shape and the outcome. */
  lemma PointsIdentifyRound(a: Shape, o: Outcome, b: Shape, o': Outcome)
    requires Points(a, o) == Points(b, o')
    ensures a == b && o == o'
  {
  }

  /** `calculate_result_and_points`. */
  function ResultAndPoints(theirs: Shape, yours: Shape): (r: (Outcome, int))
    ensures r.0 == Win <==> Beats(yours, theirs)
    ensures r.0 == Draw <==> theirs == yours
    ensures r.1 == ShapeScore(yours) + OutcomeScore(r.0)
  {
    var o := Play(theirs, yours);
    (o, Points(yours, o))
  }

  /** For a given opponent, each shape gives a different outcome. */
  lemma PlayInjective(theirs: Shape, a: Shape, b: Shape)
    requires Play(theirs, a) == Play(theirs, b)
    ensures a == b
  {
  }

  /** `calculate_shape`: try rock, paper, scissors in turn and keep the
      first that gives the wanted outcome. One always does, so the
      source's `unreachable!` is never hit. */
  function ChooseShape(theirs: Shape, wanted: Outcome): (r: (Shape, int))
    ensures Play(theirs, r.0) == wanted
    ensures r.1 == Points(r.0, wanted)
  {
    if Play(theirs, Rock) == wanted then (Rock, Points(Rock, wanted))
    else if Play(theirs, Paper) == wanted then (Paper, Points(Paper, wanted))
    else (Scissors, Points(Scissors, wanted))
  }

  /** The chosen shape is the only one that gives the wanted outcome. */
  lemma ChooseShapeUnique(theirs: Shape, wanted: Outcome, s: Shape)
    requires Play(theirs, s) == wanted
    ensures ChooseShape(theirs, wanted).0 == s
  {
    PlayInjective(theirs, s, ChooseShape(theirs, wanted).0);
  }

  function OpponentShape(c: char): Option<Shape>
  {
    match c
    case 'A' => Some(Rock)
    case 'B' => Some(Paper)
    case 'C' => Some(Scissors)
    case _ => None
  }

  function ResponseShape(c: char): Option<Shape>
  {
    match c
    case 'X' => Some(Rock)
    case 'Y' => Some(Paper)
    case 'Z' => Some(Scissors)
    case _ => None
  }

  function WantedOutcome(c: char): Option<Outcome>
  {
    match c
    case 'X' => Some(Loss)
    case 'Y' => Some(Draw)
    case 'Z' => Some(Win)
    case _ => None
  }

  /** One line of the guide read as in part 1: the first and third
      characters name the two shapes. `None` for a line shorter than three
      characters or an unknown letter, where the source panics. */
  function RoundScore(line: string): (r: Option<int>)
    ensures r.Some? <==> |line| >= 3 && OpponentShape(line[0]).Some? && ResponseShape(line[2]).Some?
    ensures r.Some? ==> 1 <= r.value <= 9
  {
    if |line| < 3 then None
    else
      var theirs :- OpponentShape(line[0]);
      var yours :- ResponseShape(line[2]);
      Some(ResultAndPoints(theirs, yours).1)
  }

  /** One line read as in part 2: the third character names the outcome. */
  function RoundScorePart2(line: string): (r: Option<int>)
    ensures r.Some? <==> |line| >= 3 && OpponentShape(line[0]).Some? && WantedOutcome(line[2]).Some?
    ensures r.Some? ==> 1 <= r.value <= 9
  {
    if |line| < 3 then None
    else
      var theirs :- OpponentShape(line[0]);
      var wanted :- WantedOutcome(line[2]);
      Some(ChooseShape(theirs, wanted).1)
  }

  /** A guide's total, as a reference: every line scored, then added up. */
  function Total(lines: seq<string>, score: string -> Option<int>): Option<int>
  {
    match MapAll(lines, score)
    case None => None
    case Some(ps) => Some(Sorting.Sum(ps))
  }

  /** The loop shared by `run_strategy` and `run_strategy_part2`. */
  method Run(lines: seq<string>, score: string -> Option<int>) returns (r: Option<int>)
    ensures r == Total(lines, score)
  {
    var points := 0;
    var i := 0;
    while i < |lines|
      invariant 0 <= i <= |lines|
      invariant MapAll(lines[..i], score).Some?
      invariant points == Sorting.Sum(MapAll(lines[..i], score).value)
    {
      assert lines[..i + 1][..i] == lines[..i];
      var p := score(lines[i]);
      if p.None? {
        return None;
      }
      Sorting.SumSnoc(MapAll(lines[..i], score).value, p.value);
      points := points + p.value;
      i := i + 1;
    }
    assert lines[..i] == lines;
    r := Some(points);
  }

  /** `run_strategy`. */
  method RunStrategy(strategy: string) returns (r: Option<int>)
    ensures r == Total(Text.Lines(strategy), RoundScore)
  {
    r := Run(Text.Lines(strategy), RoundScore);
  }

  /** `run_strategy_part2`. */
  method RunStrategyPart2(strategy: string) returns (r: Option<int>)
    ensures r == Total(Text.Lines(strategy), RoundScorePart2)
  {
    r := Run(Text.Lines(strategy), RoundScorePart2);
  }

  /** Every round scores between 1 and 9, so a guide of `n` rounds
      totals between `n` and `9 * n`. */
  lemma {:induction false} TotalBounds(lines: seq<string>, score: string -> Option<int>)
    requires forall l :: score(l).Some? ==> 1 <= score(l).value <= 9
    requires Total(lines, score).Some?
    ensures |lines| <= Total(lines, score).value <= 9 * |lines|
    decreases |lines|
  {
    if |lines| > 0 {
      var n := |lines| - 1;
      assert lines[..n] + [lines[n]] == lines;
      var ps := MapAll(lines, score).value;
      assert MapAll(lines[..n], score).Some?;
      TotalBounds(lines[..n], score);
      assert ps == MapAll(lines[..n], score).value + [score(lines[n]).value];
      Sorting.SumSnoc(MapAll(lines[..n], score).value, score(lines[n]).value);
    }
  }

  /** The example guide "A Y", "B X", "C Z" scores 8 + 1 + 6 in part 1 ... */
  lemma ExampleRounds()
    ensures RoundScore("A Y") == Some(8)
    ensures RoundScore("B X") == Some(1)
    ensures RoundScore("C Z") == Some(6)
  {
  }

  /** ... and 4 + 1 + 7 in part 2. */
  lemma ExampleRoundsPart2()
    ensures RoundScorePart2("A Y") == Some(4)
    ensures RoundScorePart2("B X") == Some(1)
    ensures RoundScorePart2("C Z") == Some(7)
  {
  }

  /** Scoring one more line adds its score to the total. */
  lemma TotalSnoc(lines: seq<string>, line: string, score: string -> Option<int>)
    requires Total(lines, score).Some? && score(line).Some?
    ensures Total(lines + [line], score) == Some(Total(lines, score).value + score(line).value)
  {
    assert (lines + [line])[..|lines|] == lines;
    Sorting.SumSnoc(MapAll(lines, score).value, score(line).value);
  }

  /** So the three-line guide totals 15 in part 1 ... */
  lemma ExampleTotal()
    ensures Total(["A Y", "B X", "C Z"], RoundScore) == Some(15)
  {
    ExampleRounds();
    assert Total([], RoundScore) == Some(0);
    TotalSnoc([], "A Y", RoundScore);
    assert [] + ["A Y"] == ["A Y"];
    TotalSnoc(["A Y"], "B X", RoundScore);
    assert ["A Y"] + ["B X"] == ["A Y", "B X"];
    TotalSnoc(["A Y", "B X"], "C Z", RoundScore);
    assert ["A Y", "B X"] + ["C Z"] == ["A Y", "B X", "C Z"];
  }

  /** ... and 12 in part 2. */
  lemma ExampleTotalPart2()
    ensures Total(["A Y", "B X", "C Z"], RoundScorePart2) == Some(12)
  {
    ExampleRoundsPart2();
    assert Total([], RoundScorePart2) == Some(0);
    TotalSnoc([], "A Y", RoundScorePart2);
    assert [] + ["A Y"] == ["A Y"];
    TotalSnoc(["A Y"], "B X", RoundScorePart2);
    assert ["A Y"] + ["B X"] == ["A Y", "B X"];
    TotalSnoc(["A Y", "B X"], "C Z", RoundScorePart2);
    assert ["A Y", "B X"] + ["C Z"] == ["A Y", "B X", "C Z"];
  }
}
