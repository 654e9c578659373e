# Advent of Code 2022 solvers, modelled in Dafny

This project models the puzzle solvers of a Rust Advent of Code 2022
repository: one crate per day, each reading its puzzle input as text and
printing the answers. Each day becomes one Dafny module (two for the
larger days). Its parsing, simulation and answer functions become pure
functions or methods with contracts. Most operations are related by a
lemma to an independent reference definition, an inverse or an invariant;
the few stated more weakly are named under "Left out".

| day | puzzle | modules |
|---|---|---|
| 1 | Calorie Counting | `Calories` |
| 2 | Rock Paper Scissors | `RockPaperScissors` |
| 3 | Rucksack Reorganization | `Rucksacks` |
| 4 | Camp Cleanup | `CampCleanup` |
| 5 | Supply Stacks | `SupplyStacks` |
| 6 | Tuning Trouble | `TuningTrouble` |
| 7 | No Space Left On Device | `NoSpace` |
| 8 | Treetop Tree House | `Treetop` |
| 9 | Rope Bridge | `Rope` |
| 10 | Cathode-Ray Tube | `CathodeRay` |
| 11 | Monkey in the Middle | `MonkeyMiddle` |
| 12 | Hill Climbing Algorithm | `HillClimbing` |
| 13 | Distress Signal | `Packets` |
| 14 | Regolith Reservoir | `Regolith` |
| 15 | Beacon Exclusion Zone | `Beacons` |
| 16 | Proboscidea Volcanium | `Valves` |
| 17 | Pyroclastic Flow | `Tetris`, `TetrisRun` |
| 18 | Boiling Boulders | `Cubes` |
| 19 | Not Enough Minerals | `Robots`, `RobotSearch` |
| 20 | Grove Positioning System | `Mixer` |
| 22 | Monkey Map | `MonkeyMap` |
| 23 | Unstable Diffusion | `Diffusion` |
| 24 | Blizzard Basin | `BlizzardBasin`, `BasinGraph` |
| 25 | Full of Hot Air | `Snafu` |

Day 21 is not part of this model.

Six shared modules come first:

- `Wrappers`: `Option` and `Result`.
- `Text`: lines, splitting, and decimal digits.
- `Arith`: Rust's truncating division, and the gcd/lcm theory that the
  day 24 period rests on.
- `Sorting`: sortedness, an insertion sort, sums, and the largest `k`
  values of a sequence.
- `Sequences`: reversal.
- `Coords`: grid cells, and sorting them without duplicates.

Integers are unbounded throughout. Where the Rust code divides signed
numbers, the rounding toward zero is written out (`Arith.TruncDiv`,
`Arith.TruncRem`).

## Model

| member | source | states |
|---|---|---|
| Text.Lines | 01/src/main.rs:24 | `str::lines`: the lines are the newline-separated pieces with a trailing empty piece dropped and one carriage return before each newline removed; no line holds a newline |
| Text.LinesTerminated | 01/src/main.rs:24 | lines each ended by `\n` or by `\r\n` read back as exactly those lines |
| Text.CrLfExample | 01/src/main.rs:24 | two lines ended by `\r\n` read back without the carriage returns |
| Calories.ElfCalories | 01/src/main.rs:22-31 | one elf's total is the sum of its lines; it fails exactly when some line does not parse as an integer |
| Calories.ProcessCalories | 01/src/main.rs:13-20 | one total per blank-line-separated block, in input order; it fails exactly when some block has a line that does not parse |
| Calories.Blocks | 01/src/main.rs:15 | splitting on blank lines always yields at least one block |
| Calories.MostCalories | 01/src/main.rs:33-36 | the answer is one of the elves' totals and no total exceeds it; it is missing only when a line does not parse |
| Calories.Largest | 01/src/main.rs:35 | the maximum of a non-empty list is an element of it and bounds every element |
| Calories.MostCaloriesOfThree | 01/src/main.rs:38-48 | the answer is the sum of the three largest totals; it is missing when a line does not parse or when there are fewer than three elves |
| Calories.TopThree | 01/src/main.rs:40-46 | after an ascending sort, reversing and taking the first three takes the last three |
| Calories.ThreeLargest | 01/src/main.rs:38-48 | no three different elves carry more calories together than the part-two answer |
| Sorting.Sort | 01/src/main.rs:40 | sorting yields an ascending rearrangement of its input |
| Sorting.SortIsRearrangement | 01/src/main.rs:40 | any ascending rearrangement of the input is the sorted result, so the unstable sort's output is determined |
| Sorting.TopIsLargest | 01/src/main.rs:38-48 | any choice of `k` distinct positions sums to at most the `k` largest elements |
| RockPaperScissors.Play | 02/src/main.rs:58-76 | the modular score gives a win exactly when your shape beats theirs, a loss exactly when theirs beats yours, and a draw exactly when the shapes are equal |
| RockPaperScissors.PlayInjective | 02/src/main.rs:58-76 | against a given shape, different shapes of yours give different outcomes |
| RockPaperScissors.Points | 02/src/main.rs:41-56 | a round scores between 1 and 9 |
| RockPaperScissors.PointsIdentifyRound | 02/src/main.rs:41-56 | the points of a round determine both your shape and the outcome |
| RockPaperScissors.ResultAndPoints | 02/src/main.rs:35-39 | the outcome follows the game's rule and the points are the shape's score plus the outcome's |
| RockPaperScissors.ChooseShape | 02/src/main.rs:78-85 | the chosen shape gives the wanted outcome, so the `unreachable!` is never reached |
| RockPaperScissors.ChooseShapeUnique | 02/src/main.rs:78-85 | the chosen shape is the only one that gives the wanted outcome |
| RockPaperScissors.RoundScore | 02/src/main.rs:89-109 | a line scores exactly when it has at least three characters, an opponent letter A-C first and a response letter X-Z third; the score lies between 1 and 9 |
| RockPaperScissors.RoundScorePart2 | 02/src/main.rs:116-136 | a line scores exactly when it has an opponent letter first and an outcome letter X-Z third; the score lies between 1 and 9 |
| RockPaperScissors.Run | 02/src/main.rs:87-112 | the loop adds up the line scores and fails at the first line that does not score |
| RockPaperScissors.RunStrategy | 02/src/main.rs:87-112 | the part-one total is the sum of the part-one scores of the lines |
| RockPaperScissors.RunStrategyPart2 | 02/src/main.rs:114-139 | the part-two total is the sum of the part-two scores of the lines |
| RockPaperScissors.TotalBounds | 02/src/main.rs:87-139 | a guide of `n` rounds totals between `n` and `9n` points |
| RockPaperScissors.ExampleRounds | 02/src/main.rs:145-179 | the example rounds score 8, 1 and 6 in part one |
| RockPaperScissors.ExampleRoundsPart2 | 02/src/main.rs:189-223 | the example rounds score 4, 1 and 7 in part two |
| RockPaperScissors.ExampleTotal | 02/src/main.rs:181-186 | the example guide totals 15 in part one |
| RockPaperScissors.ExampleTotalPart2 | 02/src/main.rs:225-230 | the example guide totals 12 in part two |
| Rucksacks.Compartments | 03/src/main.rs:19-30 | both halves hold `len / 2` characters and together they are the line's first `2 * (len / 2)` characters, the whole line when its length is even |
| Rucksacks.FirstShared | 03/src/main.rs:32-34 | the result is missing exactly when no character of the first string occurs in the second; otherwise it is the first character that does |
| Rucksacks.FirstSharedAt | 03/src/main.rs:32-34 | the search returns the character at the first position whose character is shared |
| Rucksacks.FindOverlap | 03/src/main.rs:32-34 | a found item is in both compartments; nothing is found only when the compartments share no item |
| Rucksacks.Priority | 03/src/main.rs:36-42 | only letters have a priority; it lies in 1..52 and is at most 26 exactly for lower-case letters |
| Rucksacks.PriorityRoundTrip | 03/src/main.rs:36-42 | a priority and the letter it belongs to convert into each other without loss |
| Rucksacks.PriorityInjective | 03/src/main.rs:36-42 | different letters have different priorities |
| Rucksacks.Badge | 03/src/main.rs:44-47 | a badge occurs in all three lines of the group and is the first item of the first line found in both others; none is found only in a short group or when the three lines share no item |
| Rucksacks.Common | 03/src/main.rs:45 | the filtered items are exactly the items of the first line that occur in the second |
| Rucksacks.FirstSharedOfCommon | 03/src/main.rs:45-46 | filtering then finding picks the first item of the first line that occurs in both other lines |
| Rucksacks.FirstSharedOfBothAt | 03/src/main.rs:45-46 | that first item is the one at the first position shared with both lines |
| Rucksacks.Chunks | 03/src/main.rs:9 | `chunks(3)` yields `ceil(n / 3)` groups of one to three lines |
| Rucksacks.ChunksConcat | 03/src/main.rs:9 | the groups concatenate back to the lines |
| Rucksacks.PrioritySums | 03/src/main.rs:7-16 | the sum over rucksacks lies between `n` and `52n`, and the sum over groups between the number of groups and 52 times it |
| Rucksacks.PriorityExamples | 03/src/main.rs:67-77 | 'a' has priority 1 and 'A' has 27, as do the example items 'p' (16) and 'r' (18) |
| Rucksacks.CompartmentsExample | 03/src/main.rs:53-58 | the example rucksack splits into its two twelve-item halves |
| Rucksacks.OverlapExample | 03/src/main.rs:60-65 | the example compartments share 'p' |
| CampCleanup.ContainedMeansSubset | 04/src/main.rs:12-15 | for non-empty ranges, the containment test holds exactly when every section of one range lies in the other |
| CampCleanup.OverlappingMeansShared | 04/src/main.rs:17-19 | for non-empty ranges, the overlap test holds exactly when some section lies in both ranges |
| CampCleanup.ContainedOverlaps | 04/src/main.rs:12-19 | for non-empty ranges, a contained pair also overlaps |
| CampCleanup.EmptyRangeContainedNotOverlapping | 04/src/main.rs:12-19 | with an empty range the tests disagree: `5-3,4-9` counts as contained but not as overlapping |
| CampCleanup.Symmetric | 04/src/main.rs:12-19 | both tests give the same answer with the two ranges swapped |
| CampCleanup.ParseLine | 04/src/main.rs:9-10 | a parsed line has at least the four numbers the tests index |
| CampCleanup.Count | 04/src/main.rs:12-19 | a count of pairs passing a test is at most the number of pairs |
| CampCleanup.CountMonotone | 04/src/main.rs:12-19 | a test that passes whenever another passes counts at least as many pairs |
| CampCleanup.Counts | 04/src/main.rs:7-20 | both printed counts are at most the number of lines |
| CampCleanup.ContainedAtMostOverlapping | 04/src/main.rs:12-19 | with well-formed ranges, the contained count is at most the overlapping count |
| CampCleanup.Examples | 04/src/main.rs:12-19 | the puzzle's sample pairs: `2-8,3-7` and `6-6,4-6` are contained; `2-4,6-8` neither contains nor overlaps; `5-7,7-9` overlaps without containment |
| SupplyStacks.Transfer | 05/src/main.rs:47-63 | moving crates leaves the number of stacks unchanged |
| SupplyStacks.Mov | 05/src/main.rs:47-52 | the CrateMover 9000 succeeds exactly when both 1-based stack numbers are valid and the source holds the crates; the top `count` crates land on the target in reversed order, and moving none or onto the same stack changes nothing |
| SupplyStacks.MovStep | 05/src/main.rs:48-51 | one more pass of the loop moves the next crate from the source's top onto the target |
| SupplyStacks.TransferNone | 05/src/main.rs:47-63 | moving no crates leaves the stacks unchanged |
| SupplyStacks.Mov9001 | 05/src/main.rs:54-63 | the CrateMover 9001 succeeds under the same conditions and moves the top `count` crates keeping their order |
| SupplyStacks.Mov9001Result | 05/src/main.rs:54-63 | popping the crates and pushing them back in popped-then-reversed order is the order-keeping transfer, and a move onto the same stack restores it |
| SupplyStacks.PopCrates | 05/src/main.rs:55-58 | the popped crates are the top `count` crates, topmost first |
| SupplyStacks.PushAll | 05/src/main.rs:59-62 | pushing appends the crates to the target stack in order and changes no other stack |
| SupplyStacks.CratesUpdate | 05/src/main.rs:47-63 | replacing one stack changes the crate total by the difference in its height |
| SupplyStacks.TransferShape | 05/src/main.rs:47-63 | for distinct stacks the source shrinks by `count`, the target grows by `count`, the other stacks stay as they were and the total is kept |
| SupplyStacks.CranesAgreeOnOne | 05/src/main.rs:47-63 | moving at most one crate, both cranes give the same stacks |
| SupplyStacks.Tops | 05/src/main.rs:41-42 | the message has one character per stack, its top crate; it is missing exactly when some stack is empty |
| SupplyStacks.ParseInstruction | 05/src/main.rs:33-36 | a parsed instruction comes from a line of at least six space-separated words |
| SupplyStacks.ShowWords | 05/src/main.rs:33-36 | a printed instruction splits into the six words `move n from a to b` |
| SupplyStacks.ParseInstructionRoundTrip | 05/src/main.rs:33-36 | reading a printed instruction gives the instruction back |
| SupplyStacks.Step | 05/src/main.rs:37-38 | one instruction keeps the number of stacks and the number of crates |
| SupplyStacks.ProcedureKeepsCrates | 05/src/main.rs:32-39 | a completed procedure keeps the number of stacks and of crates |
| SupplyStacks.RunProcedure | 05/src/main.rs:32-39 | the loop runs every instruction through both cranes and succeeds exactly when both procedures complete, with their results |
| TuningTrouble.CheckDuplicates | 06/src/main.rs:47-57 | the window has a duplicate exactly when two different positions hold the same character |
| TuningTrouble.MarkerFrom | 06/src/main.rs:14-37 | the search returns the first position from `start` on whose preceding `k` characters are all different, provided a character follows it; when it finds none, no such window exists |
| TuningTrouble.ProcessMarker | 06/src/main.rs:14-37 | the queue-based loop returns what the reference search returns, and it returns something exactly when some window of `k` different characters is followed by another character; otherwise the source reaches `unreachable!` |
| TuningTrouble.MarkerAt | 06/src/main.rs:14-37 | the marker is the first position whose window is distinct |
| TuningTrouble.MarkerNone | 06/src/main.rs:36 | with no distinct window there is no marker |
| TuningTrouble.ProcessPacket | 06/src/main.rs:39-41 | the packet marker is the marker for windows of four |
| TuningTrouble.ProcessMessage | 06/src/main.rs:43-45 | the message marker is the marker for windows of fourteen |
| TuningTrouble.DistinctSuffix | 06/src/main.rs:14-37 | the end of a window of different characters is itself a window of different characters |
| TuningTrouble.MessageAfterPacket | 06/src/main.rs:39-45 | whenever there is a message marker, there is a packet marker no later than it |
| TuningTrouble.FirstExample | 06/src/main.rs:63-68 | "abcdefgh" has its packet marker at 4 |
| TuningTrouble.SecondExample | 06/src/main.rs:70-75 | "aabcdefg" has its packet marker at 5 |
| TuningTrouble.ThirdExample | 06/src/main.rs:88-93 | every datastream beginning with the first seven characters of "mjqjpqmgbljsphdztnvjfqwrcgsmlb", and longer than them, has its packet marker at 7 |
| TuningTrouble.FourthExample | 06/src/main.rs:95-100 | every datastream beginning with the first eleven characters of "zcfzfwzzqfrljwzlrfnpqdbhtmscgvjw", and longer than them, has its packet marker at 11 |
| NoSpace.Lookup | 07/src/main.rs:10-13 | a name has a value in a directory's map exactly when it is one of the map's names |
| NoSpace.Insert | 07/src/main.rs:60-61 | after inserting, the name maps to the new value, every other name keeps its old value, the name set grows by exactly that name and names stay distinct |
| NoSpace.SubdirectoryNotLarger | 07/src/main.rs:16-21 | a directory's size is at least the size of each of its subdirectories |
| NoSpace.WithinNotLarger | 07/src/main.rs:16-21 | every directory anywhere below another is no larger than it |
| NoSpace.AllDirs | 07/src/main.rs:91-99 | the list of all directories starts with the directory itself |
| NoSpace.AllDirsWithin | 07/src/main.rs:91-99 | a directory is listed exactly when it is the root or lies below it |
| NoSpace.SmallTotal | 07/src/main.rs:34 | the part-one sum counts at most the size limit for each listed directory |
| NoSpace.MinAtLeast | 07/src/main.rs:36-37 | the result is a listed size at or above the need and no larger than any other such size; there is none exactly when every size is below the need |
| NoSpace.SmallestToDelete | 07/src/main.rs:6-7 | an answer exists exactly when the space to reclaim is defined; it is the size of a directory in the tree, at least the space needed, at most the root's size, and no larger than any directory that frees enough (with 07/src/main.rs:35-37) |
| NoSpace.ParseU32 | 07/src/main.rs:75-83 | a parsed file size fits in 32 bits |
| NoSpace.ProcessFrom | 07/src/main.rs:43-89 | reading a directory consumes at least one line whenever lines remain |
| NoSpace.LsIgnored | 07/src/main.rs:66-68 | a `$ ls` line changes nothing |
| NoSpace.DirLineIgnored | 07/src/main.rs:72-74 | a `dir name` line changes nothing |
| NoSpace.FileLineRecorded | 07/src/main.rs:75-83 | a `<size> <name>` line records the file with that size |
| NoSpace.CdUpEnds | 07/src/main.rs:57-58 | `$ cd ..` ends the current directory and hands back the remaining lines |
| NoSpace.CdEnters | 07/src/main.rs:60-61 | `$ cd name` reads the subdirectory from the following lines, stores it under its name and continues after it |
| NoSpace.CdRootIgnored | 07/src/main.rs:56 | `$ cd /` changes nothing |
| NoSpace.DirLinesIgnored | 07/src/main.rs:72-74 | any run of `dir` lines changes nothing |
| NoSpace.FileLinesRecorded | 07/src/main.rs:75-83 | a run of file lines with distinct names records exactly those files, in order |
| NoSpace.RenderRead | 07/src/main.rs:43-89 | reading the transcript that explores a directory rebuilds that directory and then reads on |
| NoSpace.TranscriptRoundTrip | 07/src/main.rs:43-89 | parsing a session that starts with `$ cd /` and explores a whole tree yields exactly that tree |
| NoSpace.NestedRoundTrip | 07/src/main.rs:57-61 | inside a transcript, a subdirectory's exploration closed by `$ cd ..` yields the subdirectory and the lines after it |
| Treetop.VisibleFrom | 08/src/main.rs:98-133 | the walk answers true exactly when every tree between the point and that edge is shorter than it |
| Treetop.DistanceStops | 08/src/main.rs:58-96 | every tree before the viewing distance is shorter, and the tree at the distance is at least as tall unless it is the last before the edge |
| Treetop.Distance | 08/src/main.rs:58-96 | the viewing distance never passes the edge and is zero exactly when the tree is on that edge |
| Treetop.ViewingDistance | 08/src/main.rs:58-96 | the counting loop that stops after the first tree at least as tall returns the reference search's distance |
| Treetop.VisibleSeesEdge | 08/src/main.rs:58-133 | a tree visible from a direction sees all the way to that edge |
| Treetop.VisibleIffClearView | 08/src/main.rs:58-133 | a tree is visible from a direction exactly when it sees to the edge and the last tree before the edge is shorter |
| Treetop.EdgeVisible | 08/src/main.rs:98-133 | every tree on the border of the grid is visible |
| Treetop.RowVisible | 08/src/main.rs:32-43 | a row never has more visible trees than trees |
| Treetop.CountVisible | 08/src/main.rs:32-43 | the loop over trees and directions counts each tree that some direction sees, once |
| Treetop.VisibleAtMostTrees | 08/src/main.rs:32-43 | no more trees are visible than the grid holds |
| Treetop.SingleRowAllVisible | 08/src/main.rs:154-159 | in a single row every tree is visible |
| Treetop.EdgeScoresZero | 08/src/main.rs:53-56 | a tree on the border has scenic score 0 |
| Treetop.AllScores | 08/src/main.rs:22-30 | one score is collected per tree (with 08/src/main.rs:45-49) |
| Treetop.MaxOf | 08/src/main.rs:50 | the maximum is one of the values and at least every value; there is none exactly when the list is empty |
| Treetop.MaxScenicScore | 08/src/main.rs:45-51 | the collecting loop yields the maximum of all trees' scores |
| Treetop.MaxScenicScoreIsBest | 08/src/main.rs:45-51 | for a grid with a tree the answer exists and is at least every tree's score |
| Treetop.ParseGrid | 08/src/main.rs:135-141 | one row per line, one height per character |
| Treetop.ParseRow | 08/src/main.rs:138 | a line parses exactly when all its characters are digits, and each height is its digit's value |
| Treetop.HiddenCentre | 08/src/main.rs:168-173 | the 3 by 3 grid with a low centre has 8 visible trees |
| Rope.MoveHead | 09/src/main.rs:46-59 | each of R, U, L and D moves the head one unit in its direction; any other letter leaves it where it is |
| Rope.MoveHeadOneStep | 09/src/main.rs:46-59 | a head move changes the head's king's-move distance to any point by at most one |
| Rope.UnitToward | 09/src/main.rs:66-67 | dividing a non-zero gap by its absolute value gives the gap's sign, a unit |
| Rope.CatchUp | 09/src/main.rs:61-83 | a knot moves at most one unit in each coordinate |
| Rope.TouchingStays | 09/src/main.rs:61-83 | a knot touching the one ahead, diagonally included, stays put (with 09/src/main.rs:151-157) |
| Rope.StraightGapStep | 09/src/main.rs:68-81 | a straight gap of two is closed by one step along that line (with 09/src/main.rs:116-131) |
| Rope.OffAxisDiagonal | 09/src/main.rs:62-67 | a knot off the line of the one ahead and not touching it moves one unit towards it in both coordinates (with 09/src/main.rs:133-149) |
| Rope.CatchUpCloses | 09/src/main.rs:61-83 | a knot at most two away from the one ahead ends up touching it |
| Rope.Follow | 09/src/main.rs:85-91 | each knot catches up with the knot ahead of it as already moved, and the rope keeps its length |
| Rope.ProcessMultitail | 09/src/main.rs:85-91 | the in-place loop over the knots gives the reference rope |
| Rope.FollowKeepsTaut | 09/src/main.rs:85-91 | after a head move of at most one unit, a rope whose knots touched still has every knot touching the one ahead |
| Rope.ExpandLine | 09/src/main.rs:17-25 | a line expands exactly when it has a direction word and a count, into the direction letter repeated count times |
| Rope.Start | 09/src/main.rs:26-34 | the ropes start with nine followers, all touching |
| Rope.Tick | 09/src/main.rs:35-41 | each step records where both tails now are and forgets no earlier place |
| Rope.RunKeepsTaut | 09/src/main.rs:35-41 | both ropes stay taut through any list of instructions |
| Rope.MultitailExample | 09/src/main.rs:159-167 | the three-knot rope pulled from (3, 2) moves its knots to (2, 2) and (1, 1) |
| CathodeRay.ParseOp | 10/src/main.rs:30-44 | only `noop` and `addx` lines are accepted; `noop` is a no-op and a bare `addx` is the skipped form |
| CathodeRay.Execute | 10/src/main.rs:30-44 | an instruction appends one history entry per cycle it takes, keeps the earlier entries, moves the register by its operand and keeps the history ending with the register's value |
| CathodeRay.Run | 10/src/main.rs:9-11 | running a program keeps the history ending with the register's value |
| CathodeRay.RunFollowsTimeline | 10/src/main.rs:9-11 | running appends one entry per cycle, and the entry after `t` more cycles is the value an independent cycle-count timeline gives, with an `addx` taking effect only after both its cycles (with 10/src/main.rs:30-44) |
| CathodeRay.OwnEntries | 10/src/main.rs:33-40 | the entries an instruction records during its cycles hold the value it started with |
| CathodeRay.History | 10/src/main.rs:5-11 | a program's history has one entry per cycle plus the start, each equal to the timeline value |
| CathodeRay.SignalStrength | 10/src/main.rs:47-50 | the strength exists exactly for cycles 1 to the history's length and is the cycle number times the value during it |
| CathodeRay.StrengthOfProgram | 10/src/main.rs:12-13 | for a program, the strength at a cycle is the cycle number times the timeline's value during that cycle (with 10/src/main.rs:47-50) |
| CathodeRay.SumStrengths | 10/src/main.rs:12-13 | the sum is defined exactly when every index is a cycle of the history |
| CathodeRay.Screen | 10/src/main.rs:15-26 | the screen shows one pixel per history entry, in order, with a line break after every fortieth |
| CathodeRay.LitColumns | 10/src/main.rs:17-22 | a pixel is lit exactly when the beam's column is within one of the register's value |
| MonkeyMiddle.Worry | 11/src/main.rs:82 | the new worry level is below the product it is reduced by (with 11/src/main.rs:86) |
| MonkeyMiddle.ThrownTo | 11/src/main.rs:81-95 | the items thrown to one monkey are no more than the items held, each reduced below the product |
| MonkeyMiddle.ThrowOne | 11/src/main.rs:82-94 | one throw goes through exactly when the divisor and the product are non-zero and the target is a monkey |
| MonkeyMiddle.ThrowOneEffect | 11/src/main.rs:82-94 | one throw keeps every monkey's rules, appends the new worry level to the target's items only, adds one to the thrower's count only, and adds one item to the total held |
| MonkeyMiddle.ThrowAll | 11/src/main.rs:81-95 | a run of throws goes through exactly when every item's target exists and nothing divides by zero |
| MonkeyMiddle.ThrowAllEffect | 11/src/main.rs:81-95 | every monkey keeps its rules and receives exactly the items thrown to it, in order; only the thrower's count grows, by one per item |
| MonkeyMiddle.MonkeyTurn | 11/src/main.rs:80-97 | a turn goes through exactly when every throw can, and leaves the monkey holding nothing |
| MonkeyMiddle.TurnEffect | 11/src/main.rs:80-97 | after a turn the monkey has inspected each item it held once more; every other monkey received its thrown items in order and kept its count; no rules changed |
| MonkeyMiddle.TurnKeepsItems | 11/src/main.rs:80-97 | a turn by a monkey that never throws to itself keeps the number of items in play |
| MonkeyMiddle.ReduceKeepsRemainder | 11/src/main.rs:86-87 | reducing modulo a multiple of a divisor keeps the remainder modulo that divisor |
| MonkeyMiddle.DividesProduct | 11/src/main.rs:86 | every positive divisor divides the product of all of them |
| MonkeyMiddle.ReductionHarmless | 11/src/main.rs:86-87 | reducing modulo the product of all divisors leaves every monkey's divisibility test unchanged |
| MonkeyMiddle.TurnsFrom | 11/src/main.rs:22-24 | a round keeps the number of monkeys |
| MonkeyMiddle.Rounds | 11/src/main.rs:32-36 | any number of rounds keeps the number of monkeys |
| MonkeyMiddle.Inspections | 11/src/main.rs:100 | the list holds each monkey's count, in order |
| MonkeyMiddle.MonkeyBusiness | 11/src/main.rs:99-104 | an answer exists exactly when there are at least two monkeys |
| MonkeyMiddle.MonkeyBusinessIsBest | 11/src/main.rs:99-104 | the answer is at least the product of the counts of any two different monkeys |
| MonkeyMiddle.MonkeyBusinessAttained | 11/src/main.rs:99-104 | with two monkeys or more, the answer is the product of the counts of two different monkeys, so with `MonkeyBusinessIsBest` it is the largest such product |
| MonkeyMiddle.TopTwo | 11/src/main.rs:101-103 | in an ascending list, two members are at most the largest, and one of them is at most the second largest |
| HillClimbing.Height | 12/src/main.rs:11-19 | `S` is height 0, `E` height 25 and a lower-case letter its place in the alphabet; a height exists exactly for `S`, `E` and characters whose low byte is at least 97, where the byte subtraction does not underflow (with 12/src/main.rs:113-127) |
| HillClimbing.InBoundsOnHill | 12/src/main.rs:66-71 | on a rectangular map, the bounds the neighbour search checks against the first row are exactly the squares of the map |
| HillClimbing.NeighbourCoords | 12/src/main.rs:66-71 | the neighbours are on the map and one step away, every on-map cell one step away is among them, and there are at most four |
| HillClimbing.NeighbourExamples | 12/src/main.rs:129-150 | on the 3 by 4 map the neighbours of six cells come out in the source's order |
| HillClimbing.UnvisitedNeighbours | 12/src/main.rs:73-80 | a cell is returned exactly when it is an on-map neighbour, not yet visited and at most one higher |
| HillClimbing.Mark | 12/src/main.rs:89-91 | afterwards a square is visited exactly when it was before or is in the frontier; heights do not change |
| HillClimbing.Reset | 12/src/main.rs:103-107 | every square becomes unvisited and no height changes |
| HillClimbing.Expand | 12/src/main.rs:86 | the next frontier holds exactly the unvisited climbable neighbours of the current frontier's cells |
| HillClimbing.Round | 12/src/main.rs:86-91 | a round keeps the map's heights and its frontier on the map |
| HillClimbing.Search | 12/src/main.rs:82-101 | an answer counts at least one round more than already taken; without a bound, the search only stops by reaching `E` |
| HillClimbing.SearchBounded | 12/src/main.rs:96-98 | with a bound, the search stops at the bound at the latest |
| HillClimbing.SearchTerminates | 12/src/main.rs:96-98 | with a bound, enough rounds of fuel always let the search finish |
| HillClimbing.ShortestPath | 12/src/main.rs:82-101 | a route length is at least one; that it is the fewest moves to `E` is stated by `ShortestPathSound` and `ShortestPathMinimal` |
| HillClimbing.ShortestPathBounded | 12/src/main.rs:82-101 | with a bound `m`, the answer is at most `m` and `m` rounds always suffice |
| HillClimbing.Within | 12/src/main.rs:66-80 | the cells within a number of climbing moves of the start are on the map |
| HillClimbing.RoundWithin | 12/src/main.rs:86-91 | the frontier after a round lies one climbing move further out than the one before |
| HillClimbing.SearchSound | 12/src/main.rs:82-101 | when the search reports reaching `E` after `n` rounds, an `E` square lies within `n` climbing moves of the start |
| HillClimbing.ShortestPathSound | 12/src/main.rs:82-101 | the unbounded search's answer is a number of moves within which `E` can be reached |
| HillClimbing.ShortestPathMinimal | 12/src/main.rs:82-101 | starting from a map with nothing visited, no `E` square other than the start lies within fewer climbing moves than the answer, bounded or not; with `ShortestPathSound`, the unbounded answer is exactly the fewest moves to `E` |
| HillClimbing.RoundComplete | 12/src/main.rs:86-92 | a round turns a frontier holding every cell first reached in `n` moves into one holding every cell first reached in `n + 1` moves, and marks only squares within `n + 1` moves |
| HillClimbing.NoEndFurther | 12/src/main.rs:93-95 | a round whose frontier has no `E` extends by one move the distance within which no `E` but the start lies |
| HillClimbing.SearchStep | 12/src/main.rs:93-98 | after a round the search stops at that round on reaching `E` or the bound, and otherwise its answer is that of the search going on with the next frontier |
| HillClimbing.SearchMinimal | 12/src/main.rs:85-99 | from a frontier holding every cell first reached in `n` moves, with no `E` but the start within `n` moves, no `E` but the start lies within fewer moves than the round at which the search stops |
| HillClimbing.FrontierStart | 12/src/main.rs:83-84 | the first frontier, just the start on an unvisited map, holds every cell reached in zero moves |
| HillClimbing.CellsWhere | 12/src/main.rs:44-62 | the cells found are in reading order and are exactly the map's cells whose character passes the test |
| HillClimbing.InitialiseMap | 12/src/main.rs:41-64 | the map builds exactly when every character has a height; it has one unvisited square per character, the start is the last `S`, and the starts are every square of height 0 in reading order |
| HillClimbing.LastStart | 12/src/main.rs:42 | the start is an `S` with no `S` after it in reading order, or `(0, 0)` when there is none (with 12/src/main.rs:53-55) |
| HillClimbing.BestFrom | 12/src/main.rs:33-37 | the best length stays between one and the bound it started from |
| HillClimbing.BestFromTerminates | 12/src/main.rs:33-37 | fuel at least the first route's length lets every bounded search finish |
| HillClimbing.Answers | 12/src/main.rs:26-39 | the shortest route from any lowest square is at most the route from `S` and at least one |
| Coords.SortDedup | 12/src/main.rs:87-88 | sorting and removing duplicates gives a strictly increasing list of exactly the cells given |
| Coords.IncreasingUnique | 12/src/main.rs:87-88 | two strictly increasing lists with the same members are equal, so the result does not depend on the order the cells came in |
| Packets.Show | 13/src/main.rs:13-28 | an integer prints as its decimal digits and a list as text enclosed in brackets |
| Packets.ShowItemsIsJoin | 13/src/main.rs:16-24 | a list's items print as their own printed forms joined by commas |
| Packets.ShowExample | 13/src/main.rs:125-135 | `[1,[2,3]]` prints as in the source's test |
| Packets.ParseFrom | 13/src/main.rs:92-119 | a successful parse yields a list and consumes at least one character |
| Packets.ParseLine | 13/src/main.rs:72 | a parsed line is always a list (with 13/src/main.rs:92-119) |
| Packets.UnclosedFails | 13/src/main.rs:95-118 | without a closing bracket the parser runs out of input and fails |
| Packets.StrayCharacterFails | 13/src/main.rs:115 | any character other than brackets, commas and digits stops the parser |
| Packets.DigitsAccumulate | 13/src/main.rs:100-102 | a run of digits only extends the pending number |
| Packets.ParseShowItems | 13/src/main.rs:92-119 | a list's printed items followed by the closing bracket parse back to the list, leaving the rest of the input |
| Packets.ParseShow | 13/src/main.rs:13-28 | printing a list and parsing the line gives the list back (with 13/src/main.rs:92-119) |
| Packets.Compare | 13/src/main.rs:30-64 | every pair of packets compares, and two integers compare as numbers |
| Packets.CompareItemsAt | 13/src/main.rs:34-55 | after a run of `Equal` items, the first pair that differs decides; when one list ends, the lengths decide: the left ending first is `Less`, the right first `Greater`, both together `Equal` |
| Packets.MixedWraps | 13/src/main.rs:56-61 | an integer compares against a list exactly as the one-element list holding it would, on either side |
| Packets.CompareReflexive | 13/src/main.rs:30-64 | every packet compares `Equal` with itself |
| Packets.CompareAntisymmetric | 13/src/main.rs:30-64 | swapping the two packets flips the answer |
| Packets.EqualIsNotIdentity | 13/src/main.rs:30-64 | `[[1]]` and `[1]` are different packets that compare `Equal` |
| Packets.ExamplesOutOfOrder | 13/src/main.rs:193-198 | `[1,[2],3]` against `[1,2,1]` and `[[[]]]` against `[[]]` both compare `Greater` (with 13/src/main.rs:214-219) |
| Packets.InOrderSum | 13/src/main.rs:75-78 | the sum of the numbers of the pairs in order is at most the sum of all pair numbers |
| Packets.PairWeights | 13/src/main.rs:75 | a pair is in order one way round or the other, and both ways round exactly when it compares `Equal` |
| Packets.SwappedSum | 13/src/main.rs:75-78 | counting the pairs in order and then with each pair swapped counts every pair once and the `Equal` pairs twice |
| Packets.ParsePairs | 13/src/main.rs:69-72 | the lines in chunks of three give one pair per chunk |
| Regolith.Blocked | 14/src/main.rs:68-79 | a cell's state is available exactly on the grid, and it is the grid's value there |
| Regolith.MoveSandDown | 14/src/main.rs:67-81 | a grain moves one row down into a free cell at most one column aside; it prefers straight down, then down-left, then down-right, and is stuck exactly when all three are blocked |
| Regolith.MoveExamples | 14/src/main.rs:133-164 | the three single moves of the source's tests: down, down-left and down-right |
| Regolith.Fall | 14/src/main.rs:59-62 | a falling grain ends stuck, no higher than it started, and in a free cell unless it never moved |
| Regolith.FallToFloor | 14/src/main.rs:48-54 | the grain ends stuck or on one of the last two rows, no higher than it started, in a free cell unless it never moved |
| Regolith.FallsAgree | 14/src/main.rs:48-65 | a grain that comes to rest above the last two rows rests in the same cell under either loop |
| Regolith.Mark | 14/src/main.rs:55 | marking blocks that one cell and leaves every other cell as it was (with 14/src/main.rs:63) |
| Regolith.SandFallsToFloor | 14/src/main.rs:48-57 | the grain's resting cell is marked, and the answer says whether it rests within the last three rows |
| Regolith.FloorExample | 14/src/main.rs:123-131 | in the boxed fixture the grain rests on the box's floor, above the last three rows |
| Regolith.SandFilled | 14/src/main.rs:59-65 | the grain's resting cell is marked, and the answer says whether it rested at the source |
| Regolith.GrainTakesFreeCell | 14/src/main.rs:59-65 | a grain that moves fills a cell that was free before |
| Regolith.Depth | 14/src/main.rs:84-86 | the depth is the deepest row among the points and the source, and it is attained |
| Regolith.Space | 14/src/main.rs:83-96 | the grid exists exactly when every point fits the width; it has the depth plus three rows of width 1001, and a cell is blocked exactly when it is on the last row, one of the points or the source |
| Regolith.SpaceExample | 14/src/main.rs:190-198 | the source's three points give 33 rows, with (0, 1) blocked and (0, 2) free |
| Regolith.Box | 14/src/main.rs:36-40 | the nested ranges list exactly the cells between the two corners |
| Regolith.AddSegments | 14/src/main.rs:29-43 | after a line's segments the list is sorted without duplicates and holds exactly the earlier cells and the cells of the line's segments |
| Regolith.AddLines | 14/src/main.rs:27-44 | after all lines the list is sorted without duplicates and holds exactly the earlier cells and the cells of every segment of every line |
| Regolith.ParseInput | 14/src/main.rs:25-46 | the rock is sorted without duplicates and holds exactly the cells on some segment of some line |
| Regolith.PourToFloor | 14/src/main.rs:12-15 | the count only grows and the grid keeps its size |
| Regolith.PourUntilFilled | 14/src/main.rs:17-20 | the count only grows and the grid keeps its size |
| Regolith.Answers | 14/src/main.rs:7-23 | the second count exceeds the first by at least two: the grain that reached the floor rows and the last one |
| Beacons.Manhattan | 15/src/main.rs:19-22 | the taxicab distance is zero exactly between equal points and at least each coordinate gap |
| Beacons.ManhattanMetric | 15/src/main.rs:19-22 | the distance is symmetric and obeys the triangle inequality |
| Beacons.ScanDistance | 15/src/main.rs:15-17 | a sensor's reach is zero exactly when its nearest beacon is on the sensor |
| Beacons.ScanContains | 15/src/main.rs:24-26 | the sensor's own square and its nearest beacon always lie within its scan |
| Beacons.RowRange | 15/src/main.rs:32-36 | the loop lists, strictly ascending, exactly the columns of the range whose square is not the nearest beacon |
| Beacons.ImpossibleInRow | 15/src/main.rs:28-38 | the columns listed are exactly those of the row inside the scan other than the nearest beacon, in ascending order, and none when the row is out of reach |
| Beacons.RowPositions | 15/src/main.rs:79-83 | a column is listed exactly when some sensor rules it out |
| Beacons.CountRow | 15/src/main.rs:79-87 | the count is the number of distinct columns ruled out |
| Beacons.TuningFrequency | 15/src/main.rs:89-91 | for a row below four million, dividing the frequency by four million gives back the column and the remainder the row |
| Beacons.TuningFrequencyInjective | 15/src/main.rs:89-91 | within the puzzle's rows, two points share a frequency exactly when they are equal |
| Beacons.BoxExcluded | 15/src/main.rs:40-44 | a box is excluded only when its first and last corners are in the scan |
| Beacons.CornersDecide | 15/src/main.rs:40-44 | the four corners lie in a scan exactly when every square of the box does (with 15/src/main.rs:94-96) |
| Beacons.ExcludedBoxCovered | 15/src/main.rs:94-96 | a box some sensor excludes has every square covered, so answering `None` for it loses nothing |
| Beacons.ScanColumns | 15/src/main.rs:102-103 | the first uncovered square of the row's columns, with every earlier column covered; none means all are covered |
| Beacons.ScanRows | 15/src/main.rs:101-108 | an uncovered square from the rows scanned, or none when every scanned square is covered |
| Beacons.Half | 15/src/main.rs:110-111 | halving a positive side rounds up and stays between one and the side, and below it for sides above one |
| Beacons.Search | 15/src/main.rs:93-129 | any square returned is covered by no sensor and lies within the box widened by the overshoot |
| Beacons.SearchQuarters | 15/src/main.rs:110-128 | any square from the sub-boxes is uncovered and inside the widened box |
| Beacons.SubBoxesSmaller | 15/src/main.rs:110-123 | every sub-box the search descends into has a strictly smaller area |
| Beacons.SearchComplete | 15/src/main.rs:93-129 | when the search answers `None`, every square of the box is covered |
| Beacons.QuartersCover | 15/src/main.rs:112-123 | the top-left quarter, the bottom half and the top-right quarter together cover the box |
| Beacons.FindInBox | 15/src/main.rs:93-129 | the square returned is uncovered but may lie one row or column past the box |
| Beacons.FindInBoxComplete | 15/src/main.rs:93-129 | when the search as written answers `None`, every square of the box is covered |
| Beacons.FindInBoxOvershoots | 15/src/main.rs:100-107 | two sensors cover a 2 by 2 box, yet the search returns the square just right of it |
| Beacons.FindInBoxCorrected | 15/src/main.rs:93-129 | with the loops stopping at the box's edge, the square returned is uncovered and inside the box |
| Beacons.FindInBoxCorrectedExact | 15/src/main.rs:93-129 | the corrected search answers `None` exactly when every square of the box is covered |
| Beacons.CoveredBoxAnswers | 15/src/main.rs:100-107 | on a fully covered box the corrected search answers `None`, and the search as written answers `None` or a square on the row or column just past the box |
| Valves.Potential | 16/src/main.rs:105-112 | a valve that cannot be reached and opened in the time left adds nothing to the bound |
| Valves.Without | 16/src/main.rs:132 | the filtered list holds exactly the other valves, and is shorter when the valve was there |
| Valves.Step | 16/src/main.rs:124-140 | moving to a valve and opening it costs the distance plus one minute, adds the valve's flow for every minute left, and removes exactly that valve from the ones to open |
| Valves.Best | 16/src/main.rs:116-142 | the reference answer, the best over every order of opening valves without pruning, is at least the pressure already secured |
| Valves.ProcessRoutes | 16/src/main.rs:116-142 | the search never lowers the bound it is given, never ends below the pressure secured, and never claims more than some order of opening valves achieves |
| Valves.Explore | 16/src/main.rs:124-141 | the loop over the next valve never lowers the bound and never exceeds the best of its choices |
| Valves.PotentialAfterStep | 16/src/main.rs:103-114 | with distances obeying the triangle inequality, opening one valve first never raises what any other valve could still release |
| Valves.BestWithinBound | 16/src/main.rs:103-123 | with the triangle inequality, no order of opening valves beats the pressure secured plus the upper bound, so the pruning is sound |
| Valves.ProcessRoutesExact | 16/src/main.rs:116-142 | with the triangle inequality the pruned search ends with exactly the larger of the bound given and the best any order achieves |
| Valves.Walk | 16/src/main.rs:124-140 | a feasible route of openings keeps a valid state and never loses pressure |
| Valves.WalkWithinBest | 16/src/main.rs:116-142 | no feasible route releases more than the reference answer |
| Valves.BestIsWalked | 16/src/main.rs:116-142 | some feasible route releases exactly the reference answer |
| Valves.Start | 16/src/main.rs:97-101 | the start is the first valve marked as the start; there is none exactly when no valve is marked |
| Valves.Others | 16/src/main.rs:148 | the valves to open are exactly the valves other than the start |
| Valves.MaxPressureSolo | 16/src/main.rs:144-158 | an answer exists exactly when there is a start, and with the triangle inequality it is the best pressure any route from the start releases |
| Valves.Powerset | 16/src/main.rs:166 | the subsets tried are all drawn from the valves |
| Valves.PowersetComplete | 16/src/main.rs:166 | every choice of valves is among the subsets tried |
| Valves.PowersetSound | 16/src/main.rs:166 | every subset tried is some choice of valves |
| Valves.Complement | 16/src/main.rs:168 | the elephant's valves are exactly those not chosen for me |
| Valves.BestSplit | 16/src/main.rs:166-189 | the answer is at least what every split tried achieves |
| Valves.BestSplitAttained | 16/src/main.rs:166-189 | some split tried attains the answer |
| Valves.MaxPressureWithElephant | 16/src/main.rs:161-190 | an answer exists exactly when there is a start |
| Valves.ElephantBeatsEverySplit | 16/src/main.rs:161-190 | the pair's answer is at least my search plus the elephant's for any way of sharing the valves |
| Valves.ElephantIsSomeSplit | 16/src/main.rs:161-190 | some way of sharing the valves achieves the pair's answer |
| Valves.ElephantAtLeastSolo | 16/src/main.rs:144-190 | with the same time, the pair does at least as well as one searcher alone |
| Valves.UpperBoundExample | 16/src/main.rs:298-329 | the source's upper-bound fixture gives 265 |
| Valves.MinimalRouteExample | 16/src/main.rs:246-267 | the three-valve line gives 416 |
| Tetris.Height | 17/src/main.rs:143-145 | the height counts layers holding rock, so it never exceeds the number of layers |
| Tetris.HeightOfStack | 17/src/main.rs:143-145 | when rock fills exactly the bottom `k` layers the height is `k`, and the stack has no gap |
| Tetris.BlockFacts | 17/src/main.rs:14-40 | the five shapes are four-by-four, gap-free from their bottom layer, and 1, 3, 3, 4 and 2 layers tall |
| Tetris.Width | 17/src/main.rs:103-113 | the width bounds every rock column of the shape and, when non-zero, its last column holds rock |
| Tetris.BarWidth | 17/src/main.rs:15-20 | the bar is four wide |
| Tetris.PlusWidth | 17/src/main.rs:21-26 | the plus is three wide |
| Tetris.CornerWidth | 17/src/main.rs:27-32 | the corner is three wide |
| Tetris.PostWidth | 17/src/main.rs:33 | the post is one wide |
| Tetris.SquareWidth | 17/src/main.rs:34-39 | the square is two wide |
| Tetris.ScanClear | 17/src/main.rs:230-237 | the collision scan succeeds exactly when no rock cell of the shape meets rock |
| Tetris.CanMoveRight | 17/src/main.rs:226-238 | the shape moves right exactly when it stays inside the right wall and meets no rock one column over |
| Tetris.CanMoveLeft | 17/src/main.rs:240-252 | the shape moves left exactly when it is off the left wall and meets no rock one column over |
| Tetris.CanMoveDown | 17/src/main.rs:254-266 | the shape falls exactly when it is off the floor and meets no rock one layer down |
| Tetris.PlaceBlock | 17/src/main.rs:216-224 | after placing, a cell is rock exactly when it was rock before or is a rock cell of the shape |
| Tetris.PlacedLayer | 17/src/main.rs:216-224 | a layer holds rock after placing exactly when it held rock or the shape has rock in that layer |
| Tetris.PlaceStacked | 17/src/main.rs:216-224 | placing a gap-free shape at or below the top of a gap-free stack leaves a gap-free stack as tall as the higher of the two |
| Tetris.LandsLow | 17/src/main.rs:199-204 | a shape that cannot fall rests no higher than the top of the stack |
| Tetris.TrimTopRows | 17/src/main.rs:147-151 | trimming keeps a prefix of the layers, exactly the stack and four layers over it when there were more |
| Tetris.NextBlock | 17/src/main.rs:153-163 | the next shape in turn spawns two columns in and three layers over the stack, over four fresh empty layers, and the count goes up by one |
| Tetris.Spawn | 17/src/main.rs:173-176 | a tick starts with a falling shape, counting a new one only when none was falling |
| Tetris.Push | 17/src/main.rs:177-197 | the jet moves the shape one column its way exactly when that move is allowed, and changes nothing else |
| Tetris.Settle | 17/src/main.rs:199-211 | the shape drops one layer exactly when the layer below is clear; otherwise it is placed, the next shape spawns and the top component is reported with the jet and shape indices |
| Tetris.Tick | 17/src/main.rs:172-214 | a tick spawns when needed, pushes and drops or lands the shape; without a jet it only spawns; a shape that did not land is one layer lower |
| Tetris.NewLevelGood | 17/src/main.rs:131-141 | the new level satisfies the chamber invariant with height 0 |
| Tetris.SpawnGood | 17/src/main.rs:153-163 | spawning keeps the chamber invariant: the new shape fits and meets no rock |
| Tetris.GoodReady | 17/src/main.rs:172-214 | a level satisfying the invariant never indexes outside the chamber during a tick |
| Tetris.PushClear | 17/src/main.rs:177-197 | a push that moves the shape moves it only where it meets no rock |
| Tetris.PushGood | 17/src/main.rs:177-197 | the push keeps the chamber invariant |
| Tetris.LandGood | 17/src/main.rs:199-204 | landing a shape keeps the stack gap-free and each shape raises it by at most four layers |
| Tetris.SettleGood | 17/src/main.rs:199-211 | the fall keeps the chamber invariant |
| Tetris.TickGood | 17/src/main.rs:172-214 | every tick keeps the chamber invariant, so the chamber never runs out of layers |
| Tetris.Below | 17/src/main.rs:272-278 | the cells reached straight down are exactly the free cells under connected cells |
| Tetris.SpreadingLeast | 17/src/main.rs:284-302 | the spreading loop ends on the least closed row containing its start |
| Tetris.Spread | 17/src/main.rs:284-302 | spreading only adds free cells and ends on a row no free cell next to it can join |
| Tetris.SpreadLeast | 17/src/main.rs:284-302 | any closed row containing the start contains the spread |
| Tetris.Connected | 17/src/main.rs:272-302 | a connected layer holds the free cells straight below and only free cells |
| Tetris.ConnectedLeast | 17/src/main.rs:272-302 | a connected layer is the least closed row holding the free cells straight below |
| Tetris.TopComponent | 17/src/main.rs:268-313 | the top component has at most one row per layer and at least one when there are layers |
| Tetris.TopComponentFacts | 17/src/main.rs:268-313 | each row of the top component reaches only free cells, every row but the last reaches some cell, and the walk stops early only at a row reaching nothing |
| Tetris.TopFromFacts | 17/src/main.rs:268-313 | from any layer, every row of the walk reaches only free cells of its layer, every row but the last reaches some cell, and the walk stops before the floor only after a row reaching nothing |
| Tetris.TopFromFreeAt | 17/src/main.rs:271-278 | the `n`-th row of the walk reaches only free cells of the `n`-th layer down |
| Tetris.TopFromFree | 17/src/main.rs:271-278 | the walk reaches only free cells of the layer it is on |
| Tetris.TopFromOn | 17/src/main.rs:280-283 | every row of the walk but the last reaches some cell |
| Tetris.TopFromLast | 17/src/main.rs:305-309 | the walk stops before the floor only after a row reaching nothing |
| TetrisRun.CycleJet | 17/src/main.rs:46 | the cycled jet iterator yields nothing only for no jets, and otherwise a valid index and its jet |
| TetrisRun.Drop | 17/src/main.rs:51-52 | the loop keeps the chamber invariant and ends once `target` shapes have come to rest and the next has spawned |
| TetrisRun.SpawnFalls | 17/src/main.rs:172-214 | a shape never lands in the tick it spawns in |
| TetrisRun.SettleFalls | 17/src/main.rs:199-211 | a shape more than one layer over a gap-free stack falls |
| TetrisRun.ClearOverStack | 17/src/main.rs:254-266 | a shape wholly above a gap-free stack meets no rock |
| TetrisRun.TowerHeight | 17/src/main.rs:51-70 | the part-one height after `target` shapes is at most four layers per shape |
| TetrisRun.NewLevelExample | 17/src/main.rs:360-373 | the new level has three empty layers, no shapes and height 0 |
| TetrisRun.LevelHeightExample | 17/src/main.rs:405-411 | two layers with rock in the first column have height 2 |
| TetrisRun.FirstRockExample | 17/src/main.rs:375-397 | the first tick with a jet to the right leaves the bar at column 3, layer 2, in seven empty layers |
| TetrisRun.BasicTopExample | 17/src/main.rs:512-534 | over a full bottom layer the top component is two open rows and an empty row |
| TetrisRun.AdvancedTopExample | 17/src/main.rs:536-560 | the top component of the test's cave reaches down through gaps and sideways as the test expects |
| Cubes.DistanceSymmetric | 18/src/main.rs:13-17 | the cube distance does not depend on the order of the two cubes |
| Cubes.DistanceZero | 18/src/main.rs:13-17 | the distance is zero exactly for the same cube |
| Cubes.Neighbour | 18/src/main.rs:91-99 | each of the six steps of the inner loops reaches a cube sharing a face |
| Cubes.NeighbourIndex | 18/src/main.rs:91-99 | every cube sharing a face is one of the six steps |
| Cubes.NeighboursAdjacent | 18/src/main.rs:91-99 | the six neighbours are exactly the cubes at distance one |
| Cubes.SurfaceArea | 18/src/main.rs:24-33 | no answer for no cubes; otherwise the area plus two per adjacent pair is six per cube, and for distinct cubes it is the number of faces touching no other cube |
| Cubes.CountLater | 18/src/main.rs:26-30 | the inner loop counts the later cubes adjacent to cube `n` |
| Cubes.TwoCubes | 18/src/main.rs:24-33 | two cubes side by side make one adjacent pair and show ten faces |
| Cubes.PairsTouching | 18/src/main.rs:24-32 | each adjacent pair accounts for two touching faces |
| Cubes.TouchingBound | 18/src/main.rs:32 | with distinct cubes no cube touches more than six, so the subtraction stays non-negative |
| Cubes.Boundary | 18/src/main.rs:51-58 | every cube lies strictly inside the boundary box |
| Cubes.BoundaryLeast | 18/src/main.rs:51-58 | the boundary is the tightest box holding every cube strictly inside |
| Cubes.BoundaryFacesSurface | 18/src/main.rs:60-84 | the boundary faces are exactly the cells of the box on its surface |
| Cubes.SurfaceIsAir | 18/src/main.rs:51-84 | the surface cells of the boundary are never cubes, so the flood starts in air |
| Cubes.LookAt | 18/src/main.rs:100-107 | a neighbour inside the box that is a cube adds one face; otherwise it is queued at most once, only when new |
| Cubes.RoundFacts | 18/src/main.rs:89-110 | one call visits every cube it was given, finds at most six faces per cube and queues only new air cells |
| Cubes.ExternalFaces | 18/src/main.rs:86-115 | the flood ends, and finds at most six faces per cell queued now or later |
| Cubes.FloodShrinks | 18/src/main.rs:105-112 | the cells queued for the next call come out of the cells of the box not yet seen |
| Robots.AtMostGet | 19/src/main.rs:64-67 | one inventory count is at most another exactly when it is so in every material |
| Robots.MaxPrice | 19/src/main.rs:55-60 | no answer exactly when no price lists the material; otherwise the largest price listed for it, attained by some robot |
| Robots.NewInventory | 19/src/main.rs:70-84 | a new inventory holds no material and one ore robot only |
| Robots.CanAffordEntries | 19/src/main.rs:86-93 | checking only the materials a price lists decides affordability in every material |
| Robots.BuyRefund | 19/src/main.rs:95-102 | buying takes exactly the listed price out of the stock, keeps the robots, and handing the price back restores the inventory |
| Robots.GatherBuild | 19/src/main.rs:104-112 | gathering adds each robot count to its material and changes no robot; building adds one robot of the kind and changes no material |
| Robots.TickEffect | 19/src/main.rs:127-144 | a minute builds exactly when the price is in stock; the stock gains what the old robots bring less the price paid, and a new robot brings nothing that minute |
| Robots.TicksTillBuild | 19/src/main.rs:146-162 | no answer with no time; a count of minutes is at least one and less than the time |
| Robots.WaitFromExact | 19/src/main.rs:150-161 | the waiting loop stops at the first minute the price is in stock, or, giving up, after ticking every minute |
| Robots.TicksTillBuildExact | 19/src/main.rs:146-162 | `Some(k)` exactly when the price is first in stock after `k - 1` idle minutes, leaving that minute's inventory; otherwise every minute ticked without a build |
| Robots.UpperBounds | 19/src/main.rs:261-273 | no minutes leave the inventory as it is |
| Robots.AffordMonotone | 19/src/main.rs:86-93 | a richer inventory affords every robot a poorer one does |
| Robots.TickDominated | 19/src/main.rs:127-144 | every real minute, whatever robot it tries, ends no richer than the optimistic minute from a richer inventory (with 19/src/main.rs:265-271) |
| Robots.OptimistMonotone | 19/src/main.rs:265-271 | the optimistic minute keeps one inventory below another |
| Robots.UpperBoundsMonotone | 19/src/main.rs:261-273 | the optimistic bound keeps one inventory below another for any time |
| Robots.UpperBoundsSound | 19/src/main.rs:261-273 | no sequence of real minutes ends richer, in any material or robot, than the optimistic bound of the same length |
| Robots.UpperBoundsGeodes | 19/src/main.rs:261-273 | the optimistic bound keeps every robot and promises at least the geodes the geode robots bring each minute |
| RobotSearch.ProcessTries | 19/src/main.rs:120-125 | processing an order for `time` minutes is a play of exactly `time` minutes |
| RobotSearch.Missing | 19/src/main.rs:248-252 | the robots added reach the most any price asks of that material, and exactly that many when any are added |
| RobotSearch.LowerBoundBelowUpper | 19/src/main.rs:245-273 | the lower bound is a real play, so it never beats the optimistic bound |
| RobotSearch.PlayGeodes | 19/src/main.rs:127-144 | every play keeps its geode robots, which bring their count each minute |
| RobotSearch.LowerBoundGeodes | 19/src/main.rs:245-258 | the lower bound collects at least the geodes the geode robots already owned bring |
| RobotSearch.WaitIsPlay | 19/src/main.rs:150-161 | the waiting loop is a play of the one robot kind for its minutes |
| RobotSearch.TicksTillBuildPlay | 19/src/main.rs:146-162 | waiting for a robot plays it for the minutes counted, or for all the minutes when it gives up |
| RobotSearch.UpperBoundsAfterPlay | 19/src/main.rs:261-273 | playing first and bounding the rest never beats bounding from the start |
| RobotSearch.MaxGeodes | 19/src/main.rs:197-204 | with no time left the search answers the current geodes and an empty route |
| RobotSearch.MaxGeodesAtLeast | 19/src/main.rs:197-213 | the search answers at least the caller's best and the lower bound, and names a route only when it found strictly more |
| RobotSearch.TryRobots | 19/src/main.rs:214-240 | the loop over robot kinds never lowers the best, and leaves it untouched when it finds nothing better |
| RobotSearch.TryRobot | 19/src/main.rs:221-239 | one robot kind never lowers the best, and changes it only for a strictly better count |
| RobotSearch.MaxGeodesSound | 19/src/main.rs:197-242 | the search never answers more geodes than the caller's best or the optimistic bound |
| RobotSearch.PrunedAtOnce | 19/src/main.rs:205-213 | when the optimistic bound promises only what the geode robots bring, the search answers that at once with an empty route |
| RobotSearch.TestBlueprintFacts | 19/src/main.rs:281-296 | the test blueprint prices ore, clay and obsidian and asks no geodes |
| RobotSearch.GeodeStartIsNew | 19/src/main.rs:297-298 | the tests' start is a new inventory with three geode robots |
| RobotSearch.TestUpperBounds | 19/src/main.rs:279-336 | from the tests' start the optimistic bound of up to six minutes promises only the geode robots' three per minute |
| RobotSearch.GeodeRobotsExample | 19/src/main.rs:279-336 | with three geode robots, one, two, three and six minutes yield 3, 6, 9 and 18 geodes and an empty route |
| Mixer.IndexMapShape | 20/src/main.rs:30-60 | the map has one entry per position, and entry `i` is where the number now at `i` came from: the mover lands at `target`, the numbers it passes slide one place back, the rest stay |
| Mixer.MovedInverse | 20/src/main.rs:30-60 | moving from `target` back to `source` undoes a move |
| Mixer.IndexMapPermutation | 20/src/main.rs:30-60 | the map is a bijection of the positions, undone by the map of the reverse move |
| Mixer.IndexMapIdentity | 20/src/main.rs:56-58 | a move onto its own position leaves every position alone |
| Mixer.MoveMultiset | 20/src/main.rs:30-60 | a move only rearranges, and puts the mover at its target |
| Mixer.ApplyIndexMap | 20/src/main.rs:30-60 | reading a list through the map is taking the number out at `source` and putting it back at `target` (with 20/src/main.rs:80-81) |
| Mixer.IndexMapExamples | 20/src/main.rs:251-285 | the maps of the tests' forward and backward moves in a list of seven |
| Mixer.CombinedMovesExample | 20/src/main.rs:222-242 | two moves in a list of three compose by reading one map through the other |
| Mixer.Index | 20/src/main.rs:102-113 | the target is a position inside the list |
| Mixer.IndexWraps | 20/src/main.rs:102-113 | the target differs from the unreduced position by whole laps of one less than the length; forward moves land short of the last slot, others past the first |
| Mixer.IndexNeverWrapsToZero | 20/src/main.rs:106-111 | the `ret == 0` fallback never fires, so the target lies between 1 and the last slot |
| Mixer.MixStep | 20/src/main.rs:62-65 | a step fails exactly on a list too short to divide by its length less one |
| Mixer.MixStepMoves | 20/src/main.rs:62-65 | a step's map is a permutation that moves the number at `source` to its wrapped target and shifts what it passes |
| Mixer.IndexMapIsPermutation | 20/src/main.rs:30-60 | the map lists every position once |
| Mixer.MovePermutation | 20/src/main.rs:80 | composing the position map with a move keeps it a permutation |
| Mixer.StartTracks | 20/src/main.rs:72-75 | the loop starts from the identity map and the original list |
| Mixer.StepTracks | 20/src/main.rs:80-81 | composing the position map with a move moves the list read through it |
| Mixer.RebuildIsMove | 20/src/main.rs:79-81 | rebuilding through the index map of a move is that move of the position map and of the list |
| Mixer.Step | 20/src/main.rs:77-82 | an iteration fails exactly on a list shorter than two or when the original index is missing |
| Mixer.StepKeepsTracks | 20/src/main.rs:77-82 | every iteration keeps the map a permutation and the list the original read through it, so the original index is always found |
| Mixer.StepMovesOriginal | 20/src/main.rs:77-82 | the number moved is the original one, from where it now is to its wrapped target |
| Mixer.StepIsLoopBody | 20/src/main.rs:78-81 | an iteration is `mix_step` followed by the rebuild of the map and the list |
| Mixer.StepsKeepTracks | 20/src/main.rs:71-84 | the loop fails only when a one-element list is mixed at all, and otherwise keeps its invariant |
| Mixer.MixTimes | 20/src/main.rs:71-84 | mixing fails only for a one-element list mixed at least once; otherwise it rearranges the numbers |
| Mixer.MixFromTrace | 20/src/main.rs:71-84 | a trace of single steps from the identity map ends on the mixed list |
| Mixer.MixExample | 20/src/main.rs:244-249 | one round of mixing the worked example gives `1, 2, -3, 4, 0, 3, -2` |
| Mixer.Decrypt | 20/src/main.rs:93-99 | each number is multiplied by the decryption key |
| Mixer.GroveCoordinates | 20/src/main.rs:86-91 | no answer exactly when the list holds no zero; otherwise the numbers 1000, 2000 and 3000 places after the first zero, wrapping round |
| Mixer.GroveAfterZero | 20/src/main.rs:86-91 | the coordinates are read at those offsets from the first zero |
| Mixer.DecryptGrove | 20/src/main.rs:86-99 | decrypting and reading the coordinates commute |
| Mixer.GroveRotation | 20/src/main.rs:86-91 | with exactly one zero, reading the list from any starting point gives the same coordinates |
| MonkeyMap.FromNat | 22/src/main.rs:111-121 | a number maps to the facing whose value is that number modulo 4 |
| MonkeyMap.FacingRoundTrip | 22/src/main.rs:67-73 | converting a facing to its number and back gives the same facing (with 22/src/main.rs:111-121) |
| MonkeyMap.Opposite | 22/src/main.rs:78-85 | the opposite facing is two quarter turns on |
| MonkeyMap.OppositeInvolution | 22/src/main.rs:78-85 | the opposite of the opposite is the facing itself, and never equals it |
| MonkeyMap.Turn | 22/src/main.rs:86-98 | turning adds the turn's quarter turns to the facing, clockwise, modulo 4 |
| MonkeyMap.TurnLaws | 22/src/main.rs:86-98 | right then left, or left then right, restores the facing; `Up` keeps it and `Down` reverses it |
| MonkeyMap.FirstTurn | 22/src/main.rs:101-108 | the loop finds a listed turn reaching `next`, and finds none exactly when no listed turn does |
| MonkeyMap.To | 22/src/main.rs:100-108 | the turn returned reaches `next`, and it is the only turn that does |
| MonkeyMap.SomeTurnReaches | 22/src/main.rs:65 | the four listed turns always reach any facing, so the `unreachable!` never fires (with 22/src/main.rs:101-107) |
| MonkeyMap.Password | 22/src/main.rs:167-171 | the password modulo four is the facing, and it is at least 1004, reached exactly at the top-left square facing right |
| MonkeyMap.PasswordDecodes | 22/src/main.rs:166-172 | for columns below 249 the password encodes the row, the column and the facing, and each can be read back |
| MonkeyMap.Measure | 22/src/main.rs:194-200 | for a non-empty board the height and width are one more than the largest row and column |
| MonkeyMap.Increment | 22/src/main.rs:206-223 | a step along a row keeps the row and lands inside the width; along a column keeps the column and lands inside the height |
| MonkeyMap.IncrementOnce | 22/src/main.rs:206-223 | for amounts up to the span, the wrapped step is the position that far ahead round the board |
| MonkeyMap.IncrementStep | 22/src/main.rs:206-223 | stepping one further from `k` ahead is `k + 1` ahead |
| MonkeyMap.IncrementReturns | 22/src/main.rs:256-262 | a walk round the board returns to the start exactly after the full span |
| MonkeyMap.IncrementWithoutWrapping | 22/src/main.rs:225-254 | no answer exactly when the step leaves the board's range; otherwise the position that many cells on in the facing's direction |
| MonkeyMap.IncrementAgrees | 22/src/main.rs:206-254 | where the unwrapped step stays on the board, it agrees with the wrapped one |
| MonkeyMap.Next | 22/src/main.rs:256-270 | a next position is a tile, not a wall, and not the starting cell |
| MonkeyMap.NextFindsFirstTile | 22/src/main.rs:256-270 | the next position is the first tile ahead, or none when that tile is a wall |
| MonkeyMap.NextWithoutTiles | 22/src/main.rs:256-262 | with no tile ahead before coming round, there is no next position |
| MonkeyMap.Walk | 22/src/main.rs:279-285 | walking keeps the facing and the board range, and stays on tiles when starting on one |
| MonkeyMap.WalkBlocked | 22/src/main.rs:279-285 | a walker facing a wall does not move, however many steps |
| MonkeyMap.WalkSplits | 22/src/main.rs:279-285 | walking `m` steps then `n` is walking `m + n` |
| MonkeyMap.ProcessInstruction | 22/src/main.rs:276-295 | a move walks and keeps the facing, staying put when blocked; turns 1 and 3 turn right and left in place; any other turn fails |
| MonkeyMap.TurnBack | 22/src/main.rs:286-291 | a right turn and a left turn undo each other |
| MonkeyMap.Gather | 22/src/main.rs:526-556 | the scan only appends valid instructions |
| MonkeyMap.ParseInstructions | 22/src/main.rs:526-556 | every parsed instruction is a move or a right or left turn |
| MonkeyMap.ParseWord | 22/src/main.rs:515-523 | a word parses to a move or a right or left turn |
| MonkeyMap.WordRoundTrip | 22/src/main.rs:515-523 | parsing an instruction's word gives the instruction back |
| MonkeyMap.GatherRender | 22/src/main.rs:526-556 | scanning the text of a well-formed path appends exactly its instructions |
| MonkeyMap.PathRoundTrip | 22/src/main.rs:526-556 | parsing the text of a path with moves and turns alternating gives the path back |
| MonkeyMap.JumpOffset | 22/src/main.rs:356-375 | from inside a face the jump lands inside the next face, on the edge it enters through |
| MonkeyMap.JumpBack | 22/src/main.rs:356-375 | crossing the same seam back, against both directions, returns to the cell left from |
| MonkeyMap.JumpOffsetExamples | 22/src/main.rs:725-740 | the jumps of the 2 by 2 test cube from its first face |
| MonkeyMap.DirectDirection | 22/src/main.rs:445-451 | none exactly for a straight or reversing turn; otherwise the start turned one way and the end turned back the other |
| MonkeyMap.DirectDirectionExamples | 22/src/main.rs:616-628 | combining down, down, down gives none, and down, right, left gives left and down |
| Diffusion.Go | 23/src/main.rs:59-66 | north and south change only the row by one; east and west only the column by one |
| Diffusion.GoBack | 23/src/main.rs:59-66 | going one way and back returns to the start |
| Diffusion.GoExample | 23/src/main.rs:254-260 | going north from `(-1, 4)` reaches `(-1, 3)` |
| Diffusion.Adjacencies | 23/src/main.rs:68-74 | the eight cells listed are exactly the cells around the point |
| Diffusion.PointsToCheck | 23/src/main.rs:76-83 | the three cells listed are exactly the cells around the point on the side of the direction, the straight step first |
| Diffusion.AnyIn | 23/src/main.rs:110-119 | the scan finds an elf exactly when one of the points holds one |
| Diffusion.Consider | 23/src/main.rs:108-121 | an elf only proposes a vacant cell |
| Diffusion.ConsiderMeans | 23/src/main.rs:108-121 | an elf proposes a direction exactly when no elf stands on the three cells that way and some elf stands around it |
| Diffusion.LoneElfStays | 23/src/main.rs:115-120 | an elf with no neighbour never proposes |
| Diffusion.ConsiderExamples | 23/src/main.rs:262-270 | an elf blocked to the north does not propose north, and a lone elf does not propose (with 23/src/main.rs:329-334) |
| Diffusion.Propose | 23/src/main.rs:182-189 | an elf proposes nothing exactly when it accepts no direction of the order; a proposal is a vacant cell next to it |
| Diffusion.ProposalIsFirst | 23/src/main.rs:183-188 | the proposal is the step in the first accepted direction of the order |
| Diffusion.DecisionsRev | 23/src/main.rs:221-231 | each chosen target maps to exactly the elves that chose it, and nothing else is a key |
| Diffusion.FirstHalf | 23/src/main.rs:180-204 | the first half keeps the grove and the order |
| Diffusion.ProposalsOf | 23/src/main.rs:182-189 | an elf is among the proposals exactly when it proposes, with its proposal as the target |
| Diffusion.ProposalsOwner | 23/src/main.rs:182-189 | every proposing elf stands somewhere in the grove |
| Diffusion.AloneInGroup | 23/src/main.rs:195-198 | an elf's group holds it alone exactly when no other elf chose the same target |
| Diffusion.FirstHalfDecides | 23/src/main.rs:180-204 | an elf keeps a decision exactly when it proposes and no other elf proposes the same target, and then the decision is its proposal |
| Diffusion.UncontestedIffAlone | 23/src/main.rs:195-202 | an elf's group holds it alone exactly when no other elf in the grove proposes its target |
| Diffusion.OtherProposal | 23/src/main.rs:182-189 | another elf proposing the same target shows up in the proposals with it |
| Diffusion.FirstHalfTargetsDistinct | 23/src/main.rs:195-202 | no two kept decisions share a target |
| Diffusion.FirstHalfTargetsVacant | 23/src/main.rs:180-204 | every kept decision targets a vacant cell next to its elf |
| Diffusion.KeepsUncontested | 23/src/main.rs:195-198 | an elf whose proposal no other elf shares keeps it |
| Diffusion.ContestedDropped | 23/src/main.rs:199-201 | two elves proposing the same target both lose their decision |
| Diffusion.DecisionOwner | 23/src/main.rs:180-204 | every elf with a decision stands somewhere in the grove |
| Diffusion.SecondHalf | 23/src/main.rs:206-219 | the second half fails only on an empty order; otherwise the first direction moves to the back and the decisions are cleared |
| Diffusion.Dests | 23/src/main.rs:208-214 | each listed elf's destination is its decision or its own cell |
| Diffusion.PlaceKeys | 23/src/main.rs:208-214 | the cells filled are the ones already filled and the destinations of the listed elves |
| Diffusion.PlaceValues | 23/src/main.rs:208-214 | with distinct fresh destinations, each elf ends at its own destination |
| Diffusion.ListsCount | 23/src/main.rs:208 | iterating the grove visits each elf once |
| Diffusion.RoundKeepsElves | 23/src/main.rs:180-219 | a round keeps every elf: each moves to its decision or stays, no two end on one cell, and the count is unchanged |
| Diffusion.DestInjective | 23/src/main.rs:180-214 | after the first half no two elves are sent to the same cell |
| Diffusion.ColumnProposals | 23/src/main.rs:272-282 | in the test's column with a gap, the outer elves propose stepping outwards and the inner two propose the gap |
| Diffusion.DuplicateProposalExample | 23/src/main.rs:272-282 | the two elves that chose the gap lose their decisions and the outer two keep theirs |
| Diffusion.ElvesMoveExample | 23/src/main.rs:284-299 | after the round the outer elves have stepped away and the inner two stayed |
| Diffusion.Rotate | 23/src/main.rs:215-217 | the first direction moves to the back and the others move up one |
| Diffusion.OrderCycles | 23/src/main.rs:215-218 | four rounds bring the starting order back, and rotating north-south gives south-north (with 23/src/main.rs:301-309) |
| Diffusion.Least | 23/src/main.rs:123-129 | the minimum is at most every elf's coordinate |
| Diffusion.Greatest | 23/src/main.rs:123-129 | the maximum is at least every elf's coordinate |
| Diffusion.ExtremesAttained | 23/src/main.rs:123-129 | the minimum and maximum are each some elf's coordinate |
| Diffusion.RectangleArea | 23/src/main.rs:123-134 | no area exactly for an empty grove, where the source's `unwrap` panics |
| Diffusion.RectangleHoldsElves | 23/src/main.rs:123-129 | every elf lies within the rectangle |
| Diffusion.RectangleIsTight | 23/src/main.rs:123-129 | each side of the rectangle touches an elf, so no smaller rectangle holds them all |
| Diffusion.BoxCount | 23/src/main.rs:131-138 | points within a rectangle number at most its area, so the subtraction stays non-negative |
| Diffusion.EmptyGround | 23/src/main.rs:136-138 | no answer for an empty grove; otherwise the empty cells and the elves make up the rectangle's area |
| Diffusion.RectangleExample | 23/src/main.rs:311-327 | four elves in a column of five cells span an area of 5 with 1 empty cell |
| BlizzardBasin.TakeOpposite | 24/src/main.rs:41-65 | a step that exists can be undone by the opposite step, and it moves to an adjacent point |
| BlizzardBasin.Take | 24/src/main.rs:41-56 | a step fails exactly when it would go west of column 0 or north of row 0; otherwise it moves one unit in its direction |
| BlizzardBasin.OppositeInvolution | 24/src/main.rs:58-65 | the opposite of the opposite direction is the direction itself |
| BlizzardBasin.GlyphRoundTrip | 24/src/main.rs:68-89 | the four blizzard glyphs and the four directions convert into each other without loss |
| BlizzardBasin.FromText | 24/src/main.rs:202-227 | parsing succeeds exactly on a walled layout; the result has the start in the top row and the end in the bottom row, all interior cells, and a blizzard on exactly the interior cells whose glyph is an arrow, pointing that way |
| BlizzardBasin.Period | 24/src/main.rs:105-109 | the blizzard period is a positive common multiple of the width and the height, and it divides every other common multiple |
| BlizzardBasin.PeriodExample | 24/src/main.rs:416-421 | lcm(4, 6) is 12, and the 5 by 7 example basin has period 35 |
| BlizzardBasin.Wrap | 24/src/main.rs:111-120 | wrapping lands inside the valley (columns 1..width, rows 1..height) in the same residue class as the point |
| BlizzardBasin.TakeN | 24/src/main.rs:148-158 | `n` steps with wrap-around land on the interior cell congruent to the point shifted `n` cells in the direction; zero steps stay put |
| BlizzardBasin.TakeNInverse | 24/src/main.rs:148-158 | between interior cells, `n` wrapping steps one way reach `q` from `p` exactly when `n` steps the opposite way reach `p` from `q` |
| BlizzardBasin.TakeNPeriodic | 24/src/main.rs:148-158 | adding any multiple of the period to the step count changes nothing |
| BlizzardBasin.Free | 24/src/main.rs:160-172 | a point is free at time `t` when it is the start or the end, or when for no direction the cell `t` steps away that way holds a blizzard heading back toward it |
| BlizzardBasin.FreeIffUnoccupied | 24/src/main.rs:160-172 | for a cell of the valley, free means that no blizzard's position at time `t` is that cell (the start and the end are always free) |
| BlizzardBasin.FreePeriodic | 24/src/main.rs:160-172 | whether a cell is free repeats with the blizzard period |
| BlizzardBasin.TinyBasinFreeAtStart | 24/src/main.rs:472-487 | in the 2 by 2 test basin, at time 0 only (1,2) and (2,1) are free |
| BlizzardBasin.TinyBasinFreeAfterOne | 24/src/main.rs:472-487 | at time 1, (1,1) is free and (1,2) is not |
| BlizzardBasin.TinyBasinFreeAfterOneMore | 24/src/main.rs:472-487 | at time 1, (2,2) is free and (2,1) is not |
| BlizzardBasin.Neighbours | 24/src/main.rs:136-140 | the neighbours are exactly the basin points one step away, with no repeats and at most four of them |
| BlizzardBasin.NeighboursAndSelf | 24/src/main.rs:142-146 | the neighbours followed by the point itself, which comes last |
| BasinGraph.CachedFree | 24/src/main.rs:243-250 | the memoised test answers what `Free` answers, keeps the memo consistent, and leaves the memo alone on a hit |
| BasinGraph.BuildGraph | 24/src/main.rs:287-324 | the graph's nodes are the two sentinels and the free (point, time) states within one period; its edges are exactly the unit-weight moves from a free state to the state it came from one minute earlier, plus the zero-weight portals from each start state to the start sentinel and from the end sentinel to each end state |
| BasinGraph.Reverse | 24/src/main.rs:265-284 | reversal swaps the sentinels, keeps every node and every edge away from the sentinels, and turns each sentinel edge around |
| BasinGraph.ReverseShape | 24/src/main.rs:265-284 | a reversed graph still has the sentinel shape that reversal needs |
| BasinGraph.ReverseTwice | 24/src/main.rs:17-21 | reversing twice gives back the original graph, so the third leg searches the same graph as the first |
| BasinGraph.BuiltGraphShape | 24/src/main.rs:317-322 | the built graph joins its sentinels only through portals and has no edge from the end sentinel to the start sentinel |
| Snafu.DigitConversions | 25/src/main.rs:28-76 | digits, characters and digit values convert into each other without loss |
| Snafu.Parse | 25/src/main.rs:105-110 | parsing succeeds exactly on strings over `=-012` and stores their digits last character first |
| Snafu.ParseShow | 25/src/main.rs:98-110 | printing then parsing stores the digits in reverse order |
| Snafu.LsdMsd | 25/src/main.rs:112-121 | digits read least significant first are worth their reversal read most significant first |
| Snafu.NextPower | 25/src/main.rs:88-95 | the exponent is at least 1 and is the least one whose `(5^e - 1) / 2` exceeds the magnitude |
| Snafu.Encode | 25/src/main.rs:123-136 | encoding always yields digits, one per exponent, whose value read most significant first is the number |
| Snafu.Coefficient | 25/src/main.rs:128-133 | while the remainder fits in `n + 1` digits, the rounded coefficient of `5^n` is a digit and leaves a remainder that fits in `n` digits |
| Snafu.RoundTrip | 25/src/main.rs:5-11 | encoding the sum, printing, parsing and decoding gives the sum back |
| Snafu.ParseExamples | 25/src/main.rs:142-154 | "=" parses to a single double minus, and "1=-0-2" to its digits in reverse |
| Snafu.ValueExample | 25/src/main.rs:149-154 | "1=-0-2" is worth 1747 |
| Snafu.EncodeExample | 25/src/main.rs:156-161 | -1 encodes as a single minus |
| Snafu.EncodeNegativeExample | 25/src/main.rs:163-168 | -176 encodes as minus, double minus, zero, minus |
| Snafu.LeadingZeroForTwo | 25/src/main.rs:88-95 | as written, 2 gets exponent 2 and prints as "02" |
| Snafu.EncodeTight | 25/src/main.rs:123-136 | with the tight exponent, encoding yields the fewest digits that can write the number, worth the number |
| Snafu.TightRoundTrip | 25/src/main.rs:88-136 | the tight encoding round-trips, and its leading digit is not zero unless the number is 0 |

## Left out

- Strings are modelled as sequences of characters, while Rust's `len()` (03/src/main.rs:19-30) and `char_indices` (12/src/main.rs:46) count bytes; the two agree only on ASCII input, so `Rucksacks.Compartments` and `HillClimbing.LastStart` match the source only there (on "aaéaa" the source panics, and on "éS" it puts the start at (0, 2)).
- TetrisRun.Drop: requires a non-empty jet list; with no jets `jets.next()` (17/src/main.rs:177) yields `None` every tick, the shape never moves or lands, and the loop at 17/src/main.rs:51 never ends, so that input is excluded to make `Drop` terminate.
- Every day's `main`: reading standard input and printing the answers is I/O. The models start from the input text as a string.
- Day 24 `shortest_path` and `shortest_path_lengths` (24/src/main.rs:26-30, 261-263) call petgraph's Dijkstra, which is not part of this model. The model builds the graph that Dijkstra searches and states its shape.
- Day 24 `Display for Basin` and `blizzards_at` (24/src/main.rs:122-126, 175-200) only render the basin for debugging.
- Day 24: the basin's `blizzards` and `points` maps store counts that the solver never reads. The model keeps the set of points and the map from positions to blizzards.
- BasinGraph.Reverse: requires distinct sentinels and no edge from the end sentinel to the start sentinel. The source's `find_edge(...).unwrap()` would panic otherwise, and the built graph always satisfies both.
- Integer widths: `usize` and `isize` overflow is not modelled; every integer is unbounded.
- Text.ParseInt: has no range check. Day 1 and day 10 parse with `parse::<i32>` (01/src/main.rs:25, 10/src/main.rs:39), which fails on values outside the `i32` range, and add up in `i32`, which overflows. Day 7 sums sizes in `u32` (07/src/main.rs:16-21, 34). The model reads any decimal integer and sums without bound.
- Treetop.Rectangular: the model requires a rectangular grid of trees; a ragged grid, which the source indexes past the end of a short row, is excluded.
- HillClimbing.WellFormed: `Answers` returns `None` on a ragged map, where the source's neighbour bounds, taken from the first row, would index past a short row.
- RobotSearch.Usable: stands for `blueprint.max(..).unwrap()` at 19/src/main.rs:249; a blueprint without costs would panic there.
- Robots.Blueprint: holds exactly four costs, one per robot, which stands for `costs.get(..).unwrap()` at 19/src/main.rs:129 never failing.
- Day 25: `isize::from(Snafu::from(n))` reads encoded digits, which are stored most significant first, as if they were least significant first. `main` never takes that path, since it prints the encoding, so only the print-and-parse round trip is stated.
- Day 6: the message-marker test (06/src/main.rs:102-107) is not restated as a lemma; the packet-marker tests are.
- Day 5: the parsing of the crate drawing and the move lines in `main` (05/src/main.rs:8-39) is left out. The model starts from the stacks and the moves.
- Day 7: the directory's `HashMap`s iterate in an unspecified order. The model keeps entries in order of first appearance; the answers are a sum and a minimum, which do not depend on the order.
- Day 11: the capped rounds of part one, which divide worry by three in `f32` (11/src/main.rs:83-85), are left out; the model follows the uncapped rounds. The closure-building `process_line` (11/src/main.rs:40-78) is left out too, and operations arrive as data.
- Day 12: `Search` and `ShortestPath` carry a `fuel` bound. The source loops for ever when `E` cannot be reached; the model answers `None` when the fuel runs out.
- Day 13: the sort and the decoder key in `main` (13/src/main.rs:80-89) are left out; the sort orders with the hand-written comparison, which is modelled.
- Day 14: `PourToFloor` and `PourUntilFilled` carry a `fuel` bound on the number of grains. The source loops until its stopping condition holds; the model answers `None` when the fuel runs out first.
- Day 15: `find_hidden_beacon` (15/src/main.rs:131-142) and `parse_input` (15/src/main.rs:63-77) are left out, and `isize` overflow is not modelled.
- Day 16: `parse_input`, `remove_node`, `reduce_graph` and `shortest_distances` (16/src/main.rs:42-95) use petgraph and Dijkstra, which are not part of this model. The distance table between the valves with flow is a parameter.
- Day 17: the cycle extrapolation in `main` (17/src/main.rs:48-69), `parse_input` (17/src/main.rs:73-81) and the rendering (17/src/main.rs:165-170, 316-348) are left out. The tests after an obstacle (17/src/main.rs:445-510) are not restated as lemmas. The chamber's `Good` invariant stands in for `usize` indexing that would panic.
- Cubes.ExternalSurface: carries no contract of its own. Its bound is the one on `ExternalFaces`, and it is not compared with an independent count. Day 18 `parse_input` (18/src/main.rs:39-49) is left out.
- Day 19: `parse_input` and `parse_cost` (19/src/main.rs:165-195) and the quality sum and product in `main` are left out. The `HashMap` of materials is iterated in declaration order.
- Day 20: `isize` overflow is not modelled and `parse_input` (20/src/main.rs:115-120) is left out. `mix` (20/src/main.rs:67-69) is `MixTimes(1)`. Mixer.Index requires a list of at least two numbers, because the source divides by zero otherwise. The source's panics become `None`.
- Day 22: the cube's side length in `f64`, the face discovery `faces`, `face` and `face_map` (22/src/main.rs:383-443), and the cubic board's `increment` and `next` (22/src/main.rs:453-505) are left out. So are `Board::from`, `start`, `visit`, `Display` and the cube tests (22/src/main.rs:630-723). MonkeyMap.Next requires its position to be in range.
- Day 23: elf `Uuid`s are abstract ids, and the `HashMap` iteration order is the `entries` parameter. The round loop in `main`, `Grove::from` (23/src/main.rs:141-153) with its `elves_from_string` test (23/src/main.rs:240-251), and `Display` (23/src/main.rs:155-171) are left out.
- Day 21 is not part of this model.

## Findings

| source | as written | input that shows it | evidently intended | confidence | as-written member | corrected member |
|---|---|---|---|---|---|---|
| 25/src/main.rs:88-95 | `next_power` keeps going while `data / ((5^e - 1) / 2) != 0`, so it stops only when the magnitude is strictly below `(5^e - 1) / 2` | the sum 2 gets exponent 2 and prints as "02"; likewise 12 and 62 each get one exponent too many (3 and 4) and print as "022" and "0222" | stop at the least `e` with magnitude at most `(5^e - 1) / 2`, giving no leading zero | not executed | Snafu.LeadingZeroForTwo | Snafu.TightRoundTrip |
| 15/src/main.rs:100-107 | the brute-force loops run `for y in 0..=height` and `0..=width`, one past the box | sensors at (0,0) with beacon (0,1) and at (1,1) with beacon (1,0) cover the 2 by 2 box at (0,0), yet the search returns (2,0), outside the box | `0..height` and `0..width`, so only squares of the box are tried; with that fix the caller `find_hidden_beacon` must also pass `range.end() - y + 1` and `range.end() - x + 1` (15/src/main.rs:135) so the last box still reaches the range's last row and column, and that caller is left out of the model | not executed | Beacons.FindInBoxOvershoots | Beacons.FindInBoxCorrected |
