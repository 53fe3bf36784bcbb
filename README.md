# Advent of Code 2022 in C#, modelled in Dafny

This project models the puzzle logic of the C# solutions to Advent of Code 2022 by
nlessmann (`advent-of-csharp-2022`). It covers 23 independent day programs:
days 1 to 15, 17 to 23 and 25. Every `DayNN/Program.cs` reads a puzzle input, computes
two answers and prints them. The model keeps the computation and drops the file and
console I/O.

There is one Dafny module per day (`dayNN.dfy`), plus `common.dfy`. The common module
holds the text helpers the days share: the `int.Parse` grammar, `Trim`, `Split`, sums,
a descending sort, and C#'s truncating `/` and `%`.

The code follows the source's shape:

- Classes whose fields the source updates in place are Dafny classes with framed
  methods. Examples are the Day17 chamber, the Day14 cave, the Day18 voxel grid, the
  Day20 linked items, the Day22 map and the Day11 monkeys.
- Loops are methods with loop invariants, proved against a specification function.
- Expression-only code is functions and lemmas.

Inputs that the source reads from files arrive as parameters: lines of text,
or the integers and tokens that a regular expression would have extracted.

## Model

| member | source | states |
|---|---|---|
| Common.TruncDiv | Day21/Program.cs:65 | C#'s `/` on integers, truncating toward zero: it agrees with Euclidean division for a non-negative dividend and a positive divisor |
| Common.TruncRem | Day11/Program.cs:37 | C#'s `%`: dividend = quotient·divisor + remainder, and the remainder has the dividend's sign and is smaller in size than the divisor |
| Common.Trim | Day20/Program.cs:26 | `string.Trim`: the result is the input with exactly the leading and trailing white space removed, and it neither starts nor ends with white space |
| Common.SortDescending | Day01/Program.cs:30 | `OrderBy(c => -c)`: the result is descending and a permutation of the input |
| Common.SumPermutation | Day01/Program.cs:40 | `Sum` does not depend on the order: a permutation of a sequence has the same sum |
| Common.Split | Day04/Program.cs:16 | `string.Split(char)`: at least one part; no part holds the separator; joining the parts with the separator gives back the input |
| Common.SplitJoin | Day04/Program.cs:43 | splitting the join of separator-free parts gives back the parts |
| Common.ParseSigned | Day01/Program.cs:24 | `int.Parse` grammar: succeeds iff the text is digits with an optional leading sign; the value is the decimal value, unchanged after '+' and negated after '-' |
| Common.ParseInts | Day18/Program.cs:40 | `Select(int.Parse)`: on success, one value per part, each the parse of its part |
| Common.ParseIntsAll | Day18/Program.cs:40 | the converse: when every part parses, `ParseInts` yields exactly those values |
| Common.IntToString | Day14/Program.cs:7 | decimal text of an integer, which `int.Parse` reads back as the same integer |
| Day01.CaloriesPerElf | Day01/Program.cs:13-27 | the accumulation loop: it fails iff some non-blank line is not an integer. On success there is one total per blank line plus one; the totals add up to the sum of all numbers; the last total is the sum of the numbers after the last blank line; and total `k` is the sum of the numbers of the `k`-th group of `Groups(lines)` |
| Day01.Scan | Day01/Program.cs:15-26 | the line loop stops with an error only when some line is neither blank nor an integer; otherwise every closed group has its total and the running total is that of the open group |
| Day01.Groups | Day01/Program.cs:15-27 | splitting the lines at the blank lines gives one group per blank line plus one, the last being the lines after the last blank line |
| Day01.NumbersErrorPersists | Day01/Program.cs:24 | one malformed line makes the whole input fail (`int.Parse` throws) |
| Day01.ComputeSolution1 | Day01/Program.cs:30-36 | fails iff there are no totals (`First` throws); otherwise the result is one of the totals and no total is larger |
| Day01.ComputeSolution2 | Day01/Program.cs:38-41 | with at least three totals, the result is a + b + c for a top three: a ≥ b ≥ c are among the totals and every other total is at most c; with fewer, `Take(3)` keeps them all and the result is the sum of all totals |
| Day01.SortedTop | Day01/Program.cs:40 | the first three of the sorted totals are a top three and sum to a + b + c; with fewer than three totals the prefix is all of them, with the same sum |
| Day01.DescendingTopThree | Day01/Program.cs:30-40 | the first three entries of a descending list are its top three |
| Day02.ShapeFor | Day02/Program.cs:17-105 | the shape that the alternative reading plays reaches exactly the wanted outcome against the opponent's shape |
| Day02.ShapeForUnique | Day02/Program.cs:17-105 | it is the only such shape: the shape chosen for the outcome that s reaches is s itself |
| Day02.Score | Day02/Program.cs:17-105 | `Score`: the shape value of the response plus the value of the outcome against the opponent's A/B/C shape; an unknown opponent letter adds nothing (the switch has no default); always between 1 and 9 |
| Day02.AlternativeScore | Day02/Program.cs:17-105 | `AlternativeScore`: the outcome value plus the value of the shape that reaches that outcome; an unknown opponent letter adds nothing; always between 0 and 9 |
| Day02.MirrorIsDraw | Day02/Program.cs:62-64 | answering a shape with the same shape is a draw: shape score + 3 |
| Day02.ScoresInRange | Day02/Program.cs:17-105 | against a known opponent the alternative score is between 1 and 9 |
| Day02.ParseRounds | Day02/Program.cs:116-132 | fails iff some line is shorter than three characters (index error at `line[2]`); otherwise there is one round per line whose third character is X, Y or Z, and the rounds equal `RoundsOf(lines)`: each line read on its own, first line first, so round `k` holds the response and opponent letter of the `k`-th such line |
| Day02.RoundsOfAppend | Day02/Program.cs:117-131 | reading one more line appends that line's round, if it names one, after the rounds read so far |
| Day02.ComputeSolution1 | Day02/Program.cs:135-138 | the total score is between 1 and 9 per round |
| Day02.ComputeSolution2 | Day02/Program.cs:140-143 | the total alternative score is between 0 and 9 per round |
| Day02.TotalsAppend | Day02/Program.cs:135-143 | both totals add up over concatenated rounds |
| Day03.Priority | Day03/Program.cs:19-23 | lower-case letters get priorities 1 to 26 and upper-case letters 27 to 52, in alphabetical order |
| Day03.PriorityInjective | Day03/Program.cs:19-23 | different letters have different priorities |
| Day03.Priorities | Day03/Program.cs:19-23 | one priority per character, in order |
| Day03.MakeRucksack | Day03/Program.cs:12-17 | the left compartment holds the first ⌊length/2⌋ items and the right the rest; together they are the priorities of the whole content |
| Day03.IntersectSpec | Day03/Program.cs:27 | LINQ `Intersect`: a value is in the result iff it is in both inputs, and the result follows the order of first occurrence in the first input |
| Day03.IntersectKeepsOrder | Day03/Program.cs:33 | intersecting keeps any order by first occurrence that the first input already had |
| Day03.First | Day03/Program.cs:27 | `First`: fails iff the sequence is empty, otherwise yields its head |
| Day03.DuplicateItemIsFirstShared | Day03/Program.cs:25-28 | the duplicate exists iff the compartments share a priority, and it is the first left-compartment priority that also occurs on the right |
| Day03.CommonPrioritiesSpec | Day03/Program.cs:32-33 | the `Aggregate` of intersections holds exactly the priorities found in this rucksack and in every other, ordered by first occurrence in this one |
| Day03.CommonItemIsFirstShared | Day03/Program.cs:30-35 | the common item exists iff some priority of this rucksack occurs in every other rucksack, and it is the first such priority |
| Day03.ComputeSolution1 | Day03/Program.cs:48-51 | succeeds iff every rucksack has a duplicate item |
| Day03.GroupsOfThree | Day03/Program.cs:56-58 | part 2 succeeds only when the rucksacks come in whole groups of three (`GetRange` throws otherwise) |
| Day03.ComputeSolution2 | Day03/Program.cs:53-62 | the loop yields the group total: the sum of each group's common priority, or the first error |
| Day04.SectionRange.FullyContains | Day04/Program.cs:21-24 | for a non-empty other range: true iff every section of the other range is also in this one |
| Day04.SectionRange.Intersect | Day04/Program.cs:26-33 | a returned range holds exactly the sections both ranges hold; for non-empty ranges the result is null iff they share no section, and a returned range is non-empty |
| Day04.FullyContainsReflexive | Day04/Program.cs:21-24 | every non-empty range fully contains itself |
| Day04.FullyContainsTransitive | Day04/Program.cs:21-24 | containment is transitive |
| Day04.ContainsImpliesOverlap | Day04/Program.cs:21-33 | a range that fully contains a non-empty range intersects it |
| Day04.ParseRange | Day04/Program.cs:14-19 | on success the text splits at '-' into at least two parts, and the first two parse to the first and last section |
| Day04.ParseRangeFormat | Day04/Program.cs:14-19 | the text "a-b" of two natural numbers parses to the range a..b |
| Day04.ParsePair | Day04/Program.cs:41-46 | on success the line splits at ',' into at least two parts, and the first two parse to the left and right ranges |
| Day04.ComputeSolution1 | Day04/Program.cs:59-62 | the number of pairs in which one range fully contains the other |
| Day04.ComputeSolution2 | Day04/Program.cs:64-67 | the number of pairs whose ranges intersect |
| Day04.Part1AtMostPart2 | Day04/Program.cs:59-67 | with non-empty ranges, part 1 never counts more pairs than part 2 |
| Day05.DigitRunLength | Day05/Program.cs:16 | the length of the leading run of digits: a digit string, followed by the end or a non-digit |
| Day05.ParseMove | Day05/Program.cs:13-20 | fails iff the line holds fewer than three numbers; otherwise the items count is the first number and origin and destination are the second and third, made zero-based |
| Day05.DigitSuffixStart | Day05/Program.cs:38 | where the trailing run of digits starts: everything after it is digits and the character before it is not |
| Day05.StackCountReads | Day05/Program.cs:38-40 | a row ending in white space, a run of digits and trailing white space gives that run's value as the stack count |
| Day05.ParseStacks | Day05/Program.cs:41-55 | the bottom-up loop over the diagram: stack k holds, bottom first, the characters at column 1 + 4k of the rows that are long enough and not blank there |
| Day05.FirstPlainRow | Day05/Program.cs:30-35 | the first row without '[': every row before it holds '['; none when every row does (the source then runs off the input) |
| Day05.ParseMoves | Day05/Program.cs:60 | on success one move per line, each the parse of its line |
| Day05.ParsePuzzle | Day05/Program.cs:26-61 | on success: a plain row exists and its last number is the stack count; every stack is the column read from the rows above it; the moves are the parse of the lines after the blank line |
| Day05.Moved | Day05/Program.cs:79 | the loop moves no more crates than the move names and no more than the origin holds |
| Day05.ApplyMove | Day05/Program.cs:74-83 | fails iff the origin or destination is not a stack index |
| Day05.ApplyMoves | Day05/Program.cs:74-83 | the number of stacks never changes |
| Day05.CranesAgreeOnOneCrate | Day05/Program.cs:79-111 | moving at most one crate is the same for both cranes |
| Day05.TransferKeepsCount | Day05/Program.cs:79-111 | a move keeps the total number of crates |
| Day05.ApplyMovesKeepsCount | Day05/Program.cs:74-112 | a whole rearrangement keeps the total number of crates |
| Day05.Tops | Day05/Program.cs:86 | succeeds iff every stack is non-empty (`Peek` throws otherwise); the result holds the top crate of each stack, in order |
| Day05.CloneStacks | Day05/Program.cs:63-66 | a fresh array holding the same stacks |
| Day05.MoveOneAtATime | Day05/Program.cs:76-82 | the crane of part 1: the new stacks are the one-at-a-time transfer of the move, so the block lands reversed |
| Day05.TransferStepOne | Day05/Program.cs:79-82 | moving n crates one at a time is moving n − 1 and then one more from the top |
| Day05.MoveBlock | Day05/Program.cs:97-111 | the crane of part 2: the new stacks are the block transfer of the move, keeping the block's order |
| Day05.PopCrates | Day05/Program.cs:102-105 | pops the moved crates: the origin loses its top n crates and the temporary stack holds them top first |
| Day05.PushCrates | Day05/Program.cs:108-111 | enumerating the temporary stack pushes its contents back in their original order |
| Day05.ReverseReverse | Day05/Program.cs:102-111 | reversing twice restores a sequence |
| Day05.Rearrange | Day05/Program.cs:71-86 | the loop over the moves yields the tops of the rearranged stacks, or fails when some move or some `Peek` fails |
| Day05.ApplyMovesErrorPersists | Day05/Program.cs:74-83 | a failing move makes the whole rearrangement fail |
| Day05.ComputeSolution1 | Day05/Program.cs:68-87 | the tops after all moves by the one-at-a-time crane, or an error exactly where a move or `Peek` fails |
| Day05.ComputeSolution2 | Day05/Program.cs:89-116 | the tops after all moves by the block crane, or an error exactly where a move or `Peek` fails |
| Day06.DistinctCount | Day06/Program.cs:21 | `Distinct().Count()` is never more than the window's length |
| Day06.DistinctCountFull | Day06/Program.cs:21 | the distinct count equals the window's length iff all its characters differ |
| Day06.FindDistinctCharacterBlock | Day06/Program.cs:12-31 | the sliding-window loop returns -1 iff no block of `size` distinct characters ends anywhere in the signal; otherwise it returns the end position of the first such block |
| Day06.ComputeSolution1 | Day06/Program.cs:44-47 | the end of the first block of 4 distinct characters in the trimmed signal, no such block ending earlier; -1 exactly when no block of 4 distinct characters exists |
| Day06.ComputeSolution2 | Day06/Program.cs:49-52 | the end of the first block of 14 distinct characters in the trimmed signal, no such block ending earlier; -1 exactly when no block of 14 distinct characters exists |
| Day07.ClassifySkipped | Day07/Program.cs:19-20 | "$ ls" and "dir …" lines are skipped |
| Day07.ClassifyDown | Day07/Program.cs:24-27 | "$ cd a" opens a new subdirectory |
| Day07.ClassifyUp | Day07/Program.cs:17-22 | "$ cd .." closes the directory, after trimming |
| Day07.Commands | Day07/Program.cs:17 | one classified command per line, in order |
| Day07.ParseBody | Day07/Program.cs:15-33 | the recursive reading of a directory consumes lines forward and never past the end |
| Day07.ReadDirectory | Day07/Program.cs:10-36 | the dequeue loop of the constructor yields the directory and the number of lines it consumed, as the recursive reading defines them |
| Day07.ReadRoot | Day07/Program.cs:68-72 | the root is the directory read from the whole transcript |
| Day07.RootWrapsFirstDirectory | Day07/Program.cs:24-27 | a transcript starting with "$ cd /" yields an extra root holding no files and just that one directory |
| Day07.SkippedLines | Day07/Program.cs:19-20 | skipped lines do not change what is read |
| Day07.SizeBounds | Day07/Program.cs:38 | with non-negative file sizes, a directory's size is non-negative and at least each child's size |
| Day07.DirectorySizesPreorder | Day07/Program.cs:40-50 | `DirectorySizes` lists the size of every directory in pre-order, starting with the directory itself |
| Day07.SumAtMostBounds | Day07/Program.cs:52-55 | the filtered sum is between 0 and the full sum; it is the full sum when every size is at most the limit, and 0 when none is |
| Day07.SmallestAtLeast | Day07/Program.cs:60 | `Where(size >= needed).Min()`: present iff some size is at least `needed`, and then the smallest such size |
| Day07.FreeUpSpace | Day07/Program.cs:57-61 | succeeds iff some directory is big enough to free the required space; the result is the size of the smallest such directory |
| Day07.FreeUpSpaceExists | Day07/Program.cs:57-61 | when the required space is at most the capacity, the root itself is big enough, so the answer exists and is at most the root's size |
| Day07.ComputeSolution1 | Day07/Program.cs:74-77 | fails iff the transcript does not parse; otherwise the sum of the directory sizes of at most 100000 |
| Day07.ComputeSolution2 | Day07/Program.cs:79-82 | fails iff the transcript does not parse; otherwise `FreeUpSpace(30000000)` of the root |
| Day08.EdgeVisible | Day08/Program.cs:46-90 | every tree on the edge of the grid is visible |
| Day08.Index | Day08/Program.cs:41 | the corrected flag index y·width + x: cell (x, y) gets a flag inside row y's block of the array |
| Day08.IndexOrder | Day08/Program.cs:41 | cells of earlier rows get smaller flag indices, so distinct cells never share a flag |
| Day08.NumVisible | Day08/Program.cs:93 | the number of visible trees is at most the number of cells |
| Day08.MarkCell | Day08/Program.cs:51 | setting a flag sets exactly the flag of that cell and no other |
| Day08.SweepLeft | Day08/Program.cs:45-54 | after the left-to-right sweep over row y, a flag is set iff it was set before or its tree is in row y and every tree left of it is lower |
| Day08.SweepRight | Day08/Program.cs:56-65 | the same for the right-to-left sweep: set iff set before or every tree right of it in row y is lower |
| Day08.SweepDown | Day08/Program.cs:70-79 | the same for the top-to-bottom sweep over column x |
| Day08.SweepUp | Day08/Program.cs:81-90 | the same for the bottom-to-top sweep over column x |
| Day08.ComputeSolution1 | Day08/Program.cs:39-94 | with the corrected index, the count of set flags is the number of trees visible from some edge |
| Day08.FlagsMatch | Day08/Program.cs:93 | a flag array holding each cell's visibility at its index is the row-major visibility list |
| Day08.TwoByThreeVisible | Day08/Program.cs:46-90 | all six trees of a 2-row, 3-column grid are visible |
| Day08.AsWrittenMiscounts | Day08/Program.cs:51 | with the index as written, y·height + x, the 2-row, 3-column grid of zeros sets only five flags although six trees are visible |
| Day08.AsWrittenOutOfRange | Day08/Program.cs:51 | with the index as written, on three rows of two zeros the visible tree (1, 2) gets a flag index of at least width·height, past the end of the flags |
| Day08.ViewPassesLower | Day08/Program.cs:107-112 | every tree the view passes before the last one counted is lower than the viewer |
| Day08.ViewStops | Day08/Program.cs:104-112 | the viewing distance is 0 iff the neighbour in that direction is off the grid; otherwise it stops at the first tree at least as tall or at the edge |
| Day08.Distances | Day08/Program.cs:98-115 | one viewing distance per direction: up, down, left, right |
| Day08.EdgeScoreZero | Day08/Program.cs:117 | a tree on the edge has scenic score 0 |
| Day08.Look | Day08/Program.cs:104-114 | the stepping loop yields the viewing distance in that direction |
| Day08.ScenicScore | Day08/Program.cs:96-118 | the product of the four viewing distances |
| Day08.ComputeSolution2 | Day08/Program.cs:120-137 | no tree scores more than the result; on a non-empty grid some tree scores exactly the result; on an empty grid the result is 0 |
| Day08.Load | Day08/Program.cs:23-37 | succeeds iff every line is as long as the first and consists of digits; the grid has the first line's width, one row per line, and each cell holds its digit's value |
| Day09.Knot.StepToward | Day09/Program.cs:12-15 | one king step toward the other knot: each coordinate moves by the sign of the difference |
| Day09.FarIffNotTouching | Day09/Program.cs:66-70 | for integer coordinates, the distance exceeds 1.5 exactly when the knots do not touch (some coordinate differs by two or more) |
| Day09.FollowTouches | Day09/Program.cs:70-73 | a tail within two of its head ends up touching it after following, and stays touching its old place |
| Day09.PullFrom | Day09/Program.cs:63-74 | pulling the knots from i on keeps the rope's length and leaves the knots before i in place |
| Day09.StepRope | Day09/Program.cs:61-74 | one move: the head moves by the vector and the rope keeps its length |
| Day09.StepRopeTouching | Day09/Program.cs:61-74 | after a king step of the head, all neighbouring knots still touch |
| Day09.RopeAfter | Day09/Program.cs:59-77 | a series of moves keeps the rope's length |
| Day09.MoveVector | Day09/Program.cs:26-32 | U, D, L and R map to unit steps along one axis |
| Day09.ParseLine | Day09/Program.cs:45-54 | succeeds iff the line has at least two characters, the text from index 2 parses as an integer n, and the letter is U, D, L or R unless n <= 0 (the lookup then never runs); the result is n steps (none for n <= 0), each the step of the direction letter |
| Day09.ParseLineText | Day09/Program.cs:47-53 | "X n" for X one of U, D, L, R and a natural n yields n unit steps in X's direction |
| Day09.ParseInstructions | Day09/Program.cs:43-55 | every parsed step is a king step |
| Day09.Origin | Day09/Program.cs:36-39 | `count` knots at the origin, all touching |
| Day09.Rope.constructor | Day09/Program.cs:34-41 | all knots start at the origin, which is the first tail position recorded |
| Day09.Rope.Move | Day09/Program.cs:57-78 | the knots end where the moves take them; every tail position they pass is added to the recorded set; the knots keep touching |
| Day09.Rope.StepHead | Day09/Program.cs:61-74 | the loop over the knots performs one step of the rope |
| Day09.Rope.TailPositions | Day09/Program.cs:80 | at least one tail position is recorded |
| Day09.ComputeSolution | Day09/Program.cs:92-97 | fails iff the instructions do not parse; otherwise the number of distinct tail positions along the whole trail, counting the origin, which is at least 1 |
| Day10.CommandOps | Day10/Program.cs:16-24 | every command gives a 0 offset for its first cycle, and "addx " commands give one more offset |
| Day10.OperationsCount | Day10/Program.cs:14-25 | there is one offset per command plus one per addx command |
| Day10.ParseOperations | Day10/Program.cs:11-28 | the constructor's loop yields the offsets as `Operations` defines them, or the first parse error |
| Day10.OperationsErrorPersists | Day10/Program.cs:22 | a command that does not parse makes the whole program fail with its error |
| Day10.Pixel | Day10/Program.cs:36-44 | a pixel is lit iff the sprite, centred on the register, covers the cycle's column (cycle mod 40); otherwise it is dark |
| Day10.Pixels | Day10/Program.cs:33-55 | one pixel per operation |
| Day10.RegisterStep | Day10/Program.cs:54 | after an operation the register has grown by its offset |
| Day10.RunStep | Day10/Program.cs:33-55 | one more operation draws one more pixel with the register as it stood, and adds cycle·register to the sum when the new cycle number is of interest |
| Day10.Processor.constructor | Day10/Program.cs:5-28 | the register starts at 1, the cycle count at 0 and the screen empty |
| Day10.Processor.Run | Day10/Program.cs:30-58 | the cycle count grows by the number of operations; the register by their sum; the screen gains their pixels; the result is the sum of the signal strengths at the cycles of interest |
| Day10.ComputeSolution1 | Day10/Program.cs:79-82 | fails iff a command does not parse; otherwise the signal strength summed over cycles 20, 60, 100, 140, 180 and 220 of a fresh processor |
| Day11.ToInt32 | Day11/Program.cs:54 | the cast to `int` keeps the value in the 32-bit range, agrees with the value modulo 2^32, and leaves in-range values alone |
| Day11.InspectScaled | Day11/Program.cs:50-55 | with a scaling factor the new worry level is the operation's result modulo that factor, which lies in [0, factor) |
| Day11.InspectUnscaled | Day11/Program.cs:50-55 | without a scaling factor the new worry level is the operation's result divided by three |
| Day11.ProductPositive | Day11/Program.cs:91 | the product of positive divisors is positive |
| Day11.ProductMultiple | Day11/Program.cs:91 | the product of the divisors is a multiple of each of them |
| Day11.ReductionKeepsDivisibility | Day11/Program.cs:53 | reducing modulo a multiple of a divisor does not change whether the value is divisible by it |
| Day11.InspectedMeaning | Day11/Program.cs:32-47 | every item is inspected once, in queue order: item `i` of the result is item `i` of the queue inspected |
| Day11.ThrownSplit | Day11/Program.cs:37-44 | the items thrown to the two recipients together are exactly the inspected items |
| Day11.ThrownTest | Day11/Program.cs:37-44 | every item thrown to the true recipient is divisible by the test divisor, every item thrown to the false recipient is not |
| Day11.IndexOf | Day11/Program.cs:73 | the first position where the separator occurs, or none when it does not occur |
| Day11.SplitOn | Day11/Program.cs:70 | splitting yields at least one part |
| Day11.SplitOnAbsent | Day11/Program.cs:70 | a string that does not hold the separator splits into itself |
| Day11.ParseOperation | Day11/Program.cs:73-87 | an operation that does not parse is a format error |
| Day11.ParseSquareText | Day11/Program.cs:74-76 | "old * old" squares |
| Day11.ParseAddText | Day11/Program.cs:78-81 | "old + n" adds n |
| Day11.ParseMultiplyText | Day11/Program.cs:83-86 | "old * n" multiplies by n |
| Day11.OldIsNotNumber | Day11/Program.cs:85 | "old" is not a number, so "old * old" can only be the square case |
| Day11.NumberSplit | Day11/Program.cs:80 | the last part after the " + " or " * " separator is the operand |
| Day11.Blocks | Day11/Program.cs:68 | the loop visits one block per seven lines, rounding up |
| Day11.ParseHeader | Day11/Program.cs:68-88 | a block's divisor and operation are read from its lines 2 and 3, and the parse succeeds exactly when they are well formed; otherwise an index or format error |
| Day11.ParseHeaders | Day11/Program.cs:66-88 | the first pass reads one header per block, or fails with the first block's error |
| Day11.Recipient | Day11/Program.cs:118-122 | a recipient is an index of an existing monkey |
| Day11.HoldingMeaning | Day11/Program.cs:105-114 | the second pass parses a block's items and recipients exactly when they are well formed |
| Day11.ParseHolding | Day11/Program.cs:105-114 | both recipients name existing monkeys |
| Day11.AllOk | Day11/Program.cs:94-115 | collects all results in order, or the first error |
| Day11.ParseHoldings | Day11/Program.cs:94-115 | the second pass reads one holding per monkey, or fails with the first monkey's error |
| Day11.ParseNotes | Day11/Program.cs:62-116 | a parsed note has as many holdings as monkeys, and every recipient is an existing monkey |
| Day11.Divisors | Day11/Program.cs:67-71 | the divisors are collected in monkey order |
| Day11.MonkeyBusinessBound | Day11/Program.cs:134-138 | the product of the two largest inspection counts is at least that of any two monkeys |
| Day11.MonkeyBusinessAttained | Day11/Program.cs:134-138 | with two or more monkeys the result is the product of two distinct monkeys' counts |
| Day11.DeliveredStep | Day11/Program.cs:32-47 | one more item in the queue adds its inspected value to the recipient it is thrown to |
| Day11.Monkey.constructor | Day11/Program.cs:16-20 | a new monkey holds its divisor and operation, no items, no recipients, no inspections and no scaling factor |
| Day11.Monkey.AddItem | Day11/Program.cs:22-25 | the item is appended to the queue and nothing else changes |
| Day11.Monkey.InspectItems | Day11/Program.cs:27-48 | without recipients it fails and changes nothing; otherwise the queue is emptied, the count grows by its length and each recipient receives the inspected items that pass or fail the test, in order (a zero divisor fails on the first item) |
| Day11.InspectionsMeaning | Day11/Program.cs:135 | one inspection count per monkey, in order: count `i` is monkey `i`'s count |
| Day11.TurnModel | Day11/Program.cs:27-48 | a turn, on values: it fails exactly when the monkey holds items and its divisor is zero; otherwise the result has one queue and one count per monkey and keeps every monkey aimed at two others |
| Day11.TurnOutcome | Day11/Program.cs:27-48 | a troop whose thrower is empty and counted, whose recipients received the inspected items on the side the test picks (all of them when both sides are one monkey) and whose other monkeys are untouched is the outcome of `TurnModel`, with as many items in play |
| Day11.ThrowKeepsItems | Day11/Program.cs:32-47 | throwing a whole queue neither loses nor makes an item |
| Day11.ItemCountUpdate | Day11/Program.cs:32-47 | replacing one queue changes the number of items by the difference in its length |
| Day11.TurnsUpTo | Day11/Program.cs:128-131 | the turns of the first monkeys, in order, stopping at the first failure; a success keeps the troop's shape |
| Day11.RoundModel | Day11/Program.cs:128-131 | a round is the turns of all monkeys; a success keeps the troop's shape |
| Day11.Rounds | Day11/Program.cs:126-132 | the given number of rounds, stopping at the first failure; a success keeps the troop's shape |
| Day11.TurnsStayFailed | Day11/Program.cs:128-131 | once a turn has failed, the round has failed |
| Day11.RoundsStayFailed | Day11/Program.cs:126-132 | once a round has failed, every longer run of rounds has failed |
| Day11.TurnsKeepItems | Day11/Program.cs:128-131 | turns that succeed keep the number of items in play |
| Day11.RoundsKeepItems | Day11/Program.cs:126-132 | rounds that succeed keep the number of items in play |
| Day11.MonkeyBusinessBounds | Day11/Program.cs:134-138 | the monkey business is at least the product of the counts of any two different monkeys |
| Day11.RulesFor | Day11/Program.cs:62-116 | with recipients that exist and are not the thrower, every monkey of the notes is aimed at two others |
| Day11.TroopFollows | Day11/Program.cs:62-116 | monkeys made with the divisors, operations, scaling factor and recipients of the notes follow the rules the notes describe |
| Day11.Puzzle.constructor | Day11/Program.cs:58-60 | the puzzle holds the given monkeys and their rules |
| Day11.Puzzle.Round | Day11/Program.cs:128-131 | a round fails (with a divide error) exactly when `RoundModel` fails on the troop's values; otherwise the new queues and counts are the ones `RoundModel` gives and the number of items is kept |
| Day11.Puzzle.Turn | Day11/Program.cs:130 | the turn of monkey `k` fails exactly when `TurnModel` fails on the troop's values; otherwise the new queues and counts are the ones `TurnModel` gives, the monkey's queue is empty and the number of items is kept |
| Day11.Puzzle.PlayRounds | Day11/Program.cs:126-132 | the loop of rounds fails exactly when `Rounds` fails; otherwise the troop is the one `Rounds` gives and the number of items is kept |
| Day11.Puzzle.PlayRound | Day11/Program.cs:128-131 | one pass over the monkeys moves the troop from the state after `n` rounds to the state after `n + 1`, or fails exactly when round `n + 1` of `Rounds` fails, keeping the number of items |
| Day11.Puzzle.ComputeSolution | Day11/Program.cs:124-139 | fails exactly when `Rounds` fails for the given number of rounds (none when it is negative); otherwise the troop is the one `Rounds` gives and the result is the monkey business of its counts: at least the product of any two monkeys' counts and, with two or more monkeys, equal to one such product |
| Day11.NewPuzzle | Day11/Program.cs:62-116 | fails iff the notes do not parse, with their error; otherwise a fresh, well-wired puzzle built from the parsed notes |
| Day11.Puzzle.Score | Day11/Program.cs:134-138 | the product of the two largest inspection counts: no two different monkeys' counts multiply to more, and with two monkeys or more some pair attains it |
| Day11.Build | Day11/Program.cs:62-116 | builds the monkeys, the scaling factor and the wiring from parsed notes |
| Day11.CreateMonkeys | Day11/Program.cs:66-88 | one fresh, distinct monkey per header, with its divisor and operation |
| Day11.Connect | Day11/Program.cs:94-115 | each monkey gets its scaling factor when scaling, its initial items and its two recipients |
| Day11.ConnectedBuilt | Day11/Program.cs:94-115 | monkeys created from the headers and connected from the holdings hold the starting items and the scaling factor the notes give, with nothing inspected yet |
| Day12.DecodeLetter | Day12/Program.cs:29 | a lower-case letter's height is its place in the alphabet, 1 to 26 |
| Day12.Clamp | Day12/Program.cs:102-105 | the height used for moves lies in [1, 26], equals an in-range height and saturates outside it |
| Day12.MarkerHeights | Day12/Program.cs:27-28 | the start marker moves like 'a' and the end marker like 'z' |
| Day12.MinIndex | Day12/Program.cs:49 | the priority queue hands out an entry of least step count |
| Day12.PositionsRemove | Day12/Program.cs:49 | taking an entry off the queue removes just its position from the queued positions |
| Day12.MinValue | Day12/Program.cs:89 | the minimum is one of the values and at most every value |
| Day12.Map.constructor | Day12/Program.cs:13-33 | the grid has the input's dimensions and every cell holds its decoded height |
| Day12.Map.FirstFrom | Day12/Program.cs:92-100 | a point found has the requested height |
| Day12.Map.FirstFromMeaning | Day12/Program.cs:94-97 | the scan, column by column, finds the first cell of that height, or none when there is none |
| Day12.Map.FirstMeaning | Day12/Program.cs:92-100 | the point found has the height and no earlier cell in column-major order has it; there is none iff no cell has it |
| Day12.Map.FindPoint | Day12/Program.cs:92-100 | the nested loop returns the first matching cell in column-major order |
| Day12.Map.ExpandNeighbors | Day12/Program.cs:65-86 | the queue gains exactly the unvisited in-grid orthogonal neighbours the height rule lets one step to, each one step further |
| Day12.Map.ExpandColumn | Day12/Program.cs:67-85 | for one dx the inner loop appends the allowed neighbours in that column, keeping the queue's prefix |
| Day12.Map.WalkExtend | Day12/Program.cs:81-84 | a walk followed by an allowed step is a walk |
| Day12.Map.QueuedExtend | Day12/Program.cs:84 | every entry added to the queue is reached from the origin by a walk of its step count |
| Day12.Map.FrontierExpand | Day12/Program.cs:64-86 | after expanding a point every allowed neighbour of a visited point is visited or queued |
| Day12.Map.WalkStaysIn | Day12/Program.cs:49-87 | a set closed under allowed steps that holds the origin holds every point reachable from it |
| Day12.Map.SkipTurn | Day12/Program.cs:58-61 | dequeuing an already visited point keeps the search invariant |
| Day12.Map.VisitTurn | Day12/Program.cs:52-86 | dequeuing and expanding a new point keeps the search invariant |
| Day12.Map.SearchDone | Day12/Program.cs:87 | when the queue is empty, the recorded 'a'-level points are reached with their recorded steps, and every reachable 'a'-level point is recorded |
| Day12.Map.Turn | Day12/Program.cs:49-86 | one dequeue keeps the search invariant (every queued entry and recorded point ends a walk of its steps from the summit, every step out of the visited points lands on a visited or queued point) and either visits a new point or shortens the queue |
| Day12.Map.Search | Day12/Program.cs:38-87 | the search records exactly the reachable height-1 points, each with the length of a walk to it |
| Day12.Map.FindPath | Day12/Program.cs:35-90 | fails with the source's message when there is no destination, no start, an unreachable start (part 1) or no reachable 'a' (part 2); otherwise a number of steps that some walk from the summit realises |
| Day12.NewMap | Day12/Program.cs:13-33 | fails iff the lines are not a non-empty rectangle; otherwise a grid of the decoded heights |
| Day13.WrapOrLookUp | Day13/Program.cs:27-30 | a negative value refers to table entry -value-1; any other value becomes a one-element list |
| Day13.WrapValid | Day13/Program.cs:48 | the recursive comparison only follows references to earlier entries, so it terminates |
| Day13.Content | Day13/Program.cs:25 | the packet's content is a valid entry of its table |
| Day13.CompareTo | Day13/Program.cs:55-71 | the comparison answers -1, 0 or 1 |
| Day13.CompareListsSelf | Day13/Program.cs:32-53 | a list compared with itself is undecided |
| Day13.CompareToSelf | Day13/Program.cs:55-71 | every packet compares equal to itself |
| Day13.CompareListsFlip | Day13/Program.cs:32-53 | swapping the two lists flips the decision |
| Day13.CompareToFlip | Day13/Program.cs:55-71 | the comparison is antisymmetric: swapping the packets negates the result |
| Day13.FlattenListSpec | Day13/Program.cs:12-23 | the table built for a list has only backward references, extends the table it started from, and its last entry decodes back to the list |
| Day13.MakePacketRoundTrip | Day13/Program.cs:12-23 | a packet's table decodes back to the nested list it was built from |
| Day13.Divider | Day13/Program.cs:106-107 | a divider packet is a valid table |
| Day13.DividerTable | Day13/Program.cs:106-107 | the divider table is the table the constructor builds for [[n]] |
| Day13.DividersOrdered | Day13/Program.cs:106-114 | [[2]] is ordered before [[6]] |
| Day13.PairScoreBounds | Day13/Program.cs:90-102 | the score lies between 0 and 1 + 2 + ... + n, and reaches the maximum when every pair is ordered |
| Day13.ComputeSolution1 | Day13/Program.cs:90-102 | fails iff the packet count is odd (the last packet has no partner); otherwise the sum of the 1-based indices of the pairs in the right order |
| Day13.CountBefore | Day13/Program.cs:111-114 | at most every packet comes before a given one |
| Day13.CountBeforeSelf | Day13/Program.cs:114 | a packet is never counted before itself |
| Day13.ComputeSolution2 | Day13/Program.cs:104-115 | the decoder key, a product of two 1-based positions with [[6]] after [[2]], is at least 2 |
| Day13.CountBeforeAppend | Day13/Program.cs:111 | the number of packets before a packet adds up over two concatenated lists |
| Day13.CountBeforeRemove | Day13/Program.cs:111 | taking one packet out of the list takes exactly its own contribution out of the count |
| Day13.CountBeforePermutation | Day13/Program.cs:111 | the number of packets before a packet does not depend on their order, so sorting keeps it |
| Day13.CountBeforeSorted | Day13/Program.cs:111-114 | in a descending order, where no packet compares below a later one, the packets before a packet that no other ties are exactly the ones that compare before it, so its index is its count |
| Day13.KeyFromSortedOrder | Day13/Program.cs:104-115 | for any descending order of the packets and the two dividers, in which no other packet compares equal to a divider, the key is (1 + index of [[2]]) · (1 + index of [[6]]), as `IndexOf` finds them |
| Day14.Segment.Minus | Day14/Program.cs:32-37 | shifting a segment left moves both ends and keeps its direction, length and straightness |
| Day14.PointsOf | Day14/Program.cs:18-30 | a segment has one point per unit of length plus one |
| Day14.PointsOfEnds | Day14/Program.cs:18-30 | a straight segment's points start at A, end at B and advance by the sign vector |
| Day14.PointsOfApart | Day14/Program.cs:23 | no point before the last one equals B, so the loop yields each point once and ends |
| Day14.Points | Day14/Program.cs:18-30 | the loop yields exactly the segment's points, in order |
| Day14.BoxContains | Day14/Program.cs:42-49 | a point is in the box iff both coordinates lie between the corners |
| Day14.MinX | Day14/Program.cs:82-85 | the least x of all wall ends, attained by one of them |
| Day14.MaxX | Day14/Program.cs:86-87 | the greatest x of all wall ends: at least every end's x, and attained by one of them |
| Day14.MaxY | Day14/Program.cs:88 | the greatest y of all wall ends: at least every end's y, and attained by one of them |
| Day14.WallsSpan | Day14/Program.cs:82-89 | the box's lower x is at most its upper x |
| Day14.CellsOfEnds | Day14/Program.cs:112-115 | both ends of a wall become rock |
| Day14.AddWall | Day14/Program.cs:109-116 | filling in a wall adds exactly its cells |
| Day14.AddWalls | Day14/Program.cs:106-116 | filling in all walls, each shifted by the offset, gives exactly the shifted walls' cells |
| Day14.Cave.InsideWithFloor | Day14/Program.cs:125-128 | with a floor, being inside depends on the row alone |
| Day14.Cave.FirstMove | Day14/Program.cs:139-148 | a move goes one row down and at most one column aside, to a cell outside the box or free; there is none iff all three cells are inside and occupied |
| Day14.Cave.Settle | Day14/Program.cs:135-151 | a grain that stops rests inside the cave where it cannot move, within the triangle below its start, on a free cell unless it never moved |
| Day14.Cave.FillFromMove | Day14/Program.cs:150 | a grain that can move continues from its next cell |
| Day14.Cave.FillFromBlocked | Day14/Program.cs:161-164 | a grain stuck on an occupied cell ends the pouring |
| Day14.Cave.FillFromRest | Day14/Program.cs:153-160 | a grain that comes to rest is added and counted; pouring stops at the source or starts again from it, with less room left |
| Day14.Cave.FillFromOutside | Day14/Program.cs:135 | a grain that leaves the box ends the pouring |
| Day14.Cave.FillFromCounts | Day14/Program.cs:153-157 | pouring only adds cells, one per grain counted |
| Day14.Cave.FillFromStops | Day14/Program.cs:130-168 | pouring ends with the source occupied or a grain that falls out |
| Day14.Cave.FloorCatches | Day14/Program.cs:122 | with the floor every grain comes to rest |
| Day14.Cave.FloorFillsSource | Day14/Program.cs:158 | with the floor, pouring ends with the source filled |
| Day14.Cave.constructor | Day14/Program.cs:68-117 | the box spans the walls shifted to x = 0 (two rows lower with a floor), the source sits at x = 500 minus the offset, and the occupied cells are the shifted walls |
| Day14.Cave.TryMoves | Day14/Program.cs:138-148 | the loop over the three moves finds the first allowed one |
| Day14.Cave.FillWithSand | Day14/Program.cs:130-168 | the count and the new occupied cells are those the pouring defines from the old ones |
| Day14.ArrowAt | Day14/Program.cs:74 | a position found holds " -> " |
| Day14.SplitArrows | Day14/Program.cs:74 | a line splits into at least one part |
| Day14.ParsePointText | Day14/Program.cs:5-9 | a point's text `x,y` reads back as the point |
| Day14.ParsePoints | Day14/Program.cs:74 | every part is read as a point, in order, or the parse fails with one part's error |
| Day14.Chain | Day14/Program.cs:75-78 | consecutive points make the walls of a line |
| Day14.NewCave | Day14/Program.cs:68-117 | fails iff there are no walls; otherwise a fresh cave whose rock is the walls shifted to start at x = 0, whose box runs from (0, 0) to the widest x and the deepest y of the walls (two rows deeper with a floor), whose floor lies two rows below the deepest wall (at -1, none, without one) and whose source is x = 500 shifted alike |
| Day14.ComputeSolution | Day14/Program.cs:180-190 | fails iff there are no walls; otherwise the number of grains that the pouring rests in the cave with the shifted walls, the box, the floor and the source `NewCave` states |
| Day15.Point.Distance | Day15/Program.cs:7-10 | the Manhattan distance is zero exactly between equal points |
| Day15.DistanceSymmetric | Day15/Program.cs:7-10 | the distance is symmetric |
| Day15.Range.Plus | Day15/Program.cs:22-25 | the sum of two ranges spans from the lesser start to the greater end |
| Day15.Range.CompareTo | Day15/Program.cs:27-37 | ranges are ordered by their start; any range comes after a missing one |
| Day15.OverlapsMeaning | Day15/Program.cs:17-20 | overlapping is symmetric and holds iff the two ranges share a column |
| Day15.Cells | Day15/Program.cs:15 | the columns a range covers |
| Day15.CellsCount | Day15/Program.cs:15 | a non-empty range covers as many columns as its width |
| Day15.PlusContains | Day15/Program.cs:131 | the sum of two overlapping ranges covers exactly the columns either covers |
| Day15.CoversBeacon | Day15/Program.cs:57-63 | a sensor covers its own beacon |
| Day15.CoveredRange | Day15/Program.cs:65-75 | there is no range iff the row is beyond the sensor's radius; otherwise a range centred on the sensor's column whose half-width is what the radius leaves |
| Day15.CoveredRangeExact | Day15/Program.cs:65-75 | a column is in a sensor's range on a row iff the sensor covers that cell |
| Day15.TokenLength | Day15/Program.cs:42-43 | a token is the longest run of digits and minus signs |
| Day15.Tokens | Day15/Program.cs:53 | the matched tokens are non-empty |
| Day15.ParseSensor | Day15/Program.cs:50-58 | a parsed sensor sits at the first two numbers, its beacon at the next two, and its radius is their distance |
| Day15.ParseSensors | Day15/Program.cs:108-112 | one sensor per line, in order |
| Day15.CoveredRanges | Day15/Program.cs:116-119 | the rows' ranges are non-empty, one at most per sensor |
| Day15.Covered | Day15/Program.cs:142 | the columns covered by any of the ranges |
| Day15.CoveredRangesExact | Day15/Program.cs:116-121 | a column is covered by the row's ranges iff some sensor covers that cell |
| Day15.InsertByFrom | Day15/Program.cs:120 | inserting keeps the ranges sorted by start and adds just the one range |
| Day15.SortByFrom | Day15/Program.cs:120 | the ranges sorted by start, a permutation of the input |
| Day15.SameElements | Day15/Program.cs:120 | reordering keeps the covered columns |
| Day15.MergeRanges | Day15/Program.cs:123-136 | merging leaves sorted, non-empty, pairwise separated ranges covering the same columns |
| Day15.MergeStep | Day15/Program.cs:129-133 | merging one overlapping pair keeps the ranges sorted and the covered columns |
| Day15.SumWidthsCount | Day15/Program.cs:142 | for separated ranges the sum of widths is the number of covered columns |
| Day15.ColumnsCount | Day15/Program.cs:139 | distinct beacons on one row have distinct columns |
| Day15.NoBeaconColumnsExact | Day15/Program.cs:114-143 | a column is counted iff some sensor covers its cell and no beacon sits there |
| Day15.BeaconCount | Day15/Program.cs:139-142 | the covered width minus the distinct beacons on the row counts the columns where no beacon can be |
| Day15.ComputeSolution1 | Day15/Program.cs:114-143 | the number of columns of the row where no beacon can be |
| Day15.GapPoints | Day15/Program.cs:83-101 | with a gap of exactly one between the two sensors there are radius + 2 points, otherwise none |
| Day15.GapJustOutside | Day15/Program.cs:90-98 | when the other sensor differs in both coordinates, every gap point is one step beyond the sensor's radius, so the sensor does not cover it |
| Day15.GapAligned | Day15/Program.cs:83-100 | when the two sensors share a column, the gap walk starts on the sensor itself and point k lies k steps from it; when they share a row, it ends on the sensor and point k lies radius + 1 − k steps away; either way the sensor covers every gap point but one |
| Day15.GapPointsDistinct | Day15/Program.cs:94 | the walk reaches the last point only at its end, so the loop ends |
| Day15.Gap | Day15/Program.cs:83-101 | the loop yields exactly the gap points |
| Day15.ComputeSolution2 | Day15/Program.cs:145-164 | -1 iff no pair of sensors has an uncovered gap point inside the square; otherwise the tuning frequency of the first such point in loop order |
| Day15.SearchGap | Day15/Program.cs:151-159 | the search stops at the first candidate point, inside the square and uncovered |
| Day15.AnyCovers | Day15/Program.cs:155 | some sensor covers the point |
| Day17.PushMeaning | Day17/Program.cs:21-46 | a jet leaves a rock against the wall in its way unchanged; otherwise every row moves one column that way, staying within the seven columns |
| Day17.PushWithinWidth | Day17/Program.cs:21-46 | a pushed rock stays within the seven columns |
| Day17.PushRightThenLeft | Day17/Program.cs:21-46 | an unblocked push to the right is undone by a push to the left |
| Day17.ShapesFit | Day17/Program.cs:85-92 | the five shapes fit the chamber's width and are one to four rows high |
| Day17.Fingerprint.Equals | Day17/Program.cs:62-68 | two fingerprints are equal iff their rows, rock index and jet index agree; a missing one never is |
| Day17.TakeLast | Day17/Program.cs:185 | the last `n` rows, or all of them when there are fewer |
| Day17.ParseJets | Day17/Program.cs:113-116 | one jet per character of the trimmed text, Left exactly for '<' |
| Day17.NoCollisionAboveTop | Day17/Program.cs:207 | a rock above the settled rows collides with nothing |
| Day17.Settle | Day17/Program.cs:158-170 | placing the rock grows the chamber to the rock's top, or keeps its height when the rock lies below it |
| Day17.SettleMeaning | Day17/Program.cs:158-170 | placing the rock keeps the rows below it and every settled cell, adds every rock cell, and each row is the old row ORed with the rock's row at that height |
| Day17.SettleWithinWidth | Day17/Program.cs:168 | the merged rows stay within the seven columns |
| Day17.SettleDisjoint | Day17/Program.cs:147-153 | a rock that does not collide shares no cell with the settled rows |
| Day17.AdvanceIsSuccessorModulo | Day17/Program.cs:141-144 | advancing the jet index wraps modulo the number of jets |
| Day17.FirstMaxKey | Day17/Program.cs:181 | the jet index seen most often, the first such in insertion order |
| Day17.FirstMatch | Day17/Program.cs:186-194 | the first stored fingerprint equal to the new one, or -1 when there is none |
| Day17.Chamber.constructor | Day17/Program.cs:113-116 | a new chamber holds the parsed jets, no rows, no rocks, no observations and no cycle |
| Day17.Chamber.Collides | Day17/Program.cs:199-212 | the loop decides whether the rock at height y hits the floor or a settled cell |
| Day17.FallFrom | Day17/Program.cs:136-156 | the fall ends at or below its starting height, no higher than the stack, with the rock's height unchanged and a valid next jet index |
| Day17.FallStep | Day17/Program.cs:139-155 | one pass of the loop: the rock rests at y when one row lower collides, and otherwise the fall goes on from y - 1 with the next jet |
| Day17.FallFromRests | Day17/Program.cs:153 | the rock rests where one row lower collides with the stack or the floor |
| Day17.FallFromClear | Day17/Program.cs:147-155 | a rock that starts clear of the stack ends clear of it |
| Day17.FallFromWithinWidth | Day17/Program.cs:140-150 | a rock within the walls stays within them while it falls |
| Day17.FallFromJets | Day17/Program.cs:140-144 | the fall uses one jet per height it visits, cyclically |
| Day17.SpawnJets | Day17/Program.cs:136-144 | from the spawn height three rows above the top, the next jet index is the start index plus the heights visited, modulo the jet count |
| Day17.FallFromSpawn | Day17/Program.cs:136-156 | a fall from the spawn height ends inside the stack's height, clear of the stack and resting on it or the floor, within the walls, having used one jet per height |
| Day17.AdvanceBelow | Day17/Program.cs:131-134 | the `++i >= n` wrap-around of an index below n is the successor modulo n |
| Day17.Drop | Day17/Program.cs:127-170 | a drop keeps the shape and jet indices valid and grows the stack without shrinking it |
| Day17.DropGrowth | Day17/Program.cs:158-170 | a drop raises the stack by at most four rows |
| Day17.DropCovers | Day17/Program.cs:158-170 | a drop clears no settled cell |
| Day17.Drops | Day17/Program.cs:227-230 | n drops keep the indices valid and grow the stack by at most four rows each |
| Day17.DropsCover | Day17/Program.cs:227-230 | any number of drops clears no settled cell |
| Day17.Chamber.Fall | Day17/Program.cs:136-156 | the loop computes exactly the fall `FallFrom` from three rows above the top with the current jet index: the resting height, the pushed rock and the next jet index |
| Day17.Chamber.Step | Day17/Program.cs:139-155 | one loop pass: push unless blocked, then report whether the rock rests, matching one step of `FallFrom` |
| Day17.Chamber.Land | Day17/Program.cs:136-170 | the chamber's rows become the settle of the rock where `FallFrom` brings it to rest, and the jet index moves on as the fall used jets |
| Day17.Chamber.Place | Day17/Program.cs:129-170 | the chamber's stack, shape index and jet index become exactly their `Drop` |
| Day17.Chamber.Merge | Day17/Program.cs:158-170 | the rows become the old rows with the rock placed at height y |
| Day17.Chamber.Observe | Day17/Program.cs:174-196 | below the observation height the jet index is counted; after it the most frequent index is chosen once; at that index a fingerprint is stored and a cycle is recorded from the first equal fingerprint |
| Day17.Chamber.CompareFingerprint | Day17/Program.cs:185-195 | the current entry is appended to the fingerprints; the cycle length and rock count are taken from the first earlier entry with an equal fingerprint, and stay as they were when there is none |
| Day17.Chamber.Record | Day17/Program.cs:172-196 | one more rock is counted, the chamber stays valid, a cycle once found is kept, and a cycle is only recorded at the anchor jet index after the observation period |
| Day17.Chamber.DropRock | Day17/Program.cs:127-197 | the stack and the shape and jet indices become exactly their `Drop`, one more rock is counted, and a cycle once found is kept |
| Day17.ComputeSolution1 | Day17/Program.cs:225-233 | the chamber ends as 2022 drops from where it began (`Drops`); the height is its row count, grown by at most four rows per rock, and no settled cell is lost |
| Day17.CyclesAsWritten | Day17/Program.cs:246 | the skip as written never passes 10^12 rocks on the counter |
| Day17.CyclesAsWrittenOvershoot | Day17/Program.cs:246-249 | when the cycle length divides 10^12 - i, the skip as written counts one rock more than 10^12 |
| Day17.CyclesAsWrittenExample | Day17/Program.cs:246-249 | a cycle of 35 rocks found at counter 10^12 - 35 overshoots |
| Day17.CyclesDue | Day17/Program.cs:246 | the corrected skip covers as many whole cycles as fit in the rocks still due, leaving fewer than one cycle |
| Day17.Scaled | Day17/Program.cs:246-248 | k copies of a quantity added up: the rocks and height of k skipped cycles, never negative for a non-negative quantity |
| Day17.ScaledIsProduct | Day17/Program.cs:246-248 | adding up k copies of x is the product k * x computed by the skip |
| Day17.HeightsAdd | Day17/Program.cs:246-248 | a height that repeats its growth every period grows by k times that growth over k periods |
| Day17.PeriodsAdd | Day17/Program.cs:246-248 | on a periodic stack, k more cycles of rocks after a count past the start of the period add k cycle heights |
| Day17.Chamber.DropNext | Day17/Program.cs:240-242 | a chamber holding the n-th drop from a start holds the (n+1)-th after one more rock, and a cycle once found is kept |
| Day17.ComputeSolution2 | Day17/Program.cs:235-253 | the rocks dropped plus the k skipped cycles' rocks are exactly the remaining 10^12 - 2022; the height is the chamber's plus k cycle heights; the chamber ends as the `Drops` of the rocks actually dropped; and if the stack is periodic with the detected cycle from there on, the height is exactly that of all 10^12 - 2022 drops |
| Day18.Point.Neighbors | Day18/Program.cs:5-13 | six distinct face neighbours, each one step along one axis |
| Day18.AdjacentNeighbor | Day18/Program.cs:5-13 | every face-adjacent point is among the neighbours |
| Day18.ExposedAmong | Day18/Program.cs:80-86 | a cube has at most one exposed face per neighbour |
| Day18.AreaBound | Day18/Program.cs:73-90 | the surface area is at most six faces per lava cube |
| Day18.AreaShrinks | Day18/Program.cs:73-90 | turning Empty voxels into Steam or Air, and only those, never increases the surface area |
| Day18.EmptyAmong | Day18/Program.cs:105-111 | the neighbours pushed are exactly those inside the grid and Empty |
| Day18.FillTurn | Day18/Program.cs:100-112 | one pop keeps the flood invariant and either turns an Empty voxel into Steam or shortens the stack |
| Day18.FloodOutcome | Day18/Program.cs:114-121 | when the stack is empty, marking the remaining Empty voxels as Air refills the grid, leaves no Empty voxel and no Steam voxel next to Air |
| Day18.PopStep | Day18/Program.cs:102-111 | popping a voxel keeps every queued voxel steam-bound and every Steam voxel's Empty neighbours queued |
| Day18.VoxelGrid.Snapshot | Day18/Program.cs:23-32 | the grid's contents as a map over the voxels of its extent |
| Day18.VoxelGrid.constructor | Day18/Program.cs:34-55 | the extent is the scan's maximum plus three on each axis; each cube is Lava at its coordinates plus one, every other voxel Empty, and the outer layer holds no lava |
| Day18.VoxelGrid.CountExposed | Day18/Program.cs:80-86 | counts the neighbours outside the grid, Empty or Steam |
| Day18.VoxelGrid.CountColumn | Day18/Program.cs:61-62 | the innermost loop's count over one column |
| Day18.VoxelGrid.CountPlane | Day18/Program.cs:60-62 | the middle loop's count over one plane |
| Day18.VoxelGrid.CountSurfaceArea | Day18/Program.cs:73-90 | the number of lava faces that touch the outside of the grid, an Empty or a Steam voxel |
| Day18.VoxelGrid.PushEmptyNeighbors | Day18/Program.cs:105-111 | the stack gains the in-grid Empty neighbours, in order |
| Day18.VoxelGrid.MarkSteam | Day18/Program.cs:103 | only the popped voxel changes, to Steam |
| Day18.VoxelGrid.EmptyToAir | Day18/Program.cs:114-121 | every Empty voxel becomes Air, nothing else changes |
| Day18.VoxelGrid.FillAirPockets | Day18/Program.cs:92-122 | the lava is kept, no voxel stays Empty, the origin is Steam and no Steam voxel touches Air |
| Day18.ScanExtent | Day18/Program.cs:45-47 | the extent holds every shifted cube and the origin |
| Day18.BorderEmpty | Day18/Program.cs:94-96 | with non-negative coordinates the outer layer, the origin included, is Empty |
| Day18.LavaVoxels | Day18/Program.cs:50-54 | the array holds Lava exactly at the shifted cubes |
| Day18.MaxAlong | Day18/Program.cs:45-47 | the largest coordinate along an axis, attained by some cube |
| Day18.ParseCubeText | Day18/Program.cs:40-41 | a cube's text `x,y,z` reads back as the cube |
| Day18.ParseCubes | Day18/Program.cs:38-42 | one cube per line, in order |
| Day18.NewGrid | Day18/Program.cs:34-55 | fails iff there are no cubes or a coordinate below -1; otherwise a fresh grid of Empty and Lava voxels |
| Day18.ComputeSolution1 | Day18/Program.cs:134-137 | the surface area of the lava, at most six faces per cube |
| Day18.ComputeSolution2 | Day18/Program.cs:139-143 | the area after the air pockets are filled, at most the total surface area |
| Day19.Blueprint.Costs | Day19/Program.cs:27-33 | the four robots' costs in the order ore, clay, obsidian, geode |
| Day19.BlueprintOf | Day19/Program.cs:17-25 | fails iff the description holds fewer than seven numbers; otherwise a blueprint built from the first seven, costs it cannot express being zero |
| Day19.BlueprintRoundTrip | Day19/Program.cs:17-25 | a blueprint's seven numbers read back as the same blueprint |
| Day19.MaxOreCost | Day19/Program.cs:103 | the greatest ore cost among the four robots, attained by one of them |
| Day19.CollectMaterialMines | Day19/Program.cs:46-55 | each robot mines one unit of its material; the robots stay |
| Day19.BuildsBuyOneRobot | Day19/Program.cs:62-90 | each build pays the costs and adds exactly one robot of its kind, geodes unchanged |
| Day19.StartHoldings | Day19/Program.cs:36-44 | the default inventory holds one ore robot and nothing else |
| Day19.AffordIff | Day19/Program.cs:57-60 | a robot is affordable iff paying for it leaves no material negative |
| Day19.CollectKeepsNonNegative | Day19/Program.cs:46-55 | mining keeps the materials non-negative |
| Day19.ReachableBounds | Day19/Program.cs:143-171 | after t minutes there is at most one robot per minute plus the first, at most t geode robots and t² geodes |
| Day19.ReachableNonNegative | Day19/Program.cs:143-171 | with non-negative costs no reachable inventory owes material |
| Day19.Capped | Day19/Program.cs:129-134 | the key caps ore at twice the geode robot's ore cost, clay at the obsidian robot's clay cost and obsidian at the geode robot's obsidian cost, each only when exceeded; geodes and robots are kept |
| Day19.Successors | Day19/Program.cs:143-171 | one to four next inventories, each a legal minute of the game, staying within the robot caps |
| Day19.SuccessorBuilds | Day19/Program.cs:143-159 | an ore, clay or obsidian robot is built iff it is affordable and its count is below the cap |
| Day19.SuccessorGeodeOrWait | Day19/Program.cs:161-171 | a geode robot is built iff affordable, and the search waits iff it is not |
| Day19.YieldBound | Day19/Program.cs:101-175 | a yield lies between 0 and the square of the time limit |
| Day19.ChildrenQueued | Day19/Program.cs:143-171 | every successor of a queued state is queued one minute later, reachable and within the caps |
| Day19.FindLargestGeodeYield | Day19/Program.cs:101-175 | the search as written: the result is a yield, non-negative and, when positive, the geode count of an inventory reachable in exactly the time limit; every finished inventory is reachable and has at most that many geodes |
| Day19.OreCapNothingAffordable | Day19/Program.cs:129-171 | on the ore-cap blueprint, an inventory of one ore robot and less than 3 ore has waiting as its only successor and is its own key |
| Day19.OreCapWaits | Day19/Program.cs:111-171 | one minute of the search on that blueprint expands such an inventory into its waiting successor |
| Day19.OreCapSkips | Day19/Program.cs:129-141 | the key of 3 ore is capped to that of 2 ore, so once 2 ore was expanded the search skips it and ends |
| Day19.OreCapSearchStops | Day19/Program.cs:101-175 | the search as written opens no geode in 9 minutes on the ore-cap blueprint |
| Day19.ApplyIsStep | Day19/Program.cs:143-171 | each of the five moves of a minute is a step of the game; waiting is always possible and a build exactly when affordable |
| Day19.OreCapMinute | Day19/Program.cs:46-90 | each minute of the missed schedule turns its inventory into the next |
| Day19.OreCapScheduleOpensGeode | Day19/Program.cs:46-90 | the missed schedule is a legal game of 9 minutes and ends with one geode open |
| Day19.OreCapReachesGeode | Day19/Program.cs:46-90 | on the ore-cap blueprint some inventory reachable in 9 minutes holds one geode |
| Day19.OreCapHidesGeode | Day19/Program.cs:129-141 | on the ore-cap blueprint the search as written yields 0, although an inventory with one geode is reachable in 9 minutes |
| Day19.Moves | Day19/Program.cs:143-171 | the inventories one minute on are exactly the steps of the game: waiting, or one affordable robot |
| Day19.NextLayer | Day19/Program.cs:143-171 | the next layer holds exactly the inventories one step from the current layer |
| Day19.MostGeodesIn | Day19/Program.cs:118-121 | the largest geode count in a non-empty set: none larger, and attained |
| Day19.MostGeodes | Day19/Program.cs:101-175 | the corrected search: the largest geode count of all inventories reachable in exactly the time limit, attained by one of them |
| Day19.OptimalUnique | Day19/Program.cs:101-175 | the optimum is unique and non-negative |
| Day19.YieldAtMostOptimal | Day19/Program.cs:101-175 | the search as written never claims more geodes than the optimum |
| Day19.AllOptimalSnoc | Day19/Program.cs:180 | the optimum of one more blueprint extends the optima of those before it |
| Day19.Qualities | Day19/Program.cs:180 | each quality level is the blueprint's identifier times its yield |
| Day19.QualitiesSnoc | Day19/Program.cs:180 | one more blueprint appends its quality level |
| Day19.MultiplyNonNegative | Day19/Program.cs:189 | a product of yields is non-negative |
| Day19.MultiplySnoc | Day19/Program.cs:189 | multiplying the running product by one more yield gives the product of the longer list |
| Day19.AllOptimalNonNegative | Day19/Program.cs:186-189 | every optimal yield in a list of optima is non-negative |
| Day19.ComputeSolution1 | Day19/Program.cs:177-182 | the sum of the quality levels over 24 minutes, each level the identifier times the blueprint's optimum |
| Day19.ComputeSolution2 | Day19/Program.cs:184-190 | the product of the optima of the first three blueprints (fewer when there are fewer) over 32 minutes, non-negative |
| Day20.Item.constructor | Day20/Program.cs:5-16 | a new item holds its value and no links |
| Day20.SuccMod | Day20/Program.cs:40 | the successor index of a residue is the residue of the next index |
| Day20.PredMod | Day20/Program.cs:31-41 | the predecessor index of a residue is the residue of the previous index |
| Day20.Remove | Day20/Program.cs:57-61 | unlinking an item drops it from the circle, keeping the others in order |
| Day20.InsertAfter | Day20/Program.cs:82-86 | inserting after a neighbour places the item right behind it, keeping the others in order |
| Day20.Target | Day20/Program.cs:63-80 | the neighbour to insert after is a position of the circle without the item |
| Day20.MoveOne | Day20/Program.cs:57-86 | moving an item keeps the circle's size, its first item and the order of the others, puts the item right after its target, and permutes the items |
| Day20.WholeTurnStays | Day20/Program.cs:65-73 | an item whose value is a multiple of n - 1 stays where it was |
| Day20.IndexOf | Day20/Program.cs:46 | the position of an item in the circle, or -1 when it is absent |
| Day20.MoveItem | Day20/Program.cs:44-87 | moving one item keeps the circle's size |
| Day20.MixRing | Day20/Program.cs:44-88 | mixing keeps the circle's size |
| Day20.MixRingPermutes | Day20/Program.cs:44-88 | mixing keeps the zero first and permutes the items |
| Day20.Unlink | Day20/Program.cs:57-61 | after unlinking, the links form the circle without the item, and the item still points to its old neighbours |
| Day20.Link | Day20/Program.cs:82-86 | after linking, the links form the circle with the item right after its neighbour |
| Day20.FindNeighbor | Day20/Program.cs:63-80 | with the whole-turn case corrected, the walk finds the item the target position names |
| Day20.MoveWholeTurnAsWritten | Day20/Program.cs:63-86 | as written, a positive item whose value is a multiple of n - 1 becomes its own neighbour: it is linked to itself and drops out of the circle |
| Day20.DistinctRemove | Day20/Program.cs:57-61 | removing an item keeps the others distinct and leaves it out |
| Day20.DistinctInsert | Day20/Program.cs:82-86 | inserting a new item keeps the items distinct |
| Day20.Rotate | Day20/Program.cs:94 | the circle read from the zero on is a rotation of the file order |
| Day20.RotateRing | Day20/Program.cs:31-41 | a rotation of a linked circle is the same linked circle |
| Day20.Relocate | Day20/Program.cs:57-86 | after one move the links form the moved circle, its items distinct |
| Day20.LinkInOrder | Day20/Program.cs:31-41 | the items are linked in file order into one circle |
| Day20.ZeroIndex | Day20/Program.cs:26-27 | the position of the first zero, or the length when there is none |
| Day20.Scaled | Day20/Program.cs:24-28 | every value is multiplied by the decryption key |
| Day20.Values | Day20/Program.cs:24-28 | the items' values in file order |
| Day20.Decryptor.constructor | Day20/Program.cs:21-42 | one fresh item per value, scaled by the key and linked in file order into one circle that starts from the zero |
| Day20.Decryptor.Move | Day20/Program.cs:49-87 | one move of the loop body turns the circle into the circle with the item moved |
| Day20.Decryptor.Mix | Day20/Program.cs:44-88 | the links afterwards form the old circle mixed in file order |
| Day20.Decryptor.GroveCoordinates | Day20/Program.cs:90-105 | the sum of the values 1000, 2000 and 3000 places after the zero |
| Day20.MixTimes | Day20/Program.cs:128-131 | mixing several times keeps the circle's size |
| Day20.MixTimesPermutes | Day20/Program.cs:128-131 | repeated mixing keeps the zero first and permutes the items |
| Day20.ComputeSolution1 | Day20/Program.cs:117-123 | the grove coordinates of the circle mixed once |
| Day20.ComputeSolution2 | Day20/Program.cs:125-134 | the grove coordinates of the circle, scaled by 811589153, mixed ten times |
| Day21.Apply | Day21/Program.cs:60-67 | the four operators succeed, division only by a non-zero divisor and truncating toward zero; any other operator fails |
| Day21.Yell | Day21/Program.cs:20-23 | a yelling monkey yields its number; a missing monkey is an error |
| Day21.DependsOnHuman | Day21/Program.cs:70-74 | a yelling monkey does not depend on the human, a monkey naming the human does, and only calculating monkeys can |
| Day21.InverseRules | Day21/Program.cs:95-116 | each inversion step undoes its operator: applying the operator to the solved operand gives back the target value (for '*' when the division is exact) |
| Day21.TruncDivExact | Day21/Program.cs:99 | dividing a product by a factor gives back the other factor |
| Day21.InvertLeft | Day21/Program.cs:95-101 | the inverse step with the human on the left fails exactly for an unknown operator, or for `*` when the other operand is zero (`value / otherValue` divides by zero) |
| Day21.InvertRight | Day21/Program.cs:109-115 | the inverse step with the human on the right fails exactly for an unknown operator, for `*` when the other operand is zero, or for `/` when the target is zero (`otherValue / value`) |
| Day21.Unaffected | Day21/Program.cs:78-86 | a monkey that does not depend on the human yells the same whatever the human yells |
| Day21.SolveFrom | Day21/Program.cs:90-120 | when the human is an operand of the monkey and yells a number of its own, the result is a number that makes the monkey yell the target value, wherever the inverse step is exact: `+` and `-` on either side, an exact `*` on either side, and `/` with the human on the left |
| Day21.SolveForHuman | Day21/Program.cs:76-88 | when the human is an operand of the root and yells a number of its own, the answer is the number the root's other operand yells |
| Day21.SolveFromCorrect | Day21/Program.cs:90-120 | when solving down a path to the human succeeds and every monkey on that path adds or subtracts, the human yelling the answer makes the monkey yell the target value |
| Day21.SolveForHumanBalances | Day21/Program.cs:76-88 | when solving for the human succeeds and every monkey on the human's path adds or subtracts, the human yelling the answer makes the root's two operands equal |
| Day21.LowerRun | Day21/Program.cs:34 | the longest run of lower-case letters from a position |
| Day21.FindEquation | Day21/Program.cs:47-48 | there is no match iff no position holds name, blank, operator, blank, name; a match is a calculating monkey with two non-empty names and a valid operator |
| Day21.ParseMonkey | Day21/Program.cs:140-153 | a parsed monkey yells a non-negative number or calculates with one of the four operators |
| Day21.ParseYelling | Day21/Program.cs:140-142 | a number's digits parse as a yelling monkey |
| Day21.ParseCalculating | Day21/Program.cs:144-147 | "a op b" parses as a monkey calculating a op b |
| Day21.LowerRunOf | Day21/Program.cs:34 | a maximal run of letters has exactly its length |
| Day21.SeparatorAt | Day21/Program.cs:136 | the first ": " from a position, or none |
| Day21.SecondPart | Day21/Program.cs:136-138 | `parts[1]`: the text after the first separator, holding no ": " itself and ending at the next ": " or at the end of the line |
| Day21.ParseLine | Day21/Program.cs:136-148 | a line without ": " fails, as `parts[1]` does; otherwise the line parses iff its second part parses as a monkey, and then the name is the text before the first ": " and the monkey is `ParseMonkey` of the second part |
| Day21.ParseLineText | Day21/Program.cs:136-148 | a line `name: equation` with no colon in either part parses as the equation's monkey under that name |
| Day21.AddMonkeys | Day21/Program.cs:134-154 | when adding succeeds the dictionary has one entry per line, and the last line's monkey is in it under its name |
| Day21.ParseLines | Day21/Program.cs:134-154 | one parsed entry per line, in order |
| Day21.AddMonkeysContents | Day21/Program.cs:142-147 | when adding succeeds every line's monkey is in the dictionary under its name and the names are distinct |
| Day21.LoadMonkeys | Day21/Program.cs:134-154 | the loop builds the dictionary that adding the parsed lines defines |
| Day21.AddMonkeysErrorPersists | Day21/Program.cs:142-147 | a failing line (a malformed line or a duplicate name) fails the whole load |
| Day21.CheckRoot | Day21/Program.cs:156-157 | a checked dictionary has a calculating root that depends on the human |
| Day21.Load | Day21/Program.cs:130-158 | the puzzle loads iff every line adds and the root checks; the result is the dictionary, with a calculating root |
| Day21.ComputeSolution1 | Day21/Program.cs:160-163 | fails exactly when an operand of the root fails to yell or the root's operator fails on their numbers; otherwise the root's operator applied to its operands' numbers |
| Day21.ComputeSolution2 | Day21/Program.cs:165-168 | when the human is on one branch of the root, every monkey on the human's path adds or subtracts, and the solution succeeds, the human yelling it makes the root's operands equal |
| Day22.TileOf | Day22/Program.cs:44-49 | '.' is open, '#' is a wall and every other character void |
| Day22.FacingOf | Day22/Program.cs:14-20 | the facings are numbered right 0, down 1, left 2, up 3 |
| Day22.TurnRight | Day22/Program.cs:68-75 | turning right adds one to the facing, modulo four |
| Day22.TurnLeft | Day22/Program.cs:76-83 | turning left subtracts one from the facing, modulo four |
| Day22.TurnsCancel | Day22/Program.cs:68-83 | a left turn undoes a right turn and vice versa; four right turns are no turn |
| Day22.PasswordDecodes | Day22/Program.cs:110 | the password encodes the 1-based row in its thousands, the 1-based column in the rest divided by four and the facing in the remainder by four |
| Day22.MaxLength | Day22/Program.cs:33 | the width is the longest line's length |
| Day22.Map.constructor | Day22/Program.cs:30-58 | the map has one row per line and the longest line's width; each tile decodes its character, void past a line's end; the start is the first open tile in reading order, facing right |
| Day22.Map.FirstInRow | Day22/Program.cs:118-125 | the first non-void column of the row in the range, or the limit when there is none |
| Day22.Map.LastInRow | Day22/Program.cs:136-143 | the last non-void column of the row above the bound, or the bound when there is none |
| Day22.Map.FirstInColumn | Day22/Program.cs:154-161 | the first non-void row of the column in the range, or the limit |
| Day22.Map.LastInColumn | Day22/Program.cs:172-179 | the last non-void row of the column above the bound, or the bound |
| Day22.Map.RightOf | Day22/Program.cs:113-129 | the next tile to the right on the board: the neighbour when it is not void, otherwise the row's first non-void tile |
| Day22.Map.LeftOf | Day22/Program.cs:131-147 | the next tile to the left: the neighbour when it is not void, otherwise the row's last non-void tile |
| Day22.Map.BelowOf | Day22/Program.cs:149-165 | the next tile below: the neighbour when it is not void, otherwise the column's first non-void tile |
| Day22.Map.AboveOf | Day22/Program.cs:167-183 | the next tile above: the neighbour when it is not void, otherwise the column's last non-void tile |
| Day22.Map.Advance | Day22/Program.cs:86-105 | walking forward keeps the facing and ends on an open tile of the board |
| Day22.Map.Blocked | Day22/Program.cs:98-102 | once a wall is ahead, further steps change nothing |
| Day22.Map.Walk | Day22/Program.cs:66-107 | following the moves ends on an open tile of the board |
| Day22.Map.TileOnTheRight | Day22/Program.cs:113-129 | the method computes the tile on the right as defined |
| Day22.Map.TileOnTheLeft | Day22/Program.cs:131-147 | the method computes the tile on the left as defined |
| Day22.Map.TileBelow | Day22/Program.cs:149-165 | the method computes the tile below as defined |
| Day22.Map.TileAbove | Day22/Program.cs:167-183 | the method computes the tile above as defined |
| Day22.Map.MoveForward | Day22/Program.cs:86-105 | the loop moves the position as many steps forward as the walls allow |
| Day22.Map.FollowPath | Day22/Program.cs:60-111 | the position becomes the end of the walk and the result is its password |
| Day22.BoardLines | Day22/Program.cs:194 | the board is the longest prefix of lines that are not blank |
| Day22.ParseInput | Day22/Program.cs:191-196 | fails iff the input is empty or starts with a blank line; otherwise the board lines and the trimmed last line as the path |
| Day22.StartUnique | Day22/Program.cs:51-55 | there is one starting position |
| Day22.ComputeSolution1 | Day22/Program.cs:198-201 | the board is the scan (as wide as its longest line, one row per line, each tile the one the scan shows or void past a line's end) and the password is that of the walk along the moves from the first open tile, facing right |
| Day23.NextDirection | Day23/Program.cs:13-17 | the next side always differs from the current one; past `East` it wraps to `North` |
| Day23.AdvanceCycle | Day23/Program.cs:88-96 | four steps of `NextDirection` return to the start and fewer steps do not, so the do-while loop ends after four sides |
| Day23.DirectionsOnce | Day23/Program.cs:88-96 | the proposal order starts with the current side and holds each of the four sides exactly once |
| Day23.NeighborsAround | Day23/Program.cs:21-33 | the eight cells around an elf, pairwise different, and exactly the cells adjacent to it |
| Day23.TowardSide | Day23/Program.cs:35-66 | three cells on the given side, the first of them the straight step, and exactly the cells on that side |
| Day23.FirstFreeMeaning | Day23/Program.cs:105-112 | the proposal is the step toward the first side whose three cells are free, all earlier sides being blocked; there is none iff every side is blocked |
| Day23.StepFree | Day23/Program.cs:107-109 | the proposed cell holds no elf and is adjacent to the proposing elf |
| Day23.ProposalsEq | Day23/Program.cs:101-113 | a map holding exactly the crowded elves that find a free side, each mapped to its first free step, is the round's proposal map |
| Day23.UniqueMoves | Day23/Program.cs:116-120 | the moves carried out are exactly the proposals whose target no other elf proposed, unchanged |
| Day23.MoveTarget | Day23/Program.cs:101-120 | an elf that moves was crowded and steps to a free adjacent cell |
| Day23.MovesValid | Day23/Program.cs:116-126 | the movers are elves and no target is occupied before the round |
| Day23.MovesInjective | Day23/Program.cs:116-120 | no two movers share a target |
| Day23.RoundKeepsCount | Day23/Program.cs:122-126 | a round keeps the number of elves |
| Day23.RoundChanges | Day23/Program.cs:122-133 | some elf moves iff the set of elves changes |
| Day23.RowElvesMeaning | Day23/Program.cs:80-84 | the elves of one line are the `#` columns of that row |
| Day23.ElvesInMeaning | Day23/Program.cs:76-85 | an elf stands at (col, row) iff that row has a `#` at that column |
| Day23.BoxHoldsElves | Day23/Program.cs:136-144 | the tight bounding box is non-empty and has at least as many tiles as there are elves |
| Day23.Grove.constructor | Day23/Program.cs:74-86 | the elves of the scan, proposals starting from `North`, no round played |
| Day23.Grove.Directions | Day23/Program.cs:88-96 | the four sides in rotating order from the current one |
| Day23.Grove.Propose | Day23/Program.cs:105-112 | the loop over sides finds the elf's first free step |
| Day23.Grove.CollectProposals | Day23/Program.cs:101-113 | the proposals of all crowded elves |
| Day23.Grove.ApplyMoves | Day23/Program.cs:122-126 | the movers leave their cells and occupy their targets; nothing else changes |
| Day23.Grove.MoveElves | Day23/Program.cs:98-134 | the elves become the round's result, the starting side advances, the round counter grows by one, the count of elves is kept, and the result says whether some proposal was unique, which is exactly when the set of elves changed |
| Day23.Grove.CountEmptyTiles | Day23/Program.cs:136-145 | fails iff there are no elves (`Min` of nothing throws); otherwise the tiles of the tight bounding box minus the elves, never negative |
| Day23.RoundStep | Day23/Program.cs:98-133 | the unique proposals gathered from the rotating side order are the round's moves: movers are elves, targets are free, the round replaces movers by targets, keeps the count, and changes the elves iff some proposal was unique |
| Day23.NextRound | Day23/Program.cs:159-162 | one more `MoveElves` extends the rounds played so far by one round, and reports whether that round had a unique proposal |
| Day23.RoundMovedMeaning | Day23/Program.cs:122-133 | round `k` reports a move iff the elves after it differ from the elves before it |
| Day23.SettledAfter | Day23/Program.cs:166-170 | after a round without a move, the same side order tried again on the resulting elves finds no unique proposal either |
| Day23.RunRounds | Day23/Program.cs:159-162 | `n` calls of `MoveElves` leave the elves after `n` rounds with the side advanced `n` times |
| Day23.ComputeSolution1 | Day23/Program.cs:157-164 | the elves after ten rounds, and the empty tiles of their tight bounding box; it fails iff there are no elves |
| Day23.ComputeSolution2 | Day23/Program.cs:166-170 | `n <= maxRounds` rounds are played and the elves are those after `n` rounds; a returned count is the round counter, `n >= 1`, round `n` had no unique proposal and none exists for the resulting elves either; `None` means all `maxRounds` rounds were played |
| Day25.DigitValue | Day25/Program.cs:12-20 | the five SNAFU digits have values -2 to 2, and any other character is an error |
| Day25.SnafuToInt | Day25/Program.cs:7-23 | a decoded numeral of n digits lies within ±(5^n − 1) / 2, the range that n digits of −2 to 2 can express |
| Day25.SnafuToIntFails | Day25/Program.cs:7-23 | decoding fails iff some character is not a SNAFU digit |
| Day25.DigitChar | Day25/Program.cs:30-38 | remainders 0 to 4 map to digits whose values are the remainder minus two; any other remainder is an error |
| Day25.QuotientShrinks | Day25/Program.cs:29-40 | the truncating quotient of value + 2 by 5 is smaller in size than a non-zero value, so the recursion ends |
| Day25.IntToSnafu | Day25/Program.cs:25-41 | zero encodes as the empty numeral; a non-negative value always encodes; the output holds only SNAFU digits and a positive value's leading digit is 1 or 2 |
| Day25.DecodeEncode | Day25/Program.cs:7-41 | decoding an encoding gives the value back |
| Day25.NegativeEncoding | Day25/Program.cs:29-37 | some negative values encode (-1 as `-`, -7 as `-=`) while -3 hits a negative remainder and fails |
| Day25.EncodeDecode | Day25/Program.cs:7-41 | a numeral with leading digit 1 or 2 decodes to a positive value that encodes back to the same numeral |
| Day25.DecodeAll | Day25/Program.cs:50 | each line decoded in order, or an error when some line is not a numeral |
| Day25.ComputeSolution1 | Day25/Program.cs:48-52 | the result decodes to the sum of all decoded lines, and it succeeds whenever every line decodes and the sum is non-negative |

## Left out

- File and console I/O: every `Puzzle` constructor and `Main` reads a file and prints. The model takes the lines, or the values read from them, as parameters.
- Display-only code: `Processor.Render` (Day10) and `Chamber.ToString` (Day17) only print. Day10's pixels are modelled; writing them to the console is not.
- Three regular expressions are not modelled: Day13's list expression, Day19's digit pattern and Day22's path pattern. The model starts from what they yield. Day13 takes each packet's look-up table as input, Day19 the blueprints' numbers, and Day22 the path as a sequence of moves. The patterns of Day05, Day15 and Day21 are modelled as scanning functions.
- Fixed-width integers: all arithmetic is unbounded. This affects the `long` worry levels of Day11 and the `long` product of its divisors (the `int` cast of a worry level is modelled, by `Day11.ToInt32`), the `int` cast of Day20's step count, the `long` products of Day21, the `int` height of Day17 and the `long` sums of Day25.
- Common.IsWhiteSpace: only the ASCII white-space characters are modelled. `string.Trim` and `char.IsWhiteSpace` also accept other Unicode spaces (U+0085, U+00A0, U+1680, U+2000 to U+200A, U+2028, U+2029, U+202F, U+205F, U+3000), so every trimmed line of the model assumes input without them.
- Day03.IsUpper: only the ASCII capitals 'A' to 'Z' are upper case in the model. `char.IsUpper` (Day03/Program.cs:22) also accepts other Unicode capitals, such as 'É'. The source takes the upper-case branch for those and gives the byte '?' minus 38, that is 25, where the model gives '?' minus 96. Letters outside ASCII are assumed absent from the rucksacks.
- Floating point: Day09's `DistanceTo` (a square root compared with 2) is modelled by the equivalent integer test, that one coordinate differs by at least 2.
- Hashing and collection internals: `Fingerprint.GetHashCode`, and the internals of `HashSet`, `Dictionary`, `Queue`, `Stack` and `PriorityQueue`. Sets, maps and sequences stand for them. Day12's order among entries of equal priority is left open.
- The answers the `Main` methods expect for the test inputs (for example a tower 3068 units tall in Day17, 110 and 20 in Day23) are not proved. That would take running the simulations.
- Day17: the source does not check for an empty jet pattern; a drop then fails indexing an empty array. The model's `DropRock` requires at least one jet.
- Day17.ComputeSolution2: the extrapolated height equals the height of all the drops only under `Periodic`, the assumption that the detected cycle repeats from the point reached; the model does not prove that the fingerprint match implies it.
- Day17: the model does not prove that the anchor jet index finds the true period, nor does it simulate 10^12 rocks. It states the detection bookkeeping and the skip arithmetic.
- Day11: notes in which a monkey throws to itself are rejected (`Day11.SelfError`). In the source such a monkey's `InspectItems` takes back what it throws to itself and inspects it again, and it never ends when some item keeps coming back; the model's turn always ends with an empty queue. The product of the divisors is modelled (`Day11.Divisors`, `Day11.Product`); its `long` wrap-around is not.
- Day12.Map.FindPath: the step count is shown to be the length of a real walk. That it is the smallest such length (Dijkstra's optimality) is not proved.
- Day12.Map.Search: every recorded step count is shown to be the length of a real walk from the summit, and every reachable 'a'-level point is recorded. That each count is the shortest such walk is not proved.
- Day13.CompareTo: antisymmetry and reflexivity are proved; transitivity is not. Sorting is modelled by counting the packets that compare before each divider.
- Day13.ComputeSolution2: its own contract states only that the key is at least 2. `Day13.KeyFromSortedOrder` ties it to the dividers' positions in any descending order in which no other packet compares equal to a divider. When some packet does tie a divider, the order between them is left to the sort, and the key is not stated. That a descending order exists at all needs the comparison to be transitive, which is not proved.
- Day14: a wall segment that is neither horizontal, vertical nor at 45 degrees is excluded by a precondition (`Day14.Segment.Straight`), because the source's point iterator never ends on one.
- Day18.ComputeSolution2: the steam is proved to reach every empty voxel connected to the corner. That it reaches nothing else is not proved, so the area is only bounded by the total surface area.
- Day18.VoxelGrid.FillAirPockets: the flood fill is shown to turn every Empty voxel it reaches into Steam and the rest into Air, with no Steam voxel next to Air. That the steam reaches only voxels connected to the outside corner is not proved.
- Day19.FindLargestGeodeYield: the search as written prunes by capped keys and can miss the best schedule (see Findings), so its contract gives only that the yield is attainable and bounds every finished inventory. The parts use the exhaustive `Day19.MostGeodes` instead, which is proved optimal; the breadth-first order and the pruning heuristics of the source are not part of that corrected search.
- Day20: exactly one zero is a precondition (`Day20.OneZero`). With several zeros the source keeps the last one as the ring's anchor; an empty file fails at `_items[0]` (Day20/Program.cs:30) and a single non-zero number divides by zero in `Mix`. Neither is modelled.
- Day21: recursion is bounded by a fuel equal to the number of monkeys. Running out stands for the stack overflow a cyclic input causes in the source.
- Day21.ComputeSolution1: states no more than the `Yell` of the root.
- Day21.SolveForHumanBalances: the balance is proved only when every monkey on the human's path is `+` or `-` (`HumanBranch`). The source also inverts `*` and `/`, and those inversions are exact only for some values: `*` needs the target to be a multiple of the other operand, and `/` with the human on the right needs the truncated quotients to come back. `InverseRules` states when each single inversion is exact, but the path-wide statement is not made.
- Day21.SolveFromCorrect: the same restriction to `+` and `-` along the path.
- Day21.ComputeSolution2: inherits the restriction to a human path of `+` and `-` monkeys from `SolveForHumanBalances`.
- Day22: `ComputeSolution2` returns the constant 0 and is not modelled.
- Day22.ComputeSolution1: requires a non-empty scan with at least one open tile. The source's default start (row 0, column 0, facing right) on a board without open tiles is not modelled.
- Day23.ComputeSolution2: bounded by a `maxRounds` fuel, because the model cannot prove that the elves ever stop; `None` stands for running out.
- Day23.ComputeSolution2: does not state that every round before the returned one moved some elf (so that the count is the first round without a move), nor that every round moved when `None` is returned; the loop only continues after a round with a move, but a predicate over all earlier rounds, each unfolding a whole round, is beyond what the verifier proves within its resource limit.

## Findings

| source | as written | input that shows it | evidently intended | confidence | as-written member | corrected member |
|---|---|---|---|---|---|---|
| Day08/Program.cs:51 | the flag of tree (x, y) is `visible[y * _height + x]`, so on a grid with more columns than rows two trees can share a flag | a 2-row, 3-column grid of zeros: all 6 trees are visible, but only flags 0 to 4 are set, so part 1 answers 5 | `visible[y * _width + x]`, one flag per tree | not executed | Day08.AsWrittenMiscounts | Day08.ComputeSolution1 |
| Day08/Program.cs:51 | the same index, on a grid with more rows than columns, passes the end of the `_height * _width` flags | three rows of two zeros: tree (1, 2) is visible and gets flag 2 · 3 + 1 = 7 of 6, so part 1 throws an index error | `visible[y * _width + x]`, which stays below `_height * _width` | not executed | Day08.AsWrittenOutOfRange | Day08.ComputeSolution1 |
| Day17/Program.cs:246-249 | `cycles = (iterations - i) / CycleRocks` counts the rock already dropped at `i` once more | a cycle of 35 rocks detected with the counter at 10^12 - 35: one cycle is skipped and the counter passes 10^12, so one rock too many is counted | skip only the whole cycles that fit in the rocks still due, `(iterations - i - 1) / CycleRocks` | not executed | Day17.CyclesAsWrittenOvershoot | Day17.CyclesDue |
| Day19/Program.cs:129-141 | the seen key caps ore at twice the geode robot's ore cost, below what other robots may cost, so an inventory that could afford such a robot shares its key with one that could not, and the second one is skipped | blueprint 1 with ore and clay robots at 3 ore, an obsidian robot at 1 ore and 1 clay, a geode robot at 1 ore and 1 obsidian, over 9 minutes: minute 3's 3 ore is keyed as 2 ore, seen at minute 2, so the search waits and ends with 0 geodes, yet a clay robot at minute 3 leads to one geode | the largest geode count over all schedules | not executed | Day19.OreCapHidesGeode | Day19.MostGeodes |
| Day20/Program.cs:63-86 | for a positive value that is a multiple of `_items.Count - 1` no step is taken, the neighbour is the removed item itself, and the item is linked to itself | the numbers 2, 0, 1: the 2 drops out of the circle, which closes as 0, 1; the coordinates then read 0 + 0 + 0 = 0 | the item moves whole turns and stays where it was, giving the circle 0, 2, 1 and coordinates 2 + 1 + 0 = 3 | not executed | Day20.MoveWholeTurnAsWritten | Day20.FindNeighbor |
