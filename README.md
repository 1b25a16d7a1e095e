# Advent of Code solutions (2024 days 1–11, 2025 days 1–10), modelled in Dafny

This project models the puzzle solvers of a Rust Advent of Code repository:
the parsers and the part 1 / part 2 computations of the 2024 puzzles 1 to 11
and of the 2025 puzzles 1 to 10. Each puzzle's `main.rs` becomes one Dafny
module (`Y2024Day01` … `Y2025Day10`, in `y2024_dayNN.dfy` / `y2025_dayNN.dfy`).
The modules keep the form of the source:

- iterator chains and recursion become functions;
- loops that update variables become methods, proved against a reference function;
- in-place buffers stay arrays:
  - the disk map of 2024 puzzle 9;
  - the indicator lights of 2025 puzzle 10.
- The stone deque of 2024 puzzle 11 is a class whose field is a sequence of stones, updated in place by `insert`.
- The circuits of 2025 puzzle 8 are a class holding the list of disjoint circuits (sets of junction boxes); connecting two boxes merges their circuits by union, removing the two old sets.

Five shared modules hold the Rust library behaviour that several puzzles rely on:

- `Wrappers`: `Option`.
- `Positional`: powers and the value of a digit sequence in any base, with the division and uniqueness facts about them.
- `Decimal`: decimal digits, powers of ten, `ilog10`, built on `Positional`.
- `Text`: `lines`, `split`, `find`, `split_whitespace`, `trim`, `parse`.
- `SeqUtil`: sums, counts, filters, all pairs, and a stable sort standing for `sort`/`sort_by_key`.

Conventions used throughout:

- An `unwrap` that panics on malformed input becomes an `Option` result; `None` means the program aborts.
- An index out of range or an unsigned underflow that the program would panic on becomes a `requires`.
- Integers are unbounded unless a cast is written out.
- `str::parse` into a fixed-width type fails on a value outside the type's range, and the parsers keep that range check (`Text.ParseU64`, `Text.ParseI32`, `Text.ParseBelow`); only the arithmetic on parsed values is unbounded.
- Hash sets and hash maps become Dafny sets and maps.

## Model

| member | source | states |
|---|---|---|
| Y2024Day01.AbsDiff | 2024/day01/src/main.rs:42 | the distance of two ids, `max - min`, is never negative and is zero exactly when the ids are equal |
| Y2024Day01.Distances | 2024/day01/src/main.rs:38-42 | zipping pairs the lists up to the shorter one, and each entry is the distance of the ids at that position |
| Y2024Day01.TotalDistance | 2024/day01/src/main.rs:32-44 | `total_distance`: both lists sorted, zipped and the distances summed; `TotalDistanceSelf`, `TotalDistanceSymmetric` and `TotalDistancePermutation` state what it guarantees |
| Y2024Day01.TotalDistanceSelf | 2024/day01/src/main.rs:32-44 | the total distance is never negative, and a list is at distance zero from itself |
| Y2024Day01.TotalDistanceSymmetric | 2024/day01/src/main.rs:32-44 | the total distance does not depend on which list comes first |
| Y2024Day01.TotalDistancePermutation | 2024/day01/src/main.rs:32-44 | because both lists are sorted first, reordering either list leaves the total distance unchanged |
| Y2024Day01.Similarity | 2024/day01/src/main.rs:46-51 | `similarity`: each id of the first list times its number of occurrences in the second, summed; `SimilarityAppend`, `SimilarityRemove` and the two permutation lemmas state its properties |
| Y2024Day01.SimilarityAppend | 2024/day01/src/main.rs:46-51 | the similarity score of a concatenated first list is the sum of the scores of its parts |
| Y2024Day01.SimilarityRemove | 2024/day01/src/main.rs:46-51 | removing one id from the first list removes exactly that id times its number of occurrences in the second list |
| Y2024Day01.SimilarityPermutation1 | 2024/day01/src/main.rs:46-51 | the similarity score depends only on the multiset of ids in the first list |
| Y2024Day01.SimilarityPermutation2 | 2024/day01/src/main.rs:46-51 | the similarity score depends only on the multiset of ids in the second list |
| Y2024Day02.FoldsCheckRules | 2024/day02/src/main.rs:38-46 | `is_sorted_by` with `>` (or `<`) holds exactly when every adjacent pair falls (or rises), and the `windows(2)` fold holds exactly when every adjacent pair differs by 1 to 3 |
| Y2024Day02.SafetyCheck | 2024/day02/src/main.rs:37-55 | `safety_check`: both rules, or with the dampener in use a safe removal; `SafeIffRules` and `DampenedIff` state which reports pass |
| Y2024Day02.ProblemDampener | 2024/day02/src/main.rs:59-70 | `problem_dampener`: the number of single removals that pass the undampened check is positive; `SafeRemovalsPositive` turns this into "some removal is safe" |
| Y2024Day02.SafeRemovalsPositive | 2024/day02/src/main.rs:60-70 | the count of safe single-level removals among the first n is positive exactly when one of those removals leaves a safe report |
| Y2024Day02.SafeIffRules | 2024/day02/src/main.rs:37-55 | without the dampener a report is safe exactly when it is strictly monotone and every step is 1 to 3; reports shorter than two levels are safe |
| Y2024Day02.DampenedIff | 2024/day02/src/main.rs:37-70 | with the dampener a report is safe exactly when it is safe as it stands or removing one level makes it safe; the dampener never rejects a safe report |
| Y2024Day03.ParseI64 | 2024/day03/src/main.rs:72-73 | `parse::<i64>` succeeds exactly on a signed decimal within the `i64` range, with that value |
| Y2024Day03.Multiply | 2024/day03/src/main.rs:63-81 | with no comma there is no product; a product is the two `i64` values parsed on either side of a comma, multiplied |
| Y2024Day03.MultiplyFormat | 2024/day03/src/main.rs:63-81 | two numbers in range written as `a,b` multiply to a·b (the parse round trip) |
| Y2024Day03.Part1Sum | 2024/day03/src/main.rs:16-46 | text without any `mul(` sums to 0 |
| Y2024Day03.ParsePart1 | 2024/day03/src/main.rs:16-46 | the loop that repeatedly cuts the text after the next `mul(` adds exactly the gains of the reference sum |
| Y2024Day03.Part1Leading | 2024/day03/src/main.rs:21-41 | a leading `mul(` contributes its gain and the scan goes on with the rest |
| Y2024Day03.SingleRest | 2024/day03/src/main.rs:26-39 | after `mul(`, the text `a,b)` gains a·b and holds no further instruction |
| Y2024Day03.Part1Single | 2024/day03/src/main.rs:16-46 | one well-formed instruction `mul(a,b)` sums to a·b |
| Y2024Day03.SegmentSums | 2024/day03/src/main.rs:51-58 | each piece between `do()` contributes the part 1 sum of its prefix before `don't()` |
| Y2024Day03.ParsePart2 | 2024/day03/src/main.rs:48-61 | the loop over the `do()` pieces computes the reference sum of the enabled prefixes |
| Y2024Day03.Part2WithoutSwitches | 2024/day03/src/main.rs:48-61 | text with neither `do()` nor `don't()` gives the part 1 sum |
| Y2024Day04.DropNewline | 2024/day04/src/main.rs:57-60 | the text loses its last character exactly when that character is a line feed, and is otherwise unchanged |
| Y2024Day04.HorizontalsJoin | 2024/day04/src/main.rs:77-83 | the rows hold no line feed and joined with line feeds give the text back |
| Y2024Day04.Horizontals | 2024/day04/src/main.rs:77-83 | `horizontals`: the pieces of the text between line feeds; `HorizontalsJoin` proves they rejoin to the text and hold no line feed |
| Y2024Day04.Verticals | 2024/day04/src/main.rs:85-100 | the nested loops build, for each column j, the characters j, n+j, 2n+j, … of the text without line feeds |
| Y2024Day04.Column | 2024/day04/src/main.rs:94-98 | a column has exactly n characters |
| Y2024Day04.VerticalsOf | 2024/day04/src/main.rs:93-99 | there are exactly n columns |
| Y2024Day04.Pick | 2024/day04/src/main.rs:111-115 | `nth` (or `nth_back`) yields at most one character, none past the end |
| Y2024Day04.Diagonal | 2024/day04/src/main.rs:108-116 | one inner loop collects the characters at the diagonal's indices that exist, skipping those past the end |
| Y2024Day04.Family | 2024/day04/src/main.rs:107-159 | each of the four outer loops produces one diagonal per start index |
| Y2024Day04.PushFamily | 2024/day04/src/main.rs:107-159 | an outer loop appends its family of diagonals to those already built |
| Y2024Day04.Diagonals | 2024/day04/src/main.rs:102-160 | the four loops produce the diagonals in order: main-direction lower and upper halves, anti-direction lower and upper halves |
| Y2024Day04.DiagonalsOf | 2024/day04/src/main.rs:102-160 | there are nrows + (nrows-1) + ncols + (ncols-1) diagonals |
| Y2024Day04.GatherLength | 2024/day04/src/main.rs:108-116 | a diagonal is as long as the number of its indices that fall inside the text |
| Y2024Day04.GatherWindow | 2024/day04/src/main.rs:108-116 | the k-th character of a diagonal is the character at its k-th index inside the text |
| Y2024Day04.ShapedGeometry | 2024/day04/src/main.rs:85-92 | on an n by n grid the row count and column count are both n, the text without line feeds is the rows concatenated, and the square assertion holds |
| Y2024Day04.ShapedCell | 2024/day04/src/main.rs:91-96 | on an n by n grid, index r·n+c of the text without line feeds is row r, column c |
| Y2024Day04.VerticalsTranspose | 2024/day04/src/main.rs:85-100 | on an n by n grid, the verticals are the transpose of the rows |
| Y2024Day04.MainLower | 2024/day04/src/main.rs:106-117 | on an n by n grid, lower main diagonal i has n-i cells, the cells (i+k, k) |
| Y2024Day04.MainUpper | 2024/day04/src/main.rs:119-130 | on an n by n grid, upper main diagonal i has n-i cells, read from the back: the cells (n-1-i-k, n-1-k) |
| Y2024Day04.AntiLower | 2024/day04/src/main.rs:132-143 | on an n by n grid, anti-diagonal i has i+1 cells, the cells (n-1-k, n-1-i+k) |
| Y2024Day04.AntiUpper | 2024/day04/src/main.rs:145-156 | on an n by n grid, the i-th upper anti-diagonal has i+1 cells, read from the back: the cells (k, i-k) |
| Y2024Day04.CountMatchesZero | 2024/day04/src/main.rs:67-74 | `matches(pat).count()` is zero exactly when `find(pat)` finds nothing |
| Y2024Day04.MatchTotalZero | 2024/day04/src/main.rs:65-68 | the summed match count over all strings is zero exactly when no string contains the pattern |
| Y2024Day04.MatchTotalAppend | 2024/day04/src/main.rs:61-68 | the summed match count over appended string lists is the sum over each list |
| Y2024Day04.XmasCounterParts | 2024/day04/src/main.rs:55-75 | the count is the `XMAS` plus `SAMX` matches in the rows, the columns and the diagonals |
| Y2024Day04.XmasCounter | 2024/day04/src/main.rs:55-75 | `xmax_counter`: the `XMAS` and `SAMX` matches over rows, columns and diagonals of the text without its final line feed; `XmasCounterParts` and `XmasCounterZero` state what it counts |
| Y2024Day04.XmasCounterZero | 2024/day04/src/main.rs:55-75 | the count is zero exactly when no row, column or diagonal contains `XMAS` or `SAMX` |
| Y2024Day04.XMasIff | 2024/day04/src/main.rs:22-38 | the four accepted patterns are exactly an `A` whose two diagonals each read M-A-S in one direction or the other |
| Y2024Day04.RowCrosses | 2024/day04/src/main.rs:21-45 | one row holds at most one cross per interior column scanned |
| Y2024Day04.GridCrosses | 2024/day04/src/main.rs:20-45 | the scanned rows hold at most one cross per interior cell |
| Y2024Day04.Part2 | 2024/day04/src/main.rs:13-49 | the nested loops count exactly the interior cells that centre a cross |
| Y2024Day04.Part2Bound | 2024/day04/src/main.rs:13-49 | the count is at most the number of interior cells, and grids smaller than 3 by 3 have none |
| Y2024Day04.Part2Count | 2024/day04/src/main.rs:20-46 | the crosses over the interior cells, none for fewer than three lines; `Part2` is proved to return it and `Part2Bound` bounds it |
| Y2024Day05.AddRule | 2024/day05/src/main.rs:130-140 | adding rule x→y gives x the set it had (or the empty set) plus y, and leaves every other page's set alone |
| Y2024Day05.ParseRules | 2024/day05/src/main.rs:116-144 | the loop over the lines, stopping at the first line without `|`, computes the reference fold of the rules |
| Y2024Day05.RuleLines | 2024/day05/src/main.rs:119-124 | the rule section is a prefix of the lines |
| Y2024Day05.RuledStep | 2024/day05/src/main.rs:119-141 | a leading rule line extends the rule section by one and adds its own pair |
| Y2024Day05.RulesFromSome | 2024/day05/src/main.rs:125-129 | parsing the rules succeeds exactly when every line of the rule section parses as `x|y` |
| Y2024Day05.RulesFromMeaning | 2024/day05/src/main.rs:116-144 | y is in the set of x exactly when some line of the rule section reads `x|y` |
| Y2024Day05.ParsePages | 2024/day05/src/main.rs:104-109 | the inner loop yields the numbers between the commas of a line, in order, and aborts (None) at the first that is not a `u32` |
| Y2024Day05.ParseUpdates | 2024/day05/src/main.rs:96-114 | the loop over the lines computes the reference list of updates |
| Y2024Day05.PrefixedStep | 2024/day05/src/main.rs:111 | pushing one more update keeps the updates in order |
| Y2024Day05.UpdatesFromMeaning | 2024/day05/src/main.rs:96-114 | the updates are exactly the lines containing a comma, in order, each split at commas and parsed; any failed parse aborts |
| Y2024Day05.CommaLinesHaveComma | 2024/day05/src/main.rs:100-103 | every line kept as an update holds a comma |
| Y2024Day05.UpdatesTwoPages | 2024/day05/src/main.rs:100-110 | every parsed update has at least two pages |
| Y2024Day05.CheckFollowingIff | 2024/day05/src/main.rs:79-94 | the fold accepts exactly when every following page is in the rule set of `page`; a page without rules passes only when nothing follows it |
| Y2024Day05.CheckUpdates | 2024/day05/src/main.rs:68-77 | the early-exit loop returns whether every page passes `check_following` against the pages after it |
| Y2024Day05.ValidUpdateOrdered | 2024/day05/src/main.rs:68-94 | a valid update has every later page in the rule set of every earlier page |
| Y2024Day05.OrderedValidUpdate | 2024/day05/src/main.rs:68-94 | an update whose every later page is in the rule set of every earlier page is valid |
| Y2024Day05.ValidUpdateIff | 2024/day05/src/main.rs:68-94 | an update is valid exactly when all its pairs are ordered by the rules; updates of fewer than two pages are valid |
| Y2024Day05.MiddleCentre | 2024/day05/src/main.rs:38 | index (len-1)/2 is the centre: the pages after it outnumber those before it by one for an even length and are equal in number for an odd one |
| Y2024Day05.ValidOnlyIff | 2024/day05/src/main.rs:36-37 | the filter keeps an update exactly when it is one of the input updates and it is valid |
| Y2024Day05.MiddlesAppend | 2024/day05/src/main.rs:38-39 | the middle pages of appended lists are the middle pages of each list |
| Y2024Day05.MiddlePageSumsValid | 2024/day05/src/main.rs:33-40 | the sum is the sum of the middle pages of exactly the valid updates |
| Y2024Day05.Priority | 2024/day05/src/main.rs:48-57 | a page's priority counts pages of the update whose rule sets contain it, so it is at most the update's length |
| Y2024Day05.Priorities | 2024/day05/src/main.rs:45-60 | each page is paired with its own priority, in order |
| Y2024Day05.Pages | 2024/day05/src/main.rs:63 | the projection keeps the pages of the entries in order |
| Y2024Day05.PagesMultiset | 2024/day05/src/main.rs:62-63 | reordering the entries reorders the projected pages in the same way |
| Y2024Day05.CorrectUpdatePermutation | 2024/day05/src/main.rs:42-66 | the corrected update is a permutation of the update |
| Y2024Day05.SortedEntries | 2024/day05/src/main.rs:45-62 | after sorting, every entry still carries its page's priority |
| Y2024Day05.CorrectUpdateOrdered | 2024/day05/src/main.rs:42-66 | the corrected update is ordered by non-decreasing priority |
| Y2024Day05.KeyClassPages | 2024/day05/src/main.rs:62-63 | the entries of priority k project to the pages of priority k |
| Y2024Day05.CorrectUpdateStable | 2024/day05/src/main.rs:62 | the sort is stable: pages of equal priority keep their order from the update |
| Y2024Day05.CheckFollowing | 2024/day05/src/main.rs:79-94 | `check_following`: the fold over the pages after `page`; `CheckFollowingIff` states it accepts exactly when nothing follows or every following page is in the rules of `page` (a page without rules fails once anything follows) |
| Y2024Day05.MiddlePageSums | 2024/day05/src/main.rs:33-40 | `middlepage_sums`: the middle pages of the valid updates, summed; `MiddlePageSumsValid` states it equals the sum of the middles of exactly the updates that pass the check |
| Y2024Day05.CorrectUpdate | 2024/day05/src/main.rs:42-66 | `correct_update`: the pages sorted by how many of the update's pages must precede them; `CorrectUpdateOrdered`, `CorrectUpdatePermutation` and `CorrectUpdateStable` state it is ordered by that count, a permutation of the update, and stable |
| Y2024Day05.ParseRule | 2024/day05/src/main.rs:120-129 | one `x|y` line: both sides of the first `|` must parse as `u32`; `RulesFromSome` and `RulesFromMeaning` state how the rule lines become the rule map |
| Y2024Day05.RulesFrom | 2024/day05/src/main.rs:116-141 | `rules`: the lines before the first one without `|` folded into the map; `RulesFromSome` states it succeeds exactly when every rule line parses, and `RulesFromMeaning` that `y` is in the set of `x` exactly when some rule line says `x|y` |
| Y2024Day06.NextDirCycle | 2024/day06/src/main.rs:71-78 | the turns go Up→Right→Down→Left→Up, a turn always changes the direction, and four turns give the direction back |
| Y2024Day06.Nearest | 2024/day06/src/main.rs:214-223 | the chosen obstacle lies ahead and is no farther than any other obstacle ahead; none is chosen exactly when no obstacle lies ahead |
| Y2024Day06.Move | 2024/day06/src/main.rs:213-265 | the pose is Ongoing exactly when an obstacle lies ahead; then the guard stops on the cell before a nearest such obstacle and turns right; otherwise it reaches the border cell in its direction, facing the same way |
| Y2024Day06.SpanStep | 2024/day06/src/main.rs:162-185 | extending an inclusive range by one value adds exactly that one cell |
| Y2024Day06.UpdateVisitedCells | 2024/day06/src/main.rs:158-189 | the loop adds exactly the cells from the old to the new position, both ends included, to the visited set and removes nothing |
| Y2024Day06.MoveClear | 2024/day06/src/main.rs:214-233 | no obstacle lies on the segment walked, except possibly the start cell itself |
| Y2024Day06.MoveInField | 2024/day06/src/main.rs:213-265 | from a cell of the field, with obstacles in the field, the move ends on a cell of the field and walks only cells of the field |
| Y2024Day06.CountVisited | 2024/day06/src/main.rs:191-205 | the recursive walk computes the reference walk's visited set (None when the move underflows or the fuel runs out) |
| Y2024Day06.VisitedGrows | 2024/day06/src/main.rs:197-204 | the final set contains the starting set and the first segment walked |
| Y2024Day06.VisitedInField | 2024/day06/src/main.rs:191-205 | a walk that starts in the field, with obstacles in the field, visits only cells of the field |
| Y2024Day06.DetectLoop | 2024/day06/src/main.rs:130-156 | the recursive search computes the reference: true when a new turning point repeats a history entry other than the four most recent, false when the walk leaves the field |
| Y2024Day06.LoopFoundExit | 2024/day06/src/main.rs:141-155 | when the loop search answers false the plain walk ends within the same fuel, and a walk that ends gives the loop search an answer |
| Y2024Day06.StopBlocked | 2024/day06/src/main.rs:226-233 | the cell where the guard stops has the obstacle it walked to right in front of it |
| Y2024Day06.StopClear | 2024/day06/src/main.rs:214-233 | walking from a free cell to the nearest obstacle ahead, the guard stops on a free cell, and when it did walk, the cell behind it is free too |
| Y2024Day06.MoveStep | 2024/day06/src/main.rs:213-265 | after a move that ends in a turn, from a free cell: an obstacle is right in front of the new cell in the old direction, the new cell is free, and the cell it came from is free when the guard walked |
| Y2024Day06.BlockedTurns | 2024/day06/src/main.rs:213-265 | a guard with an obstacle right in front does not panic and turns right on the spot |
| Y2024Day06.Poses | 2024/day06/src/main.rs:191-205 | the poses at which the walk turns, starting with the guard, at most one per unit of fuel |
| Y2024Day06.PosesWalk | 2024/day06/src/main.rs:191-205 | those poses form a walk: each moves on to the next and the last one leaves the field |
| Y2024Day06.VisitedLeaves | 2024/day06/src/main.rs:191-205 | the plain walk gives a visited set exactly when it leaves the field within the fuel without panicking |
| Y2024Day06.WalkAgree | 2024/day06/src/main.rs:191-205 | two walks from the same pose agree at every position both have |
| Y2024Day06.WalkEnd | 2024/day06/src/main.rs:197-204 | no pose of a walk panics, and only the last one leaves the field |
| Y2024Day06.WalkUnique | 2024/day06/src/main.rs:191-205 | a walk is fixed by its first pose |
| Y2024Day06.WalkSuffix | 2024/day06/src/main.rs:191-205 | every suffix of a walk is a walk |
| Y2024Day06.WalkDistinct | 2024/day06/src/main.rs:191-205 | a walk that leaves the field never repeats a pose |
| Y2024Day06.WalkOffObstacles | 2024/day06/src/main.rs:213-265 | started on a free cell, the guard only ever stands on free cells |
| Y2024Day06.WalkArrive | 2024/day06/src/main.rs:213-265 | at each turning point the guard has turned once, the obstacle it faced is right in front, and the cell behind is free when it walked |
| Y2024Day06.WalkBlocked | 2024/day06/src/main.rs:213-265 | a pose with an obstacle right in front is not the last one, and the next pose is the same cell turned right |
| Y2024Day06.DirCases | 2024/day06/src/main.rs:71-78 | any direction is zero, one, two or three right turns from any other |
| Y2024Day06.FindArrival | 2024/day06/src/main.rs:146-149 | after leaving a cell and coming back, there is a first return: a position on the cell whose predecessor is elsewhere |
| Y2024Day06.ArrivalRepeats | 2024/day06/src/main.rs:146-149 | a walk that comes back to an earlier turning point from another cell repeats a pose |
| Y2024Day06.SameCellRepeats | 2024/day06/src/main.rs:146-149 | two turning points at least four moves apart on the same cell make the walk repeat a pose |
| Y2024Day06.TurnsApart | 2024/day06/src/main.rs:146-149 | on a walk that leaves the field, turning points at least four moves apart are on different cells |
| Y2024Day06.History | 2024/day06/src/main.rs:150-151 | the history the search holds at a turning point: the earlier turning points after the start, newest first |
| Y2024Day06.NoFalseAlarm | 2024/day06/src/main.rs:144-149 | on a walk that leaves the field, no new turning point is found in the history past its four newest entries |
| Y2024Day06.LoopFoundWalk | 2024/day06/src/main.rs:141-155 | along a walk that leaves the field with no such match, the loop search answers false |
| Y2024Day06.LoopFoundBack | 2024/day06/src/main.rs:141-152 | one move of the loop search: with no match, its answer is the answer from the next turning point with that point pushed onto the history |
| Y2024Day06.LoopFoundLast | 2024/day06/src/main.rs:154 | at the last pose of a walk the loop search answers false |
| Y2024Day06.ExitIffNoLoop | 2024/day06/src/main.rs:130-156 | started on a free cell with an empty history, the loop search answers false exactly when the plain walk leaves the field within the same fuel: a guard that leaves is never reported as trapped |
| Y2024Day06.Column | 2024/day06/src/main.rs:119 | for one x, the cells (x, 0) … (x, h-1) in order |
| Y2024Day06.Cells | 2024/day06/src/main.rs:118-120 | the product holds w·h cells, exactly those with x < w and y < h |
| Y2024Day06.CellsDistinct | 2024/day06/src/main.rs:118-120 | the product lists no cell twice |
| Y2024Day06.Candidates | 2024/day06/src/main.rs:121-122 | the kept cells are exactly the cells that are neither an obstacle nor the guard's cell |
| Y2024Day06.CandidatesDistinct | 2024/day06/src/main.rs:121-122 | filtering keeps the cells distinct |
| Y2024Day06.Variants | 2024/day06/src/main.rs:112-128 | each variant is the obstacle list with one extra field cell appended, a cell that is neither an obstacle nor the guard's cell, and every such cell gives a variant |
| Y2024Day06.VariantsCount | 2024/day06/src/main.rs:112-128 | with distinct in-field obstacles and the guard in the field on no obstacle, there are width·height − #obstacles − 1 variants |
| Y2024Day06.CandidateSet | 2024/day06/src/main.rs:118-122 | as sets, the candidates are the field minus the obstacles minus the guard's cell |
| Y2024Day06.ParseField | 2024/day06/src/main.rs:268-290 | the nested loops compute the reference obstacle list and guard |
| Y2024Day06.RowObstaclesMeaning | 2024/day06/src/main.rs:275-277 | the obstacles of one row are exactly its `#` cells, left to right |
| Y2024Day06.FieldObstaclesMeaning | 2024/day06/src/main.rs:274-277 | the obstacles are exactly the `#` cells, in row-major order |
| Y2024Day06.RowGuardMeaning | 2024/day06/src/main.rs:275-283 | within a row the last marker wins and sets the guard's cell and facing; a row without a marker leaves the guard alone |
| Y2024Day06.FieldGuardMeaning | 2024/day06/src/main.rs:269-289 | the guard is the last of the `^v<>` markers in reading order, facing as that marker says; with no marker it is (0,0) facing Up |
| Y2024Day06.NextDir | 2024/day06/src/main.rs:71-78 | `next_dir`: a right turn; `NextDirCycle` states the turn order Up, Right, Down, Left, that four turns change nothing and that a turn always changes the direction |
| Y2024Day06.Visited | 2024/day06/src/main.rs:158-204 | `count_visited` with `update_visited_cells`: the cells the guard covers until it leaves; `VisitedGrows` states every walked segment is included, `VisitedInField` that all lie in the field, and `CountVisited` computes exactly this set |
| Y2024Day06.LoopFound | 2024/day06/src/main.rs:130-155 | `detect_loop`: the walk with its newest-first history of stops, reporting a loop when a stop reaches a cell already in the history; `ExitIffNoLoop` states it answers no loop exactly when the guard leaves the field, and `DetectLoop` computes exactly this answer |
| Y2024Day07.ParseLine | 2024/day07/src/main.rs:8-17 | a parsed equation has its test value before a colon and its numbers as the whitespace-separated `u64` values after it |
| Y2024Day07.ParseInput | 2024/day07/src/main.rs:34-36 | one equation per line, each the parse of that line; any failing line aborts |
| Y2024Day07.ParseShowLine | 2024/day07/src/main.rs:8-17 | an equation within `u64` range, written as `test: n1 n2 …`, parses back to itself |
| Y2024Day07.BaseDigits | 2024/day07/src/main.rs:75-89 | the base-b digit vector has exactly `width` entries |
| Y2024Day07.BaseDigitsSnoc | 2024/day07/src/main.rs:81-87 | the last digit is num mod base, and the digits before it are those of num / base |
| Y2024Day07.BaseDigitsBelow | 2024/day07/src/main.rs:83-84 | every digit is below the base |
| Y2024Day07.BaseDigitsValue | 2024/day07/src/main.rs:75-89 | for num < base^width, the digits read back in base b give num |
| Y2024Day07.BaseDigitsOfValue | 2024/day07/src/main.rs:75-89 | every digit vector below the base is the conversion of its own value, so conversion is onto |
| Y2024Day07.ConvertBase | 2024/day07/src/main.rs:75-89 | the division loop fills the vector from the right with the base-b digits of num |
| Y2024Day07.ConcatDigits | 2024/day07/src/main.rs:91-94 | concatenation writes the digits of the second number after those of the first; a zero first number leaves just the second |
| Y2024Day07.ConcatDecimals | 2024/day07/src/main.rs:91-94 | `concat_decimals`: the first number shifted by the second one's digit count, plus the second; `ConcatDigits` proves the digits are written one after the other |
| Y2024Day07.EvalUniform | 2024/day07/src/main.rs:61-70 | folding with only additions gives the sum, with only multiplications the product |
| Y2024Day07.Eval | 2024/day07/src/main.rs:61-70 | the fold of one operator choice, left to right from the first number; `EvalUniform` and `SolvableIff` state what it computes |
| Y2024Day07.Choice | 2024/day07/src/main.rs:59 | the i-th operator choice has one operator per gap, each of an allowed kind |
| Y2024Day07.ChoiceOf | 2024/day07/src/main.rs:53-59 | every allowed operator sequence is the choice numbered by its own value, which is below numops^(len-1) |
| Y2024Day07.AnyOfIff | 2024/day07/src/main.rs:61-72 | trying the first n choices succeeds exactly when one of them evaluates to the test value |
| Y2024Day07.SolvableOf | 2024/day07/src/main.rs:48-73 | allowed operators that produce the test value make the equation solvable |
| Y2024Day07.SolvableIff | 2024/day07/src/main.rs:48-73 | an equation is solvable exactly when some operators of the allowed kinds, one per gap, evaluated left to right, give the test value |
| Y2024Day07.Solvable | 2024/day07/src/main.rs:48-73 | `solvable`: `any` over all `numops^(len-1)` operator choices; `SolvableIff` proves it holds exactly when some left-to-right operator sequence hits the test value |
| Y2024Day07.SolvableMonotone | 2024/day07/src/main.rs:49 | allowing concatenation never loses a solvable equation |
| Y2024Day07.SolvableSingle | 2024/day07/src/main.rs:48-73 | with the corrected width, a single number is solvable exactly when it equals the test value |
| Y2024Day07.QuotientBounds | 2024/day07/src/main.rs:56 | dividing a number in [b·p, b·b·p) by b lands in [p, b·p) |
| Y2024Day07.ILogOfBounds | 2024/day07/src/main.rs:56 | `ilog(b)` of a number in [b^k, b^(k+1)) is k |
| Y2024Day07.BinWidthGaps | 2024/day07/src/main.rs:53-56 | for two or more numbers the computed width `ilog(numops^(len-1) + 1)` equals the number of gaps |
| Y2024Day07.BinWidth | 2024/day07/src/main.rs:53-56 | `bin_width` as written, `ilog(numops^(len-1) + 1)`; `BinWidthGaps` and `BinWidthSingle` state its value |
| Y2024Day07.BinWidthSingle | 2024/day07/src/main.rs:53-56 | for a single number the computed width is 1 without concatenation and 0 with it, not the 0 gaps the equation has |
| Y2024Day07.CalibratedMonotone | 2024/day07/src/main.rs:38-45 | part 2's calibration sum is at least part 1's |
| Y2024Day07.CalibratedAppend | 2024/day07/src/main.rs:38-45 | the sum counts an equation's test value exactly when the equation is solvable |
| Y2024Day07.CalibratedSum | 2024/day07/src/main.rs:38-45 | `calibrated_sum`: the test values of the solvable equations added up; `CalibratedAppend` and `CalibratedMonotone` state its properties |
| Y2024Day07.Apply | 2024/day07/src/main.rs:64-68 | one operator of `solvable`: 0 adds, 1 multiplies, 2 concatenates, where concatenation writes the digits of the next number after those of the running value (a zero running value vanishes) |
| Y2024Day08.Antinodes | 2024/day08/src/main.rs:65-75 | a pair has exactly two antinodes |
| Y2024Day08.AntinodesMeaning | 2024/day08/src/main.rs:65-75 | the antinodes are the points 2 and −1 steps of `ant2 - ant1` from `ant1`, one antenna twice as far as the other; swapping the pair swaps them |
| Y2024Day08.Ray | 2024/day08/src/main.rs:78-83 | `take_while` keeps only in-bounds points |
| Y2024Day08.RayMembers | 2024/day08/src/main.rs:78-89 | the ray holds exactly the in-bounds points a whole number of steps from an in-bounds start: stepping never jumps out of bounds and back in |
| Y2024Day08.Harmonics | 2024/day08/src/main.rs:77-92 | every harmonic of a pair is in bounds |
| Y2024Day08.HarmonicsEven | 2024/day08/src/main.rs:77-92 | from an in-bounds `ant1`, the harmonics are exactly the in-bounds points an even multiple of `ant2 - ant1` away from `ant1`, forwards or backwards |
| Y2024Day08.HarmonicsEvenSound | 2024/day08/src/main.rs:78-91 | every harmonic is an even multiple of the offset from `ant1` |
| Y2024Day08.HarmonicsEvenComplete | 2024/day08/src/main.rs:78-91 | every in-bounds even multiple is a harmonic |
| Y2024Day08.OnLineSwap | 2024/day08/src/main.rs:77-92 | k steps from `ant2` towards `ant1` is 1−k steps from `ant1` towards `ant2`, so the reversed pair yields the odd multiples |
| Y2024Day08.HarmonicsCover | 2024/day08/src/main.rs:43-58 | both orderings of a pair of in-bounds antennas together give exactly the in-bounds points a whole multiple of `ant2 - ant1` from `ant1`, the whole grid line |
| Y2024Day08.AntinodeSet | 2024/day08/src/main.rs:26-41 | every antinode found lies within the boundary |
| Y2024Day08.HarmonicSet | 2024/day08/src/main.rs:43-58 | every antinode found with harmonics lies within the boundary |
| Y2024Day08.AntinodeSetMeaning | 2024/day08/src/main.rs:26-41 | a point is an antinode exactly when it is in bounds and lies on the line of two distinct same-frequency antennas, twice as far from one as from the other |
| Y2024Day08.HarmonicSetMeaning | 2024/day08/src/main.rs:43-58 | with all antennas in bounds, a point is an antinode with harmonics exactly when it is in bounds and on the grid line through two distinct same-frequency antennas |
| Y2024Day08.AntinodesAmongHarmonics | 2024/day08/src/main.rs:26-58 | with all antennas in bounds, part 2 finds every antinode of part 1 |
| Y2024Day08.ParseBoundary | 2024/day08/src/main.rs:95-100 | a boundary exists exactly when the input has a line (the source panics otherwise) |
| Y2024Day08.ParseAntennas | 2024/day08/src/main.rs:119-127 | the nested loops over lines and characters build the reference map, cell by cell in reading order |
| Y2024Day08.AddRowMeaning | 2024/day08/src/main.rs:102-117 | one row appends, to each non-`.` character's list, its positions in that row, left to right; lists stay non-empty |
| Y2024Day08.AntennasMeaning | 2024/day08/src/main.rs:119-127 | each character other than `.` maps to all its positions in row-major order, `.` is never a key, and there are no empty lists |
| Y2024Day08.RowPositionsMeaning | 2024/day08/src/main.rs:122-123 | the positions recorded in one row are exactly the cells holding the character, left to right |
| Y2024Day08.PositionsMeaning | 2024/day08/src/main.rs:121-125 | the positions recorded are exactly the cells holding the character, each once, in row-major order |
| Y2024Day08.AntennasWithin | 2024/day08/src/main.rs:95-127 | on a rectangular grid every antenna lies within the boundary read from the last line and the line count |
| Y2024Day08.Within | 2024/day08/src/main.rs:61-63 | `coord_within_bound`: both coordinates are non-negative and below the boundary; `AntennasWithin` states every parsed antenna of a rectangular map is within the boundary |
| Y2024Day08.ParseCell | 2024/day08/src/main.rs:102-116 | `parse_cell`: a `.` leaves the map unchanged; any other character gains its position at the end of its own list (a new list on first sight) and every other list is unchanged |
| Y2024Day09.DigitPrefix | 2024/day09/src/main.rs:88-90 | `take_while(is_digit)` keeps the longest all-digit prefix: it stops at the first non-digit or at the end |
| Y2024Day09.RepeatCount | 2024/day09/src/main.rs:94-95 | `vec![b; d]` holds d blocks, all equal to b |
| Y2024Day09.DecodeDigitsLength | 2024/day09/src/main.rs:86-100 | the disk has as many blocks as the digits add up to |
| Y2024Day09.DecodeDigitsCount | 2024/day09/src/main.rs:91-97 | file `id` occupies exactly as many blocks as the digit at index 2·id says, and none when there is no such digit |
| Y2024Day09.DecodeStops | 2024/day09/src/main.rs:88-90 | decoding reads the digits up to the first other character (a trailing line feed, say) and ignores the rest |
| Y2024Day09.ChecksumClear | 2024/day09/src/main.rs:15-24 | each file block adds its position times its id and free blocks add nothing: clearing block k takes exactly its share off the checksum |
| Y2024Day09.ChecksumFree | 2024/day09/src/main.rs:15-24 | a disk without files has checksum 0 |
| Y2024Day09.LastFile | 2024/day09/src/main.rs:69-75 | on a disk with a file, the index found is a file block with only free blocks after it |
| Y2024Day09.FillFree | 2024/day09/src/main.rs:80-81 | moving the last file block into the free block i only rearranges the disk and fills block i |
| Y2024Day09.CompactedAfter | 2024/day09/src/main.rs:76-78 | once the last file block is at or before i and every block before i holds a file, the disk is compacted |
| Y2024Day09.CompactFromPermutes | 2024/day09/src/main.rs:66-84 | the reference compaction (fill the first free block with the last file block while that lies further right) only rearranges the blocks |
| Y2024Day09.CompactFromCompacted | 2024/day09/src/main.rs:66-84 | started where the blocks before i hold files, the reference compaction leaves no file block after a free one |
| Y2024Day09.CompactExample | 2024/day09/src/main.rs:66-84 | the reference compaction is fixed block by block: `0.11` becomes `011.`, with checksum 3 |
| Y2024Day09.Compact | 2024/day09/src/main.rs:66-84 | the loop leaves exactly the reference compaction `CompactFrom` of the old disk, hence the same blocks (multiset) with no file block after a free one; the source's `unwrap` requires a file whenever there is free space |
| Y2024Day09.WindowFrom | 2024/day09/src/main.rs:47-57 | the position found from i on is the first one before `start` that opens a free window of the file's length; none is found only when no such window exists there |
| Y2024Day09.FirstWindow | 2024/day09/src/main.rs:47-57 | the position found is the leftmost window before `start` of `len` free blocks; none is found only when no such window exists |
| Y2024Day09.MoveFile | 2024/day09/src/main.rs:60-62 | the blocks after the swaps make a disk of the same length |
| Y2024Day09.MoveNothing | 2024/day09/src/main.rs:60-62 | zero swaps leave the disk unchanged |
| Y2024Day09.MoveFilePermutes | 2024/day09/src/main.rs:60-62 | swapping the file into a free window only rearranges the blocks |
| Y2024Day09.MoveFileStep | 2024/day09/src/main.rs:60-62 | each swap moves the next file block into the window and leaves a free block behind |
| Y2024Day09.SwapEmptySpace | 2024/day09/src/main.rs:46-64 | the blocks are rearranged; with no free window of the file's length before it nothing changes, otherwise the file moves into the leftmost such window |
| Y2024Day09.SwapBlocks | 2024/day09/src/main.rs:60-62 | the swap loop moves the file block by block into the window |
| Y2024Day09.CompactKeepFiles | 2024/day09/src/main.rs:26-44 | the right-to-left scan over the files only rearranges the blocks |
| Y2024Day09.Decode | 2024/day09/src/main.rs:86-100 | `decode`: the digits up to the first non-digit, alternating file lengths and free lengths; `DecodeStops` states the text after the digits is ignored, and the `DecodeDigits` lemmas give the layout's length and each file's block count |
| Y2024Day09.Checksum | 2024/day09/src/main.rs:15-24 | `checksum`: the sum of position times id over the file blocks; `ChecksumClear` states clearing one block removes exactly its share and `ChecksumFree` that a disk of free blocks sums to zero |
| Y2024Day10.CellHeight | 2024/day10/src/main.rs:130-133 | a cell is at most 9 exactly when it is a decimal digit, and then it is that digit's value; any other character becomes `u8::MAX` |
| Y2024Day10.Parse | 2024/day10/src/main.rs:125-137 | the map has one row per input line and each row one cell per character |
| Y2024Day10.ParseMeaning | 2024/day10/src/main.rs:125-137 | every cell holds its character's digit value, cells of non-digits are above 9, and lines of equal length give a rectangular map |
| Y2024Day10.At | 2024/day10/src/main.rs:121-123 | the lookup yields a height exactly when the position is on the map, and then the height stored there |
| Y2024Day10.KeepInside | 2024/day10/src/main.rs:111-118 | the candidates kept are exactly those with both coordinates in `[0, lenx)` and `[0, leny)` |
| Y2024Day10.Neighbours | 2024/day10/src/main.rs:104-119 | a position has at most four neighbours |
| Y2024Day10.NeighboursMeaning | 2024/day10/src/main.rs:104-119 | on a rectangular map, q is a neighbour of c exactly when q is one orthogonal step from c and on the map |
| Y2024Day10.Climbable | 2024/day10/src/main.rs:76-83 | the next positions are exactly the candidates one unit higher that the path has not visited yet |
| Y2024Day10.Nexts | 2024/day10/src/main.rs:76-83 | every next position is on the map and exactly one unit higher than the current one |
| Y2024Day10.ReachingTopAppend | 2024/day10/src/main.rs:96 | the filter keeping hikes that end at height 9 distributes over concatenation |
| Y2024Day10.ReachingTopNone | 2024/day10/src/main.rs:96 | the filter drops every hike that does not end at height 9 |
| Y2024Day10.ReachingTopAll | 2024/day10/src/main.rs:96 | the filter keeps a list of hikes that all end at height 9 unchanged |
| Y2024Day10.HikesShape | 2024/day10/src/main.rs:60-102 | every hike the search should find from `pos` extends the visited path by `pos` and then climbs one unit per orthogonal step up to height 9 |
| Y2024Day10.Hikes | 2024/day10/src/main.rs:60-102 | the reference for `traverse`: every climbing extension of the path through `pos` up to height 9; `HikesShape`, `HikesComplete` and `TrailheadHikes` prove it holds exactly the hikes |
| Y2024Day10.SummitShape | 2024/day10/src/main.rs:70-74 | at height 9 the only hike is the visited path plus the summit |
| Y2024Day10.HikesUnfold | 2024/day10/src/main.rs:76-97 | below height 9 the hikes from `pos` are those through each valid next position, in order |
| Y2024Day10.ShapeExtend | 2024/day10/src/main.rs:76-94 | a trail from a valid next position, prefixed with `pos`, is a trail from `pos` |
| Y2024Day10.HikesEachShape | 2024/day10/src/main.rs:89-95 | every hike through one of several next positions starts with the path, goes on through one of them and climbs to 9 |
| Y2024Day10.HikesComplete | 2024/day10/src/main.rs:60-102 | conversely every trail that extends the visited path by `pos` and climbs to 9 is among the hikes from `pos` (no trail is missed) |
| Y2024Day10.SummitComplete | 2024/day10/src/main.rs:70-74 | at height 9 the visited path plus the summit is a hike |
| Y2024Day10.ClimbStep | 2024/day10/src/main.rs:76-83 | a trail's next position passes both filters of the search: it is one higher and not yet visited |
| Y2024Day10.HikesEachComplete | 2024/day10/src/main.rs:89-95 | every trail through one of the next positions is among the hikes through them |
| Y2024Day10.TrailheadHikes | 2024/day10/src/main.rs:39-52 | from a trailhead, the hikes are exactly the ten-position trails starting there that climb one unit per orthogonal step |
| Y2024Day10.TraverseMeaning | 2024/day10/src/main.rs:60-102 | `traverse` returns the hikes passed in followed by exactly the hikes from `pos` in search order, as long as none of the hikes passed in ends at 9 |
| Y2024Day10.Traverse | 2024/day10/src/main.rs:60-102 | `traverse` as written, threading the hikes found so far and filtering after each fork; `TraverseMeaning` proves it returns them followed by exactly the hikes from `pos` |
| Y2024Day10.TraverseOnward | 2024/day10/src/main.rs:85-87 | with a single next position the search follows it without losing or adding hikes |
| Y2024Day10.TraverseForks | 2024/day10/src/main.rs:89-101 | at a fork or dead end the hikes found through every branch, filtered, are exactly the hikes from `pos` |
| Y2024Day10.PathBelowTop | 2024/day10/src/main.rs:92-93 | a partial path pushed into the branch's hike list does not end at height 9 |
| Y2024Day10.TraverseFork | 2024/day10/src/main.rs:89-101 | the unfolding of `traverse` at a fork or dead end |
| Y2024Day10.HikesEachOne | 2024/day10/src/main.rs:89-95 | the hikes through a single next position are the hikes from it |
| Y2024Day10.TraverseEachMeaning | 2024/day10/src/main.rs:89-97 | the `flat_map` over the branches, after the height-9 filter, leaves exactly the hikes through the branches: the partial paths threaded into them are all filtered out |
| Y2024Day10.BranchMeaning | 2024/day10/src/main.rs:92-96 | one branch, after the filter, yields exactly the hikes from its position |
| Y2024Day10.HikesReachTop | 2024/day10/src/main.rs:96 | every hike ends at height 9, so the filter keeps them all |
| Y2024Day10.Trailheads | 2024/day10/src/main.rs:26-37 | every trailhead is on the map at height 0 |
| Y2024Day10.RowHeads | 2024/day10/src/main.rs:31-34 | a row contributes exactly its height-0 columns, left to right |
| Y2024Day10.TrailheadsMeaning | 2024/day10/src/main.rs:26-37 | the trailheads are exactly the height-0 positions, each once, in row-major order |
| Y2024Day10.UniqueHikesBound | 2024/day10/src/main.rs:54-58 | there are no more distinct hike ends than hikes |
| Y2024Day10.UniqueHikes | 2024/day10/src/main.rs:54-58 | `unique_hikes`: the number of distinct last positions; `UniqueHikesBound` bounds it by the number of hikes |
| Y2024Day10.EndsSnoc | 2024/day10/src/main.rs:55-56 | the set of ends grows by the last hike's end when a hike is appended |
| Y2024Day10.TraverseFromHead | 2024/day10/src/main.rs:44 | from a trailhead, `traverse` with empty hikes and path returns exactly the hikes from it, each ten positions long |
| Y2024Day10.SumScoresOrdered | 2024/day10/src/main.rs:41-51 | summed over any trailheads, the part-1 scores never exceed the part-2 scores |
| Y2024Day10.SumScores | 2024/day10/src/main.rs:41-51 | the scores of the given trailheads added up, distinct ends for part 1 and hikes for part 2; `SumScoresOrdered` orders the two |
| Y2024Day10.TraverseAllHeads | 2024/day10/src/main.rs:39-52 | `traverse_all_heads`: the summed scores of all trailheads; `TraverseAllHeadsOrdered` proves part 1 never exceeds part 2 |
| Y2024Day10.TraverseAllHeadsOrdered | 2024/day10/src/main.rs:39-52 | the part-1 total never exceeds the part-2 total |
| Y2024Day11.Log10 | 2024/day11/src/main.rs:119-121 | `ilog10` of a positive number is one less than its count of decimal digits |
| Y2024Day11.HalfPow | 2024/day11/src/main.rs:66-71 | the divisor that splits a stone is positive |
| Y2024Day11.BlinkStone | 2024/day11/src/main.rs:60-75 | one blink turns a stone into one or two stones |
| Y2024Day11.BlinkStoneRules | 2024/day11/src/main.rs:60-75 | a 0 becomes 1; a stone with an odd count of digits is multiplied by 2024; a stone with an even count of digits becomes two stones, the left half of its digits and the value of the right half |
| Y2024Day11.SplitHalves | 2024/day11/src/main.rs:66-71 | for a stone of 2k digits the two halves h and l satisfy h·10^k + l = stone, h has exactly k digits and l is below 10^k |
| Y2024Day11.Blink | 2024/day11/src/main.rs:34-36 | a blink over a row keeps at least as many stones and at most doubles them |
| Y2024Day11.BlinkAppend | 2024/day11/src/main.rs:34-36 | stones blink independently: blinking a concatenation is the concatenation of the blinks |
| Y2024Day11.BlinkSnoc | 2024/day11/src/main.rs:34-36 | blinking one more stone appends that stone's blink |
| Y2024Day11.BlinkN | 2024/day11/src/main.rs:11-14 | repeated blinking never shrinks the row |
| Y2024Day11.BlinkNAppend | 2024/day11/src/main.rs:38-43 | after any number of blinks the row is the concatenation of what each part becomes, which is why the counts per stone may be added |
| Y2024Day11.BlinkNSnoc | 2024/day11/src/main.rs:38-43 | after any number of blinks the count for a row grows by the count for one more stone |
| Y2024Day11.BlinkNEmpty | 2024/day11/src/main.rs:38-43 | an empty row stays empty |
| Y2024Day11.BlinkSingle | 2024/day11/src/main.rs:34-36 | blinking a row of one stone is that stone's blink |
| Y2024Day11.BlinkNOne | 2024/day11/src/main.rs:45-58 | blinking one stone d times is blinking its one or two successors d-1 times |
| Y2024Day11.NStonesDepth | 2024/day11/src/main.rs:45-58 | the recursive count for one stone equals the length of the row it becomes after `depth` blinks |
| Y2024Day11.BlinkStoneCounter | 2024/day11/src/main.rs:38-43 | the summed counts equal the number of stones after `depth` blinks of the whole row |
| Y2024Day11.BlinkAt | 2024/day11/src/main.rs:82-96 | one step of the in-place blink replaces the stone at p by its blink, inserting the second half right after it, and reports how many stones were inserted |
| Y2024Day11.BlinkMut | 2024/day11/src/main.rs:77-98 | the in-place blink over the deque leaves exactly the row that `blink` computes |
| Y2024Day11.Parse | 2024/day11/src/main.rs:100-105 | on success there is one stone per whitespace-separated word, each below 2^64 |
| Y2024Day11.ParseSpaced | 2024/day11/src/main.rs:100-105 | parsing the numbers written with single spaces gives back the numbers |
| Y2024Day11.Deque.Insert | 2024/day11/src/main.rs:88-91 | `VecDeque::insert` puts the value at the index and shifts the stones after it one place right |
| Y2024Day11.Log10Even | 2024/day11/src/main.rs:114-116 | `numdigits_even`: `ilog10` is even exactly when the number has an odd count of decimal digits |
| Y2025Day01.RustRem100 | 2025/day01/src/main.rs:25 | Rust's `%` on a signed number: the remainder has the dividend's sign, lies strictly within ±100, and differs from the dividend by a multiple of 100 |
| Y2025Day01.AsU32 | 2025/day01/src/main.rs:48-53 | `as u32` yields a value below 2^32 that equals the number whenever it already fits |
| Y2025Day01.NewDial | 2025/day01/src/main.rs:20-29 | after a rotation the dial is on 0..99 at the rotated position taken modulo 100 ('L' turns down, any other direction up) |
| Y2025Day01.Trace | 2025/day01/src/main.rs:19-33 | there is one dial position per rotation |
| Y2025Day01.Part1CountsZeros | 2025/day01/src/main.rs:18-35 | part 1's fold counts exactly the rotations after which the dial shows 0 |
| Y2025Day01.DivStep | 2025/day01/src/main.rs:48-53 | one more click adds one to the quotient by 100 exactly when it lands on a multiple of 100 |
| Y2025Day01.ClicksCountZeroHits | 2025/day01/src/main.rs:44-54 | for distances that do not overflow, `clicks0` equals the number of single clicks of the rotation that land on 0 |
| Y2025Day01.HitsClosedForm | 2025/day01/src/main.rs:44-54 | the clicks landing on 0 have the closed form the source computes: (dial+dist)/100 to the right, dist/100 to the left from 0, (100-dial+dist)/100 to the left otherwise |
| Y2025Day01.HitsRight | 2025/day01/src/main.rs:53 | turning right, (dial+dist)/100 clicks land on 0 |
| Y2025Day01.HitsLeftFromZero | 2025/day01/src/main.rs:46-48 | turning left from 0, dist/100 clicks land on 0; the start itself is not counted again |
| Y2025Day01.HitsLeft | 2025/day01/src/main.rs:49-51 | turning left from a non-zero dial, (100-dial+dist)/100 clicks land on 0 |
| Y2025Day01.ZeroModMirror | 2025/day01/src/main.rs:49-51 | mirroring a position about 0 keeps it a multiple of 100 or not |
| Y2025Day01.LandingIsAClick | 2025/day01/src/main.rs:44-60 | a rotation of positive distance that leaves the dial at 0 counts at least one click onto 0 |
| Y2025Day01.HitsLast | 2025/day01/src/main.rs:44-54 | a rotation whose last click lands on 0 counts at least one hit |
| Y2025Day01.Part2AtLeastPart1 | 2025/day01/src/main.rs:18-65 | from any dial, with positive distances, part 2's fold never counts fewer zeros than part 1's |
| Y2025Day01.PasswordsOrdered | 2025/day01/src/main.rs:18-65 | the part-1 password never exceeds the part-2 password |
| Y2025Day01.ParseRotation | 2025/day01/src/main.rs:70-75 | a line parses exactly when it is non-empty and the rest after the first character is an `i32` (an integer in [-2^31, 2^31)); the direction is the first character and the distance that integer |
| Y2025Day01.PasswordPart1 | 2025/day01/src/main.rs:18-35 | `password_part1`: the count of rotations that leave the dial on 0; `Part1CountsZeros` states it counts the zeros of the trace of positions, and `PasswordsOrdered` that part 2 counts at least as many |
| Y2025Day01.PasswordPart2 | 2025/day01/src/main.rs:37-65 | `password_part2`: the count of clicks onto 0 during all rotations; `PasswordsOrdered` and `Part2AtLeastPart1` state that with positive distances it is at least the part 1 count |
| Y2025Day01.Parse | 2025/day01/src/main.rs:67-78 | `parse`: one rotation per line; it succeeds exactly when every line parses, and then the k-th rotation is that of the k-th line |
| Y2025Day02.Repeat | 2025/day02/src/main.rs:54-62 | a block written n times has n times the block's length |
| Y2025Day02.RepeatDigits | 2025/day02/src/main.rs:54-62 | repeating decimal digits gives decimal digits |
| Y2025Day02.RepeatHead | 2025/day02/src/main.rs:54-62 | a repetition starts with the block's first digit |
| Y2025Day02.RepeatNum | 2025/day02/src/main.rs:55-62 | the loop adding `num·10^(i·digits)` for i below n yields the number whose decimal text is `num`'s text written n times |
| Y2025Day02.RepeatsTwiceIff | 2025/day02/src/main.rs:32-43 | comparing the upper and lower halves by division holds exactly when the decimal text has even length and its two halves are the same text |
| Y2025Day02.HalvesEqual | 2025/day02/src/main.rs:37-39 | for 2k digits, `num / 10^k == num % 10^k` holds exactly when the first k digits equal the last k |
| Y2025Day02.AnyPrefixRepeatsIff | 2025/day02/src/main.rs:48-51 | `any` over the candidates from index i is true exactly when some candidate from i on gives the number back |
| Y2025Day02.RepeatsAtLeastTwiceIff | 2025/day02/src/main.rs:45-52 | the candidate search is true exactly when the decimal text is some block written at least twice |
| Y2025Day02.CandidateIsBlock | 2025/day02/src/main.rs:48-51 | a matching candidate means the text is its leading i+1 digits written digits/(i+1) ≥ 2 times |
| Y2025Day02.BlockIsCandidate | 2025/day02/src/main.rs:48-51 | conversely a block written m ≥ 2 times is found by the candidate whose index is the block's length minus one |
| Y2025Day02.BlockShape | 2025/day02/src/main.rs:48-50 | a block written m ≥ 2 times has a length k within the candidates' range, digits/k = m, and repeating the number's leading k digits m times gives it back |
| Y2025Day02.BlockPrefix | 2025/day02/src/main.rs:48-50 | the leading |b| digits of a repetition of b, repeated m times, give the number back |
| Y2025Day02.RepeatValueOf | 2025/day02/src/main.rs:55-62 | repeating a number's value is repeating its digit text |
| Y2025Day02.PrefixRepeatsIntro | 2025/day02/src/main.rs:48-51 | a prefix length in range whose repetition gives the number is a matching candidate |
| Y2025Day02.TwiceIsAtLeastTwice | 2025/day02/src/main.rs:32-52 | a number flagged by `repeats_twice` is flagged by `repeats_atleast_twice` |
| Y2025Day02.RepeatTwo | 2025/day02/src/main.rs:55-62 | a block written twice is the block followed by itself |
| Y2025Day02.InvalidIdsExact | 2025/day02/src/main.rs:16-30 | both parts list, in ascending order, exactly the ids of `start..=end` that their predicate flags |
| Y2025Day02.Part1IdsInPart2 | 2025/day02/src/main.rs:16-30 | every id listed in part 1 is listed in part 2 |
| Y2025Day02.ParseRange | 2025/day02/src/main.rs:68-73 | a piece parses exactly when it has a '-' and the texts before the first and second '-' are `u64` numbers (below 2^64), and then the range runs from the first to the second |
| Y2025Day02.FormatFacts | 2025/day02/src/main.rs:64-75 | a range written `start-end` contains neither ',' nor a line feed, and parses back to itself when both bounds are below 2^64 |
| Y2025Day02.RepeatsTwice | 2025/day02/src/main.rs:32-42 | `repeats_twice`; `RepeatsTwiceIff` states it holds exactly when the decimal digits have even length and their two halves are equal |
| Y2025Day02.RepeatsAtLeastTwice | 2025/day02/src/main.rs:45-52 | `repeats_atleast_twice`; `RepeatsAtLeastTwiceIff` states it holds exactly when the digits are some block repeated at least twice, and `TwiceIsAtLeastTwice` that part 1's ids are among them |
| Y2025Day02.InvalidIdsPart1 | 2025/day02/src/main.rs:16-22 | `invalid_ids_part1`; `InvalidIdsExact` states it lists, ascending, exactly the ids of the range whose digits repeat twice |
| Y2025Day02.InvalidIdsPart2 | 2025/day02/src/main.rs:24-30 | `invalid_ids_part2`; `InvalidIdsExact` states it lists, ascending, exactly the ids of the range whose digits repeat at least twice, and `Part1IdsInPart2` that it includes part 1's list |
| Y2025Day02.Parse | 2025/day02/src/main.rs:64-75 | `parse`: line feeds removed, one range per comma-separated piece; it succeeds exactly when every piece parses, and then the k-th range is that of the k-th piece |
| Y2025Day03.RevMaxIn | 2025/day03/src/main.rs:36-43 | the maximum found by `rev().max_by_key` lies inside the window |
| Y2025Day03.RevMaxInLeftmost | 2025/day03/src/main.rs:36-43 | reversing before `max_by_key`, which keeps the last of equal maxima, finds the leftmost maximum of the window |
| Y2025Day03.LeftmostMaxUnique | 2025/day03/src/main.rs:36-43 | a window has only one leftmost maximum |
| Y2025Day03.RevMaxInIs | 2025/day03/src/main.rs:36-43 | the search returns the window's leftmost maximum, whichever way it is described |
| Y2025Day03.FindMaxLeftmost | 2025/day03/src/main.rs:35-45 | `findmax` returns the position of the leftmost maximum of `bank[skip..skip+take]` (cut at the end of the bank) and the digit there |
| Y2025Day03.Greedy | 2025/day03/src/main.rs:25-31 | the loop chooses n positions, all at or after `skip` and inside the bank |
| Y2025Day03.Pick | 2025/day03/src/main.rs:25-31 | there is one chosen digit per chosen position |
| Y2025Day03.GreedyJoltageStep | 2025/day03/src/main.rs:26-30 | one round picks the leftmost maximum of a window that leaves m-1 batteries after it and adds that digit times 10^(m-1) |
| Y2025Day03.MaxJoltagePart2 | 2025/day03/src/main.rs:22-33 | the loop's sum is the number whose decimal digits are the batteries at the greedily chosen positions |
| Y2025Day03.LoopStep | 2025/day03/src/main.rs:25-31 | one iteration keeps the accumulated sum plus the greedy value of the rest equal to the final result |
| Y2025Day03.GreedyJoltageIsPick | 2025/day03/src/main.rs:25-31 | the weighted sum of the chosen digits is the value of the chosen digits read as a decimal number |
| Y2025Day03.JoltageBound | 2025/day03/src/main.rs:22-33 | with n batteries the joltage has at most n digits |
| Y2025Day03.PickDigits | 2025/day03/src/main.rs:25-31 | the chosen batteries are decimal digits |
| Y2025Day03.GreedyIncreasing | 2025/day03/src/main.rs:25-31 | the chosen positions are strictly increasing, so the batteries keep their order in the bank |
| Y2025Day03.ValueOfCons | 2025/day03/src/main.rs:30 | a leading digit contributes its value times 10 to the number of remaining digits |
| Y2025Day03.GreedyOptimal | 2025/day03/src/main.rs:22-33 | no choice of n batteries in bank order gives a larger number than the greedy one: `maxjoltage_part2` is the maximum joltage |
| Y2025Day03.GreedyOptimalSameLead | 2025/day03/src/main.rs:26-30 | a choice whose first battery is at least the greedy lead is not better than the greedy choice |
| Y2025Day03.SmallerLead | 2025/day03/src/main.rs:26-30 | a choice led by a smaller digit is below anything led by the greedy digit |
| Y2025Day03.EqualLead | 2025/day03/src/main.rs:26-30 | a choice led by the greedy digit is bounded by the greedy lead plus the best rest |
| Y2025Day03.LeadingDigitWins | 2025/day03/src/main.rs:30 | a smaller leading digit loses whatever follows |
| Y2025Day03.IncreasingTail | 2025/day03/src/main.rs:25-31 | the rest of an ordered choice is an ordered choice after its first position |
| Y2025Day03.IncreasingRoom | 2025/day03/src/main.rs:27 | an ordered choice of k batteries starting at position p needs p + k ≤ the bank's length, which is why each window leaves room for the remaining digits |
| Y2025Day03.IncreasingSpread | 2025/day03/src/main.rs:27 | in an ordered choice the k-th position is at least k after the first |
| Y2025Day03.FindMaxIs | 2025/day03/src/main.rs:35-45 | `findmax` over a window returns its leftmost maximum and that digit |
| Y2025Day03.Part1Value | 2025/day03/src/main.rs:47-69 | part 1's joltage is ten times the leftmost maximum of all but the last battery plus the leftmost maximum after it |
| Y2025Day03.GreedyOneValue | 2025/day03/src/main.rs:22-33 | choosing one battery gives the maximum of the rest of the bank |
| Y2025Day03.GreedyTwoValue | 2025/day03/src/main.rs:22-33 | choosing two batteries greedily gives the same two maxima |
| Y2025Day03.Part1Positions | 2025/day03/src/main.rs:47-65 | both searches of part 1 have a leftmost maximum |
| Y2025Day03.Part1IsGreedyTwo | 2025/day03/src/main.rs:47-69 | `maxjoltage_part1` equals `maxjoltage_part2` with two batteries, so it too is the maximum two-battery joltage |
| Y2025Day03.Parse | 2025/day03/src/main.rs:71-81 | the input parses exactly when every line holds only digits, and then each line gives one bank of its digit values |
| Y2025Day03.FindMax | 2025/day03/src/main.rs:35-45 | `findmax`: the window of `take` digits from `skip`; `FindMaxLeftmost` states it returns the leftmost position of the window's maximum and that digit, and `FindMaxIs` that any leftmost maximum is what it finds |
| Y2025Day03.MaxJoltagePart1 | 2025/day03/src/main.rs:47-69 | `maxjoltage_part1`; `Part1Value` states it is ten times the leftmost maximum before the last digit plus the leftmost maximum after it, and `Part1IsGreedyTwo` that it equals the part 2 greedy choice with two digits |
| Y2025Day04.NeighbourCells | 2025/day04/src/main.rs:48-65 | there are eight candidate cells around a roll |
| Y2025Day04.CountCounted | 2025/day04/src/main.rs:66-74 | the count of filtered candidates is at most the number of candidates |
| Y2025Day04.NumNeighbours | 2025/day04/src/main.rs:47-75 | a roll has at most eight neighbouring rolls |
| Y2025Day04.NeighbourCellsTouch | 2025/day04/src/main.rs:48-65 | the candidates are exactly the eight cells that touch the roll, diagonals included |
| Y2025Day04.CountCountedCard | 2025/day04/src/main.rs:66-74 | counting over candidates without repeats is the number of distinct rolls among them |
| Y2025Day04.CountedInCons | 2025/day04/src/main.rs:66-74 | the count grows by one exactly for a candidate with non-negative coordinates that holds a roll |
| Y2025Day04.NumNeighboursIsAdjacent | 2025/day04/src/main.rs:47-75 | `num_neighbours` is the number of rolls, at non-negative coordinates, that touch the roll |
| Y2025Day04.Accessible | 2025/day04/src/main.rs:29-35 | the rolls to remove are exactly the rolls with fewer than four neighbouring rolls |
| Y2025Day04.AccessibleFoldCounts | 2025/day04/src/main.rs:19-26 | in whatever order the hash set is visited, the fold adds exactly the accessible rolls to its start value |
| Y2025Day04.AccessibleInMinus | 2025/day04/src/main.rs:20-25 | visiting one more roll adds one exactly when that roll is accessible |
| Y2025Day04.Part1IsAccessible | 2025/day04/src/main.rs:19-26 | part 1 is the number of accessible rolls |
| Y2025Day04.RemoveShrinks | 2025/day04/src/main.rs:41 | removing a subset leaves as many rolls as were there minus the removed ones |
| Y2025Day04.Part2Removes | 2025/day04/src/main.rs:28-45 | the repeated removal ends with a subset of the rolls in which no roll is accessible, and returns the previous count plus every roll removed on the way |
| Y2025Day04.SubsetCard | 2025/day04/src/main.rs:41 | a subset is no larger than the set |
| Y2025Day04.Part2Bounds | 2025/day04/src/main.rs:28-45 | part 2 adds between none and all of the rolls to `previously_removed` |
| Y2025Day04.Part2AtLeastPart1 | 2025/day04/src/main.rs:19-45 | part 2 removes at least the rolls part 1 counts |
| Y2025Day04.RowRolls | 2025/day04/src/main.rs:83-90 | a line contributes exactly its '@' columns, at its row |
| Y2025Day04.GridRolls | 2025/day04/src/main.rs:78-94 | the rolls are exactly the (column, row) positions of '@' in the lines |
| Y2025Day04.TakeLines | 2025/day04/src/main.rs:81 | the lines kept are a prefix with no line equal to the two characters `/n`, and they stop only at such a line or at the end |
| Y2025Day04.Part1 | 2025/day04/src/main.rs:19-26 | `accessible_rolls_part1`; `Part1IsAccessible` states it counts exactly the rolls with fewer than four neighbouring rolls |
| Y2025Day04.Part2 | 2025/day04/src/main.rs:28-44 | `accessible_rolls_part2`; `Part2Removes` states it removes rolls until none is accessible and counts those removed, `Part2Bounds` bounds it by the roll count, and `Part2AtLeastPart1` that it is at least part 1 |
| Y2025Day04.ParseRolls | 2025/day04/src/main.rs:78-94 | `parse_rolls`: a roll sits at (column, row) exactly when that cell of a line before the first `/n` line is `@` |
| Y2025Day05.MergeRanges | 2025/day05/src/main.rs:54-59 | the merged range takes one of the two starts and one of the two ends and contains every id either range contains |
| Y2025Day05.TouchIff | 2025/day05/src/main.rs:36-41 | for non-empty ranges the four `contains` tests hold exactly when the ranges overlap, and the test is symmetric |
| Y2025Day05.MergeIsUnion | 2025/day05/src/main.rs:54-59 | merging two non-empty ranges that touch holds exactly the ids of both |
| Y2025Day05.Position | 2025/day05/src/main.rs:36-41 | `position` finds the first earlier range that touches the current one, or reports that none does |
| Y2025Day05.DedupRanges | 2025/day05/src/main.rs:32-52 | the merge loop never adds ranges, keeps every length free of underflow, and for non-empty ranges ends with ranges that pairwise do not touch and hold exactly the ids of the input |
| Y2025Day05.AfterMerge | 2025/day05/src/main.rs:44-45 | a merge removes exactly one range |
| Y2025Day05.MergeKeepsNoUnderflow | 2025/day05/src/main.rs:44-45 | a merge keeps `end + 1 - start` free of underflow |
| Y2025Day05.NoTouchKeepsApart | 2025/day05/src/main.rs:49 | when no earlier range touches the current one, the ranges up to it remain pairwise apart |
| Y2025Day05.MergeKeepsWellFormed | 2025/day05/src/main.rs:44-45 | a merge keeps every range non-empty |
| Y2025Day05.MergeKeepsApart | 2025/day05/src/main.rs:42-48 | after merging into the first touching range j, the ranges up to j remain apart, so restarting at j + 1 is sound |
| Y2025Day05.MergeApart | 2025/day05/src/main.rs:44 | a range apart from two touching ranges is apart from their merge |
| Y2025Day05.MergeKeepsIds | 2025/day05/src/main.rs:44-45 | a merge of touching ranges keeps the set of ids |
| Y2025Day05.AfterMergeIds | 2025/day05/src/main.rs:44-45 | the ids after a merge are those of the ranges before j, the merge, those between and those after i |
| Y2025Day05.IdsOfAround | 2025/day05/src/main.rs:44-45 | the ids of the ranges split around one range |
| Y2025Day05.IdsOfOne | 2025/day05/src/main.rs:44-45 | the ids of a single range |
| Y2025Day05.IdsOfAppend | 2025/day05/src/main.rs:44-45 | the ids of concatenated range lists are the union of their ids |
| Y2025Day05.IdsOfContains | 2025/day05/src/main.rs:61-71 | an id is among the ranges' ids exactly when some range contains it |
| Y2025Day05.IdsCard | 2025/day05/src/main.rs:26 | a range without underflow holds `end + 1 - start` ids |
| Y2025Day05.SumLengthsCard | 2025/day05/src/main.rs:22-28 | for non-empty ranges that pairwise do not touch, the summed lengths count their ids |
| Y2025Day05.NumFreshIds | 2025/day05/src/main.rs:18-29 | for non-empty ranges the result is the number of distinct fresh ids, and the deduplicated ranges hold exactly the input's ids |
| Y2025Day05.SumLengthsNat | 2025/day05/src/main.rs:22-28 | lengths without underflow add up to a non-negative sum |
| Y2025Day05.AnyContainsIds | 2025/day05/src/main.rs:65-67 | `any(contains)` holds exactly when the id is among the ranges' ids |
| Y2025Day05.AvailableAndFresh | 2025/day05/src/main.rs:61-71 | no more ids are counted than are available |
| Y2025Day05.FreshPositionsStep | 2025/day05/src/main.rs:62-70 | one more available id adds its position exactly when it is fresh |
| Y2025Day05.FreshPositionsPrefix | 2025/day05/src/main.rs:62-70 | the fresh positions below n depend only on the first n ids |
| Y2025Day05.AvailableAndFreshCounts | 2025/day05/src/main.rs:61-71 | part 1 counts exactly the positions of the available list whose id some range contains, repeats included |
| Y2025Day05.AvailableAndFreshByIds | 2025/day05/src/main.rs:61-71 | part 1 depends only on the set of fresh ids, so it gives the same count before and after deduplication |
| Y2025Day05.ParseRange | 2025/day05/src/main.rs:79-84 | a line parses exactly when it has a '-' and the texts before the first and second '-' are `u64` numbers (below 2^64), and then gives that range |
| Y2025Day05.ParseRangeFormat | 2025/day05/src/main.rs:79-84 | a range written `start-end` with both bounds below 2^64 parses back to itself |
| Y2025Day05.ParseFresh | 2025/day05/src/main.rs:73-86 | `parse_fresh`: one range per line of the block before the first blank line, `None` where a line does not parse; `ParseRange` and `ParseRangeFormat` state what a line gives |
| Y2025Day05.ParseAvailables | 2025/day05/src/main.rs:88-97 | an input without a blank line has no block of available ids and is rejected; otherwise every line after it must parse as a `u64` |
| Y2025Day06.OpFromStr | 2025/day06/src/main.rs:10-16 | "+" is addition, "*" multiplication, and every other word is rejected (the source panics) |
| Y2025Day06.FoldFromMeaning | 2025/day06/src/main.rs:36-43 | the fold from an accumulator adds the sum of the numbers to it for '+' and multiplies it by their product for '*' |
| Y2025Day06.ProductCons | 2025/day06/src/main.rs:42 | the product of a number followed by others is that number times their product |
| Y2025Day06.SolveMeaning | 2025/day06/src/main.rs:36-43 | a problem's answer, the fold from 0 or 1, is the sum or the product of its numbers |
| Y2025Day06.Column | 2025/day06/src/main.rs:40-43 | column `col` holds one number per row, `row[col]` |
| Y2025Day06.ColumnAnswers | 2025/day06/src/main.rs:34-44 | part 1 computes one answer per operator |
| Y2025Day06.GroupAnswers | 2025/day06/src/main.rs:49-61 | part 2 computes one answer per group that has an operator |
| Y2025Day06.ColumnAnswersMeaning | 2025/day06/src/main.rs:31-46 | part 1's answer for column c is the sum or product, by the c-th operator, of the numbers in column c |
| Y2025Day06.ColumnAnswersAt | 2025/day06/src/main.rs:34-44 | the c-th answer of part 1 is the fold of the c-th column |
| Y2025Day06.GroupAnswersMeaning | 2025/day06/src/main.rs:48-63 | part 2's answer for group g is the sum or product, by the g-th operator, of the g-th group, for as many groups as `zip` pairs with operators |
| Y2025Day06.GroupAnswersAt | 2025/day06/src/main.rs:49-61 | the g-th answer of part 2 is the fold of the g-th group |
| Y2025Day06.Columns | 2025/day06/src/main.rs:34-44 | transposing the rows gives one column per operator |
| Y2025Day06.Part1IsPart2OfColumns | 2025/day06/src/main.rs:31-63 | part 1's answers are part 2's answers on the columns of the rows |
| Y2025Day06.SolvePart1IsPart2 | 2025/day06/src/main.rs:31-63 | `solve_part1` on rows equals `solve_part2` on their columns |
| Y2025Day06.LineHoldsNumbers | 2025/day06/src/main.rs:123-129 | a line without words is rejected (the source panics); otherwise it holds numbers exactly when its first word parses as a `u64` (so a first word of 2^64 or more ends the number rows) |
| Y2025Day06.NumberRowCount | 2025/day06/src/main.rs:102-105 | the count is the length of the longest prefix of number lines, stopped by the first other line; it is rejected exactly when a line without words comes before that |
| Y2025Day06.ParsePart1 | 2025/day06/src/main.rs:100-121 | on success the number rows are the leading number lines of the trimmed input, each parsed word by word, and the operators are the words of the line after them |
| Y2025Day06.ColumnDigits | 2025/day06/src/main.rs:84-92 | a column has at most one digit per row, all of them decimal digits |
| Y2025Day06.ColumnValue | 2025/day06/src/main.rs:82-92 | reading the lines above the operator line from the bottom up, each digit worth ten times the one below it, yields the column's digits read top to bottom as a decimal number, skipping non-digits |
| Y2025Day06.ColumnDigitsStep | 2025/day06/src/main.rs:84-92 | one more row on top adds its digit, worth ten to the number of digits below it, or nothing for another character |
| Y2025Day06.ParsePart2 | 2025/day06/src/main.rs:65-98 | the column loop returns the column numbers grouped between all-whitespace columns, the last group closed at the end |
| Y2025Day06.GroupsUpToShape | 2025/day06/src/main.rs:71-95 | after c columns the loop has closed one group per separator column, and the closed and open groups together hold the numbers of the other columns in order |
| Y2025Day06.FlattenSnoc | 2025/day06/src/main.rs:77 | closing a group appends its numbers to the concatenation of the groups |
| Y2025Day06.GroupsShape | 2025/day06/src/main.rs:65-98 | there is one more group than separator columns, and the groups hold, in order, one number per other column |
| Y2025Day06.ColumnNumberBound | 2025/day06/src/main.rs:82-92 | a column's number has at most as many digits as there are lines above the operators |
| Y2025Day06.ShortOperatorLine | 2025/day06/src/main.rs:65-98 | an operator line that `trim` left shorter than the first line is accepted: on `12`, `34`, `+` the columns give the group `[13, 24]` |
| Y2025Day06.SolvePart1 | 2025/day06/src/main.rs:31-46 | `solve_part1`: each column summed or multiplied by its operator, and the results summed; `ColumnAnswersMeaning` states each column's answer is the sum or product of that column, and `SolvePart1IsPart2` that the total equals part 2 on the columns of the rows |
| Y2025Day06.SolvePart2 | 2025/day06/src/main.rs:48-63 | `solve_part2`: each group summed or multiplied by its operator, and the results summed; `GroupAnswersMeaning` states each group's answer is the sum or product of that group, for as many groups as there are operators |
| Y2025Day07.CountTimelines | 2025/day07/src/main.rs:31-57 | every walk ends in at least one timeline, so the result is at least `counter + 1` |
| Y2025Day07.CountTimelinesScales | 2025/day07/src/main.rs:31-57 | every timeline adds `counter + 1`: the result is `counter + 1` times the number of timelines counted from 0 |
| Y2025Day07.Distribute | 2025/day07/src/main.rs:46 | the two forks' results, both scaled by `counter + 1`, add up to their scaled sum |
| Y2025Day07.PrependCard | 2025/day07/src/main.rs:46-53 | putting the current column in front of every timeline below keeps them distinct |
| Y2025Day07.PathsAreTimelines | 2025/day07/src/main.rs:31-57 | every path the recursion follows starts at the particle's column, has one column per remaining row, and moves one column aside at a splitter and straight down otherwise |
| Y2025Day07.PrependTimeline | 2025/day07/src/main.rs:35-54 | a timeline from the next row, with the current column in front, is a timeline from the current row |
| Y2025Day07.TimelinesArePaths | 2025/day07/src/main.rs:31-57 | conversely every such timeline is one the recursion follows |
| Y2025Day07.SidesDisjoint | 2025/day07/src/main.rs:46 | the timelines through the left and through the right of a splitter are different timelines |
| Y2025Day07.CountTimelinesIsPaths | 2025/day07/src/main.rs:31-57 | from counter 0 the result is exactly the number of distinct timelines from the position |
| Y2025Day07.DisjointUnionCard | 2025/day07/src/main.rs:46 | the sizes of disjoint sets of timelines add up |
| Y2025Day07.ProcessLine | 2025/day07/src/main.rs:80-100 | the processed line has the length of the line, keeps exactly its splitters, draws a beam exactly in the other cells below a beam or 'S' or diagonally below a splitter, and leaves '.' elsewhere |
| Y2025Day07.ProcessLineSplittersOnly | 2025/day07/src/main.rs:80-100 | only the splitter positions of the current line matter to `process_line` |
| Y2025Day07.ProcessLineIdempotent | 2025/day07/src/main.rs:80-100 | processing an already processed line against the same line above changes nothing |
| Y2025Day07.Beams | 2025/day07/src/main.rs:63-78 | the drawn field has a line per input line, of the same length; the first is copied and every later one is `process_line` of the drawn line above it |
| Y2025Day07.ProcessBeamPart1 | 2025/day07/src/main.rs:63-78 | `process_beam_part1`: the fold over the lines, the first copied and each later one drawn under the one above; `Beams` states the result |
| Y2025Day07.SplitsIn | 2025/day07/src/main.rs:105-116 | one pair of lines contributes at most one split per cell |
| Y2025Day07.SplitsInCard | 2025/day07/src/main.rs:105-116 | a pair of lines contributes exactly the number of splitters with a beam right above them |
| Y2025Day07.CountSplittings | 2025/day07/src/main.rs:102-119 | `count_splittings`: the splits of every pair of neighbouring lines added up; `SplitsIn` and `SplitsInCard` state what one pair contributes |
| Y2025Day07.HitSplitterLightsBelow | 2025/day07/src/main.rs:84-97 | in the drawn field a splitter with a beam above it lights both diagonal cells of the next line, wherever they exist and are not splitters |
| Y2025Day07.ParseField | 2025/day07/src/main.rs:59-61 | `parse`: the rows of the field are the lines of the input, none holding a line feed |
| Y2025Day08.DistSquaredFacts | 2025/day08/src/main.rs:11-15 | the squared distance is symmetric and zero exactly between equal positions |
| Y2025Day08.Positive | 2025/day08/src/main.rs:12-14 | a non-zero coordinate difference gives a positive square |
| Y2025Day08.SortedCombinations | 2025/day08/src/main.rs:54-70 | the nested loops collect every pair `(boxes[i], boxes[j])`, i < j, row by row, and the result is those pairs stably sorted by squared distance |
| Y2025Day08.CombinationsSorted | 2025/day08/src/main.rs:54-70 | the sorted combinations hold n(n-1)/2 pairs, closest first, and are a rearrangement of the loop's pairs |
| Y2025Day08.CombinationsComplete | 2025/day08/src/main.rs:56-60 | every pair of boxes i < j is among the combinations |
| Y2025Day08.Position | 2025/day08/src/main.rs:96-101 | `position` finds the first circuit holding the box, or reports that none does |
| Y2025Day08.PositionEither | 2025/day08/src/main.rs:76-78 | `find` finds the first circuit holding either box, or reports that none does |
| Y2025Day08.Circuits.MergeTwoSets | 2025/day08/src/main.rs:95-112 | when the boxes lie in two different circuits, the first becomes their union and the second is removed; otherwise nothing changes |
| Y2025Day08.Circuits.Connect | 2025/day08/src/main.rs:75-88 | one connection merges, then adds both boxes to the first circuit holding either, or opens a new circuit of the two |
| Y2025Day08.ConnectBoxes | 2025/day08/src/main.rs:72-92 | the loop connects the first `nconnections` pairs, or all of them if there are fewer, in order |
| Y2025Day08.UnionMembers | 2025/day08/src/main.rs:72-92 | a box is in the union exactly when some circuit holds it |
| Y2025Day08.MergedMembers | 2025/day08/src/main.rs:95-112 | every circuit before a merge is contained in some circuit after it |
| Y2025Day08.MergedFrom | 2025/day08/src/main.rs:95-112 | every circuit after a merge is a circuit from before or the union of the two circuits holding the boxes |
| Y2025Day08.MergeFacts | 2025/day08/src/main.rs:95-112 | a merge keeps the set of boxes, removes at most one circuit, and leaves the two boxes in one circuit when both were present |
| Y2025Day08.MergeKeepsTogether | 2025/day08/src/main.rs:95-112 | boxes that shared a circuit still do after a merge |
| Y2025Day08.MergeDisjoint | 2025/day08/src/main.rs:95-112 | a merge keeps the circuits pairwise disjoint |
| Y2025Day08.OnlyIn | 2025/day08/src/main.rs:76-78 | in disjoint circuits a box lies in only one circuit |
| Y2025Day08.AbsentAfterMerge | 2025/day08/src/main.rs:95-112 | a box in no circuit is in none after a merge |
| Y2025Day08.FoundHoldsBoth | 2025/day08/src/main.rs:76-84 | after the merge of disjoint circuits, no circuit other than the one `find` returns holds either box |
| Y2025Day08.ConnectStepUnion | 2025/day08/src/main.rs:74-89 | one connection adds exactly its two boxes to the set of connected boxes |
| Y2025Day08.ConnectStepDisjoint | 2025/day08/src/main.rs:74-89 | one connection keeps the circuits pairwise disjoint |
| Y2025Day08.ConnectStepJoins | 2025/day08/src/main.rs:74-89 | after a connection its two boxes share a circuit |
| Y2025Day08.ConnectStepKeepsTogether | 2025/day08/src/main.rs:74-89 | a connection never separates boxes that shared a circuit |
| Y2025Day08.ConnectAllDisjoint | 2025/day08/src/main.rs:72-92 | after any connections the circuits are pairwise disjoint and hold exactly the boxes of the connected pairs |
| Y2025Day08.ConnectAllTogether | 2025/day08/src/main.rs:72-92 | after the connections, both boxes of every connected pair share a circuit |
| Y2025Day08.Sizes | 2025/day08/src/main.rs:46 | one size per circuit, the number of boxes it holds |
| Y2025Day08.Part1 | 2025/day08/src/main.rs:34-48 | part 1 multiplies the sizes of the first `nlargest` circuits, sorted largest first, built from the `nconnections` closest pairs |
| Y2025Day08.Part1TakesLargest | 2025/day08/src/main.rs:39-47 | the sorted circuits are a rearrangement of all circuits, largest first, and no circuit left out is larger than one taken |
| Y2025Day08.ParseCoord | 2025/day08/src/main.rs:117-124 | a line parses exactly when it has at least three comma-separated fields and the first three are `u64` numbers; each coordinate is below 2^64 |
| Y2025Day08.CommaSplits | 2025/day08/src/main.rs:118 | three digit texts joined by commas split back at the commas |
| Y2025Day08.JoinThree | 2025/day08/src/main.rs:118 | joining three texts with commas puts one comma between neighbours |
| Y2025Day08.ParseCoordFormat | 2025/day08/src/main.rs:114-126 | a box written `x,y,z` with coordinates below 2^64 parses back to itself |
| Y2025Day08.DistSquared | 2025/day08/src/main.rs:11-15 | `dist_squared`; `DistSquaredFacts` states it is symmetric and zero exactly between equal boxes |
| Y2025Day08.MergedSets | 2025/day08/src/main.rs:95-111 | `merge_two_sets` on values: two different circuits holding the boxes become one; `MergeFacts`, `MergeDisjoint` and `MergeKeepsTogether` state the boxes are kept, at most one circuit disappears, disjointness is kept, the two boxes end up together and boxes already together stay so |
| Y2025Day08.ConnectAll | 2025/day08/src/main.rs:72-89 | the loop of `connect_boxes` over the pairs; `ConnectAllDisjoint` states the circuits are disjoint and hold exactly the connected boxes, and `ConnectAllTogether` that each connected pair shares a circuit |
| Y2025Day08.Parse | 2025/day08/src/main.rs:114-126 | `parse`: one box per line; it succeeds exactly when every line parses, and then the k-th box is that of the k-th line |
| Y2025Day09.Span | 2025/day09/src/main.rs:70-71 | `max + 1 - min` along one axis is at least one cell |
| Y2025Day09.BlockCard | 2025/day09/src/main.rs:69-73 | a block of w by h cells holds w·h cells |
| Y2025Day09.RectSizeCounts | 2025/day09/src/main.rs:69-73 | `rectsize` is the number of tiles of the rectangle with the two corners, both corners included |
| Y2025Day09.RectSizeFacts | 2025/day09/src/main.rs:69-73 | the size does not depend on the order of the corners, is at least one, and is one for a single tile |
| Y2025Day09.MulPositive | 2025/day09/src/main.rs:72 | the product of two positive spans is positive |
| Y2025Day09.AllRects | 2025/day09/src/main.rs:50-58 | the nested loops collect every pair of tiles i < j, row by row |
| Y2025Day09.RectsComplete | 2025/day09/src/main.rs:50-58 | there are n(n-1)/2 rectangles, and every pair i < j of tiles spans one |
| Y2025Day09.RectsSound | 2025/day09/src/main.rs:50-58 | every rectangle is spanned by a pair i < j of tiles |
| Y2025Day09.MaxSize | 2025/day09/src/main.rs:25-28 | `max().unwrap_or(0)` is at least every rectangle's size and is one of them, or 0 when there are none |
| Y2025Day09.Part1 | 2025/day09/src/main.rs:23-29 | part 1 is the largest size over all rectangles |
| Y2025Day09.Part1Largest | 2025/day09/src/main.rs:23-29 | part 1 is the largest area spanned by two of the tiles, and 0 with a single tile |
| Y2025Day09.ParseTile | 2025/day09/src/main.rs:79-85 | a line parses exactly when it has a ',' and the texts before the first and second ',' are `u64` numbers; each coordinate is below 2^64 |
| Y2025Day09.ParseTileFormat | 2025/day09/src/main.rs:75-87 | a tile written `x,y` with coordinates below 2^64 parses back to itself |
| Y2025Day09.RectSize | 2025/day09/src/main.rs:69-73 | `rectsize`: the inclusive width times the inclusive height; `RectSizeCounts` states it counts the cells of the rectangle, which holds both corners, and `RectSizeFacts` that it is symmetric, at least 1 and 1 for one tile |
| Y2025Day09.Parse | 2025/day09/src/main.rs:75-87 | `parse`: one tile per line of the trimmed input; it succeeds exactly when every line parses, and then the k-th tile is that of the k-th line |
| Y2025Day10.Flipped | 2025/day10/src/main.rs:64-68 | pressing buttons keeps the number of lights |
| Y2025Day10.PushButtons | 2025/day10/src/main.rs:64-68 | toggling the light of each button in turn leaves every light flipped once per occurrence of its index among the buttons, the others unchanged |
| Y2025Day10.FlippedSnoc | 2025/day10/src/main.rs:65-67 | one more button toggles exactly its light |
| Y2025Day10.FlippedAppend | 2025/day10/src/main.rs:64-68 | pressing one list of buttons and then another is pressing their concatenation |
| Y2025Day10.CountAppend | 2025/day10/src/main.rs:64-68 | occurrences in a concatenation add up |
| Y2025Day10.PushTwiceRestores | 2025/day10/src/main.rs:64-68 | pressing the same buttons twice restores the lights, which is why the random run never presses the same button twice in a row |
| Y2025Day10.FlippedOthers | 2025/day10/src/main.rs:64-68 | a light whose index is not among the buttons keeps its state |
| Y2025Day10.ParseLights | 2025/day10/src/main.rs:92-101 | there is at most one light per character of the word |
| Y2025Day10.ShowLights | 2025/day10/src/main.rs:92-101 | a pattern is written with one '.' or '#' per light |
| Y2025Day10.ParseLightsAppend | 2025/day10/src/main.rs:92-101 | the lights of a concatenation are the lights of its parts, since the filter reads one character at a time |
| Y2025Day10.ParseShowLights | 2025/day10/src/main.rs:92-101 | a pattern written with '.' and '#' parses back to itself |
| Y2025Day10.ParseBracketedLights | 2025/day10/src/main.rs:92-101 | the brackets around a pattern are filtered out: `[` + pattern + `]` parses back to the pattern |
| Y2025Day10.ParseNumbers | 2025/day10/src/main.rs:104-112 | on success the word has its two brackets and there is one number per comma-separated part between them, each within the type's range |
| Y2025Day10.ParseShowNumbers | 2025/day10/src/main.rs:104-112 | numbers in range written between two brackets with commas parse back to themselves |
| Y2025Day10.ParseMachine | 2025/day10/src/main.rs:73-88 | the word loop with its `break` builds the same machine as the description word by word: '[' sets the lights, '(' adds a button, '{' sets the joltages, any other word ends the line |
| Y2025Day10.MachineFromStops | 2025/day10/src/main.rs:84 | a word that starts with no bracket ends the line: the words after it are never looked at |
| Y2025Day10.MachineFromLights | 2025/day10/src/main.rs:81 | a '[' word sets the lights |
| Y2025Day10.MachineFromButton | 2025/day10/src/main.rs:82 | a '(' word appends a button |
| Y2025Day10.MachineFromJoltages | 2025/day10/src/main.rs:83 | a '{' word sets the joltages |
| Y2025Day10.ButtonWords | 2025/day10/src/main.rs:82 | one written word per button |
| Y2025Day10.ButtonWordsCons | 2025/day10/src/main.rs:79-86 | the button words split into the first button's word and the rest |
| Y2025Day10.ButtonWordStep | 2025/day10/src/main.rs:82 | one written button word adds its button |
| Y2025Day10.ButtonWordsParse | 2025/day10/src/main.rs:79-86 | the written button words add their buttons in order |
| Y2025Day10.MachineRoundTrip | 2025/day10/src/main.rs:70-90 | a machine written as `[lights] (button)… {joltages}` parses back to itself |
| Y2025Day10.Parse | 2025/day10/src/main.rs:70-90 | `parse`: one machine per line; it succeeds exactly when every line parses, and then the k-th machine is that of the k-th line |
| Text.ParseNat | 2025/day05/src/main.rs:81-82 | the syntax `str::parse` accepts for an unsigned number, before its range check: exactly an optional '+' followed by at least one decimal digit (`ParseU64` and `ParseBelow` add the range check) |
| Text.ParseInt | 2025/day01/src/main.rs:74 | the syntax `str::parse` accepts for a signed number, before its range check: exactly an optional sign followed by at least one decimal digit, agreeing with the unsigned syntax where that succeeds (`ParseI32` adds the range check) |
| Text.ParseI32 | 2025/day01/src/main.rs:74 | `str::parse::<i32>` succeeds exactly when the signed syntax holds and the value lies in [-2^31, 2^31), and then yields that value |
| Text.ParseBelow | 2024/day05/src/main.rs:128-129 | `str::parse` for an unsigned type succeeds exactly when the unsigned syntax holds and the value is below the type's limit, and then yields that value |
| Text.ParseNatToText | 2025/day05/src/main.rs:81-82 | a number written in decimal parses back to itself |
| Text.ParseU64 | 2024/day11/src/main.rs:103 | `str::parse::<u64>` succeeds exactly when the unsigned syntax holds and the value is below 2^64, and then yields that value |
| Text.ParseU64ToText | 2024/day11/src/main.rs:103 | a number below 2^64 written in decimal parses back as a `u64` to itself |
| Text.ParseNumbersBack | 2024/day11/src/main.rs:100-105 | numbers below 2^64 written with single spaces split and parse back to themselves |
| Text.Split | 2025/day08/src/main.rs:118 | `str::split` on a character yields at least one piece and no piece contains the separator |
| Text.SplitJoin | 2025/day08/src/main.rs:118 | splitting pieces joined by a separator they do not contain gives the pieces back |
| Text.SplitOn | 2025/day05/src/main.rs:74 | `str::split` on a pattern yields at least one piece |
| Text.JoinSplitOn | 2025/day05/src/main.rs:74 | joining the pieces with the pattern gives the text back |
| Text.SplitWhitespace | 2024/day11/src/main.rs:102 | `split_whitespace` yields non-empty words without whitespace |
| Text.SplitWhitespaceContent | 2024/day11/src/main.rs:102 | the words are exactly the non-whitespace characters, in order |
| Text.SplitWhitespaceSpaced | 2024/day11/src/main.rs:102 | words written after single spaces split back into the same words |
| Text.Trim | 2025/day06/src/main.rs:66 | `trim` removes a leading and a trailing run of whitespace and nothing else |
| Text.Lines | 2024/day10/src/main.rs:127 | `lines` yields the pieces between line feeds, none containing a line feed |
| Text.LinesJoin | 2024/day10/src/main.rs:127 | without carriage returns the lines joined by line feeds give the text back, up to a final line feed |
| SeqUtil.SortSorted | 2025/day08/src/main.rs:40 | `sort_by_key` orders the elements by ascending key |
| SeqUtil.SortMultiset | 2025/day08/src/main.rs:40 | `sort_by_key` only rearranges the elements |
| SeqUtil.SortStable | 2025/day08/src/main.rs:40 | `sort_by_key` is stable: elements with equal keys keep their order |
| SeqUtil.SortInts | 2024/day01/src/main.rs:33-36 | `sort` on integers yields an ascending rearrangement |
| SeqUtil.SortedUnique | 2024/day01/src/main.rs:33-36 | there is only one ascending rearrangement of a list |
| SeqUtil.RangeFilter | 2025/day02/src/main.rs:16-22 | filtering `lo..=hi` yields, ascending, exactly the values of the range that satisfy the predicate |
| SeqUtil.AllPairsMembers | 2025/day08/src/main.rs:56-60 | the nested loops over i < j visit exactly the index pairs i < j < n |
| SeqUtil.AllPairsCount | 2025/day08/src/main.rs:56-60 | the nested loops visit n(n-1)/2 pairs |
| SeqUtil.AllPairsDistinct | 2025/day08/src/main.rs:56-60 | no pair is visited twice |
| SeqUtil.PairsFrom | 2025/day08/src/main.rs:57-59 | the inner loop pushes `(s[i], s[j])` for every j after i, in order |

## Left out

- `main` in every puzzle: reading the input file, timing and printing are I/O and are not modelled; the functions take the text as a parameter.
- 2025 puzzle 11 is not part of this model.
- 2025 puzzle 10 `part1` and `random_run_part1`: their search presses random buttons on `rayon` threads, so randomness and concurrency are not modelled. `pushbuttons` and the parsers are modelled.
- 2025 puzzle 9 `part2` and `overlaps`: they build `geo` polygons over `f32` coordinates; floating-point geometry is not modelled.
- 2025 puzzle 8 `part2` is `todo!()` in the source and has nothing to model.
- The `#[cached]` memoisation of 2024 puzzle 11 and 2025 puzzle 7: the model computes the values without the cache. For 2025 puzzle 7 these are the cached values only provided no two fields of equal length are processed in one run, because the cache key is the field's length, the position and the counter, not the field, and `main` processes two fields.
- Fixed-width integer overflow (`u64`, `u32`, `i32`, `usize`), for example `stone * 2024` or the dial arithmetic of 2025 puzzle 1, is not modelled because integers are unbounded. The one `as u32` cast the answer depends on is written out as `Y2025Day01.AsU32`.
- Hash-set iteration order: folds over a `HashSet` are modelled over a set. The one order-dependent-looking fold (2025 puzzle 4) is proved not to depend on order.
- The library sorts (`sort`, `sort_by_key`, `sort_by`, all stable in Rust) are modelled by one stable insertion sort. Their contract is modelled, not the library's algorithm.
- Y2024Day06.CountVisited: the walk recursions of 2024 puzzle 6 carry a `fuel` bound (the source recursion may not end), and `None` stands for both running out of fuel and the source's panics.
- Y2024Day06.DetectLoop: same fuel bound. The visited set, which the source threads through but never reads, is dropped.
- Y2024Day06.ExitIffNoLoop: requires the guard to start on a free cell. The parser puts the guard on a marker cell, which is never `#`, and no variant adds an obstacle on the guard's cell, so every start the program makes is covered.
- Y2024Day07.ConcatDecimals: requires a positive right operand, because `ilog10` panics on zero. The source calls `concat_decimals` only for a choice that concatenates at that gap, and `any` stops at the first solving choice, so it may succeed on an equation with a later zero. The model instead restricts part 2 to equations whose numbers after the first are all positive.
- Y2024Day08.Harmonics: requires two distinct antennas, because the source loops forever on two equal in-bounds antennas. The byte length of a line is taken as its character length, since the inputs are ASCII.
- Y2024Day09.CompactKeepFiles: proved only to rearrange the blocks (a permutation), not to move each file to the leftmost gap large enough for it.
- Y2024Day10.Traverse: requires the start height to be at most 9. The parser maps every non-digit character to `u8::MAX`, a height above 9, but no trailhead ever reaches such a cell: each step climbs exactly one unit from 0, so every position on a hike has height at most 9.
- Y2024Day10.Nexts: requires a rectangular field, as do `Hikes`, `Traverse` and the rest of the search. The source panics only when `at(field, neighbour).unwrap()` reads a cell missing from a row shorter than the first; the model does not describe fields whose rows differ in length.
- Y2024Day11.BlinkN: states only that the row never shrinks, not the bound of at most 2^depth stones per stone.
- 2024 puzzle 11 `parse_deque` is modelled as the list parser followed by the deque constructor. `nstones_depth` underflows at depth 0, which is a `requires`.
- Y2024Day04.Verticals: requires a square grid with a non-empty first line (`assert_eq!` and `unwrap` in the source).
- Y2024Day04.Part2: requires every line to be at least as long as the first. The source panics only when a short line is actually read.
- Y2025Day05.DedupRanges: works on a sequence value rather than on the vector in place. Its separation and id guarantees are stated for ranges with `start <= end` only.
- Y2025Day05.NumFreshIds: requires every range length `end + 1 - start` not to underflow, as the source's `u64` arithmetic does.
- 2025 puzzle 6 part 2 parsing requires exactly what keeps `nth(col).unwrap()` from panicking: every line above the operator line reaches each column of the first line, and the operator line, which `trim` may shorten, reaches each column where every line above it is blank, the only columns where the short-circuiting `all` reads it.
- 2025 puzzle 7 part 2 requires that the walk never steps left of column 0 or reads outside the field (`usize` underflow and indexing in the source).
- Y2025Day09.Part1: requires at least one tile, because `allrects` underflows on an empty list.

## Findings

| source | as written | input that shows it | evidently intended | confidence | as-written member | corrected member |
|---|---|---|---|---|---|---|
| 2024/day07/src/main.rs:53-56 | the width of the operator choices is `(numops^(len-1) + 1).ilog(numops)`. For a single number that is 1 without concatenation and 0 with it, where len-1 = 0 is wanted | the equation `5: 5`. Without concatenation the width is 1, so the fold reads the missing `numbers[1]`. With concatenation the width is 0, so `convert_base` underflows on `width - 1` | width len-1 for every equation, so that a single number is solvable exactly when it equals the test value | not executed | Y2024Day07.BinWidthSingle | Y2024Day07.SolvableSingle |
