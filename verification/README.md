# Advent of Code 2024 solvers, modelled in Dafny

This project models the puzzle logic of a TypeScript repository of Advent of
Code 2024 solvers. Each `dayN/challengeK/index.ts` reads `input.txt`, computes one
number and prints it. Under that shell sit small integer algorithms over sequences,
strings and rectangular grids. The model covers those algorithms for days 1 to 12
and day 14. It works on input that is already loaded, as a string, a grid or parsed
records. Every JavaScript number is an unbounded Dafny `int` or `nat`.

Modules, one per day, plus five shared ones:

- `Options` (`common_options.dfy`): `Option<T>`, used for JavaScript's `undefined`/`null` and for throws.
- `Seqs` (`common_seqs.dfy`): sums, repeat-free sequences, de-duplication, and set sizes.
- `Numbers` (`common_numbers.dfy`): absolute value and small facts about products, quotients and remainders.
- `Text` (`common_text.dfy`): digits, `Number(s)` as `ParseNat`, `${n}` as `NatToString`, and `split`/`join`.
- `Grids` (`common_grids.dfy`): positions and their orthogonal neighbours, `grid[y]?.[x]` as `At`, row-major scans, and copied grids with one cell set.
- `LocationLists` (day 1): list pairing, sorted differences, occurrence counts and similarity.
- `Reports` (day 2): report safety, strict and with one removal tolerated.
- `MulScanner` (day 3): the `mul(a,b)` scanner, with `do()`/`don't()` gating.
- `WordSearch` (day 4): the eight XMAS directions and the MAS cross.
- `PageOrder` (day 5): page-order rules, update checking, and repair by swapping.
- `GuardWalk` (day 6): the guard's step function, the walk off the grid, loop detection, and the extra-obstacle trials.
- `OperatorSearch` (day 7): seeds as operator sequences, left-to-right evaluation, and the exhaustive search.
- `Antinodes` (day 8): antennas grouped by frequency, pairs, antinode lines, and de-duplication.
- `DiskMap` (day 9): disk-map expansion, cell-by-cell compaction, whole-file defragmentation, and the checksum.
- `Trails` (day 10): trail heads, next spots, and the layered frontier against a depth-first reference.
- `Stones` (day 11): the stone rule, the line version and the memoised count.
- `FloodFill` (day 12): the generic traverseCell walk and getTotalPrice scan over any step relation.
- `Garden` (day 12): the garden instance, with perimeter and side pricing.
- `Robots` (day 14): wrap-around movement, quadrants and the safety score, the plot, and the frame simulation.

Most operations are pure functions. Each is paired with a reference definition, an
inverse or an invariant, and a lemma connects the two. The in-place loops of day 9,
the memo table of day 11 and the simulation of day 14 are methods with loop
invariants. Source citations below are paths inside the original repository.

## Model

| member | source | states |
|---|---|---|
| Text.ParseNat | day5/challenge1/index.ts:25 | `Number` of a digit string is below 10 to the power of its length |
| Text.ParseNatAppend | day11/challenge1/index.ts:26-29 | reading the digits of a then b is a shifted left by b's length plus b |
| Text.NatToString | day11/challenge1/index.ts:23 | `${n}` is a digit string without leading zeros |
| Text.ParseNatToString | day11/challenge1/index.ts:23-29 | `Number(`${n}`)` gives n back |
| Text.NatToStringLength | day11/challenge1/index.ts:25 | `${n}` has k digits exactly when n lies in [10^(k−1), 10^k) |
| Text.FindFrom | day5/challenge1/index.ts:16 | the first occurrence of the separator at or after an index, or −1 exactly when there is none |
| Text.Split | day5/challenge1/index.ts:16-25 | `split` always yields at least one piece |
| Text.JoinSplit | day5/challenge1/index.ts:16-25 | joining the pieces of a split with the separator gives the text back |
| Text.SplitPiecesFree | day5/challenge1/index.ts:16-25 | no piece of a split contains the separator |
| Text.SplitJoin | day5/challenge1/index.ts:16-25 | splitting pieces joined by a one-character separator they do not contain gives the pieces back |
| Grids.At | day12/challenge1/index.ts:29-32 | `grid[y]?.[x]` is the cell exactly when (x, y) is on the grid, and `undefined` otherwise |
| Grids.SetCell | day6/challenge2/index.ts:155-156 | the trial grid has the same shape as the input and differs from it in exactly the one cell set |
| Grids.CellsCount | day6/challenge1/index.ts:155-156 | a rectangular grid has width × height cells |
| Grids.Scan | day8/challenge2/index.ts:34-35 | the nested `forEach` visits every cell with its content, in row-major order |
| LocationLists.GetLists | day1/challenge1/index.ts:17-27 | both columns have one entry per input line, in line order; entry i of the left and right column is the first and second number of line i |
| LocationLists.Sort | day1/challenge1/index.ts:32-33 | the numeric `sort((a, b) => a - b)`: the result is ascending and a permutation of the input |
| LocationLists.SortedUnique | day1/challenge1/index.ts:32-33 | two ascending lists holding the same multiset of numbers are equal, so the sorted order is fully determined |
| LocationLists.SortDependsOnlyOnMultiset | day1/challenge1/index.ts:32-33 | columns holding the same numbers in different orders sort to the same list |
| LocationLists.DifferenceNonNegative | day1/challenge1/index.ts:29-38 | the total distance is never negative |
| LocationLists.DifferenceOfSameMultisetIsZero | day1/challenge1/index.ts:32-37 | columns holding the same numbers, in any order, have equal length and distance 0 |
| LocationLists.DifferenceSymmetric | day1/challenge1/index.ts:29-38 | swapping the left and right columns leaves the distance unchanged |
| LocationLists.DifferenceOrderIndependent | day1/challenge1/index.ts:32-37 | reordering either column leaves the distance unchanged, because both are sorted first |
| LocationLists.GetDifference | day1/challenge1/index.ts:29-38 | getDifference: the sorted columns paired index by index and the absolute differences summed; never negative, 0 for equal multisets, and unchanged by swapping or reordering the columns (DifferenceNonNegative, DifferenceOfSameMultisetIsZero, DifferenceSymmetric, DifferenceOrderIndependent) |
| LocationLists.GetNumberOfOccurrences | day1/challenge2/index.ts:29-36 | the keys are exactly the values of the list, and each key maps to the number of times it occurs |
| LocationLists.OccurrencesSumToLength | day1/challenge2/index.ts:29-36 | the counts of the distinct values add up to the length of the list |
| LocationLists.WeightedSumMatchesSpec | day1/challenge2/index.ts:43-45 | weighting each left number by its entry in the occurrence map (0 when absent) gives the sum of n times the count of n in the right column |
| LocationLists.SimilarityScoreIsSpec | day1/challenge2/index.ts:38-46 | the similarity score is the sum over the left column of n times the number of occurrences of n in the right column |
| LocationLists.GetSimilarityScore | day1/challenge2/index.ts:38-46 | getSimilarityScore: the occurrence-map lookup summed over the left column; equal to the reference sum of n times its count on the right (SimilarityScoreIsSpec) and independent of both columns' order |
| LocationLists.SimilarityEmptyRight | day1/challenge2/index.ts:41-45 | an empty right column gives a score of 0 |
| LocationLists.SimilarityOrderIndependent | day1/challenge2/index.ts:29-46 | reordering either column leaves the score unchanged |
| LocationLists.SimilaritySpecPermutation | day1/challenge2/index.ts:43-45 | the reference sum depends only on the multiset of left numbers |
| Reports.IsAlwaysIncreasing | day2/challenge1/index.ts:17-24 | true exactly when every adjacent pair strictly increases; vacuously true for fewer than two levels |
| Reports.IsAlwaysDecreasing | day2/challenge1/index.ts:25-32 | true exactly when every adjacent pair strictly decreases |
| Reports.ReportHasNoBigOrSmallJumps | day2/challenge1/index.ts:37-45 | true exactly when every adjacent difference is between 1 and 3 in absolute value |
| Reports.ReportIsSafe | day2/challenge1/index.ts:34-48 | true exactly when the report is monotone in one direction and every step is gentle |
| Reports.ReverseKeepsSafety | day2/challenge1/index.ts:34-48 | reading a report backwards neither makes it safe nor unsafe |
| Reports.ReverseSwapsDirection | day2/challenge1/index.ts:17-32 | a reversed report increases exactly when the original decreases, and vice versa |
| Reports.ReverseKeepsSteps | day2/challenge1/index.ts:37-45 | reversing keeps the jump check's verdict |
| Reports.GetSafeReports | day2/challenge1/index.ts:50-51 | the count of safe reports, never more than the number of reports |
| Reports.ReportWithoutIndex | day2/challenge2/index.ts:17-18 | for an index inside the report, the report with exactly that level removed (one shorter); for any other index, the report unchanged |
| Reports.StrictSafeIsSafe | day2/challenge2/index.ts:27-56 | on every non-empty report the strict pass of challenge 2 accepts exactly what challenge 1 calls safe |
| Reports.EmptyReportDisagrees | day2/challenge2/index.ts:30-36 | an empty report is safe for challenge 1 but rejected by the strict pass, whose first comparison sees two `undefined` values as equal |
| Reports.TestReportWithoutIndexes | day2/challenge2/index.ts:20-25 | true exactly when removing some single level leaves a report the strict pass accepts |
| Reports.ReportIsSafeTolerant | day2/challenge2/index.ts:27-56 | with tolerance off, the strict verdict; with tolerance on, safe exactly when the report or the report minus one level passes strictly, and every strictly safe report is accepted |
| Reports.GetTolerantSafeReports | day2/challenge2/index.ts:58-59 | the count of reports safe with one removal allowed, never more than the number of reports |
| MulScanner.DigitRunIsMaximal | day3/challenge1/index.ts:15 | the run measured from index i is all digits and is followed by a non-digit or the end of the text, as the greedy `\d+` reads it |
| MulScanner.MatchLenByRuns | day3/challenge1/index.ts:15 | reading `mul\(\d+,\d+\)` character by character at index i gives the same match length as reading it by maximal digit runs |
| MulScanner.OperandsAtSound | day3/challenge1/index.ts:15 | whatever the pattern matches at index i is literally `mul(a,b)` with non-empty digit strings a and b |
| MulScanner.MatchLenComplete | day3/challenge1/index.ts:15 | every `mul(a,b)` with non-empty digit operands in the text is matched in full at its index, with exactly those operands |
| MulScanner.NotMNoMatch | day3/challenge1/index.ts:15 | no match starts at a character other than `m` |
| MulScanner.NoMatchInside | day3/challenge1/index.ts:15 | no match starts strictly inside another match |
| MulScanner.MissingParenIgnored | day3/challenge1/index.ts:15 | `mul(a,b` without the closing parenthesis holds no instruction |
| MulScanner.SpaceBeforeParenIgnored | day3/challenge1/index.ts:15 | `mul (a,b)` with a space before the parenthesis holds no instruction |
| MulScanner.SpaceAfterCommaIgnored | day3/challenge1/index.ts:15 | `mul(a, b)` with a space after the comma holds no instruction |
| MulScanner.OnlyLeadingM | day3/challenge1/index.ts:14-15 | a text whose only `m` is its first character, with no instruction starting there, yields no instruction |
| MulScanner.ScanIsExact | day3/challenge1/index.ts:14-15 | `matchAll` reports a match at index i exactly when an instruction starts at i, and never outside the scanned text |
| MulScanner.FindMulInstructions | day3/challenge1/index.ts:14-15 | findMulInstructions: the `matchAll` scan from index 0; a match is reported at exactly the indices where `mul(a,b)` starts (ScanIsExact), in order and without overlap (ScanOrdered) |
| MulScanner.NoMatchScansEmpty | day3/challenge1/index.ts:14-15 | where no instruction starts, the scan reports nothing |
| MulScanner.ScanSound | day3/challenge1/index.ts:14-15 | every reported match carries the full text the pattern matched at its index |
| MulScanner.ScanOrdered | day3/challenge1/index.ts:14-15 | the reported matches are left to right and do not overlap |
| MulScanner.ReportedIsInstruction | day3/challenge1/index.ts:14-15 | a reported text is `mul(a,b)` for the operands found at its index |
| MulScanner.DigitRunsAreNumbers | day3/challenge1/index.ts:18 | every `\d+` match of a text is a non-empty string of digits |
| MulScanner.GetNumbersFromInstruction | day3/challenge1/index.ts:17-25 | a text without digits gives `[0, 0]` |
| MulScanner.InstructionRuns | day3/challenge1/index.ts:18 | the digit runs of `mul(a,b)` are exactly a and b, in that order |
| MulScanner.NumbersOfInstruction | day3/challenge1/index.ts:17-25 | on `mul(a,b)` the two numbers read are the values of a and b |
| MulScanner.NoDigitsGivesZeros | day3/challenge1/index.ts:18-22 | a text with no digit has no digit run and reads as `[0, 0]` |
| MulScanner.FoundAreReadable | day3/challenge1/index.ts:14-25 | every instruction found in a text is read as its two operands |
| MulScanner.ProductOfReported | day3/challenge1/index.ts:17-27 | the product of a reported instruction is the product of the operands found at its index |
| MulScanner.NoInstructionTotalsZero | day3/challenge1/index.ts:31-35 | a text without instructions yields none and totals 0 |
| MulScanner.Occurrences | day3/challenge2/index.ts:19-20 | `matchAll` of a literal pattern: every reported index is an occurrence at or after the starting index |
| MulScanner.OccurrencesComplete | day3/challenge2/index.ts:19-20 | for `do()` and `don't()`, which cannot overlap themselves, every occurrence is reported |
| MulScanner.MaxBelow | day3/challenge2/index.ts:24-27 | `Math.max` of the indices below m: none (`-Infinity`) exactly when no index is below m, otherwise the greatest index below m |
| MulScanner.LastBelow | day3/challenge2/index.ts:24-27 | the latest occurrence of a pattern starting before m: an occurrence with no later one before m, or none when there is no occurrence before m |
| MulScanner.MaxOfOccurrencesIsLast | day3/challenge2/index.ts:19-27 | the `Math.max` over the filtered `matchAll` indices is the latest occurrence before the instruction |
| MulScanner.EnabledByLast | day3/challenge2/index.ts:22-34 | the switch flipped by `do()` and `don't()` read left to right is decided by whichever of the two occurred last before the instruction |
| MulScanner.KeptIsEnabled | day3/challenge2/index.ts:22-34 | the filter's `maxDo > maxDont` test, with the `-Infinity` case, keeps an instruction exactly when the switch is on at its index |
| MulScanner.DroppedAfterDont | day3/challenge2/index.ts:29-33 | an instruction after a `don't()` with no `do()` in between is dropped |
| MulScanner.Select | day3/challenge2/index.ts:22-35 | `filter` keeps exactly the instructions whose index passes the test, never more than it was given |
| MulScanner.SelectIsSubsequence | day3/challenge2/index.ts:22-35 | filtering keeps the instructions in their left-to-right order |
| MulScanner.EnabledAreOrderedSubset | day3/challenge2/index.ts:14-36 | the instructions of challenge 2 are exactly those of challenge 1 that are switched on, in left-to-right order |
| MulScanner.FindEnabledMulInstructions | day3/challenge2/index.ts:14-36 | challenge 2's findMulInstructions: challenge 1's instructions filtered by the latest `do()` against the latest `don't()`; exactly the enabled ones, in order (EnabledAreOrderedSubset) |
| MulScanner.NoDontSameTotal | day3/challenge2/index.ts:24-31 | with no `don't()` in the text, challenge 2 keeps every instruction and totals the same as challenge 1 |
| WordSearch.HasXmasSpells | day4/challenge1/index.ts:19-105 | each of the eight `has*Xmas` checks holds exactly when X, M, A, S are read one step apart along its direction, all four cells on the grid |
| WordSearch.XmasAt | day4/challenge1/index.ts:107-123 | getNumberOfXmasAtIndex adds at most one per check, so at most 8 |
| WordSearch.CountDirectionsIsCardinality | day4/challenge1/index.ts:107-123 | adding one per passing check over distinct directions counts the set of directions that pass |
| WordSearch.XmasAtCounts | day4/challenge1/index.ts:107-123 | the count at a cell is the number of distinct directions in which XMAS starts there, and it is nonzero only on an `X` |
| WordSearch.FindCountOfXmas | day4/challenge1/index.ts:125-141 | the two loops add, over every cell of the first row's width and every row, the number of words starting at that cell |
| WordSearch.NoXCountsZero | day4/challenge1/index.ts:134-136 | a grid without `X` counts 0 |
| WordSearch.CountXmasBound | day4/challenge1/index.ts:125-141 | at most eight words per cell of the scanned rectangle |
| WordSearch.CountXmas | day4/challenge1/index.ts:125-141 | the count of findCountOfXmas: XMAS words summed over the scanned cells, at most eight per cell (CountXmasBound), each cell counting its set of passing directions (XmasAtCounts) |
| WordSearch.SingleRowWords | day4/challenge1/index.ts:19-39 | the one-row grids `XMAS` and `SAMX` hold exactly one word each, forwards and backwards |
| WordSearch.OneRowCount | day4/challenge1/index.ts:125-141 | a four-letter row with a single `X` that reads XMAS in exactly one direction counts 1 |
| WordSearch.MasXSpells | day4/challenge2/index.ts:19-57 | with `A` at the centre, isMasX holds exactly when MAS is read along each of the two diagonals through it, in either direction |
| WordSearch.MasSpells | day4/challenge2/index.ts:19-49 | each `has*DiagonalMas` check is an `M` on one diagonal neighbour and an `S` on the opposite one |
| WordSearch.DiagonalChecksExclusive | day4/challenge2/index.ts:19-49 | the two checks for the same diagonal never both hold, because one corner cannot be both `M` and `S` |
| WordSearch.BorderNeverCounts | day4/challenge2/index.ts:51-57 | on a rectangular grid a cell on the border is never the centre of an X-MAS |
| WordSearch.MasXScoreRange | day4/challenge2/index.ts:66-70 | each cell adds 0 or 1, and 1 exactly when it holds an `A` that is an X-MAS centre |
| WordSearch.FindCountOfMasXs | day4/challenge2/index.ts:59-75 | the two loops count the X-MAS centres over every cell of the first row's width and every row |
| WordSearch.CountMasXBounds | day4/challenge2/index.ts:59-75 | at most one X-MAS per cell, and none in a grid without `A` |
| WordSearch.CountMasX | day4/challenge2/index.ts:59-75 | the count of findCountOfMasXs: X-MAS centres over the scanned cells, at most one per cell and none without `A` (CountMasXBounds) |
| PageOrder.ParseRules | day5/challenge1/index.ts:18-21 | when every line reads as a rule, there is exactly one rule per line |
| PageOrder.ParseUpdates | day5/challenge1/index.ts:23-25 | when every line reads as an update, there is exactly one update per line |
| PageOrder.ParseRuleLine | day5/challenge1/index.ts:20-21 | a rule written `before\|after` reads back as that rule, and its text is a single line |
| PageOrder.ParseRuleLines | day5/challenge1/index.ts:18-21 | the lines of any list of rules read back as exactly those rules |
| PageOrder.ParsePageStrings | day5/challenge1/index.ts:25 | the decimal texts of an update's pages read back as that update |
| PageOrder.ParseUpdateLine | day5/challenge1/index.ts:25 | a non-empty update written with commas reads back as itself, and its text is a single line |
| PageOrder.ParseUpdateLines | day5/challenge1/index.ts:23-25 | the lines of any list of non-empty updates read back as exactly those updates |
| PageOrder.NoBlankBefore | day5/challenge1/index.ts:16 | in rules text followed by a blank line, the first blank line is the one after the rules, so the split cuts there |
| PageOrder.NormalizeRendered | day5/challenge1/index.ts:15-28 | the puzzle text listing a non-empty set of rules, a blank line and non-empty updates is read back as exactly those rules and updates |
| PageOrder.NormalizeInput | day5/challenge1/index.ts:15-28 | normalizeInput: rules before the first blank line, updates after it; rendered rules and updates are read back exactly (NormalizeRendered) |
| PageOrder.FindIndex | day5/challenge1/index.ts:32-33 | `findIndex`: -1 exactly when the page is absent, otherwise the index of its first occurrence |
| PageOrder.FirstIndexAtMost | day5/challenge1/index.ts:32-33 | the index found is no later than any occurrence of the page |
| PageOrder.RuleHoldsIffRespects | day5/challenge1/index.ts:32-43 | the index test of one rule passes exactly when, if both pages occur, no `after` stands before the first `before` |
| PageOrder.AbsentPageIgnored | day5/challenge1/index.ts:35-37 | a rule about a page the update lacks is skipped and never fails |
| PageOrder.CheckUpdate | day5/challenge1/index.ts:30-47 | true exactly when every rule's test passes on the update |
| PageOrder.GetMiddleNumberFromUpdate | day5/challenge1/index.ts:49-53 | the page returned is one of the update's pages |
| PageOrder.MiddleIsCentral | day5/challenge1/index.ts:49-53 | the page returned has as many pages after it as before it, or one fewer on an even length |
| PageOrder.FirstViolation | day5/challenge2/index.ts:35-51 | the loop stops at the first rule whose test fails, and runs to the end exactly when the update follows every rule |
| PageOrder.Swap | day5/challenge2/index.ts:46-48 | the copy holds the two pages exchanged and every other page in place |
| PageOrder.SwapPermutes | day5/challenge2/index.ts:46-48 | the exchange keeps the same pages |
| PageOrder.RepairFirst | day5/challenge2/index.ts:35-53 | one round finds nothing to repair exactly when the update follows every rule |
| PageOrder.RepeatNeverNull | day5/challenge2/index.ts:49-53 | once a recursive call has been made with `wasInvalid` set, the answer is never `null` |
| PageOrder.RepeatNullIffDone | day5/challenge2/index.ts:30-53 | the first call answers `null` exactly when its first round finds nothing to repair |
| PageOrder.RepairedNeverNull | day5/challenge2/index.ts:49-53 | fixUpdate called with `wasInvalid` set never answers `null` |
| PageOrder.NullIffValid | day5/challenge2/index.ts:30-53 | fixUpdate answers `null` exactly for an update that already follows every rule |
| PageOrder.FixedIsValidPermutation | day5/challenge2/index.ts:30-53 | a repaired update holds the same pages as the input and follows every rule |
| PageOrder.FixUpdate | day5/challenge2/index.ts:30-54 | fixUpdate with a fuel bound: `null` exactly for valid updates (NullIffValid), otherwise a rearrangement that follows every rule (FixedIsValidPermutation) |
| PageOrder.RepairStep | day5/challenge2/index.ts:35-50 | each repair swaps the first `before` and the first `after` of the first failing rule, which stand in the wrong order, and recurses with `wasInvalid` set |
| PageOrder.FuelSuffices | day5/challenge2/index.ts:30-53 | once the repairs finish, more recursion depth changes nothing |
| PageOrder.SelfRuleNeverFixed | day5/challenge2/index.ts:39-50 | the rule `p\|p` on the update `[p]` fails forever, since swapping a page with itself repairs nothing: fixUpdate never returns |
| PageOrder.ChallengesPartition | day5/challenge2/index.ts:67-69 | the updates challenge 1 keeps are exactly those fixUpdate answers `null` for, so the two answers never count the same update |
| PageOrder.ValidMiddles | day5/challenge1/index.ts:60-62 | `filter(checkUpdate).map(getMiddleNumberFromUpdate)`: the middle page of exactly the updates that follow every rule (ValidMiddlesMeaning) |
| PageOrder.SumOfValidMiddles | day5/challenge1/index.ts:60-63 | challenge 1's answer: the sum of those middle pages, every middle when every update is valid (AllValidMiddles) |
| PageOrder.ValidMiddlesMeaning | day5/challenge1/index.ts:60-62 | a page is summed exactly when it is the middle page of some update that follows every rule; no more pages than updates |
| PageOrder.AllValidMiddles | day5/challenge1/index.ts:60-63 | when every update is valid, the middle page of each update is summed, in input order |
| PageOrder.FixedMiddles | day5/challenge2/index.ts:67-70 | `map(fixUpdate).filter(!== null).map(getMiddleNumberFromUpdate)`: the middle page of each repaired update (FixedMiddlesMeaning) |
| PageOrder.SumOfFixedMiddles | day5/challenge2/index.ts:67-71 | challenge 2's answer: the sum of the repaired updates' middle pages (FixedMiddlesMeaning, ChallengesShareUpdates) |
| PageOrder.FixedMiddlesAt | day5/challenge2/index.ts:67-70 | a page is summed by challenge 2 exactly when it is the contribution of some update's fixUpdate answer |
| PageOrder.FixedMiddlesMeaning | day5/challenge2/index.ts:67-70 | a page is summed exactly when it is the middle page of the valid rearrangement fixUpdate makes of some update that breaks a rule |
| PageOrder.ChallengesShareUpdates | day5/challenge2/index.ts:67-70 | when every repair finishes, each update gives exactly one middle page to exactly one of the two answers |
| PageOrder.OneUpdateShare | day5/challenge2/index.ts:30-54 | one update that finishes: valid exactly when fixUpdate answers `null`, and then adds nothing to challenge 2; otherwise it is non-empty and adds exactly one page, the middle of its valid rearrangement |
| GuardWalk.GuardKeyRoundTrip | day6/challenge2/index.ts:47-51 | the key `${x},${y},${direction}` of a state on the grid reads back as that state |
| GuardWalk.GuardKeyInjective | day6/challenge2/index.ts:47-51 | two states share a key only when they are the same state, so the set of keys counts states |
| GuardWalk.PositionKeyInjective | day6/challenge1/index.ts:40-44 | two positions share the key `${x},${y}` only when they are equal, so the key set counts positions |
| GuardWalk.RowWithStart | day6/challenge1/index.ts:47 | the index of the first row holding `^`, or -1 exactly when no row does |
| GuardWalk.ColumnOfStart | day6/challenge1/index.ts:48 | the index of the first `^` in the row, or -1 exactly when there is none |
| GuardWalk.InitialGuard | day6/challenge1/index.ts:46-55 | a guard exists exactly when the grid holds a `^`; it stands on the grid and faces up |
| GuardWalk.InitialGuardIsFirstStart | day6/challenge1/index.ts:46-55 | the guard starts on the first `^` reading row by row, left to right |
| GuardWalk.AheadInGrid | day6/challenge1/index.ts:61-117 | the four edge tests (`y === 0`, `x === row length - 1`, `y === grid.length - 1`, `x === 0`) fail exactly when the cell ahead is on the grid |
| GuardWalk.NextGuard | day6/challenge1/index.ts:57-130 | a step lands on the cell directly ahead in the direction the guard ends up facing, on the grid and never on an obstacle |
| GuardWalk.NextGuardMeaning | day6/challenge1/index.ts:57-130 | getNextGuardPosition turns clockwise past every obstacle and settles on the first open direction, stepping ahead or finding the edge; it fails to return exactly when all four sides are obstacles |
| GuardWalk.BoxedRepeatsCall | day6/challenge1/index.ts:68-120 | for a walled-in guard the fourth turn repeats the first call exactly, so the recursion never ends |
| GuardWalk.FourTurnsAreNone | day6/challenge1/index.ts:68-120 | four clockwise turns face the guard the way it faced before |
| GuardWalk.WalkFollowsReach | day6/challenge1/index.ts:132-146 | the positions pushed are those of the states reached, one per step, starting with the start |
| GuardWalk.WalkFrom | day6/challenge1/index.ts:132-146 | the loop of moveGuardTilOffGrid over any step function, with fuel: the path starts at the start position (its contract), lists the reached states (WalkFollowsReach) and ends at the exit (WalkEndsAtExit) |
| GuardWalk.MoveGuardTilOffGrid | day6/challenge1/index.ts:132-146 | moveGuardTilOffGrid: WalkFrom with the guard's step on the grid; in-grid, obstacle-free, orthogonal steps (WalkSteps) |
| GuardWalk.WalkEndsAtExit | day6/challenge1/index.ts:136-143 | the loop ends on the state whose next step leaves the grid |
| GuardWalk.WalkStuckIsTrapped | day6/challenge1/index.ts:136-143 | a walk that gets stuck has reached a walled-in state |
| GuardWalk.WalkSteps | day6/challenge1/index.ts:132-146 | the positions are on the grid, none after the start is an obstacle, and consecutive positions are orthogonal neighbours |
| GuardWalk.WalkFinishes | day6/challenge1/index.ts:132-146 | a walk that leaves the grid after n steps lists n + 1 positions |
| GuardWalk.EndsOnce | day6/challenge1/index.ts:136-143 | the walk stops at most once, and in only one way |
| GuardWalk.RepeatNeverEnds | day6/challenge1/index.ts:136-143 | once a state repeats, the walk goes round forever: it never leaves the grid and is never walled in |
| GuardWalk.VisitedAtMostCells | day6/challenge1/index.ts:155-156 | the number of distinct positions visited is at most the number of cells |
| GuardWalk.AllStatesCount | day6/challenge2/index.ts:124-142 | a grid of width W and height H has exactly 4·W·H guard states |
| GuardWalk.LoopVerdictMeaning | day6/challenge2/index.ts:124-142 | moveGuardTilOffGridOrInLoop answers `true` exactly when the walk repeats a state, `false` exactly when it leaves the grid, and is walled in otherwise |
| GuardWalk.LoopCheck | day6/challenge2/index.ts:124-142 | the loop of moveGuardTilOffGridOrInLoop over a finite closed set of states: loops exactly when a state repeats (LoopVerdictMeaning) within 4·W·H steps (LoopVerdictBound) |
| GuardWalk.MoveGuardTilOffGridOrInLoop | day6/challenge2/index.ts:124-142 | moveGuardTilOffGridOrInLoop: LoopCheck on the grid's 4·W·H guard states, started with the start state seen (LoopVerdictMeaning) |
| GuardWalk.LoopVerdictBound | day6/challenge2/index.ts:124-142 | the answer comes within 4·W·H steps |
| GuardWalk.LoopingWalkNeverLeaves | day6/challenge2/index.ts:124-142 | where a loop is found, the walk of challenge 1 never leaves the grid, whatever its fuel |
| GuardWalk.RepeatingWalkRunsOut | day6/challenge1/index.ts:136-143 | a walk that repeats a state only ever runs out of fuel |
| GuardWalk.LeavingWalkFinishes | day6/challenge2/index.ts:124-142 | where challenge 2 finds the guard leaving, the walk of challenge 1 leaves within 4·W·H steps |
| GuardWalk.TrappedOnlyAtStart | day6/challenge1/index.ts:57-143 | after any step the cell behind the guard is open, so only the start can be walled in |
| GuardWalk.CountLoopObstacles | day6/challenge2/index.ts:144-166 | the two loops count the floor cells where an extra obstacle makes the guard loop, with no result when some trial walls the guard in |
| GuardWalk.TryAllExtraObstacles | day6/challenge2/index.ts:144-166 | tryAllExtraObstacles: the loop trials summed over the grid, at most the number of floor cells (LoopCountBound); computed by CountLoopObstacles |
| GuardWalk.TryRow | day6/challenge2/index.ts:148-162 | the inner loop counts, over the cells of one row, the trials that loop and the trials that wall the guard in |
| GuardWalk.ScoreAt | day6/challenge2/index.ts:154-161 | a cell scores 1 exactly when it is floor and the trial with an obstacle there loops (or, for the second score, walls the guard in) |
| GuardWalk.LoopCountBound | day6/challenge2/index.ts:144-166 | the count never exceeds the number of floor cells |
| GuardWalk.OnlyFloorTried | day6/challenge2/index.ts:154 | only `.` cells are tried: never an obstacle, never the start |
| GuardWalk.TrappedTrialClosesStart | day6/challenge2/index.ts:154-158 | a trial walls the guard in exactly when the added obstacle closes the last open side of the start |
| OperatorSearch.ToBase | day7/challenge1/index.ts:25 | `seed.toString(b)` gives at least one digit, every digit below the base |
| OperatorSearch.ToBaseValue | day7/challenge1/index.ts:25 | the digits of `toString(b)` read back as the seed |
| OperatorSearch.ToBaseLength | day7/challenge1/index.ts:25 | a seed below b^k takes at most k digits |
| OperatorSearch.PadStart | day7/challenge1/index.ts:25 | `padStart(length, "0")` puts zeros in front up to `length` and keeps the digits at the end; a longer string is left alone |
| OperatorSearch.PadStartValue | day7/challenge1/index.ts:25 | leading zeros do not change the value |
| OperatorSearch.SeedDigitsValue | day7/challenge1/index.ts:25 | the padded digits are the seed written in base b |
| OperatorSearch.SeedDigitsLength | day7/challenge1/index.ts:25 | every seed below b^length fills exactly `length` digits |
| OperatorSearch.FromDigitsInjective | day7/challenge1/index.ts:25 | digit strings of one length with the same value are the same string |
| OperatorSearch.SeedOfDigits | day7/challenge1/index.ts:41-42 | every digit string of the gap count is the padded expansion of exactly one seed below `maxSeed` |
| OperatorSearch.SeedDigitAt | day7/challenge1/index.ts:25 | the i-th padded digit is the i-th most significant digit of the seed |
| OperatorSearch.PlusAndMultiplyCombinations | day7/challenge1/index.ts:24-28 | one operator per padded binary digit, only `+` and `*` |
| OperatorSearch.PlusTimesOpAt | day7/challenge1/index.ts:24-28 | the i-th operator is `*` exactly when the i-th most significant binary digit of the seed is 1 |
| OperatorSearch.OperatorCombinations | day7/challenge2/index.ts:24-30 | one operator per padded base-3 digit |
| OperatorSearch.OperatorAt | day7/challenge2/index.ts:24-30 | the i-th operator is `+`, `*` or `|` as the i-th most significant base-3 digit is 0, 1 or 2 |
| OperatorSearch.ConcatIsShift | day7/challenge2/index.ts:41 | `Number(`${acc}${number}`)` shifts `acc` left by the number of digits of `number` and adds it |
| OperatorSearch.FoldIsLeftNested | day7/challenge1/index.ts:30-37 | the reduce evaluates strictly left to right: ((n0 op n1) op n2) … |
| OperatorSearch.SumOfExpression1 | day7/challenge1/index.ts:30-37 | challenge 1's getSumOfExpression: strictly left to right (FoldIsLeftNested), reading only as many operators as gaps (FoldPrefix) |
| OperatorSearch.SumOfExpression2 | day7/challenge2/index.ts:32-43 | challenge 2's getSumOfExpression, with `||` as a decimal shift (ConcatIsShift); agrees with challenge 1 on `+`/`*` (FoldAgrees) |
| OperatorSearch.NoPrecedence | day7/challenge1/index.ts:30-37 | `2 + 3 * 4` evaluates to 20, not 14, in both challenges |
| OperatorSearch.FoldPrefix | day7/challenge1/index.ts:33-36 | operators past the last gap are never read |
| OperatorSearch.FoldAgrees | day7/challenge2/index.ts:32-43 | on `+` and `*` alone the challenge 2 evaluator agrees with challenge 1's |
| OperatorSearch.SeedWitness1 | day7/challenge1/index.ts:42-47 | a seed whose operators hit the total proves some operator sequence does |
| OperatorSearch.SeedWitness2 | day7/challenge2/index.ts:48-53 | the same for `+`, `*` and `||` |
| OperatorSearch.EveryOpsHasSeed1 | day7/challenge1/index.ts:41-44 | every `+`/`*` sequence for the gaps is produced by some seed below 2^gaps, so the loop misses none |
| OperatorSearch.EveryOpsHasSeed2 | day7/challenge2/index.ts:47-50 | every operator sequence for the gaps is produced by some seed below 3^gaps |
| OperatorSearch.NoSeedNoSolution1 | day7/challenge1/index.ts:39-51 | when no seed below 2^gaps hits the total, no `+`/`*` sequence does |
| OperatorSearch.NoSeedNoSolution2 | day7/challenge2/index.ts:45-57 | when no seed below 3^gaps hits the total, no operator sequence does |
| OperatorSearch.FirstHit | day7/challenge1/index.ts:42-50 | the loop stops at the first seed whose sum is the total, having seen every smaller seed miss; no hit means every seed below the bound misses |
| OperatorSearch.CheckAllCombinations1 | day7/challenge1/index.ts:39-51 | true exactly when some `+`/`*` sequence makes the numbers evaluate to the total |
| OperatorSearch.CheckAllCombinations2 | day7/challenge2/index.ts:45-57 | true exactly when some `+`/`*`/`||` sequence does |
| OperatorSearch.SingleNumber | day7/challenge1/index.ts:40-47 | with one number (no gaps, one seed) the answer is whether it equals the total |
| OperatorSearch.Challenge1ImpliesChallenge2 | day7/challenge2/index.ts:45-57 | every equation challenge 1 accepts, challenge 2 accepts |
| Antinodes.FindGroup | day8/challenge2/index.ts:41 | `antennas.has(cell)`: the index of the group with that label, or none exactly when no group carries it |
| Antinodes.AddAntennaKeepsGrouped | day8/challenge2/index.ts:41-45 | adding one antenna keeps every group holding exactly the positions of its label, in scan order |
| Antinodes.GroupAllGrouped | day8/challenge2/index.ts:34-47 | the scan groups every labelled position under its label |
| Antinodes.AntennasGrouped | day8/challenge2/index.ts:31-50 | one group per frequency that occurs, holding exactly the cells of that frequency, in row-major order |
| Antinodes.PairsCount | day8/challenge2/index.ts:52-62 | n coordinates make n(n-1)/2 pairs |
| Antinodes.PairsMeaning | day8/challenge2/index.ts:52-62 | the pairs are exactly the `(cs[i], cs[j])` with `i < j` |
| Antinodes.PairsDistinct | day8/challenge2/index.ts:52-62 | over distinct coordinates no pair is listed twice |
| Antinodes.PairsOfDistinct | day8/challenge2/index.ts:52-62 | a pair of distinct coordinates has two different halves, both from the list |
| Antinodes.StepIsLinePoint | day8/challenge2/index.ts:70-77 | the absolute deltas with the `a.x < b.x` sign tests step along the line through `a` and `b`, away from `b` |
| Antinodes.LineFromOtherEnd | day8/challenge2/index.ts:86-88 | the second loop, from `b` away from `a`, walks the same line read backwards |
| Antinodes.Ray | day8/challenge2/index.ts:75-84 | a loop yields only points inside the grid, stopping at the first one outside |
| Antinodes.RaySound | day8/challenge2/index.ts:75-84 | every point a loop yields is a point of the line at or after its start index |
| Antinodes.RayComplete | day8/challenge2/index.ts:75-84 | a loop yields an in-grid line point when every point before it is in the grid and the bound leaves room |
| Antinodes.LineConvex | day8/challenge2/index.ts:79-80 | between `a` and an in-grid point of the line every point is in the grid, so the `break` loses nothing |
| Antinodes.LineBound | day8/challenge2/index.ts:75 | in-grid points of the line lie within `maxX` (vertical lines: `maxY`) steps of `a` |
| Antinodes.LineInRay | day8/challenge2/index.ts:75-95 | every in-grid line point from the start index on is yielded once the bound reaches maxX + maxY |
| Antinodes.AntiNodesUpTo | day8/challenge2/index.ts:64-98 | the list starts with `a` and `b`, and everything after them lies in the grid |
| Antinodes.AntiNodesAreLine | day8/challenge2/index.ts:64-98 | with the bound (maxX+1)(maxY+1), the antinodes of a pair are exactly the in-grid points of the line through the two antennas |
| Antinodes.GetAntiNodesAsWritten | day8/challenge2/index.ts:64-98 | getAntiNodes as written, both loops bounded by maxX·maxY; misses in-grid line points on one-row grids (AsWrittenMissesThinGrids) |
| Antinodes.GetAntiNodes | day8/challenge2/index.ts:64-98 | getAntiNodes with the bound (maxX+1)(maxY+1): exactly the in-grid line points (AntiNodesAreLine) |
| Antinodes.AsWrittenMissesThinGrids | day8/challenge2/index.ts:75-95 | on a one-row grid the bound maxX·maxY is 0 and `(4,0)`, on the line through `(0,0)` and `(2,0)`, is missed; the corrected bound finds it |
| Antinodes.ThinGridAsWritten | day8/challenge2/index.ts:75-95 | the as-written loops on that grid miss `(4,0)` |
| Antinodes.ThinGridCorrected | day8/challenge2/index.ts:75-95 | the corrected loops on that grid reach `(4,0)` |
| Antinodes.AsWrittenAgreesOnWideGrids | day8/challenge2/index.ts:75-95 | on grids at least two cells wide and high the as-written bound is enough: both versions give the same list |
| Antinodes.RayLimits | day8/challenge2/index.ts:75-95 | two loop bounds give the same points when no point past the smaller one is in the grid |
| Antinodes.LineLeaves | day8/challenge2/index.ts:79-80 | past max(maxX, maxY) steps the line has left the grid |
| Antinodes.FilterUniqueCoordinates | day8/challenge2/index.ts:100-108 | one entry per distinct position, the same positions as the input |
| Antinodes.PairsAntiNodesMeaning | day8/challenge2/index.ts:120-122 | a position is collected exactly when it is an antinode of one of the pairs |
| Antinodes.GroupsAntiNodesMeaning | day8/challenge2/index.ts:117-123 | with the corrected per-pair bound, a position is collected exactly when some pair of some frequency marks it |
| Antinodes.CountAntiNodesMeaning | day8/challenge2/index.ts:110-141 | with the corrected per-pair bound, every listed position is an in-grid point on the line of two same-frequency antennas, every such point is listed, and none twice |
| Antinodes.GetAllAntiNodes | day8/challenge2/index.ts:110-126 | getAllAntiNodes over GetAntiNodes: every in-grid antinode once and nothing else (CountAntiNodesMeaning) |
| Antinodes.CountAntiNodes | day8/challenge2/index.ts:128-141 | challenge 2's answer with the corrected per-pair bound: the number of in-grid antinodes (CountAntiNodesMeaning) |
| Antinodes.GetAllAntiNodesAsWritten | day8/challenge2/index.ts:110-126 | getAllAntiNodes exactly as the source runs it, over GetAntiNodesAsWritten (CountAsWrittenOnWideGrids, ThinGridCountAsWritten) |
| Antinodes.PairsAsWrittenAgree | day8/challenge2/index.ts:117-122 | for pairs of distinct in-grid antennas on a grid at least 2×2, the as-written and corrected bounds collect the same list |
| Antinodes.GroupsAsWrittenAgree | day8/challenge2/index.ts:117-123 | the same over every frequency group |
| Antinodes.CountAsWrittenOnWideGrids | day8/challenge2/index.ts:110-141 | on a grid at least two cells wide and two high, the source's own getAllAntiNodes lists every in-grid antinode once and nothing else, the same list as the corrected bound |
| Antinodes.ThinGridCountAsWritten | day8/challenge2/index.ts:110-141 | on the one-row grid `a.a..`, (4,0) is an in-grid antinode that the source's getAllAntiNodes leaves out |
| Antinodes.PairOfGroup | day8/challenge2/index.ts:117-118 | a pair of one group is two distinct antennas of that frequency, in row-major order |
| Antinodes.GroupOfPair | day8/challenge2/index.ts:117-118 | two same-frequency antennas in row-major order are a pair of their frequency's group |
| Antinodes.PairOfOrdered | day8/challenge2/index.ts:55-58 | in a row-major list two members in order form a pair |
| Antinodes.MarkedIsAntinode | day8/challenge2/index.ts:117-122 | every point a pair marks is an in-grid antinode |
| Antinodes.AntinodeIsMarked | day8/challenge2/index.ts:117-122 | with the corrected per-pair bound, every in-grid antinode is marked by some pair |
| Antinodes.PairMarks | day8/challenge2/index.ts:117-122 | with the corrected per-pair bound, an in-grid point on the line of two same-frequency antennas is marked by their pair |
| DiskMap.SplitEveryTwo | day9/challenge1/index.ts:12-18 | one chunk per two characters, rounding up |
| DiskMap.ChunkAt | day9/challenge1/index.ts:14-15 | chunk k is `data.slice(2k, 2k + 2)`, cut short at the end |
| DiskMap.SplitEveryTwoConcat | day9/challenge1/index.ts:12-18 | the chunks spell the input; all but the last are two characters, the last one or two |
| DiskMap.DigitsDescribed | day9/challenge1/index.ts:25-29 | a string of digits splits into chunks that each start with a size digit and have at most one free-space digit |
| DiskMap.Run | day9/challenge1/index.ts:28-29 | `Array(n).fill(c)`: n cells, all `c` |
| DiskMap.CreateBlocksOfDigits | day9/challenge2/index.ts:27-38 | one block per digit of the disk map, alternating file and free space, file ids counting up from 0, sizes the digits |
| DiskMap.CreateBlocks | day9/challenge2/index.ts:27-38 | createBlocks: a file block per chunk and a free block when the chunk has a second digit (CreateBlocksOfDigits, CreateBlocksFiles) |
| DiskMap.CreateBlocksPrefixLength | day9/challenge2/index.ts:27-38 | the first n chunks make min(2n, length) blocks |
| DiskMap.CreateBlocksPrefixAt | day9/challenge2/index.ts:27-38 | block m of the first n chunks is the block of digit m |
| DiskMap.ExpandInputIsExpandBlocks | day9/challenge2/index.ts:76-80 | challenge 1's expandInput is challenge 2's blocks expanded cell by cell |
| DiskMap.ExpandBlocksLength | day9/challenge2/index.ts:76-80 | the expanded disk has as many cells as the block sizes add up to |
| DiskMap.ExpandBlocksAt | day9/challenge2/index.ts:76-80 | block m fills the `size` cells after the blocks before it |
| DiskMap.CreateBlocksFiles | day9/challenge2/index.ts:27-38 | the file blocks are the files the chunks describe |
| DiskMap.FileSizesOnce | day9/challenge2/index.ts:27-38 | every file appears as exactly one block with the size its chunk gives it, and nothing else is a file block |
| DiskMap.ExpandInputLength | day9/challenge1/index.ts:23-31 | expandInput makes as many cells as the digits add up to |
| DiskMap.ExpandInputLayout | day9/challenge1/index.ts:23-31 | the cells of digit m start after those of the digits before it and hold file m/2 for even m, free space for odd m |
| DiskMap.ExpandInput | day9/challenge1/index.ts:23-31 | challenge 1's expandInput: as many cells as the digit sum (ExpandInputLength), laid out digit by digit (ExpandInputLayout), equal to challenge 2's block expansion (ExpandInputIsExpandBlocks) |
| DiskMap.ChecksumAllFree | day9/challenge1/index.ts:62-67 | a disk of free cells has checksum 0 |
| DiskMap.ChecksumUpdate | day9/challenge1/index.ts:62-67 | changing one cell changes the checksum by that cell's weight `id · index` only |
| DiskMap.Checksum | day9/challenge1/index.ts:62-67 | computeChecksum: 0 on an all-free disk (ChecksumAllFree); a one-cell change moves it by that cell's weight only (ChecksumUpdate) |
| DiskMap.FirstFree | day9/challenge1/index.ts:50 | `indexOf(".")`: the first free cell with only file cells before it, or -1 exactly when no cell is free |
| DiskMap.LastFile | day9/challenge1/index.ts:37-38 | the last file cell, with only free cells after it, or none when all cells are free |
| DiskMap.MoveLastBlockToFreeSpace | day9/challenge1/index.ts:33-47 | the last file cell is freed and its content written at the given index; nothing else changes; it throws exactly when every cell is free |
| DiskMap.MoveIntoFree | day9/challenge1/index.ts:52-57 | a move into the first free cell keeps the cells and pushes the first free cell to the right |
| DiskMap.MoveWithoutFree | day9/challenge1/index.ts:50-57 | with no free cell the move to index -1 only frees the last cell, which becomes the first free one |
| DiskMap.CompactedStops | day9/challenge1/index.ts:52-54 | on a compacted disk the loop test fails |
| DiskMap.CondenseAsWritten | day9/challenge1/index.ts:49-60 | with a free cell: a permutation of the cells with no file after a free cell, a compacted disk left alone; with none: the last cell is freed and its file lost |
| DiskMap.FullDiskLosesLastFile | day9/challenge1/index.ts:49-67 | that lost file takes its weight out of the checksum: "1010" expands to files 0 and 1, checksum 1, condensed as written to checksum 0 |
| DiskMap.CondenseFileSystem | day9/challenge1/index.ts:49-60 | with the no-free-cell case guarded: always a permutation of the cells with no file after a free cell, a compacted disk left alone |
| DiskMap.FindFit | day9/challenge2/index.ts:48-53 | the first free block with room for the file, every earlier one too small or a file; none when there is none |
| DiskMap.MoveFile | day9/challenge2/index.ts:42-70 | one pass keeps the block count or, with a leftover, adds one |
| DiskMap.MoveFileTarget | day9/challenge2/index.ts:42-70 | a free block or a file with no room before it changes nothing; otherwise the file lands in the first fitting free block, its old place becomes free space of its size, and a non-zero leftover becomes a free block right after it |
| DiskMap.MoveFileKeeps | day9/challenge2/index.ts:55-70 | a pass keeps the total size and the multiset of file blocks |
| DiskMap.FirstFreeBlock | day9/challenge2/index.ts:48-53 | the first free block, with only files before it |
| DiskMap.MovedProgress | day9/challenge2/index.ts:55-70 | a move never adds free space before the loop index and removes the moved file's size from it |
| DiskMap.DefragProgress | day9/challenge2/index.ts:41-71 | the `i++` after a split still lets the loop end: free space before the index, the index, or the distance to the first free block goes down |
| DiskMap.DefragBlocks | day9/challenge2/index.ts:40-74 | defragBlocks ends, keeps the total size and every file block with its size, so the expanded disk keeps its length |
| Trails.FindTrailHeads | day10/challenge2/index.ts:41-50 | every spot the reduce keeps has elevation 0 |
| Trails.TrailHeadsMeaning | day10/challenge2/index.ts:41-50 | the heads are exactly the height-0 cells, each once, in row-major order |
| Trails.NextSpotsMeaning | day10/challenge2/index.ts:52-68 | at most four next spots, all different, and exactly the in-grid orthogonal neighbours one higher |
| Trails.FindNextSpots | day10/challenge2/index.ts:52-68 | findNextSpots: exactly the in-grid orthogonal neighbours one higher, distinct, at most four (NextSpotsMeaning) |
| Trails.ExpandStepsUp | day10/challenge2/index.ts:77-80 | every spot of a new round is one step up from a spot of the previous round |
| Trails.FrontierEmptyStays | day10/challenge2/index.ts:72-87 | once the frontier is empty it stays empty |
| Trails.FrontierElevation | day10/challenge2/index.ts:72-87 | after k rounds from spots of one height every frontier spot is k higher |
| Trails.Trails | day10/challenge2/index.ts:52-68 | the reference depth-first enumeration: every trail of k steps has k + 1 spots |
| Trails.TrailsMeaning | day10/challenge2/index.ts:52-68 | the enumerated trails are exactly the climbs of k steps from the head |
| Trails.TrailsFromMeaning | day10/challenge2/index.ts:52-68 | the trails from a list of spots are the climbs of k steps starting at one of them |
| Trails.TrailsDistinct | day10/challenge2/index.ts:52-68 | no trail is listed twice |
| Trails.FrontierIsEnds | day10/challenge2/index.ts:72-87 | the breadth-first frontier lists the ends of the depth-first trails, duplicates and order included |
| Trails.FrontierCountsTrails | day10/challenge2/index.ts:76-89 | from one head the frontier after k rounds has one entry per trail of k steps |
| Trails.NextRound | day10/challenge2/index.ts:76-80 | the inner `for` loop builds the next frontier: the next spots of every spot, in order |
| Trails.RoundLevel | day10/challenge2/index.ts:72-87 | a round from height h reaches height h + 1 and stays on the map, so the loop runs at most 9 rounds |
| Trails.EmptyFrontierRating | day10/challenge2/index.ts:82-84 | a frontier that empties below height 9 leaves the head without a trail |
| Trails.SummitFrontierRating | day10/challenge2/index.ts:72-89 | a frontier at height 9 has as many spots as the head has trails |
| Trails.NextFrontier | day10/challenge2/index.ts:76-86 | one round of the `while` loop takes the frontier after k rounds to the one after k + 1, one level up |
| Trails.InvestigateTrail | day10/challenge2/index.ts:70-90 | as written: the result is at least 1, is the size of some frontier, and is the head's trail count whenever that is positive |
| Trails.DeadEndRating | day10/challenge2/index.ts:70-90 | on the one-cell map `0` the head has no trail (rating 0), the frontier is `[head]` and then empty, so every frontier size investigateTrail may return (at least 1) is 1 |
| Trails.RateTrail | day10/challenge2/index.ts:70-90 | without the `break`, the result is the number of distinct step-up paths from the head to height 9 |
| Stones.EvolveStone | day11/challenge2/index.ts:14-28 | a stone becomes one or two stones |
| Stones.EvolveStoneRule | day11/challenge1/index.ts:16-35 | the rule in arithmetic terms: 0 becomes 1; an even digit count splits into `n / 10^h` and `n % 10^h` with h half the digits; otherwise ×2024 |
| Stones.CutDigits | day11/challenge1/index.ts:26-29 | `Number(slice)` of the first k digits and of the rest are the quotient and remainder by 10^(digits − k) |
| Stones.HalvesArithmetic | day11/challenge1/index.ts:25-29 | the two halves are `n / 10^h` and `n % 10^h`, and recombine to n |
| Stones.SplitRoundTrip | day11/challenge1/index.ts:25-30 | the split is lossless: left·10^h + right == n; the left half has exactly h digits, the right half may drop leading zeros |
| Stones.EvolveLineAppend | day11/challenge1/index.ts:16-35 | a blink acts on each stone independently and keeps the line's order |
| Stones.EvolveLineOne | day11/challenge1/index.ts:16-35 | a blink of a one-stone line is that stone's rule |
| Stones.EvolveLineLength | day11/challenge1/index.ts:16-35 | a blink never shortens the line and at most doubles it |
| Stones.EvolveLine | day11/challenge1/index.ts:16-35 | evolveStoneLine over any stone rule: acts stone by stone over concatenation (EvolveLineAppend), a single stone gives its rule (EvolveLineOne) |
| Stones.NTimesAppend | day11/challenge1/index.ts:37-38 | `times` blinks also act on each stone independently |
| Stones.NTimesFirst | day11/challenge1/index.ts:37-38 | the `reduce` over `times` entries applies the blink `times` times: the first, then the rest |
| Stones.NTimesLength | day11/challenge1/index.ts:37-38 | any number of blinks never shortens the line |
| Stones.EvolveLineNTimes | day11/challenge1/index.ts:37-38 | evolveStoneLineNTimes: `times` blinks, the first applied first (NTimesFirst), distributing over concatenation (NTimesAppend) |
| Stones.StoneCountIsLength | day11/challenge2/index.ts:30-46 | the recursive count for a stone is the length of challenge 1's line after `times` blinks of that stone |
| Stones.StoneCount | day11/challenge2/index.ts:30-46 | the uncached recursion of challenge 2's evolveStoneLineNTimes: the length of challenge 1's line after `times` blinks of the stone (StoneCountIsLength) |
| Stones.CountAllIsLength | day11/challenge2/index.ts:53-55 | the summed counts are the length of the whole line after `times` blinks |
| Stones.StoneCountBasics | day11/challenge2/index.ts:36-39 | for times ≥ 1 the count is at least 1, and one blink counts the stone's successors |
| Stones.CountStones | day11/challenge2/index.ts:30-46 | the memoised count equals the uncached recursion; the cache stays valid, gains the key and loses none |
| Stones.CountNext | day11/challenge2/index.ts:42-44 | the `map`/`reduce` over a stone's successors sums their counts, sharing the cache |
| Stones.CountLine | day11/challenge2/index.ts:53-55 | the `main` sum over the line, sharing one cache, is the length of the line after `times` blinks |
| FloodFill.CostOfAppend | day12/challenge1/index.ts:76-79 | the price of two stretches of a walk is the sum of their prices |
| FloodFill.CostOfIndicator | day12/challenge2/index.ts:83-131 | a 0/1 cost sums, over a walk without repeats, to the number of marked cells it visits |
| FloodFill.NoDupWithin | day12/challenge1/index.ts:45-47 | a walk without repeats inside a set of cells is no longer than the set is big |
| FloodFill.Visit | day12/challenge1/index.ts:42-87 | traverseCell marks its cell and extends the visited cells, never twice, never off the grid; its price is the summed cost of the cells it adds |
| FloodFill.Walk | day12/challenge1/index.ts:56-70 | the four neighbour checks in turn, skipping cells an earlier walk reached: they only add cells, each once, and price exactly what they add |
| FloodFill.VisitIgnoresCost | day12/challenge2/index.ts:48-81 | the cells a walk visits do not depend on what it prices, so both challenges walk alike |
| FloodFill.VisitStaysIn | day12/challenge1/index.ts:56-70 | everything a walk adds lies in any step-closed set holding its start |
| FloodFill.VisitCloses | day12/challenge1/index.ts:56-70 | the walk holds its start and every step out of every cell it adds |
| FloodFill.RegionClosed | day12/challenge1/index.ts:42-87 | from a fresh visited set the walk holds its start and is closed under steps |
| FloodFill.RegionLeast | day12/challenge1/index.ts:42-87 | and it lies inside every step-closed set holding its start: it is exactly the connected component |
| FloodFill.PathInRegion | day12/challenge1/index.ts:42-87 | every path of steps from the start stays inside the walk's region |
| FloodFill.OutsideClosed | day12/challenge1/index.ts:103-108 | with symmetric steps, the cells not yet visited form a closed set too |
| FloodFill.SurveyStarts | day12/challenge1/index.ts:103-114 | each walk of getTotalPrice is traverseCell from its own first cell with a fresh set |
| FloodFill.SurveyPrices | day12/challenge1/index.ts:109-112 | each walk's price is the summed cost of its cells, each counted once |
| FloodFill.FreshRegion | day12/challenge1/index.ts:105-109 | a walk from an unvisited cell stays clear of every cell visited before |
| FloodFill.SurveyDisjoint | day12/challenge1/index.ts:103-114 | the walks are pairwise disjoint, clear of cells visited before, and inside the grid |
| FloodFill.SurveyCovers | day12/challenge1/index.ts:103-114 | every cell of the scan ends up visited |
| FloodFill.SurveyArea | day12/challenge1/index.ts:109-112 | the areas add up to the number of cells walked |
| FloodFill.SurveyCoversAll | day12/challenge1/index.ts:100-116 | from an empty set over every cell: every cell is priced in exactly one region, each region grows from its first cell, and the areas add up to the cell count |
| FloodFill.SurveyIgnoresCost | day12/challenge2/index.ts:147-163 | the scan walks the same regions whatever it prices |
| FloodFill.TotalPriceMono | day12/challenge2/index.ts:147-163 | walks over the same cells priced lower total lower |
| FloodFill.SurveyAllMarked | day12/challenge1/index.ts:105-107 | once every remaining cell is visited, no more walks start |
| Garden.NeighboursMeaning | day12/challenge1/index.ts:49-70 | traverseCell steps to exactly the adjacent plots of the same plant |
| Garden.LinksClosed | day12/challenge1/index.ts:49-52 | a step never leaves the grid |
| Garden.LinksSymmetric | day12/challenge1/index.ts:56-70 | steps go both ways |
| Garden.PerimeterCostMeaning | day12/challenge1/index.ts:23-40 | calculatePerimeterCost is 4 less the number of same-plant neighbours, so at most 4 |
| Garden.PerimeterCost | day12/challenge1/index.ts:23-40 | calculatePerimeterCost: 4 less the number of same-plant neighbours (PerimeterCostMeaning) |
| Garden.GetFences | day12/challenge2/index.ts:26-46 | each flag is set exactly when the neighbour that side is off the grid or another plant |
| Garden.FlagsArePerimeter | day12/challenge2/index.ts:26-46 | the number of flags is challenge 1's perimeter cost |
| Garden.SideStartsAtMostFences | day12/challenge2/index.ts:88-130 | a plot starts at most as many sides as it has fences |
| Garden.Order | day12/challenge1/index.ts:103-104 | the `for … of` over rows, then cells, lists plots in row-major order |
| Garden.OrderMeaning | day12/challenge1/index.ts:103-104 | every plot is in the order, and nothing else |
| Garden.RegionsPartition | day12/challenge1/index.ts:100-114 | every plot is priced in exactly one region, and the areas add up to the number of plots |
| Garden.RegionsAreComponents | day12/challenge1/index.ts:42-87 | each region is everything reachable by same-plant steps from its first plot and nothing more |
| Garden.RegionPrices | day12/challenge1/index.ts:72-79 | a region's traverseCell price is the summed cost of its plots |
| Garden.PerimeterPrice | day12/challenge1/index.ts:89-117 | challenge 1's getTotalPrice: regions as same-plant components (RegionsAreComponents) priced by the summed perimeter cost times the area (RegionPrices) |
| Garden.SidePrice | day12/challenge2/index.ts:136-164 | challenge 2's getTotalPrice over the same regions (SameRegions), at most the perimeter price (SidesAtMostPerimeter) |
| Garden.RectangleArea | day12/challenge1/index.ts:100-114 | on a rectangular garden the areas add up to width × height |
| Garden.SameRegions | day12/challenge2/index.ts:48-81 | both challenges walk the same regions, in the same order |
| Garden.SidesAtMostPerimeter | day12/challenge2/index.ts:83-131 | a region has at most as many sides as fences, so the side price never exceeds the perimeter price |
| Garden.OnePlantOneRegion | day12/challenge1/index.ts:100-114 | a one-plant garden is a single region holding every plot |
| Garden.EdgeFees | day12/challenge1/index.ts:29-37 | in a one-plant rectangle exactly the plots on the matching edge pay for a fence on that side |
| Garden.OnePlantPerimeter | day12/challenge1/index.ts:23-40 | a one-plant w × h rectangle has perimeter 2(w + h) |
| Garden.OneRegionPrice | day12/challenge1/index.ts:109-112 | a single region's price is its summed cost times its area |
| Garden.OnePlantPerimeterPrice | day12/challenge1/index.ts:89-117 | a one-plant w × h rectangle costs w·h·2(w + h) |
| Garden.CornerStarts | day12/challenge2/index.ts:88-130 | in a one-plant rectangle each side's fence starts at exactly one plot, the corner |
| Garden.OnePlantSides | day12/challenge2/index.ts:88-130 | a one-plant rectangle of any size has 4 sides |
| Garden.OnePlantSidePrice | day12/challenge2/index.ts:136-164 | and so costs 4 per plot |
| Garden.SinglePlot | day12/challenge1/index.ts:23-40 | a single plot costs 4 with both pricings |
| Robots.Normalize | day14/challenge1/index.ts:38-54 | within one grid length of the edges the result is on the grid and congruent to n modulo max; further out it stays off the grid |
| Robots.NormalizeIsMod | day14/challenge2/index.ts:38-54 | within that reach normalizeNumber is the Euclidean remainder n mod max |
| Robots.MoveRobot | day14/challenge1/index.ts:56-71 | the velocity is kept; a robot on the grid with a speed of at most one grid length per second stays so, one velocity step further on, wrapped |
| Robots.MoveTimesWraps | day14/challenge1/index.ts:73-81 | after k seconds such a robot stands at its start plus k times its velocity, wrapped onto the grid, with its velocity kept |
| Robots.MovePeriod | day14/challenge2/index.ts:76-79 | after 101 × 103 seconds every such robot is back at its start |
| Robots.MoveAll | day14/challenge1/index.ts:77 | `robots.map(moveRobot)` keeps the number of robots |
| Robots.MoveAllTimesEach | day14/challenge1/index.ts:73-81 | moving the line k times keeps its length and order: robot i is the robot that started there, moved k times |
| Robots.AllTameMoved | day14/challenge2/index.ts:76-79 | robots on the grid within speed stay so however long they move |
| Robots.MoveAll100 | day14/challenge1/index.ts:73-81 | moveAllRobots100Times: as many robots, each moved exactly 100 times |
| Robots.GetQuad | day14/challenge1/index.ts:97-133 | the quadrant tests never overlap: the answer is the one quadrant whose test holds, and null exactly on column 50 or row 51 |
| Robots.TallyCounts | day14/challenge1/index.ts:136-147 | the reduce adds, per quadrant, the number of robots standing in it |
| Robots.CountsPartition | day14/challenge1/index.ts:136-147 | every robot is counted in exactly one quadrant or in none |
| Robots.SafetyScoreIsProduct | day14/challenge1/index.ts:135-150 | the safety score is the product of the four quadrant populations |
| Robots.SafetyScore | day14/challenge1/index.ts:135-150 | getSafetyScore: the product of the four quadrant counts (SafetyScoreIsProduct), 0 exactly when a quadrant is empty (SafetyScoreZero) |
| Robots.SafetyScoreZero | day14/challenge1/index.ts:135-150 | the score is 0 exactly when some quadrant is empty |
| Robots.CountGrid | day14/challenge1/index.ts:84-90 | the counting grid has 103 rows of 101 cells |
| Robots.CountGridMeaning | day14/challenge1/index.ts:88-90 | each cell counts the robots standing on it |
| Robots.CountGridTotal | day14/challenge1/index.ts:84-90 | the cell counts add up to the number of robots |
| Robots.CellText | day14/challenge1/index.ts:93 | a cell prints as `.` exactly when its count is 0, and as one character below 10 |
| Robots.RowTextReadable | day14/challenge1/index.ts:93 | with fewer than ten robots per cell a printed row has one character per cell, `.` exactly on the empty ones |
| Robots.PlotLines | day14/challenge1/index.ts:92-94 | the plot splits at line breaks into 103 lines, each the text of its grid row |
| Robots.PlotRobots | day14/challenge1/index.ts:83-95 | plotRobots: 103 lines, each the text of its counting row (PlotLines), with `.` for an empty cell (CellText) |
| Robots.RowTextNoBreak | day14/challenge1/index.ts:93 | a printed row holds no line break |
| Robots.SafetyAfter100 | day14/challenge1/index.ts:152-159 | the first challenge's score is the product of the quadrant counts after 100 seconds |
| Robots.Occupancy | day14/challenge2/index.ts:89-99 | the picture has 103 rows of 101 cells |
| Robots.OccupancyMeaning | day14/challenge2/index.ts:89-99 | a cell is `■` exactly when a robot stands there and a blank exactly when none does |
| Robots.JsRem | day14/challenge2/index.ts:82 | JavaScript's `%` keeps the dividend's sign and stays strictly inside (−m, m) |
| Robots.ShowsFrameMeaning | day14/challenge2/index.ts:82 | a frame is selected exactly at the seconds i with (i − 50) mod 103 = 0 |
| Robots.FramesStep | day14/challenge2/index.ts:76-85 | each selected second adds one frame, at second 50 + 103·(frames before it); other seconds add none |
| Robots.Simulate | day14/challenge2/index.ts:73-87 | 10403 seconds of movement keeping the robot count; 101 frames, frame j at second 50 + 103 j showing the occupancy then |
| Robots.SimulationReturns | day14/challenge2/index.ts:76-79 | after the last simulated second every robot is back where it started |

## Left out

- Input and output: `getData`, `main`'s printing and `console.log` are not modelled. Each model starts from loaded text or already-parsed records.
- The sums in `main` over solved lines are not modelled where they are a plain `reduce` over results the model already states. Days 7 and 10 are examples. Days 2, 5, 11 and 14 model theirs.
- Parsers other than day 1's `getLists`, day 5's `normalizeInput` and day 9's `splitStringEveryTwoChars` are left out: day 2's report parser, day 7's `getExpressions`, day 11's `getStones`, day 14's `createRobots`, and the `createGrid` functions. The models take the parsed values.
- Day 1's tokenising by `/\s+/` is left out. `LocationLists.GetLists` takes each line already as numbers.
- LocationLists.GetLists: requires at least two numbers per line. A shorter line would put `undefined` into a list.
- Regular-expression internals for day 3's `matchAll`/`match` are not modelled. The token grammar is written out directly as a staged matcher.
- MulScanner.GetNumbersFromInstruction: requires that the instruction does not hold exactly one digit run. Only matched `mul(a,b)` texts are passed to it, and one run would give `NaN` for the second number.
- JavaScript double precision is not modelled: no rounding above 2^53 in day 7 concatenation, day 11's ×2024 or the day 9 checksums.
- `NaN` from `Number` on non-digit text is not modelled. The parsers answer `None` for malformed input instead.
- PageOrder.FixUpdate: takes a fuel bound. Under cyclic rules the source's repair loop never ends, and the model reports running out of fuel instead.
- PageOrder.GetMiddleNumberFromUpdate: requires a non-empty update. `split(",")` always yields at least one page, so a parsed update is never empty.
- GuardWalk.WalkFrom: takes a fuel bound. `moveGuardTilOffGrid` loops forever on a grid where the guard goes round, and the model reports running out of fuel instead.
- A guard walled in on all four sides makes `getNextGuardPosition` recurse forever. `GuardWalk.NextGuard` answers `Boxed` there, and `GuardWalk.BoxedRepeatsCall` shows the recursion repeats its first call.
- GuardWalk.CountLoopObstacles: answers `None` when some trial walls the guard in at its start, where the source's recursion never returns and overflows the stack.
- Day 6 challenge 2's progress printing is left out.
- Stones.CountStones: requires `times >= 1`. With `times` 0 the source's recursion never reaches its `times === 1` base case.
- The string keys `${x},${y}`, `${x},${y},${direction}` and `${stone}-${times}` are modelled as tuples, sets and maps. Their injectivity is proved where the source relies on it.
- Day 12 challenge 2's inner calls of `traverseCell` compute a `perimeterSides` value that the caller discards. The model prices only the top-level walk, over the same cells.
- Robots.CountGrid: requires every robot to be on the grid. Off the grid the source does not fail in one way. A robot whose row is off the grid makes it index a missing row and throw. A robot in a real row but off its columns makes it store `undefined + 1`, which is `NaN`, without throwing. A column of 101 or more lengthens that row, so the plot shows `NaN` there (`■` in challenge 2). A negative column becomes a non-index property of the row, so the robot silently drops out of the plot.
- Robots.Occupancy: requires every robot to be on the grid, for the reasons given for `Robots.CountGrid`.
- Robots.PlotLines: requires every robot to be on the grid, for the reasons given for `Robots.CountGrid`. The same holds for `Robots.PlotRobots`.
- LocationLists.GetDifference: requires the left column to be no longer than the right. With a shorter right column the source subtracts `undefined` and the sum is `NaN`.
- Antinodes.CountAntiNodesMeaning: states the antinode list of getAllAntiNodes with the corrected per-pair bound (maxX+1)(maxY+1). On a grid one cell high or wide, the source's own list can be shorter (`Antinodes.ThinGridCountAsWritten`). On grids at least 2×2 it is the same list (`Antinodes.CountAsWrittenOnWideGrids`).
- Antinodes.GroupsAntiNodesMeaning: speaks of the corrected per-pair bound, with the same thin-grid gap and the same 2×2 agreement as `Antinodes.CountAntiNodesMeaning`.
- Antinodes.AntinodeIsMarked: completeness holds for the corrected per-pair bound. With the source's maxX·maxY bound it fails on grids one cell high or wide (`Antinodes.ThinGridCountAsWritten`), and holds on grids at least 2×2 (`Antinodes.CountAsWrittenOnWideGrids`).
- Antinodes.PairMarks: a pair marks every in-grid point of its line under the corrected per-pair bound. The source's bound falls short on grids one cell high or wide, as `Antinodes.AsWrittenMissesThinGrids` shows for one pair.
- Robots.Simulate: requires each robot's speed to be at most one grid length per second. Faster robots leave the range `normalizeNumber` brings back.
- Day 14 challenge 2 prints the selected frames. The model returns them as a sequence of `Frame` records.
- Ragged grids are not modelled. The grid lemmas assume rectangular grids, as every input here is.
- Day 13 is not part of this model, because its solver works in floating point. The template solver has no logic.

## Findings

| source | as written | input that shows it | evidently intended | confidence | as-written member | corrected member |
|---|---|---|---|---|---|---|
| day8/challenge2/index.ts:75-95 | both loops run while `i <= maxX * maxY`, which is 0 on a grid one cell high or wide | one-row grid of width 5 with antennas at (0,0) and (2,0): (4,0) is on their line but is not reported | loop up to `(maxX + 1) * (maxY + 1)`, enough to reach every in-grid point of the line | not executed | Antinodes.AsWrittenMissesThinGrids | Antinodes.AntiNodesAreLine |
| day9/challenge1/index.ts:49-60 | with no free cell `indexOf` gives -1, the loop still runs, and `moveLastBlockToFreeSpace(fs, -1)` frees the last cell and stores its file under the non-index key `-1` | disk map "1010" (files 0 and 1, no free space): checksum 0 instead of 1 | leave a disk with no free cell as it is | not executed | DiskMap.FullDiskLosesLastFile | DiskMap.CondenseFileSystem |
| day10/challenge2/index.ts:82-84 | the `break` on an empty next frontier returns the size of the last non-empty frontier, at least 1, for a head none of whose trails reaches 9 | the one-cell map `0`: rating 1 instead of 0 | a head without a trail to 9 scores 0 | not executed | Trails.DeadEndRating | Trails.RateTrail |
