# Advent of Code 2025, days 1–7, and the shared grid, in Dafny

This project models the puzzle solvers of the `2025` crate and the byte grid of the
`aoc` crate that several of them build on. Everything is modelled as pure functions
over sequences, with methods and loop invariants where the source sweeps a grid or
merges ranges.

- `common.dfy` (`Common`): `u8`, `Option` and `Result`. It also holds the
  `collect::<Result<Vec<_>,_>>()` chain, sums and products, and interval and counting
  facts.
- `text.dfy` (`Text`): the Rust string operations the solvers rely on:
  - `lines`, `split`, `split_once` and `split_whitespace`;
  - `str::parse::<usize>` and `usize::to_string`;
  - `str::as_bytes` and `str::len`, which are UTF-8, and the per-character `c as u8`.

  `lines`, `split` and `split_whitespace` are inverted by a join, `str::parse` by
  `to_string`, and `as_bytes` by a UTF-8 decoder. The per-character cast is lossy
  outside ASCII, and the byte length has no inverse; those two are compared with
  `as_bytes` instead.
- `point.dfy` (`Points`): signed cell addresses and the `UP`/`LEFT`/`RIGHT` offsets.
- `grid.dfy` (`Grids`): `Grid`. This covers:
  - `from_vec` and `parse`;
  - `get` and `get_point`;
  - `rows` and `columns`;
  - indexing by point and by row, and writes through those indexes;
  - `transpose`.
- `day1.dfy` … `day7.dfy` (`Day1` … `Day7`): one module per puzzle. Each has:
  - the parsing, modelled with its error path;
  - the solver loop;
  - a description of the answer that does not follow the loop, and the proof that the
    loop meets it. Mostly this is a recursive reference function. For day 4's repeated
    passes it is the largest stable grid, and for day 7's sweep it is a row-by-row
    characterisation of the drawing; each comes with a proof that it has one solution;
  - the unit tests' scenarios, where they are small enough to evaluate.

A Rust panic is modelled as a precondition. The one exception is the out-of-bounds
side write of day 7, which depends on the sweep itself, so it is modelled as an
explicit outcome. A `?` error is a `Result` that the model carries through.

## Model

| member | source | states |
|---|---|---|
| Common.Collect | 2025/src/day2.rs:2-7 | collecting succeeds exactly when every item succeeded, and then yields every value in order |
| Common.FirstError | 2025/src/day2.rs:2-7 | a failed collection reports the error of some item |
| Common.ErrorSticks | 2025/src/day2.rs:2-7 | once an error has occurred, the later items do not change the collected result |
| Common.CollectAllOk | 2025/src/day2.rs:2-7 | items that are all successes collect into exactly their values |
| Common.CollectSnoc | 2025/src/day2.rs:2-7 | one more item either extends a successful collection or ends it with that item's error |
| Common.Sum | 2025/src/day6.rs:18 | the sum of naturals is 0 for no items and bounds every item |
| Common.Product | 2025/src/day6.rs:19 | the product is 1 for no items and is 0 exactly when some item is 0 |
| Common.SumAppend | 2025/src/day6.rs:18 | the sum over a concatenation is the sum of the sums |
| Common.IntervalSize | 2025/src/day5.rs:57 | the inclusive range `lo..=hi` holds `hi - lo + 1` integers |
| Common.MarkedStep | 2025/src/day1.rs:57-59 | a counter incremented at set flags counts the set positions seen so far |
| Text.ToBytes | aoc/src/grid.rs:22 | `chars().map(\|c\| c as u8)` gives one byte per character, the cast of that character |
| Text.Utf8 | 2025/src/day3.rs:8 | a character encodes as one to four bytes by code point range, as a single byte equal to its code exactly when it is ASCII, with every byte after the first a continuation byte |
| Text.Utf8Decodes | 2025/src/day3.rs:8 | the lead byte announces the encoding's length, and the bytes decode back to the character's code point |
| Text.AsBytes | 2025/src/day3.rs:7-8 | `as_bytes` has `len()` bytes, at least one per character, and none exactly for empty text |
| Text.DecodeAsBytes | 2025/src/day3.rs:8 | decoding the bytes of `as_bytes` gives back exactly the text's code points |
| Text.AsBytesAscii | 2025/src/day3.rs:8 | on ASCII text `as_bytes` is the per-character cast |
| Text.AsBytesLonger | 2025/src/day3.rs:8 | a text with a non-ASCII character has more bytes than characters |
| Text.AccentExample | 2025/src/day3.rs:8 | `"é9"` is the bytes `C3 A9 39`, where the per-character cast gives `E9 39` |
| Text.Split | 2025/src/day2.rs:2 | `split` gives at least one piece, no piece holds the separator, and a text without the separator is one piece |
| Text.JoinSplit | 2025/src/day2.rs:2 | joining the pieces of `split` with the separator restores the text |
| Text.SplitJoin | 2025/src/day2.rs:2 | splitting separator-free pieces joined by the separator gives the pieces back |
| Text.SplitOnce | 2025/src/day2.rs:4 | `split_once` succeeds exactly when the separator occurs, and splits at its first occurrence |
| Text.SplitOnceJoin | 2025/src/day5.rs:12 | `split_once` of `p + c + q`, where `p` has no `c`, is `(p, q)` |
| Text.Lines | aoc/src/grid.rs:14 | `lines` gives no line containing a newline, and no lines for empty text |
| Text.LinesAsSplit | aoc/src/grid.rs:14 | on text without carriage returns, `lines` is `split('\n')` of the text less one final terminator |
| Text.LinesRoundTrip | aoc/src/grid.rs:14 | for text without carriage returns, joining the lines with newlines and restoring the final terminator gives the text back |
| Text.LinesOfJoin | aoc/src/grid.rs:273-275 | lines free of newlines and carriage returns, each terminated by a newline, read back as exactly those lines, empty ones included |
| Text.SplitWhitespace | 2025/src/day6.rs:6-10 | the tokens are non-empty and free of whitespace, and a whitespace-free text is one token |
| Text.SplitWhitespaceJoin | 2025/src/day6.rs:6-10 | tokens joined by single spaces split back into the same tokens |
| Text.ParseNat | 2025/src/day2.rs:5 | `parse::<usize>` rejects empty text, accepts digits with an optional `+`, gives the decimal value, and reports an invalid digit otherwise |
| Text.ToDecimal | 2025/src/day2.rs:14 | `to_string` gives non-empty decimal digits with no leading zero |
| Text.DecimalValue | 2025/src/day2.rs:14 | the printed digits of `n` have the value `n` |
| Text.ParseDecimal | 2025/src/day2.rs:5 | parsing the printed form of a number gives the number back |
| Grids.Retained | aoc/src/grid.rs:19-21 | the retained lines are exactly the non-empty ones, in order, and the filter is the identity when no line is empty |
| Grids.FromVec | aoc/src/grid.rs:17-25 | one row per non-empty line, each character cast to a byte; the width is the first row's length, or 0 for no rows; the height is the row count |
| Grids.FromVecAsWritten | aoc/src/grid.rs:18 | the height counts every line, empty ones included, while the buffer holds only the non-empty ones |
| Grids.Parse | aoc/src/grid.rs:13-24 | `parse` keeps one row per non-empty line of the text, in order, the rows the as-written `from_vec` stores; the width is the length of the first kept row (0 when there is none), and the corrected height equals the number of rows |
| Grids.ParseOfJoin | aoc/src/grid.rs:13-15 | non-empty rows written one per line parse back to exactly those rows, cast to bytes, with height the number of rows |
| Grids.ParseEmptyLinesText | aoc/src/grid.rs:272-279 | the text `"\n12\n\n34\n"` has the lines `["", "12", "", "34"]`; `parse` gives the rows `b"12"` and `b"34"` with width and height 2, while the as-written `from_vec` of those lines has height 4 |
| Grids.ParseEmptyLines | aoc/src/grid.rs:272-279 | for the lines of `"\n12\n\n34\n"`, the as-written height is 4 over two rows; the corrected grid has the rows `b"12"` and `b"34"` (bytes 49, 50 and 51, 52) with width 2 and height 2 |
| Grids.FromVecRectangular | aoc/src/grid.rs:17-25 | lines of equal length build a rectangular grid |
| Grids.FromVecAscii | aoc/src/grid.rs:17-25 | non-empty ASCII lines build exactly the grid of their character codes |
| Grids.Get | aoc/src/grid.rs:44-46 | `get(x, y)` is present exactly when `y` is a row and `x` is inside that row, and it then reads that cell |
| Grids.GetPoint | aoc/src/grid.rs:48-55 | any negative coordinate is absent; otherwise it agrees with `get`, and it is present exactly inside the buffer |
| Grids.At | aoc/src/grid.rs:74-81 | the unchecked read of an in-buffer point is the value `get_point` reports |
| Grids.Row | aoc/src/grid.rs:89-109 | row `i` has a cell `x` exactly when `get_point` finds `(x, i)`, with the same value |
| Grids.Rows | aoc/src/grid.rs:40-42 | the rows have one entry per buffer row, and every present cell is what `get` reads |
| Grids.Columns | aoc/src/grid.rs:28-38 | when every row reaches `width`: `width` columns of `height` cells, with column `x` at `y` equal to row `y` at `x` |
| Grids.Set | aoc/src/grid.rs:83-87 | writing a point sets that cell and leaves every other point and the dimensions unchanged |
| Grids.SetRow | aoc/src/grid.rs:97-115 | writing through a row slice replaces that row only, keeping its length |
| Grids.MaxRowLen | aoc/src/grid.rs:59 | the longest row length bounds every row and is attained, or is 0 for no rows |
| Grids.TransposeAsWritten | aoc/src/grid.rs:57-71 | the new buffer is the zero-padded transpose, and `width` and `height` are swapped |
| Grids.Transpose | aoc/src/grid.rs:57-69 | `maxRowLen` rows of the old row count; new `[j][i]` is old `[i][j]` where that exists, else 0; the height is the row count |
| Grids.TransposeGet | aoc/src/grid.rs:57-67 | reading the transpose at swapped coordinates gives the old cell, or the padding 0 |
| Grids.TransposeIsColumns | aoc/src/grid.rs:28-38 | on a rectangular grid the transposed buffer is the column view |
| Grids.TransposeRectangular | aoc/src/grid.rs:57-71 | a rectangular grid transposes to a rectangular grid with width and height swapped |
| Grids.TransposeTwice | aoc/src/grid.rs:57-71 | transposing a rectangular grid twice restores both the buffer and the dimensions |
| Grids.GetInRectangle | aoc/src/grid.rs:48-55 | on a rectangular grid, `get_point` succeeds exactly inside `width` by `height` |
| Grids.EmptyGrid | aoc/src/grid.rs:138-146 | the default grid has zero dimensions, no rows and no columns, and every `get` is absent |
| Grids.SquareGridExample | aoc/src/grid.rs:148-169 | the 3×3 grid "123/456/789" reads, rows and columns as the test expects |
| Grids.WideGridTranspose | aoc/src/grid.rs:171-190 | the 5×2 grid transposes to the expected 2×5 buffer and dimensions |
| Grids.IndexingExample | aoc/src/grid.rs:260-270 | indexed reads, and a read after an indexed write, give the expected bytes |
| Grids.TransposeAgrees | aoc/src/grid.rs:57-71 | on a rectangular grid the as-written transpose, with its swap of `width` and `height`, is the corrected one |
| Grids.TallGridTranspose | aoc/src/grid.rs:192-210 | the 2×4 grid "12/34/56/78" transposes to the rows `b"1357"` and `b"2468"` (bytes 49, 51, 53, 55 and 50, 52, 54, 56) with width 4 and height 2 |
| Grids.SingleRowTranspose | aoc/src/grid.rs:231-243 | the single row "abcdef" has width 6 and height 1, and transposes to six one-byte rows with width 1 and height 6 |
| Grids.SingleColumnTranspose | aoc/src/grid.rs:245-258 | the column "a/b/c" has width 1 and height 3, and transposes to the one row `abc` with width 3 and height 1 |
| Grids.JaggedTranspose | aoc/src/grid.rs:212-229 | the jagged grid "12/345/6" transposes to the zero-padded 3×3 buffer; the corrected height is 3, where the as-written swap gives 2 |
| Day1.TruncRem | 2025/src/day1.rs:14 | Rust's `%` has the sign of the dividend and a magnitude below the divisor's |
| Day1.M | 2025/src/day1.rs:11-15 | for `b > 0` the result lies in `[0, b)` and is the floored remainder of `a` |
| Day1.PythonModulusExample | 2025/src/day1.rs:11-12 | `m(-18, 100)` is 82, not Rust's -18 |
| Day1.NonNegativeRem | 2025/src/day1.rs:14 | for `a >= 0`, `((a % b) + b) % b` is `a mod b` |
| Day1.NegativeRem | 2025/src/day1.rs:14 | for `a < 0`, `((a % b) + b) % b` is `a mod b` |
| Day1.ClosedFormCounts | 2025/src/day1.rs:19-25 | the turns' closed form equals the number of clicks in `1..=steps` that land on 0 |
| Day1.LandsOnZero | 2025/src/day1.rs:19-39 | click `c` lands on 0 exactly when `c` is congruent to the distance to the first 0 |
| Day1.Left | 2025/src/day1.rs:17-28 | after a left turn the position is `(pos - s) mod 100`, in range, and the pass count has not decreased |
| Day1.LeftCounts | 2025/src/day1.rs:17-26 | a left turn adds exactly the clicks `k` in `1..=s` with `(pos - k) mod 100 == 0` |
| Day1.Right | 2025/src/day1.rs:30-41 | after a right turn the position is `(pos + s) mod 100`, in range, and the pass count has not decreased |
| Day1.RightCounts | 2025/src/day1.rs:30-39 | a right turn adds exactly the clicks `k` in `1..=s` with `(pos + k) mod 100 == 0` |
| Day1.ParseRotation | 2025/src/day1.rs:51-53 | an instruction parses exactly when its text after the letter parses as a number; otherwise it fails with that error |
| Day1.ParseRender | 2025/src/day1.rs:51-53 | a printed rotation is an instruction and parses back to itself |
| Day1.ParseAll | 2025/src/day1.rs:50-55 | the loop's parses give one rotation per line, each the parse of its line, or the first error |
| Day1.ParseAllRender | 2025/src/day1.rs:50-55 | printed rotations are all instructions and parse back to the same list |
| Day1.Turn | 2025/src/day1.rs:51-53 | one instruction moves the dial by its signed click count, modulo 100 |
| Day1.RunPosition | 2025/src/day1.rs:50-56 | after any number of turns the dial shows the start moved by the signed total, modulo 100 |
| Day1.StopSetMember | 2025/src/day1.rs:57-59 | a prefix ends on 0 exactly when its signed total brings the start to a multiple of 100 |
| Day1.StopsCounted | 2025/src/day1.rs:49-60 | the loop's count is the number of instruction prefixes after which the dial shows 0 |
| Day1.Part1 | 2025/src/day1.rs:44-63 | `part_1` fails exactly when a parse fails, with that error; otherwise it counts the prefixes that end on 0, at most one per line |
| Day1.PassesAreZeroClicks | 2025/src/day1.rs:71-79 | the final pass count is the sum over instructions of the clicks landing on 0 from each turn's start |
| Day1.Part2 | 2025/src/day1.rs:65-80 | `part_2` fails exactly when a parse fails; otherwise it counts every click over all turns that lands on 0 |
| Day1.StopsAreZeroClicks | 2025/src/day1.rs:44-80 | with no zero-length rotation, part 1's count never exceeds part 2's |
| Day1.ZeroLengthStop | 2025/src/day1.rs:19-27 | a zero-click rotation on the 0 mark counts as a stop without adding a pass |
| Day1.Example | 2025/src/day1.rs:86-125 | the example instructions give 3 for part 1 and 6 for part 2 |
| Day2.ParseRange | 2025/src/day2.rs:3-6 | a piece without `-` fails with "Invalid ID range input"; otherwise any failure is a number parse error |
| Day2.ParseRender | 2025/src/day2.rs:3-6 | a printed range has no comma and parses back to itself |
| Day2.Prep | 2025/src/day2.rs:1-8 | `prep` succeeds exactly when every comma-separated piece parses, with one range per piece in order; otherwise it fails with the error of the first piece that does not parse; a line without a comma is one piece |
| Day2.PrepRender | 2025/src/day2.rs:1-8 | `prep` of a printed non-empty list of ranges gives the list back |
| Day2.IsInvalid | 2025/src/day2.rs:27-42 | true exactly when some `k` with `1 <= k <= n/2` and `k` dividing `n` makes every chunk of `k` equal the first; false below two digits |
| Day2.RepetitionIff | 2025/src/day2.rs:27-42 | `is_invalid` holds exactly when the digits are some non-empty block written at least twice |
| Day2.HalvesRepeat | 2025/src/day2.rs:15-20 | every number with equal halves is also invalid for part 2, through `k = n/2` |
| Day2.TwoDigitFlagged | 2025/src/day2.rs:15-19 | a two-digit number has equal halves exactly when its two digits agree |
| Day2.ElevenToTwentyTwo | 2025/src/day2.rs:13-22 | in the range `11-22`, part 1 adds exactly 11 and 22 |
| Day2.SumRange | 2025/src/day2.rs:13-22 | the inner loop sums exactly the flagged numbers of `lower..=upper`, and nothing for `lower > upper` |
| Day2.Solve | 2025/src/day2.rs:44-54 | a `prep` error is returned unchanged; otherwise the result is the sum over ranges of the flagged numbers |
| Day2.Part1 | 2025/src/day2.rs:10-25 | the sum of the numbers with equal halves over the first line's ranges, or `prep`'s error |
| Day2.Part2 | 2025/src/day2.rs:44-54 | the sum of the `is_invalid` numbers over the first line's ranges, or `prep`'s error |
| Day2.TotalsOrdered | 2025/src/day2.rs:10-54 | part 1's total never exceeds part 2's |
| Day3.DigitOf | 2025/src/day3.rs:2 | `c - b'0'` is the digit value for a digit byte, and a value above 9 otherwise |
| Day3.FoldIsDecimalValue | 2025/src/day3.rs:1-3 | `chars_to_digit` of the UTF-8 bytes of a digit string is its decimal value |
| Day3.FoldAppend | 2025/src/day3.rs:1-3 | the fold of a concatenation shifts the first part by the second part's digit count |
| Day3.FoldBound | 2025/src/day3.rs:1-3 | `k` digits fold to less than `10^k` |
| Day3.PairValue | 2025/src/day3.rs:12 | the pair `(i, j)` is worth `10·d_i + d_j` |
| Day3.MaxPairUpper | 2025/src/day3.rs:10-17 | no pair `i < j` beats the line's maximum |
| Day3.MaxPairReached | 2025/src/day3.rs:10-17 | with at least two digits, some pair `i < j` attains the maximum |
| Day3.PairMaxUnique | 2025/src/day3.rs:10-17 | the pair maximum is unique |
| Day3.LineMax | 2025/src/day3.rs:9-17 | the double loop yields the maximum over all pairs `i < j`, and 0 for fewer than two digits |
| Day3.Part1 | 2025/src/day3.rs:5-22 | the sum over the non-empty lines of the pair maximum of the line's UTF-8 bytes |
| Day3.FirstMaxIsMax | 2025/src/day3.rs:32-36 | the window pick is a maximum of the window and is its first occurrence |
| Day3.WindowMax | 2025/src/day3.rs:31-36 | the strict `>` scan returns the first maximal index of `start..end` |
| Day3.Greedy | 2025/src/day3.rs:29-39 | the greedy picks `k` indices, all in `[start, n)` |
| Day3.GreedyIncreasing | 2025/src/day3.rs:29-39 | the picked indices strictly increase, so the result is a subsequence |
| Day3.PickDigits | 2025/src/day3.rs:25-39 | the loop pushes exactly the digits at the greedy's indices |
| Day3.MaxJoltage | 2025/src/day3.rs:24-42 | the value of the greedy's digits, which no length-`k` subsequence beats when the line is all digits |
| Day3.GreedyLex | 2025/src/day3.rs:29-39 | the greedy's digits are lexicographically at least those of any increasing index choice of the same length |
| Day3.GreedyOptimal | 2025/src/day3.rs:24-42 | for all-digit lines no increasing choice of `k` digits has a larger value |
| Day3.GreedyPair | 2025/src/day3.rs:5-42 | for `k = 2`, `max_joltage` equals the `part_1` maximum of the line |
| Day3.Part2 | 2025/src/day3.rs:44-50 | the sum of `max_joltage(l.as_bytes(), 12)` over the non-empty lines; each non-empty line must have at least 12 bytes in UTF-8, since a shorter one panics |
| Day4.NeighboursCount | 2025/src/day4.rs:15-18 | the neighbour count is the number of offsets that lead to a roll; off-grid cells count as none |
| Day4.AccessibleAreRolls | 2025/src/day4.rs:11-22 | accessible cells are rolls, so part 1 is at most the roll count |
| Day4.CountAccessible | 2025/src/day4.rs:7-24 | the double loop counts exactly the accessible rolls of the rectangle |
| Day4.ClearOne | 2025/src/day4.rs:49 | clearing a roll removes exactly that roll |
| Day4.ShrinksNeighbours | 2025/src/day4.rs:43-48 | clearing rolls never raises a neighbour count |
| Day4.RollsNeighbours | 2025/src/day4.rs:43-48 | a grid holding a subset of another's rolls has at most as many neighbouring rolls at every cell |
| Day4.NeighboursAgree | 2025/src/day4.rs:43-46 | grids that read alike everywhere give every cell the same neighbour count |
| Day4.Mix | 2025/src/day4.rs:35-53 | on reaching a cell, the pass sees the cells it has visited as they are now and every other cell as it was at the start of the pass |
| Day4.MixNow | 2025/src/day4.rs:39-46 | mid-pass, the grid being cleared in place gives the current cell the same accessibility as that view |
| Day4.MixAgree | 2025/src/day4.rs:39-46 | two grids that agree on the cells before `q` give `q` the same view |
| Day4.ShrinksRolls | 2025/src/day4.rs:48-50 | clearing rolls never adds a roll |
| Day4.ShrinksBetween | 2025/src/day4.rs:33-57 | of two grids cleared from `g`, the one keeping a subset of the other's rolls is cleared from the other |
| Day4.KeepsStart | 2025/src/day4.rs:33 | before any pass, the grid holds every roll of every stable grid cleared from it |
| Day4.StableIff | 2025/src/day4.rs:48-56 | a grid is stable exactly when it has no accessible roll |
| Day4.AccessibleNotStable | 2025/src/day4.rs:48 | a roll accessible in `h` is absent from every stable grid holding a subset of `h`'s rolls |
| Day4.KeepsClear | 2025/src/day4.rs:48-50 | clearing an accessible roll keeps every roll of every stable grid reachable by clearing |
| Day4.KeepsTrans | 2025/src/day4.rs:33-57 | a pass that keeps the stable rolls below its start, started from a grid that keeps those below `g`, keeps those below `g` |
| Day4.LargestStableUnique | 2025/src/day4.rs:33-57 | two largest stable grids below the same start hold the same rolls and read alike everywhere |
| Day4.SeenStep | 2025/src/day4.rs:39-51 | visiting a cell, clearing it exactly when it is accessible, extends the record that every visited cell was cleared exactly when accessible in its view |
| Day4.ClearCount | 2025/src/day4.rs:49-50 | clearing a roll adds exactly one to the removals, which stay the number of rolls gone |
| Day4.SweepKeep | 2025/src/day4.rs:43-48 | leaving a cell that is not accessible keeps the pass's invariant one cell on |
| Day4.SweepClear | 2025/src/day4.rs:48-51 | clearing an accessible cell keeps the pass's invariant one cell on, with one more removal |
| Day4.SweepRowCells | 2025/src/day4.rs:36-52 | one row of a pass keeps the pass's invariant, from the row's first cell to the next row's |
| Day4.SweepDone | 2025/src/day4.rs:35-53 | once every row is visited, no cell outside the rectangle changed, each cell was cleared exactly when accessible in its view, and every cell accessible at the start is gone |
| Day4.Sweep | 2025/src/day4.rs:35-53 | one pass only turns `@` into `.`, and only inside the rectangle; a cell is cleared exactly when it is accessible in the view the pass has on reaching it; `r` counts the cleared rolls; every cell accessible at the start is cleared; no roll of any stable grid reachable by clearing is cleared; a pass that removes nothing leaves the grid as it was |
| Day4.RemoveAll | 2025/src/day4.rs:33-57 | the loop ends, as the roll count drops each pass, at the largest stable grid reachable by clearing rolls: it is stable and keeps every roll of every such stable grid; `removed` is the number of rolls cleared, including every roll accessible at the start |
| Day4.AsWrittenTaller | aoc/src/grid.rs:17-25 | the grid `from_vec` builds is the corrected grid with its height replaced by the number of lines, which is at least the corrected height, the row count |
| Day4.AccessibleWithHeight | 2025/src/day4.rs:7-8 | a height beyond the buffer's rows does not change the accessible cells |
| Day4.StableWithHeight | 2025/src/day4.rs:35-36 | a height beyond the buffer's rows does not change stability |
| Day4.LargestWithHeight | 2025/src/day4.rs:35-36 | a height beyond the buffer's rows does not change the largest stable grid or its rolls |
| Day4.Part1 | 2025/src/day4.rs:3-27 | the number of accessible rolls, the same under the as-written and the corrected height, and at most the number of rolls |
| Day4.Part2 | 2025/src/day4.rs:29-60 | the number of rolls cleared to reach a largest stable grid, the same under either height (Day4.LargestStableUnique makes that grid unique); it lies between part 1's count and the number of rolls |
| Day5.Stop | 2025/src/day5.rs:5-17 | reading stops at the first line that is empty or has no `-` |
| Day5.Separator | 2025/src/day5.rs:5-10 | a non-zero `separator` is an empty line at which reading stopped, after only range lines |
| Day5.ParseRange | 2025/src/day5.rs:12-16 | a range line fails only with a number parse error |
| Day5.ParseRender | 2025/src/day5.rs:12-16 | a printed range is a range line and parses back to itself |
| Day5.Header | 2025/src/day5.rs:5-17 | one range per accepted line, or the first parse error |
| Day5.HeaderRanges | 2025/src/day5.rs:5-17 | each range read is the parse of its line |
| Day5.ReadRanges | 2025/src/day5.rs:5-17 | the loop returns the ranges of the accepted lines, or the first error, together with the separator |
| Day5.ReadWrittenRanges | 2025/src/day5.rs:5-17 | printed ranges followed by an empty line read back as those ranges, with the separator at the empty line |
| Day5.CountFresh | 2025/src/day5.rs:19-23 | the count of lines from the separator on that parse as an ID inside some range, at most one per line |
| Day5.Part1 | 2025/src/day5.rs:1-24 | fails exactly when a range fails to parse, with that error; otherwise it counts the fresh IDs from the separator on |
| Day5.Insert | 2025/src/day5.rs:42 | insertion adds exactly one copy of the range |
| Day5.InsertSorted | 2025/src/day5.rs:42 | inserting into a list sorted by start keeps it sorted |
| Day5.SortByStart | 2025/src/day5.rs:42 | the result is sorted by start and is a permutation of the input |
| Day5.CoveredPermutation | 2025/src/day5.rs:42 | reordering the ranges does not change which IDs they cover |
| Day5.Merge | 2025/src/day5.rs:44-55 | the merged ranges are sorted, well formed and separated by gaps, there are no more of them than inputs, and they cover exactly the inputs' IDs |
| Day5.GappedChain | 2025/src/day5.rs:44-55 | in a merged list every later range starts after every earlier one ends |
| Day5.IdsMember | 2025/src/day5.rs:57 | an ID is in the covered set exactly when some range holds it |
| Day5.GappedTotal | 2025/src/day5.rs:57 | for gapped ranges the sum of `r - l + 1` is the number of distinct covered IDs |
| Day5.Part2 | 2025/src/day5.rs:26-58 | fails exactly when a range fails to parse; otherwise it is the number of distinct IDs the ranges cover |
| Day5.ExampleCoverage | 2025/src/day5.rs:111-128 | the example ranges cover 14 distinct IDs |
| Day6.ParsedTable | 2025/src/day6.rs:4-12 | every line but the last is tokenised on whitespace and each token is parsed |
| Day6.Width | 2025/src/day6.rs:5-8 | the column count is the first row's token count |
| Day6.FillRows | 2025/src/day6.rs:4-13 | filling succeeds exactly when every token parses and no row has more tokens than columns; a failure carries some token's error |
| Day6.FillRowsColumns | 2025/src/day6.rs:10-12 | after filling, column `c` is extended by token `c` of every row, in order |
| Day6.OverflowIff | 2025/src/day6.rs:4-13 | with every token parsing, filling overflows exactly when a later row has more tokens than the first |
| Day6.FillIsColumns | 2025/src/day6.rs:4-13 | a successful fill gives exactly the columns of the parsed table |
| Day6.Apply | 2025/src/day6.rs:17-21 | `+` gives the column's sum and `*` its product |
| Day6.OpsTotalBound | 2025/src/day6.rs:15-22 | each operator's column result is at most the total |
| Day6.Part1 | 2025/src/day6.rs:1-24 | fails exactly when some number fails to parse; otherwise it is the sum over the operators of each operator applied to its column |
| Day6.Part2 | 2025/src/day6.rs:26-28 | `part2` always fails with "i give up" |
| Day6.ExampleTotal | 2025/src/day6.rs:35-43 | the example worksheet's columns and operators total 4277556 |
| Day7.SplittersMember | 2025/src/day7.rs:16 | a point is a splitter exactly when `get_point` reads `^` there |
| Day7.ContinuesStable | 2025/src/day7.rs:9-21 | drawing beams only in the current or a later row never breaks a beam that continues at an earlier cell |
| Day7.Visit | 2025/src/day7.rs:11-24 | visiting a cell only draws beams in its row; the beam continues at the cell; a hit is a `^` under a `\|` and has both side cells; the edge case is a hit whose side cell is missing |
| Day7.VisitCells | 2025/src/day7.rs:12-22 | a visit writes `\|` into exactly the cells its branch names (the cell under `S`, the cell under a beam unless it reads `^`, both sides of a `^` under a beam) and changes no other cell |
| Day7.FirstRowUntouched | 2025/src/day7.rs:13 | a cell of row 0 has no cell above, so visiting it changes nothing |
| Day7.IndexableIff | 2025/src/day7.rs:9-12 | `Indexable` holds exactly when every cell of the `width` by `height` rectangle exists, so that `grid[p]` never panics |
| Day7.HitsAreSplitters | 2025/src/day7.rs:16-19 | every hit is a splitter |
| Day7.HitFrame | 2025/src/day7.rs:12-16 | whether a cell is hit depends only on the row above it |
| Day7.DrawnFrame | 2025/src/day7.rs:13-21 | whether a beam is drawn into a cell depends only on the row above it |
| Day7.HitNow | 2025/src/day7.rs:12-16 | mid-sweep, the cell about to be visited reads as `^` under `\|` exactly when it is a hit |
| Day7.DrawnStep | 2025/src/day7.rs:13-21 | after visiting a cell, the drawn cells are those drawn before plus those the visit draws |
| Day7.SweptStep | 2025/src/day7.rs:11-24 | a visit that does not panic extends the description of the drawing by one cell, and hits exactly when the cell is a hit |
| Day7.EdgeStep | 2025/src/day7.rs:16-18 | a visit that does not panic leaves no visited hit on the edge of its row |
| Day7.HitsStep | 2025/src/day7.rs:16-19 | visiting a cell adds it to the hits exactly when it is a hit |
| Day7.SweepStep | 2025/src/day7.rs:11-24 | a visit that does not panic keeps the sweep's invariant one cell on, adding the cell to the hits and one to the count exactly when it is hit |
| Day7.VisitCell | 2025/src/day7.rs:11-24 | the loop body either keeps the sweep's invariant one cell on, or reports a hit on the edge of its row, where the side write panics |
| Day7.SweepRow | 2025/src/day7.rs:10-25 | one row of the sweep keeps the sweep's invariant to the next row, or stops at a hit on the edge of the row |
| Day7.SweepDone | 2025/src/day7.rs:9-26 | once every row is visited, every beam in the rectangle continues and the count of hits is at most the number of splitters |
| Day7.Sweep | 2025/src/day7.rs:9-26 | the grid only gains beams, in exactly the cells `Drawn` names (beams under `S`, beams under a beam that are not hits, both sides of a hit, where a hit is a `^` under a beam whose left neighbour is not a hit); the count is the number of hits, at most the number of splitters; row 0 is untouched and every beam continues; or it stops at the first hit on a row's edge |
| Day7.SweptRowsAgree | 2025/src/day7.rs:9-26 | two drawings that both meet the description agree on every row, from the top down |
| Day7.SweptUnique | 2025/src/day7.rs:9-26 | the description fixes the drawing and its hits, so the count depends only on the input |
| Day7.AsWrittenIndexable | aoc/src/grid.rs:17-25 | when every cell of the as-written rectangle exists, the corrected grid is the same grid or has an empty rectangle |
| Day7.Part1 | 2025/src/day7.rs:6-29 | when `grid[p]` reads every cell of the grid `from_vec` builds without a panic: either the count is the number of hits of the drawing, or the sweep stops at a hit on a row's edge |
| Day7.Part2 | 2025/src/day7.rs:31-33 | `part2` always answers 0 |

## Left out

- Input reading: `aoc::lines_str`, `aoc::lines_file` and every `*_real` test. The
  solvers take the lines as their argument. `aoc/src/main.rs` is CLI, file and network
  plumbing and is not part of this model.
- The `point` module is not part of this model. `Point`, `UP`, `LEFT` and `RIGHT` are
  redefined minimally. The `DIAGONAL` offset list is a parameter `dirs` of day 4,
  because its contents are defined outside the modelled files.
- Diagnostics: the `Debug` formatter of `Grid` (aoc/src/grid.rs:117-132) and `dbg!`
  (2025/src/day7.rs:27).
- Machine integers: every `usize`, `i32` and `i64` is unbounded. This leaves out:
  - overflow of sums and products (days 2, 3, 5 and 6);
  - `parse::<usize>` overflow;
  - the `as i32` casts of the grid's dimensions.
- `CharToByte` keeps the low eight bits of a character, as `as u8` does.
- Day 4 calls `Grid::from_vec(lines)` and `grid.get` with `i32` coordinates, which do
  not match the signatures in `grid.rs`. The model reads cells with `get_point`
  semantics, which agree with `get` on non-negative coordinates.
- Day3.DigitOf: in a debug build, `c - b'0'` on a byte below `'0'` panics. The model
  follows the release build, which wraps modulo 256. The optimality of
  `max_joltage` (Day3.GreedyOptimal) is stated only for lines that are all digits.
- Day1.Part1 and Day1.Part2: a line that is empty or starts with anything but `L`/`R`
  panics in the source. These are preconditions (`Playable`), stated only for the
  lines the loop reaches before a parse error.
- Day1.StopsAreZeroClicks assumes no zero-length rotation. Day1.ZeroLengthStop shows why:
  such a rotation can stop on 0 without a click landing there.
- Day2: the example answers are not evaluated. Its eleven ranges hold only 106 IDs, but
  each ID needs its digits printed and every chunk length tried, which is more
  unfolding than the verifier does unaided. The per-number tests are proved instead,
  with Day2.ElevenToTwentyTwo for the first range.
- Day3: the example totals (357 and 3121910778619) are not evaluated. The per-line
  properties that produce them are proved instead.
- Day4: the example answers are not evaluated, because the offset list is a
  parameter. Day4.RemoveAll states stability only for the `width` by `height`
  rectangle the loops visit.
- Day 4 runs on the grid with the as-written height. Day4.Part1 and Day4.Part2 are
  stated for both heights, and the two agree: no row exists past the buffer's rows.
- Day5.Part2 requires every range to have `lo <= hi`. This is stronger than the
  source, which underflows only when an inverted range survives as a merged range.
- Day5.Part1's example (3 fresh IDs) is not evaluated, but Day5.ExampleCoverage gives
  the part 2 example's 14.
- Day5: `sort_unstable_by_key` is modelled by insertion sort. The merge result does
  not depend on the order of equal starts, because the coverage is a set.
- Day6.Part1: a token that is not `+` or `*` (`unreachable!`), an operator without
  a column, and a row with more tokens than the first are preconditions (`Solvable`).
  This is because each is a panic in the source.
- Day7.Part1: the example's count (21) is not evaluated. The out-of-bounds side write
  is an `EdgeSplit` outcome rather than a precondition.
- Day7.Part1 requires that `grid[p]` reads every cell of the rectangle of the grid that
  `from_vec` builds, with its as-written height, because a missing cell is a panic.
  Under that requirement the sweep runs on the corrected grid. Day7.AsWrittenIndexable
  shows that the two grids are then equal, or that both rectangles are empty.

## Findings

| source | as written | input that shows it | evidently intended | confidence | as-written member | corrected member |
|---|---|---|---|---|---|---|
| aoc/src/grid.rs:18 | `height` is the number of lines, counting empty lines that the buffer drops | the lines of `"\n12\n\n34\n"`: height 4, but two rows | `height` is the number of retained rows (the test at aoc/src/grid.rs:272-279 expects 2) | not executed | Grids.FromVecAsWritten | Grids.FromVec |
| aoc/src/grid.rs:70 | `transpose` swaps `width` and `height`, so on a jagged grid the new height is the old width | `["12", "345", "6"]`: the new buffer has 3 rows, but the height is 2 | the new height is the new row count, the longest old row (the test at aoc/src/grid.rs:212-229 expects 3) | not executed | Grids.TransposeAsWritten | Grids.Transpose |

Grids.ParseEmptyLinesText and Grids.JaggedTranspose exhibit each discrepancy. The rest of
the model builds grids with the corrected `Grids.FromVec` and `Grids.Transpose`. Days 4
and 7 are also tied back to the as-written grid (see "Left out").
